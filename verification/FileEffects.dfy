/** What registering files does, told from the files and the matcher's answers (myapp/blueprints/api.py). */
module FileEffects {
  import opened Options
  import opened FileListing
  import opened FileResubmission
  import opened FileRegistration

  // ---- Which records count ----

  lemma IncomingOfOne(r: Record)
    ensures Incoming([r]) == if r.path.Some? && r.filename.Some? then [File(r.path.value, r.parent)] else []
  {
    assert [r][1..] == [];
  }

  /** Records are taken one by one, in order. */
  lemma {:induction false} IncomingAppends(a: seq<Record>, b: seq<Record>)
    ensures Incoming(a + b) == Incoming(a) + Incoming(b)
  {
    if a == [] {
      assert a + b == b;
    } else {
      assert (a + b)[1..] == a[1..] + b;
      IncomingAppends(a[1..], b);
    }
  }

  // ---- Where a file is listed ----

  predicate BelowArchive(rows: map<FileId, Row>, file: File) {
    file.parent.Some? && file.parent.value in rows && rows[file.parent.value].isArchive
  }

  /** Below its archive, with its own path once; by its own path when it comes from none. */
  lemma ListedWhere(rows: map<FileId, Row>, file: File)
    ensures var path := NestedPath(rows, file);
      && (!BelowArchive(rows, file) ==> path == file.path)
      && (BelowArchive(rows, file) ==>
            var folder := rows[file.parent.value].path + "/";
            && folder <= path
            && (folder <= file.path ==> path == file.path)
            && (!(folder <= file.path) ==> path[|folder|..] == file.path))
  {
  }

  /** The column holds the path, or its first thousand characters. */
  predicate Holds(column: string, path: string) {
    column <= path && |column| == if |path| <= 1000 then |path| else 1000
  }

  // ---- What a batch adds ----

  /** The path is not stored in the partition, and no earlier file of the batch has it. */
  ghost predicate IsNew(s: Store, pid: PartitionId, files: seq<File>, i: nat)
    requires i < |files|
  {
    && (forall id <- s.rows :: s.rows[id].partition == pid ==> s.rows[id].path != NestedPath(s.rows, files[i]))
    && (forall j: nat | j < i :: NestedPath(s.rows, files[j]) != NestedPath(s.rows, files[i]))
  }

  /** The new files among the first `n`, ascending. */
  ghost function NewFiles(s: Store, pid: PartitionId, files: seq<File>, n: nat): (picked: seq<nat>)
    requires n <= |files|
    ensures forall k | 0 <= k < |picked| :: picked[k] < n
  {
    if n == 0 then []
    else if IsNew(s, pid, files, n - 1) then NewFiles(s, pid, files, n - 1) + [n - 1]
    else NewFiles(s, pid, files, n - 1)
  }

  /** All of them, each once. */
  lemma {:induction false} NewFilesAre(s: Store, pid: PartitionId, files: seq<File>, n: nat)
    requires n <= |files|
    ensures forall i: nat | i < n :: i in NewFiles(s, pid, files, n) <==> IsNew(s, pid, files, i)
    ensures forall j, k | 0 <= j < k < |NewFiles(s, pid, files, n)| ::
              NewFiles(s, pid, files, n)[j] < NewFiles(s, pid, files, n)[k]
  {
    if n > 0 { NewFilesAre(s, pid, files, n - 1); }
  }

  /** The new row of file `i`. */
  ghost predicate IsRowOf(s: Store, pid: PartitionId, files: seq<File>, known: seq<Option<nat>>, i: nat, row: Row)
    requires i < |files| == |known|
  {
    row.partition == pid && Holds(row.path, NestedPath(s.rows, files[i])) && row.known == known[i] && !row.isArchive
  }

  /** Old rows stay; each new file gets the next id, with its own match; nothing else is added. */
  ghost predicate RowsAdded(s: Store, t: Store, pid: PartitionId, files: seq<File>, known: seq<Option<nat>>)
    requires |known| == |files|
  {
    var picked := NewFiles(s, pid, files, |files|);
    && t.nextId == s.nextId + |picked|
    && (forall id <- s.rows :: id in t.rows && t.rows[id] == s.rows[id])
    && (forall id <- t.rows :: id in s.rows || s.nextId <= id < t.nextId)
    && (forall k | 0 <= k < |picked| ::
          s.nextId + k in t.rows && IsRowOf(s, pid, files, known, picked[k], t.rows[s.nextId + k]))
  }

  /** The new files among the first `n` that the matcher does not know. */
  ghost function Unknown(s: Store, pid: PartitionId, files: seq<File>, known: seq<Option<nat>>, n: nat): set<nat>
    requires n <= |files| == |known|
  {
    set i: nat | i < n && IsNew(s, pid, files, i) && known[i].None?
  }

  function CountOf(count: Option<nat>): nat {
    match count
    case None => 0
    case Some(n) => n
  }

  /** The counters of this partition move so, and nothing else of any partition. */
  ghost predicate MovesBy(s: Store, t: Store, pid: PartitionId, total: nat, unique: nat)
    requires pid in s.partitions
  {
    && t.partitions.Keys == s.partitions.Keys && t.nextPartition == s.nextPartition
    && (forall other <- s.partitions :: other != pid ==> t.partitions[other] == s.partitions[other])
    && t.partitions[pid].artefact == s.partitions[pid].artefact && t.partitions[pid].index == s.partitions[pid].index
    && t.partitions[pid].totalFiles == Some(CountOf(s.partitions[pid].totalFiles) + total)
    && t.partitions[pid].uniqueFiles == Some(CountOf(s.partitions[pid].uniqueFiles) + unique)
  }

  /** They move by the new files, and by those of them that are unknown. */
  ghost predicate Counts(s: Store, t: Store, pid: PartitionId, files: seq<File>, known: seq<Option<nat>>)
    requires |known| == |files| && pid in s.partitions
  {
    MovesBy(s, t, pid, |NewFiles(s, pid, files, |files|)|, |Unknown(s, pid, files, known, |files|)|)
  }

  // ---- It does ----

  function Pick(cs: seq<Candidate>, indices: seq<nat>): seq<Candidate>
    requires forall k | 0 <= k < |indices| :: indices[k] < |cs|
  {
    seq(|indices|, k requires 0 <= k < |indices| => cs[indices[k]])
  }

  lemma NewIff(s: Store, pid: PartitionId, files: seq<File>, known: seq<Option<nat>>, i: nat)
    requires i < |files| == |known|
    ensures var cs := Candidates(s.rows, files, known);
      IsNew(s, pid, files, i) <==> cs[i].path !in StoredPaths(s.rows, pid) && !HasPath(cs[..i], cs[i].path)
  {
    var cs := Candidates(s.rows, files, known);
    if HasPath(cs[..i], cs[i].path) {
      var c :| c in cs[..i] && c.path == cs[i].path;
      var j :| 0 <= j < i && cs[..i][j] == c;
      assert NestedPath(s.rows, files[j]) == NestedPath(s.rows, files[i]);
    }
    if j: nat :| j < i && NestedPath(s.rows, files[j]) == NestedPath(s.rows, files[i]) {
      assert cs[..i][j].path == cs[i].path && cs[..i][j] in cs[..i];
    }
    if cs[i].path in StoredPaths(s.rows, pid) {
      var id :| id in RowsOf(s.rows, pid) && s.rows[id].path == cs[i].path;
    }
    if id :| id in s.rows && s.rows[id].partition == pid && s.rows[id].path == cs[i].path {
      assert id in RowsOf(s.rows, pid);
    }
  }

  lemma OneMore(cs: seq<Candidate>, stored: set<string>, indices: seq<nat>, n: nat)
    requires 0 < n <= |cs| && forall k | 0 <= k < |indices| :: indices[k] < |cs|
    requires NewOnes(cs[..n - 1], stored) == Pick(cs, indices)
    ensures var c := cs[n - 1];
      NewOnes(cs[..n], stored)
      == if c.path !in stored && !HasPath(cs[..n - 1], c.path) then Pick(cs, indices + [n - 1]) else Pick(cs, indices)
  {
    assert cs[..n][..n - 1] == cs[..n - 1];
    assert Pick(cs, indices + [n - 1]) == Pick(cs, indices) + [cs[n - 1]];
  }

  lemma {:induction false} NewOnesArePicked(s: Store, pid: PartitionId, files: seq<File>,
                                            known: seq<Option<nat>>, n: nat)
    requires n <= |files| == |known|
    ensures var cs := Candidates(s.rows, files, known);
      NewOnes(cs[..n], StoredPaths(s.rows, pid)) == Pick(cs, NewFiles(s, pid, files, n))
  {
    if n > 0 {
      NewOnesArePicked(s, pid, files, known, n - 1);
      NewIff(s, pid, files, known, n - 1);
      OneMore(Candidates(s.rows, files, known), StoredPaths(s.rows, pid), NewFiles(s, pid, files, n - 1), n);
    }
  }

  lemma RowIs(s: Store, pid: PartitionId, files: seq<File>, known: seq<Option<nat>>, i: nat)
    requires i < |files| == |known|
    ensures IsRowOf(s, pid, files, known, i, NewRow(pid, Candidates(s.rows, files, known)[i]))
  {
  }

  /** The candidates that the guard lets through are those of the new files. */
  lemma AddedAre(s: Store, pid: PartitionId, files: seq<File>, known: seq<Option<nat>>)
    requires |known| == |files|
    ensures var cs := Candidates(s.rows, files, known);
      NewOnes(cs, StoredPaths(s.rows, pid)) == Pick(cs, NewFiles(s, pid, files, |files|))
  {
    var cs := Candidates(s.rows, files, known);
    NewOnesArePicked(s, pid, files, known, |files|);
    assert cs[..|files|] == cs;
  }

  lemma PickedRow(s: Store, t: Store, pid: PartitionId, files: seq<File>, known: seq<Option<nat>>,
                  added: seq<Candidate>, k: nat)
    requires |known| == |files| && k < |NewFiles(s, pid, files, |files|)|
    requires added == Pick(Candidates(s.rows, files, known), NewFiles(s, pid, files, |files|))
    requires Extends(s.rows, t.rows, s.nextId, pid, added)
    ensures var i := NewFiles(s, pid, files, |files|)[k];
      s.nextId + k in t.rows && IsRowOf(s, pid, files, known, i, t.rows[s.nextId + k])
  {
    var i := NewFiles(s, pid, files, |files|)[k];
    assert t.rows[s.nextId + k] == NewRow(pid, added[k]);
    RowIs(s, pid, files, known, i);
  }

  /** A batch adds the rows it should. */
  lemma BatchAdds(s: Store, pid: PartitionId, files: seq<File>, known: seq<Option<nat>>)
    requires Valid(s) && pid in s.partitions && |known| == |files|
    ensures RowsAdded(s, AddBatch(s, pid, Candidates(s.rows, files, known)), pid, files, known)
  {
    var cs := Candidates(s.rows, files, known);
    var t := AddBatch(s, pid, cs);
    AddedAre(s, pid, files, known);
    var added := NewOnes(cs, StoredPaths(s.rows, pid));
    InsertExtends(s.rows, s.nextId, pid, added);
    forall k | 0 <= k < |added|
      ensures var i := NewFiles(s, pid, files, |files|)[k];
        s.nextId + k in t.rows && IsRowOf(s, pid, files, known, i, t.rows[s.nextId + k])
    {
      PickedRow(s, t, pid, files, known, added, k);
    }
  }

  lemma PickOneMore(cs: seq<Candidate>, indices: seq<nat>, i: nat)
    requires (forall k | 0 <= k < |indices| :: indices[k] < |cs|) && i < |cs|
    ensures CountUnknown(Pick(cs, indices + [i]))
         == CountUnknown(Pick(cs, indices)) + if cs[i].known.None? then 1 else 0
  {
    var more := Pick(cs, indices + [i]);
    assert more[..|more| - 1] == Pick(cs, indices);
  }

  lemma UnknownNext(s: Store, pid: PartitionId, files: seq<File>, known: seq<Option<nat>>, n: nat)
    requires 0 < n <= |files| == |known|
    ensures |Unknown(s, pid, files, known, n)|
         == |Unknown(s, pid, files, known, n - 1)|
            + if IsNew(s, pid, files, n - 1) && known[n - 1].None? then 1 else 0
  {
    var one := if IsNew(s, pid, files, n - 1) && known[n - 1].None? then {n - 1} else {};
    assert Unknown(s, pid, files, known, n) == Unknown(s, pid, files, known, n - 1) + one;
  }

  lemma CountNextPicked(s: Store, pid: PartitionId, files: seq<File>, known: seq<Option<nat>>,
                        cs: seq<Candidate>, n: nat)
    requires 0 < n <= |files| == |known| == |cs| && cs[n - 1].known == known[n - 1]
    requires CountUnknown(Pick(cs, NewFiles(s, pid, files, n - 1))) == |Unknown(s, pid, files, known, n - 1)|
    ensures CountUnknown(Pick(cs, NewFiles(s, pid, files, n))) == |Unknown(s, pid, files, known, n)|
  {
    UnknownNext(s, pid, files, known, n);
    if IsNew(s, pid, files, n - 1) {
      PickOneMore(cs, NewFiles(s, pid, files, n - 1), n - 1);
      assert NewFiles(s, pid, files, n) == NewFiles(s, pid, files, n - 1) + [n - 1];
    }
  }

  lemma {:induction false} CountPicked(s: Store, pid: PartitionId, files: seq<File>, known: seq<Option<nat>>,
                                       cs: seq<Candidate>, n: nat)
    requires n <= |files| == |known| == |cs| && forall i | 0 <= i < |cs| :: cs[i].known == known[i]
    ensures CountUnknown(Pick(cs, NewFiles(s, pid, files, n))) == |Unknown(s, pid, files, known, n)|
  {
    if n > 0 {
      CountPicked(s, pid, files, known, cs, n - 1);
      CountNextPicked(s, pid, files, known, cs, n);
    } else {
      assert Unknown(s, pid, files, known, 0) == {};
    }
  }

  lemma BatchMoves(s: Store, pid: PartitionId, cs: seq<Candidate>)
    requires pid in s.partitions
    ensures var added := NewOnes(cs, StoredPaths(s.rows, pid));
      MovesBy(s, AddBatch(s, pid, cs), pid, |added|, CountUnknown(added))
  {
  }

  /** And counts them. */
  lemma BatchCounts(s: Store, pid: PartitionId, files: seq<File>, known: seq<Option<nat>>)
    requires pid in s.partitions && |known| == |files|
    ensures Counts(s, AddBatch(s, pid, Candidates(s.rows, files, known)), pid, files, known)
  {
    BatchMoves(s, pid, Candidates(s.rows, files, known));
    AddedAre(s, pid, files, known);
    CountPicked(s, pid, files, known, Candidates(s.rows, files, known), |files|);
  }

  // ---- What the worker is told ----

  ghost predicate IsStored(s: Store, pid: PartitionId, path: string) {
    exists id <- s.rows :: s.rows[id].partition == pid && s.rows[id].path == path
  }

  /** By the path it was sent under, each file is answered with a row stored under its path, or with its own new row. */
  ghost predicate AnswersFiles(s: Store, t: Store, pid: PartitionId, files: seq<File>, known: seq<Option<nat>>,
                               ids: map<string, FileId>)
    requires |known| == |files|
  {
    forall i: nat | i < |files| :: AnswersOne(s, t, pid, files, known, ids, i)
  }

  ghost predicate AnswersOne(s: Store, t: Store, pid: PartitionId, files: seq<File>, known: seq<Option<nat>>,
                             ids: map<string, FileId>, i: nat)
    requires i < |files| == |known|
  {
    var sent, path := files[i].path, NestedPath(s.rows, files[i]);
    && (sent in ids <==> IsStored(s, pid, path) || IsNew(s, pid, files, i))
    && (sent in ids && IsStored(s, pid, path) ==>
          ids[sent] in s.rows && s.rows[ids[sent]].partition == pid && s.rows[ids[sent]].path == path)
    && (sent in ids && IsNew(s, pid, files, i) ==>
          ids[sent] in t.rows && ids[sent] !in s.rows && IsRowOf(s, pid, files, known, i, t.rows[ids[sent]]))
  }

  lemma StoredIff(s: Store, pid: PartitionId, path: string)
    ensures IsStored(s, pid, path) <==> path in StoredPaths(s.rows, pid)
  {
    if id :| id in s.rows && s.rows[id].partition == pid && s.rows[id].path == path {
      assert id in RowsOf(s.rows, pid);
    }
  }

  lemma InAddedIff(s: Store, pid: PartitionId, files: seq<File>, known: seq<Option<nat>>, i: nat)
    requires i < |files| == |known| && DistinctSent(Candidates(s.rows, files, known))
    ensures var cs := Candidates(s.rows, files, known);
      cs[i] in NewOnes(cs, StoredPaths(s.rows, pid)) <==> IsNew(s, pid, files, i)
  {
    var cs, indices := Candidates(s.rows, files, known), NewFiles(s, pid, files, |files|);
    AddedAre(s, pid, files, known);
    NewFilesAre(s, pid, files, |files|);
    var added := Pick(cs, indices);
    if IsNew(s, pid, files, i) {
      var k :| 0 <= k < |indices| && indices[k] == i;
      assert added[k] == cs[i];
    }
    if cs[i] in added {
      var k :| 0 <= k < |added| && added[k] == cs[i];
      assert cs[indices[k]].sent == cs[i].sent;
      assert indices[k] == i;
    }
  }

  /** Candidate `i`, in the terms of AnswerAt. */
  lemma AnswerOf(s: Store, pid: PartitionId, files: seq<File>, known: seq<Option<nat>>, existing: map<string, FileId>,
                 i: nat)
    requires i < |files| == |known| && IsLookup(s.rows, pid, existing)
    requires DistinctSent(Candidates(s.rows, files, known))
    ensures var cs := Candidates(s.rows, files, known);
      var ids := Answer(s, pid, cs, existing);
      var sent, path := files[i].path, NestedPath(s.rows, files[i]);
      && (sent in ids <==> path in existing || cs[i] in NewOf(s, pid, cs))
      && (path in existing ==> ids[sent] == existing[path])
      && (path !in existing && sent in ids ==>
            exists k :: 0 <= k < |NewOf(s, pid, cs)| && NewOf(s, pid, cs)[k] == cs[i] && ids[sent] == s.nextId + k)
  {
    var cs := Candidates(s.rows, files, known);
    AnswerAt(s, pid, cs, existing, cs[i]);
  }

  lemma AddedRow(s: Store, pid: PartitionId, files: seq<File>, known: seq<Option<nat>>, i: nat, k: nat)
    requires Valid(s) && pid in s.partitions && i < |files| == |known|
    requires var cs := Candidates(s.rows, files, known); k < |NewOf(s, pid, cs)| && NewOf(s, pid, cs)[k] == cs[i]
    ensures var t := AddBatch(s, pid, Candidates(s.rows, files, known));
      var id := s.nextId + k;
      id in t.rows && id !in s.rows && IsRowOf(s, pid, files, known, i, t.rows[id])
  {
    var cs := Candidates(s.rows, files, known);
    InsertExtends(s.rows, s.nextId, pid, NewOf(s, pid, cs));
    assert AddBatch(s, pid, cs).rows[s.nextId + k] == NewRow(pid, cs[i]);
    RowIs(s, pid, files, known, i);
  }

  lemma AnswersFile(s: Store, pid: PartitionId, files: seq<File>, known: seq<Option<nat>>,
                    existing: map<string, FileId>, i: nat)
    requires Valid(s) && pid in s.partitions && i < |files| == |known| && IsLookup(s.rows, pid, existing)
    requires DistinctSent(Candidates(s.rows, files, known))
    ensures var cs := Candidates(s.rows, files, known);
      AnswersOne(s, AddBatch(s, pid, cs), pid, files, known, Answer(s, pid, cs, existing), i)
  {
    var cs := Candidates(s.rows, files, known);
    AnswerOf(s, pid, files, known, existing, i);
    StoredIff(s, pid, cs[i].path);
    InAddedIff(s, pid, files, known, i);
    NewIff(s, pid, files, known, i);
    if IsNew(s, pid, files, i) {
      var k :| 0 <= k < |NewOf(s, pid, cs)| && NewOf(s, pid, cs)[k] == cs[i]
               && Answer(s, pid, cs, existing)[files[i].path] == s.nextId + k;
      AddedRow(s, pid, files, known, i, k);
    }
  }

  ghost predicate SentApart(files: seq<File>) {
    forall i, j | 0 <= i < j < |files| :: files[i].path != files[j].path
  }

  /** Files sent under different paths are answered each with their own row. */
  lemma BatchAnswers(s: Store, pid: PartitionId, files: seq<File>, known: seq<Option<nat>>,
                     existing: map<string, FileId>)
    requires Valid(s) && pid in s.partitions && |files| == |known| && IsLookup(s.rows, pid, existing)
    requires SentApart(files)
    ensures var cs := Candidates(s.rows, files, known);
      AnswersFiles(s, AddBatch(s, pid, cs), pid, files, known, Answer(s, pid, cs, existing))
  {
    forall i: nat | i < |files| {
      AnswersFile(s, pid, files, known, existing, i);
    }
  }

  // ---- Registering a partition, and finding an archive ----

  /** Every partition of this artefact and index is gone with its rows, and there is a fresh one. */
  ghost predicate Replaces(s: Store, t: Store, artefact: nat, index: nat) {
    && s.nextPartition in t.partitions && t.partitions[s.nextPartition] == Partition(artefact, index, None, None)
    && t.nextPartition == s.nextPartition + 1 && t.nextId == s.nextId
    && (forall p: PartitionId | p != s.nextPartition ::
          p in t.partitions <==>
          p in s.partitions && (s.partitions[p].artefact != artefact || s.partitions[p].index != index))
    && (forall p <- t.partitions | p != s.nextPartition :: t.partitions[p] == s.partitions[p])
    && (forall id: FileId :: id in t.rows <==> id in s.rows && s.rows[id].partition in t.partitions)
    && (forall id <- t.rows :: t.rows[id] == s.rows[id])
  }

  lemma RegisterReplaces(s: Store, artefact: nat, index: nat)
    requires Valid(s)
    ensures Replaces(s, AddPartition(s, artefact, index), artefact, index)
  {
  }

  /** Only the flag of that row changes. */
  lemma FoundArchiveMarks(s: Store, id: FileId)
    ensures var t := Apply(s, FoundArchive(id));
      && t.partitions == s.partitions && t.nextId == s.nextId && t.nextPartition == s.nextPartition
      && t.rows.Keys == s.rows.Keys
      && (forall other <- s.rows | other != id :: t.rows[other] == s.rows[other])
      && (id in s.rows ==>
            && t.rows[id].isArchive && t.rows[id].path == s.rows[id].path
            && t.rows[id].partition == s.rows[id].partition && t.rows[id].known == s.rows[id].known)
  {
  }
}
