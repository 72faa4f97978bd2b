/** The ids that a batch is answered with (myapp/blueprints/api.py). */
module FileRegistration {
  import opened Options
  import opened FileListing
  import opened FileResubmission

  /** existing_id_by_path: some row for every path that is stored; truncated paths may have several. */
  ghost predicate IsLookup(rows: map<FileId, Row>, pid: PartitionId, existing: map<string, FileId>) {
    && existing.Keys == StoredPaths(rows, pid)
    && (forall path <- existing :: existing[path] in RowsOf(rows, pid) && rows[existing[path]].path == path)
  }

  /** Ids of rows that were there, by the path the worker sent. */
  function OldIds(cs: seq<Candidate>, existing: map<string, FileId>): map<string, FileId> {
    if cs == [] then map[]
    else
      var before, c := OldIds(cs[..|cs| - 1], existing), cs[|cs| - 1];
      if c.path in existing then before[c.sent := existing[c.path]] else before
  }

  /** Ids of the rows a batch created. */
  function NewIds(added: seq<Candidate>, next: FileId): map<string, FileId> {
    if added == [] then map[]
    else NewIds(added[..|added| - 1], next)[added[|added| - 1].sent := next + |added| - 1]
  }

  /** What the worker is told; a created row's id wins over that of an old one sent under the same path. */
  function Answer(s: Store, pid: PartitionId, cs: seq<Candidate>, existing: map<string, FileId>): map<string, FileId> {
    OldIds(cs, existing) + NewIds(NewOf(s, pid, cs), s.nextId)
  }

  // ---- The answer to a batch ----

  ghost predicate DistinctSent(cs: seq<Candidate>) {
    forall i, j | 0 <= i < j < |cs| :: cs[i].sent != cs[j].sent
  }

  lemma {:induction false} OldIdsAt(cs: seq<Candidate>, existing: map<string, FileId>, i: nat)
    requires DistinctSent(cs) && i < |cs|
    ensures cs[i].sent in OldIds(cs, existing) <==> cs[i].path in existing
    ensures cs[i].path in existing ==> OldIds(cs, existing)[cs[i].sent] == existing[cs[i].path]
    decreases |cs|
  {
    var init := cs[..|cs| - 1];
    if i < |init| {
      OldIdsAt(init, existing, i);
    } else {
      OldIdsKeys(init, existing);
    }
  }

  lemma {:induction false} OldIdsKeys(cs: seq<Candidate>, existing: map<string, FileId>)
    ensures forall sent <- OldIds(cs, existing) :: exists i :: 0 <= i < |cs| && cs[i].sent == sent
    decreases |cs|
  {
    if cs != [] {
      var init := cs[..|cs| - 1];
      OldIdsKeys(init, existing);
      forall sent <- OldIds(cs, existing) ensures exists i :: 0 <= i < |cs| && cs[i].sent == sent {
        if sent in OldIds(init, existing) {
          var i :| 0 <= i < |init| && init[i].sent == sent;
          assert cs[i].sent == sent;
        } else {
          assert cs[|cs| - 1].sent == sent;
        }
      }
    }
  }

  lemma {:induction false} NewIdsAt(added: seq<Candidate>, next: FileId, sent: string)
    ensures sent in NewIds(added, next) <==> exists k :: 0 <= k < |added| && added[k].sent == sent
    ensures sent in NewIds(added, next) ==>
            exists k :: 0 <= k < |added| && added[k].sent == sent && NewIds(added, next)[sent] == next + k
    decreases |added|
  {
    if added != [] {
      var init := added[..|added| - 1];
      NewIdsAt(init, next, sent);
      if added[|added| - 1].sent == sent {
        assert NewIds(added, next)[sent] == next + (|added| - 1);
      } else if sent in NewIds(init, next) {
        var k :| 0 <= k < |init| && init[k].sent == sent && NewIds(init, next)[sent] == next + k;
        assert added[k].sent == sent;
      } else if k :| 0 <= k < |added| && added[k].sent == sent {
        assert init[k].sent == sent;
      }
    }
  }

  lemma OneCandidate(cs: seq<Candidate>, c: Candidate, d: Candidate)
    requires DistinctSent(cs) && c in cs && d in cs && c.sent == d.sent
    ensures c == d
  {
  }

  /**
    A candidate is answered with its old row, with its new row, or not at all when
    an earlier one of the batch took its path.
   */
  lemma AnswerAt(s: Store, pid: PartitionId, cs: seq<Candidate>, existing: map<string, FileId>, c: Candidate)
    requires DistinctSent(cs) && IsLookup(s.rows, pid, existing) && c in cs
    ensures var ids := Answer(s, pid, cs, existing);
      && (c.sent in ids <==> c.path in existing || c in NewOf(s, pid, cs))
      && (c.path in existing ==> ids[c.sent] == existing[c.path])
      && (c.path !in existing && c.sent in ids ==>
            exists k :: 0 <= k < |NewOf(s, pid, cs)| && NewOf(s, pid, cs)[k] == c && ids[c.sent] == s.nextId + k)
  {
    var added := NewOf(s, pid, cs);
    var i :| 0 <= i < |cs| && cs[i] == c;
    OldIdsAt(cs, existing, i);
    NewIdsAt(added, s.nextId, c.sent);
    NewOnesAre(cs, StoredPaths(s.rows, pid));
    forall k | 0 <= k < |added| && added[k].sent == c.sent ensures added[k] == c {
      OneCandidate(cs, c, added[k]);
    }
  }

  lemma AnswerKeys(s: Store, pid: PartitionId, cs: seq<Candidate>, existing: map<string, FileId>)
    ensures forall sent <- Answer(s, pid, cs, existing) :: exists i :: 0 <= i < |cs| && cs[i].sent == sent
  {
    OldIdsKeys(cs, existing);
    NewOnesAre(cs, StoredPaths(s.rows, pid));
    var added := NewOf(s, pid, cs);
    forall sent <- NewIds(added, s.nextId) ensures exists i :: 0 <= i < |cs| && cs[i].sent == sent {
      NewIdsAt(added, s.nextId, sent);
      var k :| 0 <= k < |added| && added[k].sent == sent;
      assert added[k] in added && added[k] in cs;
    }
  }

  // ---- The answer to a batch sent twice ----

  /** The same files, sent and listed under the same paths. */
  ghost predicate Alike(cs: seq<Candidate>, ds: seq<Candidate>) {
    |cs| == |ds| && forall i | 0 <= i < |cs| :: cs[i].sent == ds[i].sent && cs[i].path == ds[i].path
  }

  /** Every file sent is new or stored already; none repeats a path that an earlier one of its batch takes. */
  ghost predicate NoneRepeats(s: Store, pid: PartitionId, cs: seq<Candidate>) {
    forall c <- cs :: c.path in StoredPaths(s.rows, pid) || c in NewOf(s, pid, cs)
  }

  /** Two ids of one path in a partition without duplicates are one. */
  lemma OneId(rows: map<FileId, Row>, pid: PartitionId, existing: map<string, FileId>, id: FileId)
    requires DistinctPaths(rows, pid) && IsLookup(rows, pid, existing) && id in RowsOf(rows, pid)
    ensures rows[id].path in existing && existing[rows[id].path] == id
  {
    assert rows[id].path in StoredPaths(rows, pid);
  }

  lemma OldRowAlike(s: Store, pid: PartitionId, cs: seq<Candidate>, first: map<string, FileId>,
                    second: map<string, FileId>, path: string)
    requires Valid(s) && pid in s.partitions && path in first && DistinctPaths(AddBatch(s, pid, cs).rows, pid)
    requires IsLookup(s.rows, pid, first) && IsLookup(AddBatch(s, pid, cs).rows, pid, second)
    ensures path in second && second[path] == first[path]
  {
    BatchExtends(s, pid, cs);
    OneId(AddBatch(s, pid, cs).rows, pid, second, first[path]);
  }

  lemma NewRowAlike(s: Store, pid: PartitionId, cs: seq<Candidate>, second: map<string, FileId>, k: nat)
    requires Valid(s) && pid in s.partitions && k < |NewOf(s, pid, cs)| && |NewOf(s, pid, cs)[k].path| <= PATH_WIDTH
    requires DistinctPaths(AddBatch(s, pid, cs).rows, pid) && IsLookup(AddBatch(s, pid, cs).rows, pid, second)
    ensures var path := NewOf(s, pid, cs)[k].path; path in second && second[path] == s.nextId + k
  {
    BatchExtends(s, pid, cs);
    AddedPath(s.rows, AddBatch(s, pid, cs).rows, s.nextId, pid, NewOf(s, pid, cs), k);
    OneId(AddBatch(s, pid, cs).rows, pid, second, s.nextId + k);
  }

  /** Once a batch is in, a lookup knows every candidate that the first answer named, by the same id. */
  lemma NamedAlike(s: Store, pid: PartitionId, cs: seq<Candidate>, first: map<string, FileId>,
                   second: map<string, FileId>, c: Candidate)
    requires Valid(s) && pid in s.partitions && c in cs && DistinctSent(cs) && AllShort(cs)
             && DistinctPaths(s.rows, pid)
    requires IsLookup(s.rows, pid, first) && IsLookup(AddBatch(s, pid, cs).rows, pid, second)
    requires c.sent in Answer(s, pid, cs, first)
    ensures c.path in second && Answer(s, pid, cs, first)[c.sent] == second[c.path]
  {
    ShortKeepsDistinct(s, pid, cs);
    AnswerAt(s, pid, cs, first, c);
    if c.path in first {
      OldRowAlike(s, pid, cs, first, second, c.path);
    } else {
      var k :| 0 <= k < |NewOf(s, pid, cs)| && NewOf(s, pid, cs)[k] == c
        && Answer(s, pid, cs, first)[c.sent] == s.nextId + k;
      NewRowAlike(s, pid, cs, second, k);
    }
  }

  /** The second answer names every candidate. */
  lemma SecondAnswer(t: Store, pid: PartitionId, ds: seq<Candidate>, second: map<string, FileId>, d: Candidate)
    requires DistinctSent(ds) && IsLookup(t.rows, pid, second) && d in ds && d.path in second
    ensures d.sent in Answer(t, pid, ds, second) && Answer(t, pid, ds, second)[d.sent] == second[d.path]
  {
    AnswerAt(t, pid, ds, second, d);
  }

  lemma SameAnswerIff(cs: seq<Candidate>, one: map<string, FileId>, two: map<string, FileId>)
    requires forall sent <- one.Keys + two.Keys :: exists i :: 0 <= i < |cs| && cs[i].sent == sent
    requires forall c <- cs :: c.sent in two && (c.sent in one ==> one[c.sent] == two[c.sent])
    ensures one == two <==> forall c <- cs :: c.sent in one
  {
    if forall c <- cs :: c.sent in one {
      forall sent <- one.Keys + two.Keys ensures sent in one && sent in two && one[sent] == two[sent] {
        var i :| 0 <= i < |cs| && cs[i].sent == sent;
        assert cs[i] in cs;
      }
      assert one.Keys == two.Keys;
    }
  }

  lemma BothAnswers(s: Store, pid: PartitionId, cs: seq<Candidate>, ds: seq<Candidate>, first: map<string, FileId>,
                    second: map<string, FileId>, i: nat)
    requires Valid(s) && pid in s.partitions && Alike(cs, ds) && i < |cs|
    requires DistinctSent(cs) && AllShort(cs) && DistinctPaths(s.rows, pid)
    requires IsLookup(s.rows, pid, first) && IsLookup(AddBatch(s, pid, cs).rows, pid, second)
    ensures var one, two := Answer(s, pid, cs, first), Answer(AddBatch(s, pid, cs), pid, ds, second);
      && cs[i].sent in two && (cs[i].sent in one ==> one[cs[i].sent] == two[cs[i].sent])
      && (cs[i].sent in one <==> cs[i].path in StoredPaths(s.rows, pid) || cs[i] in NewOf(s, pid, cs))
  {
    assert cs[i] in cs && ds[i] in ds;
    AnswerAt(s, pid, cs, first, cs[i]);
    StoredAfter(s, pid, cs, cs[i]);
    SecondAnswer(AddBatch(s, pid, cs), pid, ds, second, ds[i]);
    if cs[i].sent in Answer(s, pid, cs, first) { NamedAlike(s, pid, cs, first, second, cs[i]); }
  }

  /**
    With short and distinct paths, sending a batch again returns the same ids if and
    only if no file of it repeated the nested path of an earlier one: such a file is
    skipped without an id the first time and gets the other's id the second.
   */
  lemma SameIdsIff(s: Store, pid: PartitionId, cs: seq<Candidate>, ds: seq<Candidate>, first: map<string, FileId>,
                   second: map<string, FileId>)
    requires Valid(s) && pid in s.partitions && Alike(cs, ds)
    requires DistinctSent(cs) && AllShort(cs) && DistinctPaths(s.rows, pid)
    requires IsLookup(s.rows, pid, first) && IsLookup(AddBatch(s, pid, cs).rows, pid, second)
    ensures Answer(s, pid, cs, first) == Answer(AddBatch(s, pid, cs), pid, ds, second) <==> NoneRepeats(s, pid, cs)
  {
    var one, two := Answer(s, pid, cs, first), Answer(AddBatch(s, pid, cs), pid, ds, second);
    forall c <- cs
      ensures c.sent in two && (c.sent in one ==> one[c.sent] == two[c.sent])
      ensures c.sent in one <==> c.path in StoredPaths(s.rows, pid) || c in NewOf(s, pid, cs)
    {
      var i :| 0 <= i < |cs| && cs[i] == c;
      BothAnswers(s, pid, cs, ds, first, second, i);
    }
    AnswerKeys(s, pid, cs, first);
    AnswerKeys(AddBatch(s, pid, cs), pid, ds, second);
    forall sent <- two ensures exists i :: 0 <= i < |cs| && cs[i].sent == sent {
      var i :| 0 <= i < |ds| && ds[i].sent == sent;
      assert cs[i].sent == sent;
    }
    SameAnswerIff(cs, one, two);
  }

  /** What the worker sends again are the same files. */
  lemma SentAgain(s: Store, pid: PartitionId, files: seq<File>, known: seq<Option<nat>>, again: seq<Option<nat>>)
    requires Valid(s) && |known| == |again| == |files| && pid in s.partitions
    ensures var first := Candidates(s.rows, files, known);
      Alike(first, Candidates(AddBatch(s, pid, first).rows, files, again))
  {
    var first := Candidates(s.rows, files, known);
    var all := AddBatch(s, pid, first).rows;
    BatchExtends(s, pid, first);
    forall i | 0 <= i < |files| ensures NestedPath(all, files[i]) == NestedPath(s.rows, files[i]) {
      SameNestedPath(s.rows, all, s.nextId, pid, NewOf(s, pid, first), files[i]);
    }
  }

  /** Sending a batch of short, distinct paths again returns the same ids if and only if none repeated a nested path. */
  lemma ResubmissionReturnsSameIdsIff(s: Store, pid: PartitionId, files: seq<File>, known: seq<Option<nat>>,
                                      again: seq<Option<nat>>, first: map<string, FileId>, second: map<string, FileId>)
    requires Valid(s) && |known| == |again| == |files| && pid in s.partitions && DistinctPaths(s.rows, pid)
    requires var cs := Candidates(s.rows, files, known);
      && DistinctSent(cs) && AllShort(cs)
      && IsLookup(s.rows, pid, first) && IsLookup(AddBatch(s, pid, cs).rows, pid, second)
    ensures var cs := Candidates(s.rows, files, known);
      var t := AddBatch(s, pid, cs);
      Answer(s, pid, cs, first) == Answer(t, pid, Candidates(t.rows, files, again), second) <==> NoneRepeats(s, pid, cs)
  {
    var cs := Candidates(s.rows, files, known);
    SentAgain(s, pid, files, known, again);
    SameIdsIff(s, pid, cs, Candidates(AddBatch(s, pid, cs).rows, files, again), first, second);
  }
}
