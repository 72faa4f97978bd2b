/** Distinct paths, and what sending a batch twice does (myapp/blueprints/api.py). */
module FileResubmission {
  import opened Options
  import opened FileListing

  ghost predicate DistinctPaths(rows: map<FileId, Row>, pid: PartitionId) {
    forall i, j | i in RowsOf(rows, pid) && j in RowsOf(rows, pid) && rows[i].path == rows[j].path :: i == j
  }

  predicate AllShort(cs: seq<Candidate>) {
    forall c <- cs :: |c.path| <= PATH_WIDTH
  }

  function NewOf(s: Store, pid: PartitionId, cs: seq<Candidate>): seq<Candidate> {
    NewOnes(cs, StoredPaths(s.rows, pid))
  }

  lemma BatchExtends(s: Store, pid: PartitionId, cs: seq<Candidate>)
    requires Valid(s) && pid in s.partitions
    ensures Extends(s.rows, AddBatch(s, pid, cs).rows, s.nextId, pid, NewOf(s, pid, cs))
  {
    InsertExtends(s.rows, s.nextId, pid, NewOf(s, pid, cs));
  }

  // ---- Distinct paths ----

  /** What makes cutting paths to the column width harmless for a batch. */
  ghost predicate CutsApart(stored: set<string>, added: seq<Candidate>) {
    && (forall c <- added :: Fit(c.path) !in stored)
    && (forall j, k | 0 <= j < k < |added| :: Fit(added[j].path) != Fit(added[k].path))
  }

  lemma AddedPath(rows: map<FileId, Row>, all: map<FileId, Row>, next: FileId, pid: PartitionId, added: seq<Candidate>,
                  k: nat)
    requires Extends(rows, all, next, pid, added) && k < |added|
    ensures next + k in RowsOf(all, pid) && all[next + k] == NewRow(pid, added[k])
  {
    var id: FileId := next + k;
    assert id - next == k;
  }

  lemma CutsApartIsEnough(rows: map<FileId, Row>, all: map<FileId, Row>, next: FileId, pid: PartitionId,
                          added: seq<Candidate>)
    requires Extends(rows, all, next, pid, added) && DistinctPaths(rows, pid)
             && CutsApart(StoredPaths(rows, pid), added)
    ensures DistinctPaths(all, pid)
  {
    forall i, j | i in RowsOf(all, pid) && j in RowsOf(all, pid) && i < j ensures all[i].path != all[j].path {
      if j in rows {
        assert i in RowsOf(rows, pid) && j in RowsOf(rows, pid);
      } else {
        var c := added[j - next];
        assert c in added && all[j] == NewRow(pid, c);
        if i in rows {
          assert i in RowsOf(rows, pid) && rows[i].path in StoredPaths(rows, pid);
        } else {
          assert all[i] == NewRow(pid, added[i - next]);
        }
      }
    }
  }

  lemma CutsApartIsNeeded(rows: map<FileId, Row>, all: map<FileId, Row>, next: FileId, pid: PartitionId,
                          added: seq<Candidate>)
    requires Extends(rows, all, next, pid, added) && DistinctPaths(all, pid)
    ensures CutsApart(StoredPaths(rows, pid), added)
  {
    forall k: nat | k < |added| ensures Fit(added[k].path) !in StoredPaths(rows, pid) {
      AddedPath(rows, all, next, pid, added, k);
      forall id | id in RowsOf(rows, pid) ensures rows[id].path != Fit(added[k].path) {
        assert id in RowsOf(all, pid);
      }
    }
    forall j: nat, k: nat | j < k < |added| ensures Fit(added[j].path) != Fit(added[k].path) {
      AddedPath(rows, all, next, pid, added, j);
      AddedPath(rows, all, next, pid, added, k);
    }
  }

  /**
    A batch keeps stored paths distinct if and only if no two of its new paths, and
    none of them and a stored one, agree once cut to the column width.
   */
  lemma DistinctIffCutsApart(s: Store, pid: PartitionId, cs: seq<Candidate>)
    requires Valid(s) && pid in s.partitions && DistinctPaths(s.rows, pid)
    ensures DistinctPaths(AddBatch(s, pid, cs).rows, pid) <==> CutsApart(StoredPaths(s.rows, pid), NewOf(s, pid, cs))
  {
    var all := AddBatch(s, pid, cs).rows;
    BatchExtends(s, pid, cs);
    if CutsApart(StoredPaths(s.rows, pid), NewOf(s, pid, cs)) {
      CutsApartIsEnough(s.rows, all, s.nextId, pid, NewOf(s, pid, cs));
    } else if DistinctPaths(all, pid) {
      CutsApartIsNeeded(s.rows, all, s.nextId, pid, NewOf(s, pid, cs));
    }
  }

  lemma ShortCutsApart(cs: seq<Candidate>, stored: set<string>)
    requires AllShort(cs)
    ensures CutsApart(stored, NewOnes(cs, stored)) && AllShort(NewOnes(cs, stored))
  {
    NewOnesAre(cs, stored);
  }

  lemma ShortKeepsDistinct(s: Store, pid: PartitionId, cs: seq<Candidate>)
    requires Valid(s) && pid in s.partitions && DistinctPaths(s.rows, pid) && AllShort(cs)
    ensures DistinctPaths(AddBatch(s, pid, cs).rows, pid)
  {
    ShortCutsApart(cs, StoredPaths(s.rows, pid));
    DistinctIffCutsApart(s, pid, cs);
  }

  ghost predicate AllDistinct(s: Store) {
    forall pid <- s.partitions :: DistinctPaths(s.rows, pid)
  }

  /** Every batch of the run has nested paths that fit the column. */
  ghost predicate RunsShort(s: Store, events: seq<Event>)
    decreases |events|
  {
    events != [] ==>
      && (events[0].Batch? && |events[0].known| == |Incoming(events[0].records)| ==>
            AllShort(Candidates(s.rows, Incoming(events[0].records), events[0].known)))
      && RunsShort(Apply(s, events[0]), events[1..])
  }

  lemma FewerRowsKeepDistinct(rows: map<FileId, Row>, after: map<FileId, Row>, pid: PartitionId)
    requires DistinctPaths(rows, pid)
    requires forall id <- after | after[id].partition == pid ::
               id in rows && rows[id].partition == pid && rows[id].path == after[id].path
    ensures DistinctPaths(after, pid)
  {
    assert RowsOf(after, pid) <= RowsOf(rows, pid);
  }

  lemma OthersKeepDistinct(rows: map<FileId, Row>, all: map<FileId, Row>, next: FileId, pid: PartitionId,
                           added: seq<Candidate>, other: PartitionId)
    requires Extends(rows, all, next, pid, added) && other != pid && DistinctPaths(rows, other)
    ensures DistinctPaths(all, other)
  {
    FewerRowsKeepDistinct(rows, all, other);
  }

  lemma BatchKeepsDistinct(s: Store, pid: PartitionId, cs: seq<Candidate>)
    requires Valid(s) && pid in s.partitions && AllDistinct(s) && AllShort(cs)
    ensures AllDistinct(AddBatch(s, pid, cs))
  {
    var t := AddBatch(s, pid, cs);
    forall other | other in t.partitions ensures DistinctPaths(t.rows, other) {
      assert DistinctPaths(s.rows, other);
      if other == pid {
        ShortKeepsDistinct(s, pid, cs);
      } else {
        BatchExtends(s, pid, cs);
        OthersKeepDistinct(s.rows, t.rows, s.nextId, pid, NewOf(s, pid, cs), other);
      }
    }
  }

  lemma RegisterKeepsDistinct(s: Store, artefact: nat, index: nat)
    requires Valid(s) && AllDistinct(s)
    ensures AllDistinct(AddPartition(s, artefact, index))
  {
    var t := AddPartition(s, artefact, index);
    forall pid <- t.partitions ensures DistinctPaths(t.rows, pid) {
      if pid == s.nextPartition {
        assert RowsOf(t.rows, pid) == {};
      } else {
        assert DistinctPaths(s.rows, pid);
        FewerRowsKeepDistinct(s.rows, t.rows, pid);
      }
    }
  }

  lemma MarkKeepsDistinct(s: Store, id: FileId)
    requires AllDistinct(s)
    ensures AllDistinct(MarkArchive(s, id))
  {
    var t := MarkArchive(s, id);
    forall pid <- t.partitions ensures DistinctPaths(t.rows, pid) {
      assert DistinctPaths(s.rows, pid);
      FewerRowsKeepDistinct(s.rows, t.rows, pid);
    }
  }

  lemma StepKeepsDistinct(s: Store, e: Event)
    requires Valid(s) && AllDistinct(s) && RunsShort(s, [e])
    ensures AllDistinct(Apply(s, e))
  {
    match e
    case Register(artefact, index) => RegisterKeepsDistinct(s, artefact, index);
    case Batch(pid, records, known) =>
      if pid in s.partitions && |known| == |Incoming(records)| {
        BatchKeepsDistinct(s, pid, Candidates(s.rows, Incoming(records), known));
      }
    case FoundArchive(id) => MarkKeepsDistinct(s, id);
  }

  lemma {:induction false} RunKeepsDistinct(s: Store, events: seq<Event>)
    requires Valid(s) && AllDistinct(s) && RunsShort(s, events)
    ensures AllDistinct(Run(s, events))
    decreases |events|
  {
    if events != [] {
      StepKeepsValid(s, events[0]);
      assert RunsShort(s, [events[0]]) by { assert [events[0]][1..] == []; }
      StepKeepsDistinct(s, events[0]);
      RunKeepsDistinct(Apply(s, events[0]), events[1..]);
    }
  }

  /** As long as nested paths fit the column, no run ever stores a path twice in a partition. */
  lemma StoredPathsAreDistinct(events: seq<Event>)
    requires RunsShort(EMPTY, events)
    ensures AllDistinct(Run(EMPTY, events))
  {
    RunKeepsDistinct(EMPTY, events);
  }

  // ---- Sending a batch twice ----

  /** New rows are not archives yet, so they change no file's nesting. */
  lemma SameNestedPath(rows: map<FileId, Row>, all: map<FileId, Row>, next: FileId, pid: PartitionId,
                       added: seq<Candidate>, file: File)
    requires Extends(rows, all, next, pid, added)
    ensures NestedPath(all, file) == NestedPath(rows, file)
  {
    if file.parent.Some? && file.parent.value in all && file.parent.value !in rows {
      assert all[file.parent.value] == NewRow(pid, added[file.parent.value - next]);
    }
  }

  /** After a batch, the path of each of its candidates is stored if and only if it fits the column. */
  lemma StoredAfter(s: Store, pid: PartitionId, cs: seq<Candidate>, c: Candidate)
    requires Valid(s) && pid in s.partitions && c in cs
    ensures c.path in StoredPaths(AddBatch(s, pid, cs).rows, pid) <==> |c.path| <= PATH_WIDTH
  {
    var all, added := AddBatch(s, pid, cs).rows, NewOf(s, pid, cs);
    BatchKeepsValid(s, pid, cs);
    BatchExtends(s, pid, cs);
    if |c.path| <= PATH_WIDTH {
      NewOnesAre(cs, StoredPaths(s.rows, pid));
      if c.path in StoredPaths(s.rows, pid) {
        var id :| id in RowsOf(s.rows, pid) && s.rows[id].path == c.path;
        assert id in RowsOf(all, pid);
      } else {
        var k :| 0 <= k < |added| && added[k].path == c.path;
        AddedPath(s.rows, all, s.nextId, pid, added, k);
        assert all[s.nextId + k].path in StoredPaths(all, pid);
      }
    } else {
      StoredFit(AddBatch(s, pid, cs), pid, c.path);
    }
  }

  lemma StoredFit(s: Store, pid: PartitionId, path: string)
    requires Valid(s) && |path| > PATH_WIDTH
    ensures path !in StoredPaths(s.rows, pid)
  {
  }

  /** A batch adds nothing if and only if every candidate's path is stored. */
  lemma NothingNewIff(cs: seq<Candidate>, stored: set<string>)
    ensures NewOnes(cs, stored) == [] <==> forall c <- cs :: c.path in stored
  {
    NewOnesAre(cs, stored);
    var added := NewOnes(cs, stored);
    if added != [] { assert added[0] in added && added[0] in cs && added[0].path !in stored; }
  }

  /** Sent again, a file has the path it had, and that is stored if and only if it fits the column. */
  lemma SentAgainAt(s: Store, pid: PartitionId, files: seq<File>, known: seq<Option<nat>>, again: seq<Option<nat>>,
                    i: nat)
    requires Valid(s) && |known| == |again| == |files| && pid in s.partitions && i < |files|
    ensures var first := Candidates(s.rows, files, known);
      var t := AddBatch(s, pid, first);
      Candidates(t.rows, files, again)[i].path in StoredPaths(t.rows, pid) <==> |first[i].path| <= PATH_WIDTH
  {
    var first := Candidates(s.rows, files, known);
    var t := AddBatch(s, pid, first);
    BatchExtends(s, pid, first);
    SameNestedPath(s.rows, t.rows, s.nextId, pid, NewOf(s, pid, first), files[i]);
    assert first[i] in first;
    StoredAfter(s, pid, first, first[i]);
  }

  /** Sending a batch again adds nothing if and only if every nested path fits the column. */
  lemma ResubmissionAddsNothingIff(s: Store, pid: PartitionId, files: seq<File>, known: seq<Option<nat>>,
                                   again: seq<Option<nat>>)
    requires Valid(s) && |known| == |again| == |files| && pid in s.partitions
    ensures var first := Candidates(s.rows, files, known);
      var t := AddBatch(s, pid, first);
      NewOf(t, pid, Candidates(t.rows, files, again)) == [] <==> AllShort(first)
  {
    var first := Candidates(s.rows, files, known);
    var t := AddBatch(s, pid, first);
    var second := Candidates(t.rows, files, again);
    NothingNewIff(second, StoredPaths(t.rows, pid));
    forall i: nat | i < |files| ensures second[i].path in StoredPaths(t.rows, pid) <==> |first[i].path| <= PATH_WIDTH {
      SentAgainAt(s, pid, files, known, again, i);
    }
    assert forall i | 0 <= i < |files| :: second[i] in second && first[i] in first;
  }
}
