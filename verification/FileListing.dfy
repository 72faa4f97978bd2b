/**
  Registering extracted files (myapp/blueprints/api.py): what one batch adds to a
  partition, and what any sequence of batches keeps true of its counters and paths.
 */
module FileListing {
  import opened Options

  /** Row ids start at 1; a parent id of 0 reads as no parent. */
  type FileId = n: nat | n > 0 witness 1
  type PartitionId = nat

  const PATH_WIDTH := 1000

  datatype Row = Row(partition: PartitionId, path: string, known: Option<nat>, isArchive: bool)

  datatype Partition = Partition(artefact: nat, index: nat, totalFiles: Option<nat>, uniqueFiles: Option<nat>)

  datatype Store = Store(rows: map<FileId, Row>, nextId: FileId, partitions: map<PartitionId, Partition>,
                         nextPartition: PartitionId)

  /** A record as the worker sends it; without a path and a filename it is ignored. */
  datatype Record = Record(path: Option<string>, filename: Option<string>, parent: Option<FileId>)

  datatype File = File(path: string, parent: Option<FileId>)

  function Incoming(records: seq<Record>): seq<File> {
    if records == [] then []
    else
      var r := records[0];
      (if r.path.Some? && r.filename.Some? then [File(r.path.value, r.parent)] else []) + Incoming(records[1..])
  }

  /** Over-long paths are cut to the width of the column. */
  function Fit(path: string): (fitted: string)
    ensures |fitted| <= PATH_WIDTH
    ensures fitted == path <==> |path| <= PATH_WIDTH
  {
    if |path| > PATH_WIDTH then path[..PATH_WIDTH] else path
  }

  /** A file from an archive is listed below the archive's own path. */
  function NestedPath(rows: map<FileId, Row>, file: File): string {
    if file.parent.Some? && file.parent.value in rows && rows[file.parent.value].isArchive
       && !(rows[file.parent.value].path + "/" <= file.path)
    then rows[file.parent.value].path + "/" + file.path else file.path
  }

  /** A file of a batch: the path the worker sent, the path it is listed under, and what the matcher says. */
  datatype Candidate = Candidate(sent: string, path: string, known: Option<nat>)

  function Candidates(rows: map<FileId, Row>, files: seq<File>, known: seq<Option<nat>>): seq<Candidate>
    requires |known| == |files|
  {
    seq(|files|, i requires 0 <= i < |files| => Candidate(files[i].path, NestedPath(rows, files[i]), known[i]))
  }

  function RowsOf(rows: map<FileId, Row>, pid: PartitionId): set<FileId> {
    set id <- rows | rows[id].partition == pid
  }

  function UnknownRowsOf(rows: map<FileId, Row>, pid: PartitionId): set<FileId> {
    set id <- rows | rows[id].partition == pid && rows[id].known.None?
  }

  function StoredPaths(rows: map<FileId, Row>, pid: PartitionId): set<string> {
    set id <- RowsOf(rows, pid) :: rows[id].path
  }

  predicate HasPath(cs: seq<Candidate>, path: string) {
    exists c <- cs :: c.path == path
  }

  /** The candidates that get a row, in order: their path is neither stored nor seen earlier in the batch. */
  function NewOnes(cs: seq<Candidate>, stored: set<string>): seq<Candidate> {
    if cs == [] then []
    else
      var init, c := cs[..|cs| - 1], cs[|cs| - 1];
      if c.path in stored || HasPath(init, c.path) then NewOnes(init, stored) else NewOnes(init, stored) + [c]
  }

  ghost predicate NoPathTwice(cs: seq<Candidate>) {
    forall j, k | 0 <= j < k < |cs| :: cs[j].path != cs[k].path
  }

  /** New candidates are those with a path that is not stored; every such path is taken once. */
  lemma {:induction false} NewOnesAre(cs: seq<Candidate>, stored: set<string>)
    ensures forall c <- NewOnes(cs, stored) :: c in cs && c.path !in stored
    ensures forall c <- cs :: c.path in stored || HasPath(NewOnes(cs, stored), c.path)
    ensures NoPathTwice(NewOnes(cs, stored))
    decreases |cs|
  {
    if cs != [] {
      var init, c := cs[..|cs| - 1], cs[|cs| - 1];
      NewOnesAre(init, stored);
      var fewer, all := NewOnes(init, stored), NewOnes(cs, stored);
      assert cs == init + [c];
      forall x <- cs ensures x.path in stored || HasPath(all, x.path) {
        if x in init && x.path !in stored {
          var y :| y in fewer && y.path == x.path;
          assert y in all;
        } else if x == c && x.path !in stored && HasPath(init, c.path) {
          var z :| z in init && z.path == c.path;
          var y :| y in fewer && y.path == z.path;
          assert y in all;
        } else if x == c && x.path !in stored {
          assert c in all;
        }
      }
    }
  }

  function NewRow(pid: PartitionId, c: Candidate): Row {
    Row(pid, Fit(c.path), c.known, false)
  }

  /** Inserting assigns ids in order. */
  function Insert(rows: map<FileId, Row>, next: FileId, pid: PartitionId, added: seq<Candidate>): map<FileId, Row> {
    if added == [] then rows
    else Insert(rows, next, pid, added[..|added| - 1])[next + |added| - 1 := NewRow(pid, added[|added| - 1])]
  }

  /** The old rows as they were, and one row for each added candidate under the next ids. */
  ghost predicate Extends(rows: map<FileId, Row>, all: map<FileId, Row>, next: FileId, pid: PartitionId,
                          added: seq<Candidate>)
  {
    && (forall id <- rows :: id < next && id in all && all[id] == rows[id])
    && (forall id <- all :: id in rows || next <= id < next + |added|)
    && (forall id: FileId | next <= id < next + |added| :: id in all && all[id] == NewRow(pid, added[id - next]))
  }

  lemma {:induction false} InsertExtends(rows: map<FileId, Row>, next: FileId, pid: PartitionId, added: seq<Candidate>)
    requires forall id <- rows :: id < next
    ensures Extends(rows, Insert(rows, next, pid, added), next, pid, added)
    decreases |added|
  {
    if added != [] { InsertExtends(rows, next, pid, added[..|added| - 1]); }
  }

  function CountUnknown(added: seq<Candidate>): nat {
    if added == [] then 0 else CountUnknown(added[..|added| - 1]) + if added[|added| - 1].known.None? then 1 else 0
  }

  function OrZero(count: Option<nat>): nat {
    if count.Some? then count.value else 0
  }

  /** The incremental counters; a fresh partition has none yet. */
  function Recount(partition: Partition, added: nat, unique: nat): Partition {
    partition.(totalFiles := Some(OrZero(partition.totalFiles) + added),
               uniqueFiles := Some(OrZero(partition.uniqueFiles) + unique))
  }

  function AddBatch(s: Store, pid: PartitionId, cs: seq<Candidate>): Store
    requires pid in s.partitions
  {
    var added := NewOnes(cs, StoredPaths(s.rows, pid));
    s.(rows := Insert(s.rows, s.nextId, pid, added),
       nextId := s.nextId + |added|,
       partitions := s.partitions[pid := Recount(s.partitions[pid], |added|, CountUnknown(added))])
  }

  /** Every partition of this index goes, and its rows with it. */
  function DropPartition(s: Store, artefact: nat, index: nat): Store {
    var kept := map p <- s.partitions | !(s.partitions[p].artefact == artefact && s.partitions[p].index == index) ::
      s.partitions[p];
    s.(rows := map id <- s.rows | s.rows[id].partition in kept :: s.rows[id], partitions := kept)
  }

  /** A re-run registers its partition anew. */
  function AddPartition(s: Store, artefact: nat, index: nat): Store {
    var kept := DropPartition(s, artefact, index);
    kept.(partitions := kept.partitions[s.nextPartition := Partition(artefact, index, None, None)],
          nextPartition := s.nextPartition + 1)
  }

  /** The worker finds out later which files are archives. */
  function MarkArchive(s: Store, id: FileId): Store {
    if id in s.rows then s.(rows := s.rows[id := s.rows[id].(isArchive := true)]) else s
  }

  datatype Event =
    | Register(artefact: nat, index: nat)
    | Batch(partition: PartitionId, records: seq<Record>, known: seq<Option<nat>>)
    | FoundArchive(id: FileId)

  /** A batch to a partition that is gone is answered 404; the matcher answers once per candidate. */
  function Apply(s: Store, e: Event): Store {
    match e
    case Register(artefact, index) => AddPartition(s, artefact, index)
    case Batch(pid, records, known) =>
      if pid in s.partitions && |known| == |Incoming(records)|
      then AddBatch(s, pid, Candidates(s.rows, Incoming(records), known)) else s
    case FoundArchive(id) => MarkArchive(s, id)
  }

  const EMPTY := Store(map[], 1, map[], 0)

  function Run(s: Store, events: seq<Event>): Store
    decreases |events|
  {
    if events == [] then s else Run(Apply(s, events[0]), events[1..])
  }

  // ---- Counters ----

  ghost predicate Counted(s: Store, pid: PartitionId)
    requires pid in s.partitions
  {
    && OrZero(s.partitions[pid].totalFiles) == |RowsOf(s.rows, pid)|
    && OrZero(s.partitions[pid].uniqueFiles) == |UnknownRowsOf(s.rows, pid)|
  }

  ghost predicate Valid(s: Store) {
    && RowsFit(s.rows, s.nextId, s.partitions.Keys)
    && (forall pid <- s.partitions :: pid < s.nextPartition && Counted(s, pid))
    && OnePerIndex(s.partitions)
  }

  ghost predicate RowsFit(rows: map<FileId, Row>, next: FileId, partitions: set<PartitionId>) {
    forall id <- rows :: id < next && rows[id].partition in partitions && |rows[id].path| <= PATH_WIDTH
  }

  ghost predicate OnePerIndex(partitions: map<PartitionId, Partition>) {
    forall p, q | p in partitions && q in partitions
      && partitions[p].artefact == partitions[q].artefact && partitions[p].index == partitions[q].index :: p == q
  }

  lemma InsertOneCounts(rows: map<FileId, Row>, id: FileId, row: Row, pid: PartitionId)
    requires id !in rows
    ensures |RowsOf(rows[id := row], pid)| == |RowsOf(rows, pid)| + if row.partition == pid then 1 else 0
  {
    var all := rows[id := row];
    if row.partition == pid {
      assert RowsOf(all, pid) == RowsOf(rows, pid) + {id};
    } else {
      assert RowsOf(all, pid) == RowsOf(rows, pid);
    }
  }

  lemma InsertOneCountsUnknown(rows: map<FileId, Row>, id: FileId, row: Row, pid: PartitionId)
    requires id !in rows
    ensures |UnknownRowsOf(rows[id := row], pid)|
         == |UnknownRowsOf(rows, pid)| + if row.partition == pid && row.known.None? then 1 else 0
  {
    var all := rows[id := row];
    if row.partition == pid && row.known.None? {
      assert UnknownRowsOf(all, pid) == UnknownRowsOf(rows, pid) + {id};
    } else {
      assert UnknownRowsOf(all, pid) == UnknownRowsOf(rows, pid);
    }
  }

  lemma {:induction false} InsertBound(rows: map<FileId, Row>, next: FileId, pid: PartitionId, added: seq<Candidate>)
    requires forall id <- rows :: id < next
    ensures forall id <- Insert(rows, next, pid, added) :: id < next + |added|
    decreases |added|
  {
    if added != [] { InsertBound(rows, next, pid, added[..|added| - 1]); }
  }

  /** Inserting one more candidate inserts its row under the next id. */
  lemma InsertLast(rows: map<FileId, Row>, next: FileId, owner: PartitionId, added: seq<Candidate>, c: Candidate)
    requires forall id <- rows :: id < next
    ensures Insert(rows, next, owner, added + [c])
            == Insert(rows, next, owner, added)[next + |added| := NewRow(owner, c)]
    ensures next + |added| !in Insert(rows, next, owner, added)
  {
    assert (added + [c])[..|added|] == added;
    InsertBound(rows, next, owner, added);
  }

  lemma {:induction false} InsertCounts(rows: map<FileId, Row>, next: FileId, owner: PartitionId, added: seq<Candidate>,
                                        pid: PartitionId)
    requires forall id <- rows :: id < next
    ensures |RowsOf(Insert(rows, next, owner, added), pid)|
            == |RowsOf(rows, pid)| + (if pid == owner then |added| else 0)
    decreases |added|
  {
    if added != [] {
      var shorter, c := added[..|added| - 1], added[|added| - 1];
      assert added == shorter + [c];
      InsertCounts(rows, next, owner, shorter, pid);
      InsertLast(rows, next, owner, shorter, c);
      InsertOneCounts(Insert(rows, next, owner, shorter), next + |shorter|, NewRow(owner, c), pid);
    }
  }

  lemma {:induction false} InsertCountsUnknown(rows: map<FileId, Row>, next: FileId, owner: PartitionId,
                                               added: seq<Candidate>, pid: PartitionId)
    requires forall id <- rows :: id < next
    ensures |UnknownRowsOf(Insert(rows, next, owner, added), pid)|
         == |UnknownRowsOf(rows, pid)| + (if pid == owner then CountUnknown(added) else 0)
    decreases |added|
  {
    if added != [] {
      var shorter, c := added[..|added| - 1], added[|added| - 1];
      assert added == shorter + [c];
      InsertCountsUnknown(rows, next, owner, shorter, pid);
      InsertLast(rows, next, owner, shorter, c);
      InsertOneCountsUnknown(Insert(rows, next, owner, shorter), next + |shorter|, NewRow(owner, c), pid);
    }
  }

  lemma InsertedRowsFit(rows: map<FileId, Row>, next: FileId, pid: PartitionId, added: seq<Candidate>,
                        partitions: set<PartitionId>)
    requires RowsFit(rows, next, partitions) && pid in partitions
    ensures RowsFit(Insert(rows, next, pid, added), next + |added|, partitions)
  {
    InsertExtends(rows, next, pid, added);
  }

  lemma BatchKeepsCounts(s: Store, pid: PartitionId, cs: seq<Candidate>, p: PartitionId)
    requires Valid(s) && pid in s.partitions && p in s.partitions
    ensures Counted(AddBatch(s, pid, cs), p)
  {
    assert Counted(s, p);
    InsertCounts(s.rows, s.nextId, pid, NewOnes(cs, StoredPaths(s.rows, pid)), p);
    InsertCountsUnknown(s.rows, s.nextId, pid, NewOnes(cs, StoredPaths(s.rows, pid)), p);
  }

  lemma BatchKeepsValid(s: Store, pid: PartitionId, cs: seq<Candidate>)
    requires Valid(s) && pid in s.partitions
    ensures Valid(AddBatch(s, pid, cs))
  {
    InsertedRowsFit(s.rows, s.nextId, pid, NewOnes(cs, StoredPaths(s.rows, pid)), s.partitions.Keys);
    forall p <- s.partitions ensures Counted(AddBatch(s, pid, cs), p) {
      BatchKeepsCounts(s, pid, cs, p);
    }
    assert AddBatch(s, pid, cs).partitions.Keys == s.partitions.Keys;
  }

  lemma SameRowsSameCounts(rows: map<FileId, Row>, after: map<FileId, Row>, pid: PartitionId)
    requires forall id <- rows | rows[id].partition == pid ::
               id in after && after[id].partition == pid && after[id].known == rows[id].known
    requires forall id <- after | after[id].partition == pid :: id in rows && rows[id].partition == pid
    ensures RowsOf(after, pid) == RowsOf(rows, pid) && UnknownRowsOf(after, pid) == UnknownRowsOf(rows, pid)
  {
  }

  lemma DropKeepsValid(s: Store, artefact: nat, index: nat)
    requires Valid(s)
    ensures Valid(DropPartition(s, artefact, index))
    ensures forall p <- DropPartition(s, artefact, index).partitions ::
              !(DropPartition(s, artefact, index).partitions[p].artefact == artefact
                && DropPartition(s, artefact, index).partitions[p].index == index)
  {
    var t := DropPartition(s, artefact, index);
    forall p <- t.partitions ensures Counted(t, p) {
      assert Counted(s, p);
      SameRowsSameCounts(s.rows, t.rows, p);
    }
  }

  lemma FreshKeepsValid(s: Store, artefact: nat, index: nat)
    requires Valid(s)
    requires forall p <- s.partitions :: !(s.partitions[p].artefact == artefact && s.partitions[p].index == index)
    ensures Valid(s.(partitions := s.partitions[s.nextPartition := Partition(artefact, index, None, None)],
            nextPartition := s.nextPartition + 1))
  {
    var t := s.(partitions := s.partitions[s.nextPartition := Partition(artefact, index, None, None)],
      nextPartition := s.nextPartition + 1);
    forall p <- t.partitions ensures Counted(t, p) {
      if p == s.nextPartition {
        assert RowsOf(t.rows, p) == {} && UnknownRowsOf(t.rows, p) == {};
      } else {
        assert Counted(s, p);
      }
    }
  }

  lemma RegisterKeepsValid(s: Store, artefact: nat, index: nat)
    requires Valid(s)
    ensures Valid(AddPartition(s, artefact, index))
  {
    DropKeepsValid(s, artefact, index);
    FreshKeepsValid(DropPartition(s, artefact, index), artefact, index);
  }

  lemma MarkKeepsValid(s: Store, id: FileId)
    requires Valid(s)
    ensures Valid(MarkArchive(s, id))
  {
    var t := MarkArchive(s, id);
    forall p <- t.partitions ensures Counted(t, p) {
      assert Counted(s, p);
      SameRowsSameCounts(s.rows, t.rows, p);
    }
  }

  lemma StepKeepsValid(s: Store, e: Event)
    requires Valid(s)
    ensures Valid(Apply(s, e))
  {
    match e
    case Register(artefact, index) => RegisterKeepsValid(s, artefact, index);
    case Batch(pid, records, known) =>
      if pid in s.partitions && |known| == |Incoming(records)| {
        BatchKeepsValid(s, pid, Candidates(s.rows, Incoming(records), known));
      }
    case FoundArchive(id) => MarkKeepsValid(s, id);
  }

  lemma {:induction false} RunKeepsValid(s: Store, events: seq<Event>)
    requires Valid(s)
    ensures Valid(Run(s, events))
    decreases |events|
  {
    if events != [] {
      StepKeepsValid(s, events[0]);
      RunKeepsValid(Apply(s, events[0]), events[1..]);
    }
  }

  /** Whatever is registered, re-registered and marked, the counters are the counts. */
  lemma CountersAreCounts(events: seq<Event>)
    ensures var s := Run(EMPTY, events);
      forall pid <- s.partitions ::
        && OrZero(s.partitions[pid].totalFiles) == |RowsOf(s.rows, pid)|
        && OrZero(s.partitions[pid].uniqueFiles) == |UnknownRowsOf(s.rows, pid)|
  {
    RunKeepsValid(EMPTY, events);
    var s := Run(EMPTY, events);
    assert forall pid <- s.partitions :: Counted(s, pid);
  }
}
