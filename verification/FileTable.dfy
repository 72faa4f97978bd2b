/** The tables that registration writes, and the two handlers that write them (myapp/blueprints/api.py). */
module FileTable {
  import opened Options
  import opened FileListing
  import opened FileResubmission
  import opened FileRegistration
  import opened FileEffects

  datatype Response = NotFound | Registered(added: nat, skipped: nat, ids: map<string, FileId>)

  /** seen_paths after these candidates. */
  ghost predicate SeenIs(cs: seq<Candidate>, stored: set<string>, seen: set<string>) {
    forall path :: path in seen <==> HasPath(cs, path) && path !in stored
  }

  lemma Next(cs: seq<Candidate>, i: nat)
    requires i < |cs|
    ensures cs[..i + 1] != [] && cs[..i + 1][..|cs[..i + 1]| - 1] == cs[..i] && cs[..i + 1][|cs[..i + 1]| - 1] == cs[i]
    ensures forall path :: HasPath(cs[..i + 1], path) <==> HasPath(cs[..i], path) || path == cs[i].path
  {
    assert cs[..i + 1] == cs[..i] + [cs[i]];
    forall path ensures HasPath(cs[..i + 1], path) <==> HasPath(cs[..i], path) || path == cs[i].path {
      if HasPath(cs[..i], path) {
        var c :| c in cs[..i] && c.path == path;
        assert c in cs[..i + 1];
      }
      assert cs[i] in cs[..i + 1];
    }
  }

  lemma SkipNext(cs: seq<Candidate>, existing: map<string, FileId>, i: nat, seen: set<string>)
    requires i < |cs| && SeenIs(cs[..i], existing.Keys, seen) && (cs[i].path in existing || cs[i].path in seen)
    ensures SeenIs(cs[..i + 1], existing.Keys, seen)
            && NewOnes(cs[..i + 1], existing.Keys) == NewOnes(cs[..i], existing.Keys)
  {
    Next(cs, i);
  }

  lemma TakeNext(cs: seq<Candidate>, existing: map<string, FileId>, i: nat, seen: set<string>)
    requires i < |cs| && SeenIs(cs[..i], existing.Keys, seen) && cs[i].path !in existing && cs[i].path !in seen
    ensures SeenIs(cs[..i + 1], existing.Keys, seen + {cs[i].path})
    ensures NewOnes(cs[..i + 1], existing.Keys) == NewOnes(cs[..i], existing.Keys) + [cs[i]]
  {
    Next(cs, i);
  }

  lemma OldIdsNext(cs: seq<Candidate>, existing: map<string, FileId>, i: nat)
    requires i < |cs|
    ensures OldIds(cs[..i + 1], existing)
         == if cs[i].path in existing then OldIds(cs[..i], existing)[cs[i].sent := existing[cs[i].path]]
           else OldIds(cs[..i], existing)
  {
    Next(cs, i);
  }

  lemma CountNext(added: seq<Candidate>, c: Candidate)
    ensures CountUnknown(added + [c]) == CountUnknown(added) + if c.known.None? then 1 else 0
  {
    assert (added + [c])[..|added|] == added;
  }

  lemma FlushNext(rows: map<FileId, Row>, next: FileId, pid: PartitionId, added: seq<Candidate>,
                  found: map<string, FileId>, k: nat)
    requires k < |added|
    ensures Insert(rows, next, pid, added[..k + 1])
            == Insert(rows, next, pid, added[..k])[next + k := NewRow(pid, added[k])]
    ensures found + NewIds(added[..k + 1], next) == (found + NewIds(added[..k], next))[added[k].sent := next + k]
  {
    Next(added, k);
  }

  /** All that a batch does, whichever rows the lookup finds. */
  lemma FileByFile(s: Store, pid: PartitionId, files: seq<File>, known: seq<Option<nat>>)
    requires Valid(s) && pid in s.partitions && |known| == |files|
    ensures var cs := Candidates(s.rows, files, known);
      var t := AddBatch(s, pid, cs);
      && RowsAdded(s, t, pid, files, known) && Counts(s, t, pid, files, known)
      && |NewOf(s, pid, cs)| == |NewFiles(s, pid, files, |known|)|
      && (SentApart(files) ==> forall existing | IsLookup(s.rows, pid, existing) ::
            AnswersFiles(s, t, pid, files, known, Answer(s, pid, cs, existing)))
  {
    BatchAdds(s, pid, files, known);
    BatchCounts(s, pid, files, known);
    AddedAre(s, pid, files, known);
    if SentApart(files) {
      forall existing | IsLookup(s.rows, pid, existing) {
        BatchAnswers(s, pid, files, known, existing);
      }
    }
  }

  class Listing {
    var rows: map<FileId, Row>
    var nextId: FileId
    var partitions: map<PartitionId, Partition>
    var nextPartition: PartitionId

    ghost function Contents(): Store reads this {
      Store(rows, nextId, partitions, nextPartition)
    }

    constructor ()
      ensures Contents() == EMPTY && Valid(Contents())
    {
      rows, nextId, partitions, nextPartition := map[], 1, map[], 0;
    }

    /** The query for the paths that are stored already. */
    method LookUp(pid: PartitionId) returns (existing: map<string, FileId>)
      ensures IsLookup(rows, pid, existing)
    {
      existing := map[];
      var left := rows.Keys;
      while left != {}
        invariant left <= rows.Keys
        invariant forall id <- RowsOf(rows, pid) - left :: rows[id].path in existing
        invariant forall path <- existing :: existing[path] in RowsOf(rows, pid) && rows[existing[path]].path == path
        decreases |left|
      {
        var id: FileId :| id in left;
        left := left - {id};
        if rows[id].partition == pid {
          existing := existing[rows[id].path := id];
        }
      }
    }

    /** The loop over the candidates: those that get a row, and the ids known so far. */
    method Sift(cs: seq<Candidate>, existing: map<string, FileId>)
        returns (created: seq<Candidate>, unique: nat, skipped: nat, ids: map<string, FileId>)
      ensures created == NewOnes(cs, existing.Keys) && unique == CountUnknown(created) && |created| + skipped == |cs|
      ensures ids == OldIds(cs, existing)
    {
      var seen: set<string> := {};
      created, unique, skipped, ids := [], 0, 0, map[];
      for i := 0 to |cs|
        invariant SeenIs(cs[..i], existing.Keys, seen) && created == NewOnes(cs[..i], existing.Keys)
        invariant unique == CountUnknown(created) && |created| + skipped == i
        invariant ids == OldIds(cs[..i], existing)
      {
        var c := cs[i];
        OldIdsNext(cs, existing, i);
        if c.path in existing || c.path in seen {
          SkipNext(cs, existing, i, seen);
          skipped := skipped + 1;
          if c.path in existing { ids := ids[c.sent := existing[c.path]]; }
        } else {
          TakeNext(cs, existing, i, seen);
          CountNext(created, c);
          seen := seen + {c.path};
          created := created + [c];
          if c.known.None? { unique := unique + 1; }
        }
      }
      assert cs[..|cs|] == cs;
    }

    /** The flush: rows get their ids in order. */
    method Flush(pid: PartitionId, created: seq<Candidate>, found: map<string, FileId>)
      returns (ids: map<string, FileId>)
      modifies `rows, `nextId
      ensures rows == Insert(old(rows), old(nextId), pid, created) && nextId == old(nextId) + |created|
      ensures ids == found + NewIds(created, old(nextId))
    {
      ids := found;
      for k := 0 to |created|
        invariant rows == Insert(old(rows), old(nextId), pid, created[..k]) && nextId == old(nextId) + k
        invariant ids == found + NewIds(created[..k], old(nextId))
      {
        FlushNext(old(rows), old(nextId), pid, created, found, k);
        rows := rows[nextId := NewRow(pid, created[k])];
        ids := ids[created[k].sent := nextId];
        nextId := nextId + 1;
      }
      assert created[..|created|] == created;
    }

    /** The counters move by what the batch adds, not by counting the partition again. */
    method CountBatch(pid: PartitionId, added: nat, unique: nat)
      requires pid in partitions
      modifies `partitions
      ensures partitions == old(partitions)[pid := Recount(old(partitions)[pid], added, unique)]
    {
      var partition := partitions[pid];
      partitions := partitions[pid := partition.(totalFiles := Some(OrZero(partition.totalFiles) + added),
                                                 uniqueFiles := Some(OrZero(partition.uniqueFiles) + unique))];
    }

    method AddCandidates(pid: PartitionId, cs: seq<Candidate>)
        returns (added: nat, skipped: nat, ids: map<string, FileId>, ghost existing: map<string, FileId>)
      requires pid in partitions
      modifies this
      ensures Contents() == AddBatch(old(Contents()), pid, cs)
      ensures added == |NewOf(old(Contents()), pid, cs)| && added + skipped == |cs|
      ensures IsLookup(old(rows), pid, existing) && ids == Answer(old(Contents()), pid, cs, existing)
    {
      var stored := LookUp(pid);
      existing := stored;
      var created, unique, found;
      created, unique, skipped, found := Sift(cs, stored);
      added := |created|;
      CountBatch(pid, added, unique);
      ids := Flush(pid, created, found);
    }

    /** add_files: `known` is what the matcher answers for each candidate. */
    method AddFiles(pid: PartitionId, records: seq<Record>, known: seq<Option<nat>>) returns (response: Response)
      requires Valid(Contents()) && |known| == |Incoming(records)|
      modifies this
      ensures Valid(Contents())
      ensures response.NotFound? <==> pid !in old(partitions)
      ensures response.NotFound? ==> Contents() == old(Contents())
      ensures response.Registered? ==>
                var before := old(Contents());
                var cs := Candidates(before.rows, Incoming(records), known);
                && Contents() == AddBatch(before, pid, cs)
                && response.added == |NewOf(before, pid, cs)|
                && response.added + response.skipped == |Incoming(records)|
                && exists existing ::
                     IsLookup(before.rows, pid, existing) && response.ids == Answer(before, pid, cs, existing)
      // File by file: one row for each new one with its own match, counted, and each answered with its own row.
      ensures response.Registered? ==>
                && RowsAdded(old(Contents()), Contents(), pid, Incoming(records), known)
                && Counts(old(Contents()), Contents(), pid, Incoming(records), known)
                && response.added == |NewFiles(old(Contents()), pid, Incoming(records), |known|)|
      ensures response.Registered? && SentApart(Incoming(records)) ==>
                AnswersFiles(old(Contents()), Contents(), pid, Incoming(records), known, response.ids)
    {
      if pid !in partitions { return NotFound; }
      var cs := Candidates(rows, Incoming(records), known);
      BatchKeepsValid(Contents(), pid, cs);
      FileByFile(Contents(), pid, Incoming(records), known);
      var added, skipped, ids;
      ghost var existing;
      added, skipped, ids, existing := AddCandidates(pid, cs);
      response := Registered(added, skipped, ids);
    }

    method DropPartitions(artefact: nat, index: nat)
      modifies `rows, `partitions
      ensures Contents() == DropPartition(old(Contents()), artefact, index)
    {
      partitions :=
        partitions - set p <- partitions | partitions[p].artefact == artefact && partitions[p].index == index;
      rows := map id <- rows | rows[id].partition in partitions :: rows[id];
    }

    /** add_partition */
    method RegisterPartition(artefact: nat, index: nat) returns (pid: PartitionId)
      requires Valid(Contents())
      modifies this
      ensures Contents() == AddPartition(old(Contents()), artefact, index) && Valid(Contents())
      ensures Replaces(old(Contents()), Contents(), artefact, index)
      ensures pid == old(nextPartition) && pid in partitions
    {
      RegisterKeepsValid(Contents(), artefact, index);
      RegisterReplaces(Contents(), artefact, index);
      DropPartitions(artefact, index);
      pid := nextPartition;
      partitions := partitions[pid := Partition(artefact, index, None, None)];
      nextPartition := nextPartition + 1;
    }
  }
}
