/** Runs in which registration does not keep what it seems to promise (myapp/blueprints/api.py). */
module FileWitnesses {
  import opened Options
  import opened FileListing
  import opened FileResubmission
  import opened FileRegistration

  const REGISTERED := Store(map[], 1, map[0 := Partition(0, 0, None, None)], 1)

  function Sent(path: string, parent: Option<FileId>): Record {
    Record(Some(path), Some("f"), parent)
  }

  lemma RunCons(s: Store, e: Event, rest: seq<Event>)
    ensures Run(s, [e] + rest) == Run(Apply(s, e), rest)
  {
    assert ([e] + rest)[1..] == rest;
  }

  lemma RegisterFirst(rest: seq<Event>)
    ensures Valid(REGISTERED) && Run(EMPTY, [Register(0, 0)] + rest) == Run(REGISTERED, rest)
  {
    RunCons(EMPTY, Register(0, 0), rest);
    RegisterKeepsValid(EMPTY, 0, 0);
    assert DropPartition(EMPTY, 0, 0) == EMPTY;
  }

  lemma IncomingOne(r: Record)
    requires r.path.Some? && r.filename.Some?
    ensures Incoming([r]) == [File(r.path.value, r.parent)]
  {
    assert Incoming([r][1..]) == [];
  }

  lemma IncomingTwo(r: Record, q: Record)
    requires r.path.Some? && r.filename.Some? && q.path.Some? && q.filename.Some?
    ensures Incoming([r, q]) == [File(r.path.value, r.parent), File(q.path.value, q.parent)]
  {
    assert [r, q][1..] == [q];
    IncomingOne(q);
  }

  /** A batch of two files to partition 0. */
  lemma BatchOfTwo(s: Store, r: Record, q: Record)
    requires r.path.Some? && r.filename.Some? && q.path.Some? && q.filename.Some? && 0 in s.partitions
    ensures var files := [File(r.path.value, r.parent), File(q.path.value, q.parent)];
      && Candidates(s.rows, files, [None, None])
         == [Candidate(r.path.value, NestedPath(s.rows, files[0]), None),
             Candidate(q.path.value, NestedPath(s.rows, files[1]), None)]
      && Apply(s, Batch(0, [r, q], [None, None])) == AddBatch(s, 0, Candidates(s.rows, files, [None, None]))
  {
    IncomingTwo(r, q);
  }

  lemma BatchOfOne(s: Store, r: Record)
    requires r.path.Some? && r.filename.Some? && 0 in s.partitions
    ensures var files := [File(r.path.value, r.parent)];
      && Candidates(s.rows, files, [None]) == [Candidate(r.path.value, NestedPath(s.rows, files[0]), None)]
      && Apply(s, Batch(0, [r], [None])) == AddBatch(s, 0, Candidates(s.rows, files, [None]))
  {
    IncomingOne(r);
  }

  // ---- Paths stored twice ----

  lemma BothNew(c: Candidate, d: Candidate, stored: set<string>)
    requires c.path != d.path && c.path !in stored && d.path !in stored
    ensures NewOnes([c, d], stored) == [c, d]
  {
    assert [c, d][..1] == [c] && [c][..0] == [];
    assert NewOnes([c], stored) == [c];
    assert !HasPath([c], d.path);
  }

  /** Any two long paths that agree on what the column holds are stored as one path twice. */
  lemma LongPathsCollide(p: string, q: string)
    requires p != q && |p| > PATH_WIDTH && |q| > PATH_WIDTH && p[..PATH_WIDTH] == q[..PATH_WIDTH]
    ensures var events := [Register(0, 0)] + [Batch(0, [Sent(p, None), Sent(q, None)], [None, None])];
      !DistinctPaths(Run(EMPTY, events).rows, 0)
  {
    var batch := Batch(0, [Sent(p, None), Sent(q, None)], [None, None]);
    RegisterFirst([batch]);
    assert Run(REGISTERED, [batch]) == Apply(REGISTERED, batch) by {
      assert [batch][1..] == [];
    }
    BatchOfTwo(REGISTERED, Sent(p, None), Sent(q, None));
    var c, d := Candidate(p, p, None), Candidate(q, q, None);
    BothNew(c, d, StoredPaths(REGISTERED.rows, 0));
    assert !CutsApart(StoredPaths(REGISTERED.rows, 0), [c, d]) by {
      assert Fit([c, d][0].path) == Fit([c, d][1].path);
    }
    DistinctIffCutsApart(REGISTERED, 0, [c, d]);
  }

  function Long(last: char): (path: string)
    ensures |path| == PATH_WIDTH + 1 && path[PATH_WIDTH] == last
    ensures path[..PATH_WIDTH] == seq(PATH_WIDTH, _ => 'a')
  {
    seq(PATH_WIDTH, _ => 'a') + [last]
  }

  lemma PathsAreStoredTwice()
    ensures exists events :: !AllDistinct(Run(EMPTY, events))
  {
    var p, q := Long('p'), Long('q');
    assert p[PATH_WIDTH] != q[PATH_WIDTH];
    LongPathsCollide(p, q);
    var events := [Register(0, 0)] + [Batch(0, [Sent(p, None), Sent(q, None)], [None, None])];
    assert 0 in Run(EMPTY, events).partitions by {
      RegisterFirst([Batch(0, [Sent(p, None), Sent(q, None)], [None, None])]);
      BatchOfTwo(REGISTERED, Sent(p, None), Sent(q, None));
      assert [Batch(0, [Sent(p, None), Sent(q, None)], [None, None])][1..] == [];
    }
  }

  // ---- A batch that adds its rows again ----

  /** Any path longer than the column gets another row each time it is sent. */
  lemma LongPathAddedAgain(p: string)
    requires |p| > PATH_WIDTH
    ensures var batch := Batch(0, [Sent(p, None)], [None]);
      var once := Run(EMPTY, [Register(0, 0)] + [batch]);
      && 0 in once.partitions
      && |RowsOf(Apply(once, batch).rows, 0)| > |RowsOf(once.rows, 0)|
  {
    var batch := Batch(0, [Sent(p, None)], [None]);
    RegisterFirst([batch]);
    assert [batch][1..] == [];
    BatchOfOne(REGISTERED, Sent(p, None));
    var cs := Candidates(REGISTERED.rows, [File(p, None)], [None]);
    var once := AddBatch(REGISTERED, 0, cs);
    assert Run(EMPTY, [Register(0, 0)] + [batch]) == once;
    BatchKeepsValid(REGISTERED, 0, cs);
    assert !AllShort(cs) by { assert cs[0] in cs; }
    ResubmissionAddsNothingIff(REGISTERED, 0, [File(p, None)], [None], [None]);
    BatchOfOne(once, Sent(p, None));
    InsertCounts(once.rows, once.nextId, 0, NewOf(once, 0, Candidates(once.rows, [File(p, None)], [None])), 0);
  }

  // ---- A batch that is answered differently again ----

  ghost function SomeRow(rows: map<FileId, Row>, pid: PartitionId, path: string): (id: FileId)
    requires path in StoredPaths(rows, pid)
    ensures id in RowsOf(rows, pid) && rows[id].path == path
  {
    var id :| id in RowsOf(rows, pid) && rows[id].path == path;
    id
  }

  lemma LookupExists(rows: map<FileId, Row>, pid: PartitionId) returns (existing: map<string, FileId>)
    ensures IsLookup(rows, pid, existing)
  {
    existing := map path <- StoredPaths(rows, pid) :: SomeRow(rows, pid, path);
  }

  /** Whatever rows the lookups find, this batch of distinct, short paths is answered otherwise the second time. */
  ghost predicate AnsweredOtherwise(s: Store, files: seq<File>, known: seq<Option<nat>>)
    requires |known| == |files| && 0 in s.partitions
  {
    var cs := Candidates(s.rows, files, known);
    var t := AddBatch(s, 0, cs);
    && DistinctPaths(s.rows, 0) && DistinctSent(cs) && AllShort(cs)
    && (forall first, second | IsLookup(s.rows, 0, first) && IsLookup(t.rows, 0, second) ::
          Answer(s, 0, cs, first) != Answer(t, 0, Candidates(t.rows, files, known), second))
    && (exists first, second :: IsLookup(s.rows, 0, first) && IsLookup(t.rows, 0, second))
  }

  lemma RepeatIsAnsweredOtherwise(s: Store, files: seq<File>, known: seq<Option<nat>>)
    requires Valid(s) && |known| == |files| && 0 in s.partitions && DistinctPaths(s.rows, 0)
    requires var cs := Candidates(s.rows, files, known); DistinctSent(cs) && AllShort(cs) && !NoneRepeats(s, 0, cs)
    ensures AnsweredOtherwise(s, files, known)
  {
    var cs := Candidates(s.rows, files, known);
    var t := AddBatch(s, 0, cs);
    forall first, second | IsLookup(s.rows, 0, first) && IsLookup(t.rows, 0, second)
      ensures Answer(s, 0, cs, first) != Answer(t, 0, Candidates(t.rows, files, known), second)
    {
      ResubmissionReturnsSameIdsIff(s, 0, files, known, known, first, second);
    }
    var one := LookupExists(s.rows, 0);
    var two := LookupExists(t.rows, 0);
  }

  /** The partition once it holds one archive. */
  ghost predicate HoldsArchive(s: Store, name: string) {
    && Valid(s) && 0 in s.partitions && s.rows == map[1 := Row(0, name, None, true)]
  }

  lemma FirstRow(name: string) returns (s: Store)
    requires |name| <= PATH_WIDTH
    ensures Apply(REGISTERED, Batch(0, [Sent(name, None)], [None])) == s
    ensures Valid(s) && 0 in s.partitions && s.rows == map[1 := Row(0, name, None, false)]
  {
    RegisterFirst([]);
    BatchOfOne(REGISTERED, Sent(name, None));
    var c := Candidate(name, name, None);
    assert StoredPaths(REGISTERED.rows, 0) == {};
    assert [c][..0] == [] && NewOnes([c], {}) == [c];
    s := AddBatch(REGISTERED, 0, [c]);
    assert Insert(map[], 1, 0, [c]) == map[1 := NewRow(0, c)];
    BatchKeepsValid(REGISTERED, 0, [c]);
  }

  lemma ArchiveIsListed(name: string)
    requires |name| <= PATH_WIDTH
    ensures var events := [Register(0, 0)] + ([Batch(0, [Sent(name, None)], [None])] + [FoundArchive(1)]);
      HoldsArchive(Run(EMPTY, events), name)
  {
    RegisterFirst([Batch(0, [Sent(name, None)], [None])] + [FoundArchive(1)]);
    RunCons(REGISTERED, Batch(0, [Sent(name, None)], [None]), [FoundArchive(1)]);
    var listed := FirstRow(name);
    MarkKeepsValid(listed, 1);
    RunCons(listed, FoundArchive(1), []);
    assert [FoundArchive(1)] + [] == [FoundArchive(1)];
    assert HoldsArchive(MarkArchive(listed, 1), name);
  }

  lemma NestedPair(s: Store, name: string, inner: string)
    requires HoldsArchive(s, name) && !(name + "/" <= inner)
    ensures var whole := name + "/" + inner;
      Candidates(s.rows, [File(whole, None), File(inner, Some(1))], [None, None])
      == [Candidate(whole, whole, None), Candidate(inner, whole, None)]
  {
    assert name + "/" <= name + "/" + inner;
  }

  lemma SecondRepeats(s: Store, cs: seq<Candidate>, sent: string, other: string, path: string)
    requires 0 in s.partitions && cs == [Candidate(sent, path, None), Candidate(other, path, None)]
    requires sent != other && |path| <= PATH_WIDTH && path !in StoredPaths(s.rows, 0)
    ensures DistinctSent(cs) && AllShort(cs) && !NoneRepeats(s, 0, cs)
  {
    OnlyFirstIsNew(cs[0], cs[1], StoredPaths(s.rows, 0));
    assert cs[1] in cs;
  }

  /** A file sent with its whole path and another sent by its path within the archive meet. */
  lemma SameNestedPathTwice(s: Store, name: string, inner: string)
    requires HoldsArchive(s, name) && |name| + |inner| < PATH_WIDTH && !(name + "/" <= inner)
    ensures AnsweredOtherwise(s, [File(name + "/" + inner, None), File(inner, Some(1))], [None, None])
  {
    var whole := name + "/" + inner;
    var files := [File(whole, None), File(inner, Some(1))];
    NestedPair(s, name, inner);
    assert StoredPaths(s.rows, 0) == {name} by { assert RowsOf(s.rows, 0) == {1}; }
    assert |whole| > |name|;
    SecondRepeats(s, Candidates(s.rows, files, [None, None]), whole, inner, whole);
    RepeatIsAnsweredOtherwise(s, files, [None, None]);
  }

  lemma OnlyFirstIsNew(c: Candidate, d: Candidate, stored: set<string>)
    requires c.path == d.path && c.path !in stored
    ensures NewOnes([c, d], stored) == [c]
  {
    assert [c, d][..1] == [c] && [c][..0] == [];
    assert NewOnes([c], stored) == [c];
    assert c in [c] && HasPath([c], d.path);
  }

  lemma BatchIsAnsweredOtherwise()
    ensures exists events, files :: |files| == 2 && 0 in Run(EMPTY, events).partitions
                                    && AnsweredOtherwise(Run(EMPTY, events), files, [None, None])
  {
    var events := [Register(0, 0)] + ([Batch(0, [Sent("x", None)], [None])] + [FoundArchive(1)]);
    ArchiveIsListed("x");
    var reached := Run(EMPTY, events);
    SameNestedPathTwice(reached, "x", "y");
    var files := [File("x" + "/" + "y", None), File("y", Some(1))];
    assert |files| == 2 && 0 in reached.partitions && AnsweredOtherwise(reached, files, [None, None]);
  }
}
