/** The downgrade target before a branch switch: devtools/db_branch_switch.py. */
module BranchSwitch {
  import opened Options
  import opened ParentForest
  import opened MigrationChain
  import opened MergeGuard

  /** The revision to go down to (None is the base), or the warned-about default. */
  datatype DowngradeTarget = Found(down: Option<string>) | GaveUp

  /** revision -> down_revision; a later file overwrites an earlier one. */
  ghost function Table(ms: seq<Migration>): Parents<string> {
    if ms == [] then map[]
    else
      var m := ms[|ms| - 1];
      if Named(m.revision) then Table(ms[..|ms| - 1])[m.revision.value := m.downRevision]
      else Table(ms[..|ms| - 1])
  }

  /** The keys of the table, in the order in which they entered it. */
  ghost function Keys(ms: seq<Migration>): seq<string> {
    if ms == [] then []
    else
      var keys, m := Keys(ms[..|ms| - 1]), ms[|ms| - 1];
      if Named(m.revision) && m.revision.value !in keys then keys + [m.revision.value] else keys
  }

  lemma {:induction false} KeysAreKeys(ms: seq<Migration>)
    ensures forall rev :: rev in Keys(ms) <==> rev in Table(ms)
  {
    if ms != [] { KeysAreKeys(ms[..|ms| - 1]); }
  }

  /** The revision extends another one of the table. */
  predicate Inside(table: Parents<string>, rev: string)
    requires rev in table
  {
    table[rev].Some? && table[rev].value in table
  }

  /** The first key, in order, that extends nothing of the table. */
  ghost predicate IsFirstOutside(ms: seq<Migration>, rev: string) {
    && rev in Table(ms) && !Inside(Table(ms), rev)
    && exists i :: 0 <= i < |Keys(ms)| && Keys(ms)[i] == rev && AllInside(Table(ms), Keys(ms)[..i])
  }

  ghost predicate AllInside(table: Parents<string>, revs: seq<string>) {
    forall rev <- revs :: rev in table && Inside(table, rev)
  }

  method FindDowngradeTarget(migrations: seq<Migration>) returns (target: DowngradeTarget)
    ensures target.GaveUp? <==> forall rev <- Table(migrations) :: Inside(Table(migrations), rev)
    ensures target.Found? ==>
      exists rev :: IsFirstOutside(migrations, rev) && target.down == Table(migrations)[rev]
  {
    var revisions: Parents<string> := map[];
    var order: seq<string> := [];
    for i := 0 to |migrations|
      invariant revisions == Table(migrations[..i]) && order == Keys(migrations[..i])
      invariant forall rev :: rev in order <==> rev in revisions
    {
      var m := migrations[i];
      assert migrations[..i + 1][..i] == migrations[..i];
      if Named(m.revision) {
        if m.revision.value !in revisions {
          order := order + [m.revision.value];
        }
        revisions := revisions[m.revision.value := m.downRevision];
      }
    }
    assert migrations[..|migrations|] == migrations;
    KeysAreKeys(migrations);
    for i := 0 to |order|
      invariant forall j | 0 <= j < i :: Inside(revisions, order[j])
    {
      var rev := order[i];
      if !Inside(revisions, rev) {
        assert AllInside(revisions, order[..i]);
        assert IsFirstOutside(migrations, rev);
        return Found(revisions[rev]);
      }
    }
    return GaveUp;
  }

  lemma {:induction false} TableIsParentsOf(ms: seq<Migration>)
    requires AllNamed(ms)
    ensures Table(ms) == ParentsOf(ms)
  {
    if ms != [] {
      assert ms[|ms| - 1] in ms;
      assert forall m <- ms[..|ms| - 1] :: m in ms;
      TableIsParentsOf(ms[..|ms| - 1]);
    }
  }

  /**
    For a chain segment standing on `below`, in whatever order its files are
    listed, `below` is the only answer the search can give.
   */
  lemma SegmentTarget(ms: seq<Migration>, segment: seq<Migration>, below: Option<string>, rev: string)
    requires segment != [] && multiset(segment) == multiset(ms) && AllNamed(ms)
    requires Keyed(segment) && segment[0].downRevision == below
    requires forall i {:trigger Before(segment, i)} | 0 < i < |segment| :: segment[i].downRevision == Before(segment, i)
    requires forall m <- ms :: m.revision != below
    requires rev in Table(ms)
    ensures !Inside(Table(ms), rev) <==> Some(rev) == segment[0].revision
    ensures segment[0].revision.Some? && segment[0].revision.value in Table(ms)
    ensures Table(ms)[segment[0].revision.value] == below
  {
    PermutationKeyed(segment, ms);
    TableIsParentsOf(ms);
    ParentsOfKeyed(ms);
    assert segment[0] in segment;
    var m :| m in ms && m.revision == Some(rev);
    assert m in segment;
    var i :| 0 <= i < |segment| && segment[i] == m;
    if i > 0 {
      assert segment[i].downRevision == Before(segment, i);
      assert segment[i - 1] in segment;
    }
    forall r <- Revisions(ms) ensures Some(r) != below {
      var x :| x in ms && x.revision == Some(r);
    }
  }

  /** Going down from a segment lands on the revision it stands on. */
  method DowngradeFromSegment(ms: seq<Migration>, ghost segment: seq<Migration>, ghost below: Option<string>)
    returns (target: DowngradeTarget)
    requires segment != [] && multiset(segment) == multiset(ms) && AllNamed(ms)
    requires Keyed(segment) && segment[0].downRevision == below
    requires forall i {:trigger Before(segment, i)} | 0 < i < |segment| :: segment[i].downRevision == Before(segment, i)
    requires forall m <- ms :: m.revision != below
    ensures target == Found(below)
  {
    target := FindDowngradeTarget(ms);
    PermutationKeyed(segment, ms);
    TableIsParentsOf(ms);
    ParentsOfKeyed(ms);
    assert segment[0] in segment;
    forall rev | rev in Table(ms) ensures !Inside(Table(ms), rev) <==> Some(rev) == segment[0].revision {
      SegmentTarget(ms, segment, below, rev);
    }
    SegmentTarget(ms, segment, below, segment[0].revision.value);
  }

  lemma {:induction false} InsideNeverEnds(table: Parents<string>, rev: string, n: nat)
    requires rev in table && forall r <- table :: Inside(table, r)
    ensures Climb(table, rev, n).Some?
    decreases n
  {
    if n > 0 { InsideNeverEnds(table, table[rev].value, n - 1); }
  }

  /**
    The search gives up exactly when no walk down the table ends, so only for an
    empty listing or one that holds a cycle.
   */
  lemma GivesUpIffNoWalkEnds(table: Parents<string>)
    ensures (forall rev <- table :: Inside(table, rev)) <==> (forall rev <- table :: !Grounded(table, rev))
    ensures (forall rev <- table :: Inside(table, rev)) ==> table == map[] || exists rev <- table :: OnCycle(table, rev)
  {
    if forall rev <- table :: Inside(table, rev) {
      forall rev <- table ensures !Grounded(table, rev) {
        forall n: nat ensures Climb(table, rev, n).Some? { InsideNeverEnds(table, rev, n); }
      }
      AcyclicIffNoCycle(table);
      assert table != map[] ==> exists rev :: rev in table;
    }
    forall rev <- table | !Inside(table, rev) ensures Grounded(table, rev) {
      if table[rev].None? {
        assert Climb(table, rev, 1).None?;
      } else {
        assert Climb(table, table[rev].value, 1).None?;
        assert Climb(table, rev, 2).None?;
      }
    }
  }
}
