/** The revision-chain checker: ci/check_migration_sanity.py. */
module MigrationChain {
  import opened Options
  import opened ParentForest

  datatype Migration = Migration(filename: string, revision: Option<string>, downRevision: Option<string>)

  /**
    What the checker reports.  One value stands for one finding; the branch-point
    header and its lines are a single value, and lists that are printed in sorted
    order are sets or maps here.
   */
  datatype ChainError =
    | MissingRevision(filename: string)
    | DuplicateRevision(revision: string, filename: string, first: string)
    | NoRoot
    | MultipleRoots(roots: seq<Migration>)
    | BranchPoints(points: map<string, seq<Migration>>)
    | Orphaned(revisions: set<string>)
    | NoHead
    | MultipleHeads(heads: set<Migration>)

  // ---- What a linear chain is ----

  /** Every migration has a revision of its own. */
  ghost predicate Keyed(ms: seq<Migration>) {
    && (forall m <- ms :: m.revision.Some?)
    && (forall i, j | 0 <= i < j < |ms| :: ms[i].revision != ms[j].revision)
  }

  /** What position `i` of a chain must extend: nothing, or the migration before it. */
  ghost function Before(ms: seq<Migration>, i: nat): Option<string>
    requires i < |ms|
  {
    if i == 0 then None else ms[i - 1].revision
  }

  /** The root comes first, and each later migration extends the one before it. */
  ghost predicate Linked(ms: seq<Migration>) {
    forall i {:trigger Before(ms, i)} | 0 <= i < |ms| :: ms[i].downRevision == Before(ms, i)
  }

  /** What the listing holds below position `i` of a walk: the next stop, or nothing at its end. */
  ghost function After(walk: seq<Migration>, i: nat): seq<Migration>
    requires i < |walk|
  {
    if i == |walk| - 1 then [] else [walk[i + 1]]
  }

  /** The walk takes the only way down at every stop, and stops where there is none. */
  ghost predicate Forced(ms: seq<Migration>, walk: seq<Migration>) {
    forall i {:trigger After(walk, i)} | 0 <= i < |walk| :: ChildrenOf(ms, walk[i].revision) == After(walk, i)
  }

  ghost predicate Chain(ms: seq<Migration>) {
    ms != [] && Keyed(ms) && Linked(ms)
  }

  ghost predicate IsOrdering(order: seq<Migration>, ms: seq<Migration>) {
    multiset(order) == multiset(ms) && Chain(order)
  }

  /** The bag of migrations can be put in order as one chain. */
  ghost predicate Linear(ms: seq<Migration>) {
    exists order :: IsOrdering(order, ms)
  }

  // ---- What the checker should report ----

  ghost predicate HasRevision(ms: seq<Migration>, rev: string) {
    exists m <- ms :: m.revision == Some(rev)
  }

  /** The migrations that enter the maps: those with a revision not seen before. */
  ghost function Accepted(ms: seq<Migration>): seq<Migration> {
    if ms == [] then []
    else
      var init, m := ms[..|ms| - 1], ms[|ms| - 1];
      if m.revision.None? || HasRevision(init, m.revision.value) then Accepted(init)
      else Accepted(init) + [m]
  }

  /** The migrations that extend `down`, in listing order; None asks for the roots. */
  ghost function ChildrenOf(ms: seq<Migration>, down: Option<string>): seq<Migration> {
    if ms == [] then []
    else
      var rest := ChildrenOf(ms[..|ms| - 1], down);
      if ms[|ms| - 1].downRevision == down then rest + [ms[|ms| - 1]] else rest
  }

  ghost function FirstWith(ms: seq<Migration>, rev: string): Migration
    requires HasRevision(ms, rev)
  {
    if ms[0].revision == Some(rev) then ms[0] else FirstWith(ms[1..], rev)
  }

  ghost function IntakeErrors(ms: seq<Migration>): seq<ChainError> {
    if ms == [] then []
    else
      var init, m := ms[..|ms| - 1], ms[|ms| - 1];
      IntakeErrors(init) +
      if m.revision.None? then [MissingRevision(m.filename)]
      else if HasRevision(init, m.revision.value) then
        [DuplicateRevision(m.revision.value, m.filename, FirstWith(init, m.revision.value).filename)]
      else []
  }

  ghost function RootErrors(roots: seq<Migration>): seq<ChainError> {
    if |roots| == 0 then [NoRoot] else if |roots| > 1 then [MultipleRoots(roots)] else []
  }

  ghost function Revisions(ms: seq<Migration>): set<string> {
    set m <- ms | m.revision.Some? :: m.revision.value
  }

  ghost function Downs(ms: seq<Migration>): set<string> {
    set m <- ms | m.downRevision.Some? :: m.downRevision.value
  }

  ghost function Branches(ms: seq<Migration>): map<string, seq<Migration>> {
    map d <- Downs(ms) | |ChildrenOf(ms, Some(d))| > 1 :: ChildrenOf(ms, Some(d))
  }

  ghost function BranchErrors(ms: seq<Migration>): seq<ChainError> {
    if Branches(ms) == map[] then [] else [BranchPoints(Branches(ms))]
  }

  /** The parent pointers that the accepted migrations declare. */
  ghost function ParentsOf(ms: seq<Migration>): Parents<string> {
    if ms == [] then map[]
    else
      var m := ms[|ms| - 1];
      if m.revision.None? then ParentsOf(ms[..|ms| - 1])
      else ParentsOf(ms[..|ms| - 1])[m.revision.value := m.downRevision]
  }

  /** The revisions that do not descend from `root`. */
  ghost function Orphans(ms: seq<Migration>, root: string): set<string> {
    set r <- Revisions(ms) | !AtOrAbove(ParentsOf(ms), root, r)
  }

  ghost function OrphanErrors(ms: seq<Migration>): seq<ChainError> {
    var roots := ChildrenOf(ms, None);
    if |roots| == 1 && roots[0].revision.Some? && Orphans(ms, roots[0].revision.value) != {}
    then [Orphaned(Orphans(ms, roots[0].revision.value))] else []
  }

  ghost function Members(ms: seq<Migration>): set<Migration> {
    set m <- ms
  }

  /** The "heads" the checker reports are the migrations that are nobody's child: the roots. */
  ghost function HeadErrors(roots: seq<Migration>): seq<ChainError> {
    if |roots| == 0 then [NoHead]
    else if |roots| > 1 then [MultipleHeads(Members(roots))] else []
  }

  ghost function Report(ms: seq<Migration>): seq<ChainError> {
    if ms == [] then []
    else
      var accepted := Accepted(ms);
      var roots := ChildrenOf(accepted, None);
      var early := IntakeErrors(ms) + RootErrors(roots) + BranchErrors(accepted);
      early + (if early == [] then OrphanErrors(accepted) else []) + HeadErrors(roots)
  }

  // ---- Facts about the listing functions ----

  lemma {:induction false} AcceptedKeyed(ms: seq<Migration>)
    ensures Keyed(Accepted(ms))
    ensures forall m <- Accepted(ms) :: m in ms
    ensures Revisions(Accepted(ms)) == Revisions(ms)
  {
    if ms != [] {
      var init, m := ms[..|ms| - 1], ms[|ms| - 1];
      AcceptedKeyed(init);
      assert ms == init + [m];
      if m.revision.Some? && !HasRevision(init, m.revision.value) {
        var acc := Accepted(init);
        forall a <- acc ensures a.revision != m.revision { assert a in init; }
      }
      forall x <- ms | x.revision.Some? ensures x.revision.value in Revisions(Accepted(ms)) {
        if x in init {
          assert x.revision.value in Revisions(init);
        } else if HasRevision(init, m.revision.value) {
          assert m.revision.value in Revisions(init);
        } else {
          assert m in Accepted(ms);
        }
        assert forall a <- Accepted(init) :: a in Accepted(ms);
      }
    }
  }

  lemma KeyedInit(ms: seq<Migration>)
    requires Keyed(ms) && ms != []
    ensures Keyed(ms[..|ms| - 1]) && ms[|ms| - 1].revision.Some?
    ensures forall x <- ms[..|ms| - 1] :: x in ms && x.revision != ms[|ms| - 1].revision
    ensures forall x <- ms :: x in ms[..|ms| - 1] || x == ms[|ms| - 1]
  {
    var init := ms[..|ms| - 1];
    assert ms == init + [ms[|ms| - 1]];
    assert forall i | 0 <= i < |init| :: init[i] == ms[i];
  }

  lemma KeyedAppend(ms: seq<Migration>, m: Migration)
    requires Keyed(ms) && m.revision.Some? && !HasRevision(ms, m.revision.value)
    ensures Keyed(ms + [m])
  {
    assert forall i | 0 <= i < |ms| :: ms[i] in ms;
  }

  lemma KeyedIffInit(ms: seq<Migration>)
    requires ms != []
    ensures var init, m := ms[..|ms| - 1], ms[|ms| - 1];
      Keyed(ms) <==> Keyed(init) && m.revision.Some? && !HasRevision(init, m.revision.value)
  {
    var init, m := ms[..|ms| - 1], ms[|ms| - 1];
    assert ms == init + [m];
    if Keyed(ms) { KeyedInit(ms); }
    if Keyed(init) && m.revision.Some? && !HasRevision(init, m.revision.value) { KeyedAppend(init, m); }
  }

  /** Nothing is dropped, and nothing reported, exactly when the listing is keyed. */
  lemma {:induction false} IntakeCleanIffKeyed(ms: seq<Migration>)
    ensures IntakeErrors(ms) == [] <==> Keyed(ms)
    ensures Keyed(ms) ==> Accepted(ms) == ms
  {
    if ms != [] {
      IntakeCleanIffKeyed(ms[..|ms| - 1]);
      KeyedIffInit(ms);
    }
  }

  lemma {:induction false} ChildrenAre(ms: seq<Migration>, down: Option<string>)
    ensures forall m :: m in ChildrenOf(ms, down) <==> m in ms && m.downRevision == down
    ensures Keyed(ms) ==> Keyed(ChildrenOf(ms, down))
  {
    if ms != [] {
      var init, m := ms[..|ms| - 1], ms[|ms| - 1];
      ChildrenAre(init, down);
      assert ms == init + [m];
      if Keyed(ms) {
        assert forall i | 0 <= i < |init| :: init[i] == ms[i];
        assert Keyed(init);
        forall c <- ChildrenOf(init, down) ensures c.revision != m.revision {
          var i :| 0 <= i < |init| && init[i] == c;
          assert ms[i] == c;
        }
      }
    }
  }

  lemma SameRevisionSame(ms: seq<Migration>, a: Migration, b: Migration)
    requires Keyed(ms) && a in ms && b in ms && a.revision == b.revision
    ensures a == b
  {
    var i :| 0 <= i < |ms| && ms[i] == a;
    var j :| 0 <= j < |ms| && ms[j] == b;
  }

  lemma OtherRevision(ms: seq<Migration>, a: Migration, b: Migration)
    requires Keyed(ms) && a in ms && b in ms && a != b
    ensures a.revision != b.revision
  {
    var i :| 0 <= i < |ms| && ms[i] == a;
    var j :| 0 <= j < |ms| && ms[j] == b;
  }

  lemma {:induction false} ParentsOfKeyed(ms: seq<Migration>)
    requires Keyed(ms)
    ensures ParentsOf(ms).Keys == Revisions(ms)
    ensures forall m <- ms :: m.revision.value in ParentsOf(ms) && ParentsOf(ms)[m.revision.value] == m.downRevision
  {
    if ms != [] {
      KeyedInit(ms);
      ParentsOfKeyed(ms[..|ms| - 1]);
      assert Revisions(ms) == Revisions(ms[..|ms| - 1]) + {ms[|ms| - 1].revision.value};
    }
  }

  // ---- Walking down from the root ----

  /** A walk from the root over migrations of a keyed listing. */
  ghost predicate Trail(ms: seq<Migration>, trail: seq<Migration>) {
    Keyed(ms) && Linked(trail) && forall m <- trail :: m in ms
  }

  lemma LinkedInit(ms: seq<Migration>)
    requires ms != [] && Linked(ms)
    ensures Linked(ms[..|ms| - 1])
  {
    var init := ms[..|ms| - 1];
    forall i | 0 <= i < |init| ensures init[i].downRevision == Before(init, i) {
      assert ms[i].downRevision == Before(ms, i);
    }
  }

  /** A walk never meets a revision twice, although the code does not look. */
  lemma {:induction false} TrailKeyed(ms: seq<Migration>, trail: seq<Migration>)
    requires Trail(ms, trail)
    ensures Keyed(trail)
  {
    if trail != [] {
      var init, last := trail[..|trail| - 1], trail[|trail| - 1];
      LinkedInit(trail);
      TrailKeyed(ms, init);
      forall i | 0 <= i < |init| ensures trail[i].revision != last.revision {
        assert init[|init| - 1] in ms;
        assert i > 0 ==> init[i - 1].revision != init[|init| - 1].revision;
        assert trail[i].downRevision == Before(trail, i) != Before(trail, |init|) == last.downRevision;
        OtherRevision(ms, trail[i], last);
      }
    }
  }

  lemma {:induction false} TrailReachable(ms: seq<Migration>, trail: seq<Migration>, i: nat)
    requires Trail(ms, trail) && i < |trail|
    ensures trail[0].revision.Some? && trail[i].revision.Some?
    ensures AtOrAbove(ParentsOf(ms), trail[0].revision.value, trail[i].revision.value)
  {
    var parents := ParentsOf(ms);
    ParentsOfKeyed(ms);
    assert trail[0] in ms && trail[i] in ms;
    if i == 0 {
      assert Climb(parents, trail[0].revision.value, 0) == Some(trail[0].revision.value);
    } else {
      TrailReachable(ms, trail, i - 1);
      assert trail[i].downRevision == Before(trail, i);
      var n: nat :| Climb(parents, trail[i - 1].revision.value, n) == Some(trail[0].revision.value);
      assert Climb(parents, trail[i].revision.value, n + 1) == Some(trail[0].revision.value);
    }
  }

  /** If the revisions in `seen` are closed under children, they hold all that descends from them. */
  lemma {:induction false} ClosedHoldsDescendants(ms: seq<Migration>, seen: set<string>, rev: string, n: nat)
    requires Keyed(ms)
    requires forall m <- ms :: m.downRevision.Some? && m.downRevision.value in seen ==> m.revision.value in seen
    requires Climb(ParentsOf(ms), rev, n).Some? && Climb(ParentsOf(ms), rev, n).value in seen
    ensures rev in seen
    decreases n
  {
    ParentsOfKeyed(ms);
    if n > 0 {
      ClosedHoldsDescendants(ms, seen, ParentsOf(ms)[rev].value, n - 1);
      var m :| m in ms && m.revision == Some(rev);
    }
  }

  /** A walk that ended at a childless migration visited exactly the descendants of the root. */
  lemma EndedTrailVisits(ms: seq<Migration>, trail: seq<Migration>)
    requires Trail(ms, trail) && trail != []
    requires Forced(ms, trail)
    ensures trail[0].revision.Some?
    ensures Revisions(trail) == Revisions(ms) - Orphans(ms, trail[0].revision.value)
  {
    assert trail[0] in ms;
    var root := trail[0].revision.value;
    var seen := Revisions(trail);
    forall r <- seen ensures r in Revisions(ms) && AtOrAbove(ParentsOf(ms), root, r) {
      var i :| 0 <= i < |trail| && trail[i].revision == Some(r);
      TrailReachable(ms, trail, i);
      assert trail[i] in ms;
    }
    forall m <- ms | m.downRevision.Some? && m.downRevision.value in seen ensures m.revision.value in seen {
      var i :| 0 <= i < |trail| && trail[i].revision == m.downRevision;
      ChildrenAre(ms, trail[i].revision);
      assert m in After(trail, i);
      assert m == trail[i + 1];
    }
    forall r <- Revisions(ms) | AtOrAbove(ParentsOf(ms), root, r) ensures r in seen {
      var n: nat :| Climb(ParentsOf(ms), r, n) == Some(root);
      ClosedHoldsDescendants(ms, seen, r, n);
    }
  }

  // ---- Empty report <==> linear ----

  lemma {:induction false} KeyedCounts(ms: seq<Migration>, m: Migration)
    requires Keyed(ms)
    ensures multiset(ms)[m] == if m in ms then 1 else 0
  {
    if ms != [] {
      var init, last := ms[..|ms| - 1], ms[|ms| - 1];
      assert ms == init + [last];
      assert forall i | 0 <= i < |init| :: init[i] == ms[i];
      KeyedCounts(init, m);
      forall i | 0 <= i < |init| ensures init[i] != last {
        assert ms[i].revision != ms[|ms| - 1].revision;
      }
    }
  }

  lemma KeyedPermutation(a: seq<Migration>, b: seq<Migration>)
    requires Keyed(a) && Keyed(b) && forall m :: m in a <==> m in b
    ensures multiset(a) == multiset(b)
  {
    forall m ensures multiset(a)[m] == multiset(b)[m] {
      KeyedCounts(a, m);
      KeyedCounts(b, m);
    }
  }

  lemma PermutationKeyed(a: seq<Migration>, b: seq<Migration>)
    requires Keyed(a) && multiset(a) == multiset(b)
    ensures Keyed(b) && forall m :: m in a <==> m in b
  {
    forall m ensures m in a <==> m in b {
      assert m in multiset(a) <==> m in multiset(b);
    }
    forall i, j | 0 <= i < j < |b| ensures b[i].revision != b[j].revision {
      if b[i].revision == b[j].revision {
        assert b[i] in a && b[j] in a;
        SameRevisionSame(a, b[i], b[j]);
        assert b == b[..i] + [b[i]] + b[i + 1..j] + [b[j]] + b[j + 1..];
        assert multiset(b)[b[i]] >= 2;
        KeyedCounts(a, b[i]);
      }
    }
  }

  lemma AtMostOneKeyed(ms: seq<Migration>, only: Migration)
    requires Keyed(ms) && forall m :: m in ms <==> m == only
    ensures ms == [only]
  {
    assert only in ms;
    forall i | 0 <= i < |ms| ensures ms[i] == only {
      assert ms[i] in ms;
    }
    assert |ms| > 1 ==> ms[0].revision != ms[1].revision;
  }

  /** In a chain the only migration extending position i is the one at i + 1. */
  lemma ChainChildren(ms: seq<Migration>, order: seq<Migration>, i: nat)
    requires IsOrdering(order, ms) && i < |order|
    ensures ChildrenOf(ms, order[i].revision) == After(order, i)
    ensures ChildrenOf(ms, None) == [order[0]]
    ensures Keyed(ms) && Trail(ms, order)
  {
    PermutationKeyed(order, ms);
    assert order[i] in order && order[0] in order;
    var kids := ChildrenOf(ms, order[i].revision);
    ChildrenAre(ms, order[i].revision);
    forall m | m in kids ensures i < |order| - 1 && m == order[i + 1] {
      assert m in ms && m.downRevision == order[i].revision;
      assert m in order && order[i].revision.Some?;
      var k :| 0 <= k < |order| && order[k] == m;
      assert order[k].downRevision == Before(order, k);
      assert k > 0 && order[k - 1].revision == order[i].revision;
    }
    if i < |order| - 1 {
      assert order[i + 1] in order && order[i + 1].downRevision == Before(order, i + 1);
      AtMostOneKeyed(kids, order[i + 1]);
    } else {
      assert forall j | 0 <= j < |kids| :: kids[j] in kids;
    }
    ChildrenAre(ms, None);
    forall m | m in ChildrenOf(ms, None) ensures m == order[0] {
      assert m in order;
      var k :| 0 <= k < |order| && order[k] == m;
      assert order[k].downRevision == Before(order, k);
      assert forall j | 0 <= j < |order| :: order[j] in order;
    }
    assert order[0].downRevision == Before(order, 0);
    assert order[0] in ms && order[0].downRevision == None;
    AtMostOneKeyed(ChildrenOf(ms, None), order[0]);
  }

  lemma NoBranches(ms: seq<Migration>)
    ensures Branches(ms) == map[] <==> forall d: string :: |ChildrenOf(ms, Some(d))| <= 1
  {
    forall d: string | |ChildrenOf(ms, Some(d))| > 1 ensures d in Branches(ms) {
      ChildrenAre(ms, Some(d));
      var kid := ChildrenOf(ms, Some(d))[0];
      assert kid in ms && kid.downRevision == Some(d);
    }
    if Branches(ms) != map[] {
      var d :| d in Branches(ms);
    }
  }

  /** From a listing with one root, no branch and no orphan, a chain can be read off. */
  lemma {:induction false} WalkDown(ms: seq<Migration>, trail: seq<Migration>) returns (full: seq<Migration>)
    requires Trail(ms, trail) && trail != []
    requires forall d: string :: |ChildrenOf(ms, Some(d))| <= 1
    requires forall i {:trigger After(trail, i)} | 0 <= i < |trail| - 1 ::
      ChildrenOf(ms, trail[i].revision) == After(trail, i)
    ensures Trail(ms, full) && full != [] && full[0] == trail[0] && Forced(ms, full)
    decreases Revisions(ms) - Revisions(trail)
  {
    var last := trail[|trail| - 1];
    assert last in ms;
    var kids := ChildrenOf(ms, last.revision);
    if kids == [] {
      full := trail;
    } else {
      assert last.revision == Some(last.revision.value);
      assert |kids| == 1 && kids[0] in kids;
      ChildrenAre(ms, last.revision);
      var next := trail + kids;
      forall i | 0 <= i < |next| ensures next[i].downRevision == Before(next, i) {
        if i < |trail| { assert trail[i].downRevision == Before(trail, i); }
      }
      forall i | 0 <= i < |trail| ensures ChildrenOf(ms, next[i].revision) == After(next, i) {
        if i < |trail| - 1 { assert ChildrenOf(ms, trail[i].revision) == After(trail, i); }
      }
      TrailKeyed(ms, next);
      assert kids[0].revision.value in Revisions(ms);
      forall m <- trail ensures m.revision != kids[0].revision {
        var i :| 0 <= i < |trail| && trail[i] == m;
        assert next[i] == m && next[|trail|] == kids[0];
      }
      assert kids[0].revision.value !in Revisions(trail);
      assert Revisions(next) == Revisions(trail) + {kids[0].revision.value} by {
        assert forall m :: m in next <==> m in trail || m == kids[0];
      }
      full := WalkDown(ms, next);
    }
  }

  lemma CleanIsLinear(ms: seq<Migration>)
    requires Keyed(ms) && |ChildrenOf(ms, None)| == 1
    requires Branches(ms) == map[] && OrphanErrors(ms) == []
    ensures Linear(ms)
  {
    var root := ChildrenOf(ms, None)[0];
    ChildrenAre(ms, None);
    assert root in ChildrenOf(ms, None);
    NoBranches(ms);
    var order := WalkDown(ms, [root]);
    EndedTrailVisits(ms, order);
    TrailKeyed(ms, order);
    assert Revisions(order) == Revisions(ms);
    forall m ensures m in order <==> m in ms {
      if m in ms {
        assert m.revision.value in Revisions(ms);
        var x :| x in order && x.revision == m.revision;
        SameRevisionSame(ms, x, m);
      }
    }
    KeyedPermutation(order, ms);
    assert IsOrdering(order, ms);
  }

  lemma LinearHasOneChild(ms: seq<Migration>, order: seq<Migration>, d: string)
    requires IsOrdering(order, ms)
    ensures |ChildrenOf(ms, Some(d))| <= 1
  {
    ChildrenAre(ms, Some(d));
    if ChildrenOf(ms, Some(d)) != [] {
      var kid := ChildrenOf(ms, Some(d))[0];
      assert kid in ms;
      PermutationKeyed(order, ms);
      var k :| 0 <= k < |order| && order[k] == kid;
      assert order[k].downRevision == Before(order, k);
      assert order[k - 1].revision == Some(d);
      ChainChildren(ms, order, k - 1);
    }
  }

  lemma LinearHasNoBranch(ms: seq<Migration>, order: seq<Migration>)
    requires IsOrdering(order, ms)
    ensures Branches(ms) == map[]
  {
    forall d: string ensures |ChildrenOf(ms, Some(d))| <= 1 {
      LinearHasOneChild(ms, order, d);
    }
    NoBranches(ms);
  }

  lemma LinearHasNoOrphan(ms: seq<Migration>, order: seq<Migration>)
    requires IsOrdering(order, ms)
    ensures ChildrenOf(ms, None) == [order[0]] && OrphanErrors(ms) == []
  {
    forall i | 0 <= i < |order| ensures ChildrenOf(ms, order[i].revision) == After(order, i) {
      ChainChildren(ms, order, i);
    }
    ChainChildren(ms, order, 0);
    EndedTrailVisits(ms, order);
    PermutationKeyed(order, ms);
    assert Revisions(order) == Revisions(ms);
  }

  lemma LinearIsClean(ms: seq<Migration>)
    requires Linear(ms)
    ensures Report(ms) == []
  {
    var order: seq<Migration> :| IsOrdering(order, ms);
    PermutationKeyed(order, ms);
    IntakeCleanIffKeyed(ms);
    LinearHasNoBranch(ms, order);
    LinearHasNoOrphan(ms, order);
  }

  /** The checker is exact: it is silent precisely on one linear chain (or an empty listing). */
  lemma SilentIffLinear(ms: seq<Migration>)
    ensures Report(ms) == [] <==> ms == [] || Linear(ms)
  {
    if ms != [] && Report(ms) == [] {
      IntakeCleanIffKeyed(ms);
      CleanIsLinear(ms);
    }
    if Linear(ms) {
      LinearIsClean(ms);
    }
  }

  predicate IsRootFinding(e: ChainError) { e.NoRoot? || e.MultipleRoots? }

  predicate IsHeadFinding(e: ChainError) { e.NoHead? || e.MultipleHeads? }

  lemma OtherFindings(ms: seq<Migration>, accepted: seq<Migration>, e: ChainError)
    requires IsRootFinding(e) || IsHeadFinding(e)
    ensures e !in IntakeErrors(ms) && e !in BranchErrors(accepted) && e !in OrphanErrors(accepted)
  {
    IntakeKinds(ms);
  }

  /** Root and head findings come from the root and head checks alone. */
  lemma FindingsOfRootsAndHeads(ms: seq<Migration>, e: ChainError)
    requires ms != [] && (IsRootFinding(e) || IsHeadFinding(e))
    ensures var roots := ChildrenOf(Accepted(ms), None);
      e in Report(ms) <==> if IsRootFinding(e) then e in RootErrors(roots) else e in HeadErrors(roots)
  {
    var accepted := Accepted(ms);
    OtherFindings(ms, accepted, e);
    var roots := ChildrenOf(accepted, None);
    var early := IntakeErrors(ms) + RootErrors(roots) + BranchErrors(accepted);
    var orphan := if early == [] then OrphanErrors(accepted) else [];
    assert e !in orphan;
    assert Report(ms) == early + orphan + HeadErrors(roots);
    assert e in Report(ms) <==> e in RootErrors(roots) || e in HeadErrors(roots);
  }

  /**
    The "head" lines say nothing of their own: they fire exactly when the root
    lines do, and they name the same migrations.  The single head comes from the walk.
   */
  lemma HeadLinesRepeatRootLines(ms: seq<Migration>, heads: set<Migration>)
    requires ms != []
    ensures NoHead in Report(ms) <==> NoRoot in Report(ms)
    ensures MultipleHeads(heads) in Report(ms) <==>
            exists roots :: MultipleRoots(roots) in Report(ms) && heads == Members(roots)
  {
    var roots := ChildrenOf(Accepted(ms), None);
    FindingsOfRootsAndHeads(ms, NoRoot);
    FindingsOfRootsAndHeads(ms, NoHead);
    FindingsOfRootsAndHeads(ms, MultipleHeads(heads));
    forall rs ensures MultipleRoots(rs) in Report(ms) <==> |roots| > 1 && rs == roots {
      FindingsOfRootsAndHeads(ms, MultipleRoots(rs));
    }
  }

  lemma {:induction false} IntakeKinds(ms: seq<Migration>)
    ensures forall e <- IntakeErrors(ms) :: e.MissingRevision? || e.DuplicateRevision?
  {
    if ms != [] { IntakeKinds(ms[..|ms| - 1]); }
  }
}
