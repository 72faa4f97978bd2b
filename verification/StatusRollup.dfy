/** The analysis status of root artefacts over their derived trees (myapp/blueprints/items.py). */
module StatusRollup {
  import opened Options
  import opened ParentForest

  type ArtefactId = nat
  type AnalysisId = nat

  /** Worst first. */
  datatype Status = Running | Failed | Pending | Completed

  datatype Analysis = Analysis(artefact: ArtefactId, status: Status)

  // ---- The nearest root ----

  /** The walk up from `a` first meets a root after `n` steps. */
  ghost predicate MeetsAt(parents: Parents<ArtefactId>, roots: set<ArtefactId>, a: ArtefactId, n: nat) {
    && Climb(parents, a, n).Some? && Climb(parents, a, n).value in roots
    && (forall m: nat | m < n && Climb(parents, a, m).Some? :: Climb(parents, a, m).value !in roots)
  }

  /** `rootOf` maps exactly the artefacts whose walk up meets a root, each to the nearest. */
  ghost predicate IsRootMap(parents: Parents<ArtefactId>, roots: set<ArtefactId>, rootOf: map<ArtefactId, ArtefactId>) {
    && (forall a, n: nat | MeetsAt(parents, roots, a, n) :: a in rootOf && Climb(parents, a, n) == Some(rootOf[a]))
    && (forall a <- rootOf :: exists n: nat :: MeetsAt(parents, roots, a, n))
  }

  /** One step up brings the first root one step nearer. */
  lemma MeetsStep(parents: Parents<ArtefactId>, roots: set<ArtefactId>, a: ArtefactId, n: nat)
    ensures MeetsAt(parents, roots, a, n + 1) <==>
            a !in roots && a in parents && parents[a].Some? && MeetsAt(parents, roots, parents[a].value, n)
  {
    assert Climb(parents, a, 0) == Some(a);
    if a in parents && parents[a].Some? {
      var p := parents[a].value;
      forall m: nat ensures Climb(parents, a, m + 1) == Climb(parents, p, m) {}
      if MeetsAt(parents, roots, a, n + 1) {
        forall m: nat | m < n && Climb(parents, p, m).Some? ensures Climb(parents, p, m).value !in roots {
          assert Climb(parents, a, m + 1) == Climb(parents, p, m);
        }
      }
      if a !in roots && MeetsAt(parents, roots, p, n) {
        forall m: nat | m < n + 1 && Climb(parents, a, m).Some? ensures Climb(parents, a, m).value !in roots {
          if m > 0 { assert Climb(parents, a, m) == Climb(parents, p, m - 1); }
        }
      }
    }
  }

  /** The frontier after `d` rounds. */
  ghost predicate IsFrontier(parents: Parents<ArtefactId>, roots: set<ArtefactId>, d: nat, frontier: set<ArtefactId>) {
    forall a :: a in frontier <==> MeetsAt(parents, roots, a, d)
  }

  /** What is mapped after `d` rounds. */
  ghost predicate IsReached(parents: Parents<ArtefactId>, roots: set<ArtefactId>, d: nat,
                            rootOf: map<ArtefactId, ArtefactId>)
  {
    && (forall a, n: nat | n <= d && MeetsAt(parents, roots, a, n) ::
          a in rootOf && Climb(parents, a, n) == Some(rootOf[a]))
    && (forall a <- rootOf :: exists n: nat :: n <= d && MeetsAt(parents, roots, a, n))
  }

  /** Once a frontier is empty, so is every later one. */
  lemma {:induction false} NoneFurther(parents: Parents<ArtefactId>, roots: set<ArtefactId>, d: nat, n: nat,
                                       a: ArtefactId)
    requires IsFrontier(parents, roots, d, {}) && d <= n
    ensures !MeetsAt(parents, roots, a, n)
    decreases n
  {
    if n == d {
      assert a !in {};
    } else if MeetsAt(parents, roots, a, n) {
      MeetsStep(parents, roots, a, n - 1);
      NoneFurther(parents, roots, d, n - 1, parents[a].value);
    }
  }

  lemma EmptyFrontierIsEnd(parents: Parents<ArtefactId>, roots: set<ArtefactId>, d: nat,
                           rootOf: map<ArtefactId, ArtefactId>)
    requires IsFrontier(parents, roots, d, {}) && IsReached(parents, roots, d, rootOf)
    ensures IsRootMap(parents, roots, rootOf)
  {
    forall a, n: nat | MeetsAt(parents, roots, a, n) ensures a in rootOf && Climb(parents, a, n) == Some(rootOf[a]) {
      if n > d { NoneFurther(parents, roots, d, n, a); }
    }
  }

  /** The children of a frontier that are not mapped yet are the next frontier. */
  lemma NextFrontier(parents: Parents<ArtefactId>, roots: set<ArtefactId>, d: nat, frontier: set<ArtefactId>,
                     rootOf: map<ArtefactId, ArtefactId>, next: set<ArtefactId>)
    requires IsFrontier(parents, roots, d, frontier) && IsReached(parents, roots, d, rootOf)
    requires next == set a <- parents | parents[a].Some? && parents[a].value in frontier && a !in rootOf
    ensures IsFrontier(parents, roots, d + 1, next)
  {
    forall a ensures a in next <==> MeetsAt(parents, roots, a, d + 1) {
      MeetsStep(parents, roots, a, d);
      if a in roots { assert MeetsAt(parents, roots, a, 0); }
      forall n: nat | n <= d && MeetsAt(parents, roots, a, n) ensures !MeetsAt(parents, roots, a, d + 1) {}
    }
  }

  /** Mapping the next frontier to its parents' roots reaches one round further. */
  lemma NextReached(parents: Parents<ArtefactId>, roots: set<ArtefactId>, d: nat, frontier: set<ArtefactId>,
                    rootOf: map<ArtefactId, ArtefactId>, next: set<ArtefactId>, after: map<ArtefactId, ArtefactId>)
    requires IsFrontier(parents, roots, d, frontier) && IsReached(parents, roots, d, rootOf)
             && IsFrontier(parents, roots, d + 1, next)
    requires after.Keys == rootOf.Keys + next && forall a <- rootOf :: after[a] == rootOf[a]
    requires forall a <- next ::
               && a in parents && parents[a].Some? && parents[a].value in rootOf
               && a !in rootOf && after[a] == rootOf[parents[a].value]
    ensures IsReached(parents, roots, d + 1, after)
  {
    forall a, n: nat | n <= d + 1 && MeetsAt(parents, roots, a, n)
      ensures a in after && Climb(parents, a, n) == Some(after[a])
    {
      if n == d + 1 {
        MeetsStep(parents, roots, a, d);
        assert a in next && Climb(parents, a, d + 1) == Climb(parents, parents[a].value, d);
      }
    }
    forall a <- after ensures exists n: nat :: n <= d + 1 && MeetsAt(parents, roots, a, n) {
      if a in rootOf {
        var n: nat :| n <= d && MeetsAt(parents, roots, a, n);
      }
    }
  }

  /** The rows whose parent is in the frontier. */
  function ChildrenOf(parents: Parents<ArtefactId>, frontier: set<ArtefactId>): set<ArtefactId> {
    set a <- parents | parents[a].Some? && parents[a].value in frontier
  }

  /** One round over the children, in any order: those not mapped yet join their parent's root. */
  method Expand(parents: Parents<ArtefactId>, children: set<ArtefactId>, rootOf: map<ArtefactId, ArtefactId>)
    returns (after: map<ArtefactId, ArtefactId>, next: set<ArtefactId>)
    requires forall a <- children :: a in parents && parents[a].Some? && parents[a].value in rootOf
    ensures next == (set a <- children | a !in rootOf) && after.Keys == rootOf.Keys + next
    ensures forall a <- rootOf :: after[a] == rootOf[a]
    ensures forall a <- next :: after[a] == rootOf[parents[a].value]
  {
    after, next := rootOf, {};
    var left := children;
    while left != {}
      invariant left <= children && after.Keys == rootOf.Keys + next
      invariant forall a :: a in next <==> a in children && a !in left && a !in rootOf
      invariant forall a <- rootOf :: after[a] == rootOf[a]
      invariant forall a <- next :: after[a] == rootOf[parents[a].value]
      decreases |left|
    {
      var a :| a in left;
      left := left - {a};
      if a !in after {
        after := after[a := after[parents[a].value]];
        next := next + {a};
      }
    }
  }

  lemma StartsAtRoots(parents: Parents<ArtefactId>, roots: set<ArtefactId>, rootOf: map<ArtefactId, ArtefactId>)
    requires rootOf == map a <- roots :: a
    ensures IsFrontier(parents, roots, 0, roots) && IsReached(parents, roots, 0, rootOf)
  {
    assert forall a: ArtefactId :: Climb(parents, a, 0) == Some(a);
    assert forall a <- roots :: MeetsAt(parents, roots, a, 0);
  }

  /** Without children there is nothing further to map. */
  lemma NoChildrenIsEnd(parents: Parents<ArtefactId>, roots: set<ArtefactId>, d: nat, frontier: set<ArtefactId>,
                        rootOf: map<ArtefactId, ArtefactId>)
    requires IsFrontier(parents, roots, d, frontier) && IsReached(parents, roots, d, rootOf)
             && ChildrenOf(parents, frontier) == {}
    ensures IsRootMap(parents, roots, rootOf)
  {
    assert forall a <- parents :: a !in ChildrenOf(parents, frontier);
    NextFrontier(parents, roots, d, frontier, rootOf, {});
    NextReached(parents, roots, d, frontier, rootOf, {}, rootOf);
    EmptyFrontierIsEnd(parents, roots, d + 1, rootOf);
  }

  lemma FrontierIsMapped(parents: Parents<ArtefactId>, roots: set<ArtefactId>, d: nat, frontier: set<ArtefactId>,
                         rootOf: map<ArtefactId, ArtefactId>)
    requires IsFrontier(parents, roots, d, frontier) && IsReached(parents, roots, d, rootOf)
    ensures frontier <= rootOf.Keys
  {
  }

  /** A round maps more rows of the table, or leaves no frontier. */
  lemma RoundDecreases(parents: Parents<ArtefactId>, before: map<ArtefactId, ArtefactId>,
                       after: map<ArtefactId, ArtefactId>, next: set<ArtefactId>)
    requires next <= parents.Keys && next !! before.Keys && after.Keys == before.Keys + next && next != {}
    ensures |parents.Keys - after.Keys| < |parents.Keys - before.Keys|
  {
    var a :| a in next;
    FewerLeft(parents.Keys - after.Keys, parents.Keys - before.Keys, a);
  }

  lemma RoundIsRight(parents: Parents<ArtefactId>, roots: set<ArtefactId>, d: nat, frontier: set<ArtefactId>,
                     rootOf: map<ArtefactId, ArtefactId>, next: set<ArtefactId>, after: map<ArtefactId, ArtefactId>)
    requires IsFrontier(parents, roots, d, frontier) && IsReached(parents, roots, d, rootOf) && frontier <= rootOf.Keys
    requires next == (set a <- ChildrenOf(parents, frontier) | a !in rootOf) && after.Keys == rootOf.Keys + next
    requires forall a <- rootOf :: after[a] == rootOf[a]
    requires forall a <- next :: after[a] == rootOf[parents[a].value]
    ensures IsFrontier(parents, roots, d + 1, next) && IsReached(parents, roots, d + 1, after)
  {
    assert next == set a <- parents | parents[a].Some? && parents[a].value in frontier && a !in rootOf;
    NextFrontier(parents, roots, d, frontier, rootOf, next);
    NextReached(parents, roots, d, frontier, rootOf, next, after);
  }

  /** One round of the walk. */
  method Round(parents: Parents<ArtefactId>, ghost roots: set<ArtefactId>, ghost d: nat, children: set<ArtefactId>,
               ghost frontier: set<ArtefactId>, rootOf: map<ArtefactId, ArtefactId>)
      returns (after: map<ArtefactId, ArtefactId>, next: set<ArtefactId>)
    requires IsFrontier(parents, roots, d, frontier) && IsReached(parents, roots, d, rootOf)
             && children == ChildrenOf(parents, frontier)
    ensures IsFrontier(parents, roots, d + 1, next) && IsReached(parents, roots, d + 1, after)
    ensures next != {} ==> |parents.Keys - after.Keys| < |parents.Keys - rootOf.Keys|
    ensures next == {} ==> after.Keys == rootOf.Keys
  {
    FrontierIsMapped(parents, roots, d, frontier, rootOf);
    after, next := Expand(parents, children, rootOf);
    RoundIsRight(parents, roots, d, frontier, rootOf, next, after);
    if next != {} { RoundDecreases(parents, rootOf, after, next); }
  }

  /** The breadth-first walk; it ends on any table, cyclic or not. */
  method MapToRoots(parents: Parents<ArtefactId>, roots: set<ArtefactId>) returns (rootOf: map<ArtefactId, ArtefactId>)
    ensures IsRootMap(parents, roots, rootOf)
  {
    rootOf := map a <- roots :: a;
    var frontier := roots;
    ghost var d := 0;
    StartsAtRoots(parents, roots, rootOf);
    while frontier != {}
      invariant IsFrontier(parents, roots, d, frontier) && IsReached(parents, roots, d, rootOf)
      decreases |parents.Keys - rootOf.Keys|, frontier != {}
    {
      var children := ChildrenOf(parents, frontier);
      if children == {} {
        NoChildrenIsEnd(parents, roots, d, frontier, rootOf);
        return;
      }
      rootOf, frontier := Round(parents, roots, d, children, frontier, rootOf);
      d := d + 1;
    }
    EmptyFrontierIsEnd(parents, roots, d, rootOf);
  }

  lemma FewerLeft(smaller: set<ArtefactId>, larger: set<ArtefactId>, a: ArtefactId)
    requires smaller <= larger && a in larger && a !in smaller
    ensures |smaller| < |larger|
  {
    assert smaller <= larger - {a};
    Subsets(smaller, larger - {a});
  }

  lemma {:induction false} Subsets(smaller: set<ArtefactId>, larger: set<ArtefactId>)
    requires smaller <= larger
    ensures |smaller| <= |larger|
    decreases |larger|
  {
    if a :| a in larger { Subsets(smaller - {a}, larger - {a}); }
  }

  // ---- Counting ----

  /** The analyses of artefacts mapped to `root`, and those of one status. */
  function InTree(analyses: map<AnalysisId, Analysis>, rootOf: map<ArtefactId, ArtefactId>,
                  root: ArtefactId): set<AnalysisId>
  {
    set j <- analyses | analyses[j].artefact in rootOf && rootOf[analyses[j].artefact] == root
  }

  function OfStatus(analyses: map<AnalysisId, Analysis>, rootOf: map<ArtefactId, ArtefactId>, root: ArtefactId,
                    status: Status): set<AnalysisId>
  {
    set j <- InTree(analyses, rootOf, root) | analyses[j].status == status
  }

  /** A group of the GROUP BY query. */
  datatype Group = Group(artefact: ArtefactId, status: Status, count: nat)

  function Members(analyses: map<AnalysisId, Analysis>, artefact: ArtefactId, status: Status): set<AnalysisId> {
    set j <- analyses | analyses[j] == Analysis(artefact, status)
  }

  /** The rows of the query, in whatever order: one for each pair that occurs. */
  ghost predicate IsGrouped(analyses: map<AnalysisId, Analysis>, rootOf: map<ArtefactId, ArtefactId>,
                            groups: seq<Group>)
  {
    && (forall k | 0 <= k < |groups| ::
          groups[k].artefact in rootOf
            && groups[k].count == |Members(analyses, groups[k].artefact, groups[k].status)| > 0)
    && (forall i, k | 0 <= i < k < |groups| ::
          groups[i].artefact != groups[k].artefact || groups[i].status != groups[k].status)
    && (forall j <- analyses | analyses[j].artefact in rootOf :: InGroups(groups, analyses[j]))
  }

  ghost predicate InGroups(groups: seq<Group>, analysis: Analysis) {
    exists k :: 0 <= k < |groups| && groups[k].artefact == analysis.artefact && groups[k].status == analysis.status
  }

  /** The analyses in the first groups that count for a root and a status. */
  ghost function Covered(analyses: map<AnalysisId, Analysis>, rootOf: map<ArtefactId, ArtefactId>, groups: seq<Group>,
                         root: ArtefactId, status: Status): set<AnalysisId>
  {
    set j <- OfStatus(analyses, rootOf, root, status) | InGroups(groups, analyses[j])
  }

  /** Counts of a bucket, missing ones zero. */
  function CountIn(byRoot: map<ArtefactId, map<Status, nat>>, root: ArtefactId, status: Status): nat {
    if root in byRoot && status in byRoot[root] then byRoot[root][status] else 0
  }

  function Bump(byRoot: map<ArtefactId, map<Status, nat>>, root: ArtefactId, status: Status,
                count: nat): map<ArtefactId, map<Status, nat>>
  {
    var bucket := if root in byRoot then byRoot[root] else map[];
    byRoot[root := bucket[status := (if status in bucket then bucket[status] else 0) + count]]
  }

  lemma InGroupsNext(groups: seq<Group>, n: nat, analysis: Analysis)
    requires n < |groups|
    ensures InGroups(groups[..n + 1], analysis) <==>
            InGroups(groups[..n], analysis) || analysis == Analysis(groups[n].artefact, groups[n].status)
  {
    if InGroups(groups[..n], analysis) {
      var k :| 0 <= k < n && groups[..n][k].artefact == analysis.artefact && groups[..n][k].status == analysis.status;
      assert groups[..n + 1][k] == groups[..n][k];
    }
    assert groups[..n + 1][n] == groups[n];
  }

  /** A further group covers its members, and they were not covered before. */
  lemma CoveredNext(analyses: map<AnalysisId, Analysis>, rootOf: map<ArtefactId, ArtefactId>, groups: seq<Group>,
                    n: nat, root: ArtefactId, status: Status)
    requires IsGrouped(analyses, rootOf, groups) && n < |groups|
    ensures var members := Members(analyses, groups[n].artefact, groups[n].status);
      && Covered(analyses, rootOf, groups[..n], root, status) !! members
      && Covered(analyses, rootOf, groups[..n + 1], root, status)
         == Covered(analyses, rootOf, groups[..n], root, status)
            + if rootOf[groups[n].artefact] == root && groups[n].status == status then members else {}
  {
    var members := Members(analyses, groups[n].artefact, groups[n].status);
    forall j <- analyses
      ensures InGroups(groups[..n + 1], analyses[j]) <==> InGroups(groups[..n], analyses[j]) || j in members
    {
      InGroupsNext(groups, n, analyses[j]);
    }
    forall j <- members ensures !InGroups(groups[..n], analyses[j]) {}
  }

  lemma CoveredGrows(analyses: map<AnalysisId, Analysis>, rootOf: map<ArtefactId, ArtefactId>, groups: seq<Group>,
                     n: nat, root: ArtefactId, status: Status)
    requires IsGrouped(analyses, rootOf, groups) && n < |groups|
    ensures |Covered(analyses, rootOf, groups[..n + 1], root, status)|
         == |Covered(analyses, rootOf, groups[..n], root, status)|
            + if rootOf[groups[n].artefact] == root && groups[n].status == status then groups[n].count else 0
  {
    CoveredNext(analyses, rootOf, groups, n, root, status);
    DisjointSize(Covered(analyses, rootOf, groups[..n], root, status),
      Members(analyses, groups[n].artefact, groups[n].status));
  }

  lemma CoveredAll(analyses: map<AnalysisId, Analysis>, rootOf: map<ArtefactId, ArtefactId>, groups: seq<Group>,
                   root: ArtefactId, status: Status)
    requires IsGrouped(analyses, rootOf, groups)
    ensures Covered(analyses, rootOf, groups, root, status) == OfStatus(analyses, rootOf, root, status)
  {
  }

  /** The totals of `byRoot` after the first `n` groups. */
  ghost predicate Tallied(analyses: map<AnalysisId, Analysis>, rootOf: map<ArtefactId, ArtefactId>, groups: seq<Group>,
                          byRoot: map<ArtefactId, map<Status, nat>>)
  {
    && (forall root, status :: CountIn(byRoot, root, status) == |Covered(analyses, rootOf, groups, root, status)|)
    && (forall root <- byRoot :: Occurs(byRoot, root))
  }

  ghost predicate Occurs(byRoot: map<ArtefactId, map<Status, nat>>, root: ArtefactId) {
    exists status :: CountIn(byRoot, root, status) > 0
  }

  lemma BumpCounts(byRoot: map<ArtefactId, map<Status, nat>>, root: ArtefactId, status: Status, count: nat,
                   other: ArtefactId, otherStatus: Status)
    ensures CountIn(Bump(byRoot, root, status, count), other, otherStatus)
         == CountIn(byRoot, other, otherStatus) + if other == root && otherStatus == status then count else 0
  {
  }

  lemma TallyStep(analyses: map<AnalysisId, Analysis>, rootOf: map<ArtefactId, ArtefactId>, groups: seq<Group>, n: nat,
                  byRoot: map<ArtefactId, map<Status, nat>>)
    requires IsGrouped(analyses, rootOf, groups) && n < |groups| && Tallied(analyses, rootOf, groups[..n], byRoot)
    ensures groups[n].artefact in rootOf
    ensures Tallied(analyses, rootOf, groups[..n + 1],
            Bump(byRoot, rootOf[groups[n].artefact], groups[n].status, groups[n].count))
  {
    var group := groups[n];
    var root := rootOf[group.artefact];
    var after := Bump(byRoot, root, group.status, group.count);
    forall other, status
      ensures CountIn(after, other, status) == |Covered(analyses, rootOf, groups[..n + 1], other, status)|
    {
      BumpCounts(byRoot, root, group.status, group.count, other, status);
      CoveredGrows(analyses, rootOf, groups, n, other, status);
    }
    forall other <- after ensures Occurs(after, other) {
      if other == root {
        BumpCounts(byRoot, root, group.status, group.count, root, group.status);
      } else {
        assert Occurs(byRoot, other);
        var status :| CountIn(byRoot, other, status) > 0;
        BumpCounts(byRoot, root, group.status, group.count, other, status);
      }
    }
  }

  method Tally(ghost analyses: map<AnalysisId, Analysis>, rootOf: map<ArtefactId, ArtefactId>, groups: seq<Group>)
      returns (byRoot: map<ArtefactId, map<Status, nat>>)
    requires IsGrouped(analyses, rootOf, groups)
    ensures Tallied(analyses, rootOf, groups, byRoot)
  {
    byRoot := map[];
    TallyEmpty(analyses, rootOf);
    for n := 0 to |groups|
      invariant Tallied(analyses, rootOf, groups[..n], byRoot)
    {
      TallyStep(analyses, rootOf, groups, n, byRoot);
      byRoot := Bump(byRoot, rootOf[groups[n].artefact], groups[n].status, groups[n].count);
    }
    assert groups[..|groups|] == groups;
  }

  lemma TallyEmpty(analyses: map<AnalysisId, Analysis>, rootOf: map<ArtefactId, ArtefactId>)
    ensures Tallied(analyses, rootOf, [], map[])
  {
    forall root, status ensures |Covered(analyses, rootOf, [], root, status)| == 0 {
      assert Covered(analyses, rootOf, [], root, status) == {};
    }
  }

  // ---- The report ----

  datatype Entry = Entry(status: Status, count: nat, total: nat)

  /**
    The worst status present, how often it occurs, and how many analyses there are:
    running before failed before pending before completed.
   */
  ghost predicate IsEntry(analyses: map<AnalysisId, Analysis>, rootOf: map<ArtefactId, ArtefactId>, root: ArtefactId,
                          entry: Entry)
  {
    && OfStatus(analyses, rootOf, root, entry.status) != {}
    && (entry.status in {Failed, Pending, Completed} ==> OfStatus(analyses, rootOf, root, Running) == {})
    && (entry.status in {Pending, Completed} ==> OfStatus(analyses, rootOf, root, Failed) == {})
    && (entry.status == Completed ==> OfStatus(analyses, rootOf, root, Pending) == {})
    && entry.count == |OfStatus(analyses, rootOf, root, entry.status)|
    && entry.total == |InTree(analyses, rootOf, root)|
  }

  /** Exactly the roots with an analysis in their tree are reported. */
  ghost predicate IsReport(analyses: map<AnalysisId, Analysis>, rootOf: map<ArtefactId, ArtefactId>,
                           report: map<ArtefactId, Entry>)
  {
    && (forall root :: root in report <==> InTree(analyses, rootOf, root) != {})
    && (forall root <- report :: IsEntry(analyses, rootOf, root, report[root]))
  }

  lemma DisjointSize(a: set<AnalysisId>, b: set<AnalysisId>)
    requires a !! b
    ensures |a + b| == |a| + |b|
  {
  }

  /** The four statuses split a tree's analyses. */
  lemma StatusesSplit(analyses: map<AnalysisId, Analysis>, rootOf: map<ArtefactId, ArtefactId>, root: ArtefactId)
    ensures |InTree(analyses, rootOf, root)|
            == |OfStatus(analyses, rootOf, root, Running)| + |OfStatus(analyses, rootOf, root, Failed)|
               + |OfStatus(analyses, rootOf, root, Pending)| + |OfStatus(analyses, rootOf, root, Completed)|
  {
    var r, f := OfStatus(analyses, rootOf, root, Running), OfStatus(analyses, rootOf, root, Failed);
    var p, c := OfStatus(analyses, rootOf, root, Pending), OfStatus(analyses, rootOf, root, Completed);
    FourParts(InTree(analyses, rootOf, root), r, f, p, c);
  }

  lemma FourParts(all: set<AnalysisId>, a: set<AnalysisId>, b: set<AnalysisId>, c: set<AnalysisId>, d: set<AnalysisId>)
    requires a !! b && (a + b) !! c && (a + b + c) !! d && all == a + b + c + d
    ensures |all| == |a| + |b| + |c| + |d|
  {
    DisjointSize(a, b);
    DisjointSize(a + b, c);
    DisjointSize(a + b + c, d);
  }

  /** The first status of the priority list with a count. */
  function Worst(byRoot: map<ArtefactId, map<Status, nat>>, root: ArtefactId): Status {
    if CountIn(byRoot, root, Running) > 0 then Running
    else if CountIn(byRoot, root, Failed) > 0 then Failed
    else if CountIn(byRoot, root, Pending) > 0 then Pending
    else Completed
  }

  function EntryOf(byRoot: map<ArtefactId, map<Status, nat>>, root: ArtefactId): Entry {
    Entry(Worst(byRoot, root), CountIn(byRoot, root, Worst(byRoot, root)),
          CountIn(byRoot, root, Running) + CountIn(byRoot, root, Failed) + CountIn(byRoot, root, Pending)
            + CountIn(byRoot, root, Completed))
  }

  lemma CountsAreRight(analyses: map<AnalysisId, Analysis>, rootOf: map<ArtefactId, ArtefactId>, groups: seq<Group>,
                       byRoot: map<ArtefactId, map<Status, nat>>, root: ArtefactId)
    requires IsGrouped(analyses, rootOf, groups) && Tallied(analyses, rootOf, groups, byRoot)
    ensures forall status :: CountIn(byRoot, root, status) == |OfStatus(analyses, rootOf, root, status)|
    ensures root in byRoot ==> Occurs(byRoot, root)
  {
    forall status ensures CountIn(byRoot, root, status) == |OfStatus(analyses, rootOf, root, status)| {
      CoveredAll(analyses, rootOf, groups, root, status);
    }
  }

  lemma EntryIsRight(analyses: map<AnalysisId, Analysis>, rootOf: map<ArtefactId, ArtefactId>, groups: seq<Group>,
                     byRoot: map<ArtefactId, map<Status, nat>>, root: ArtefactId)
    requires IsGrouped(analyses, rootOf, groups) && Tallied(analyses, rootOf, groups, byRoot)
    ensures root in byRoot <==> InTree(analyses, rootOf, root) != {}
    ensures root in byRoot ==> IsEntry(analyses, rootOf, root, EntryOf(byRoot, root))
  {
    CountsAreRight(analyses, rootOf, groups, byRoot, root);
    WorstIsRight(analyses, rootOf, byRoot, root);
  }

  lemma WorstIsRight(analyses: map<AnalysisId, Analysis>, rootOf: map<ArtefactId, ArtefactId>,
                     byRoot: map<ArtefactId, map<Status, nat>>, root: ArtefactId)
    requires forall status :: CountIn(byRoot, root, status) == |OfStatus(analyses, rootOf, root, status)|
    requires root in byRoot ==> Occurs(byRoot, root)
    ensures root in byRoot <==> InTree(analyses, rootOf, root) != {}
    ensures root in byRoot ==> IsEntry(analyses, rootOf, root, EntryOf(byRoot, root))
  {
    StatusesSplit(analyses, rootOf, root);
    if root in byRoot {
      var status :| CountIn(byRoot, root, status) > 0;
      assert OfStatus(analyses, rootOf, root, status) != {};
    } else {
      assert CountIn(byRoot, root, Running) == CountIn(byRoot, root, Failed) == 0;
      assert CountIn(byRoot, root, Pending) == CountIn(byRoot, root, Completed) == 0;
    }
  }

  lemma ReportIsRight(analyses: map<AnalysisId, Analysis>, rootOf: map<ArtefactId, ArtefactId>, groups: seq<Group>,
                      byRoot: map<ArtefactId, map<Status, nat>>, report: map<ArtefactId, Entry>)
    requires IsGrouped(analyses, rootOf, groups) && Tallied(analyses, rootOf, groups, byRoot)
    requires report.Keys == byRoot.Keys && forall root <- report :: report[root] == EntryOf(byRoot, root)
    ensures IsReport(analyses, rootOf, report)
  {
    forall root ensures root in report <==> InTree(analyses, rootOf, root) != {} {
      EntryIsRight(analyses, rootOf, groups, byRoot, root);
    }
    forall root <- report ensures IsEntry(analyses, rootOf, root, report[root]) {
      EntryIsRight(analyses, rootOf, groups, byRoot, root);
    }
  }

  /** The loop over the buckets. */
  method Entries(byRoot: map<ArtefactId, map<Status, nat>>) returns (report: map<ArtefactId, Entry>)
    ensures report.Keys == byRoot.Keys && forall root <- report :: report[root] == EntryOf(byRoot, root)
  {
    report := map[];
    var left := byRoot.Keys;
    while left != {}
      invariant left <= byRoot.Keys && report.Keys == byRoot.Keys - left
      invariant forall root <- report :: report[root] == EntryOf(byRoot, root)
      decreases |left|
    {
      var root :| root in left;
      report := report[root := EntryOf(byRoot, root)];
      left := left - {root};
    }
  }

  /** _compute_artefact_analysis_status; `groups` is the answer to the GROUP BY query over the mapped artefacts. */
  method Report(analyses: map<AnalysisId, Analysis>, rootOf: map<ArtefactId, ArtefactId>, groups: seq<Group>)
    returns (report: map<ArtefactId, Entry>)
    requires IsGrouped(analyses, rootOf, groups)
    ensures IsReport(analyses, rootOf, report)
  {
    var byRoot := Tally(analyses, rootOf, groups);
    report := Entries(byRoot);
    ReportIsRight(analyses, rootOf, groups, byRoot, report);
  }

  // ---- Conservation ----

  ghost function SumTotals(report: map<ArtefactId, Entry>, roots: set<ArtefactId>): nat
    requires roots <= report.Keys
    decreases |roots|
  {
    if roots == {} then 0
    else
      var root :| root in roots;
      report[root].total + SumTotals(report, roots - {root})
  }

  /** The analyses of artefacts mapped to one of these roots. */
  function Owned(analyses: map<AnalysisId, Analysis>, rootOf: map<ArtefactId, ArtefactId>,
                 roots: set<ArtefactId>): set<AnalysisId>
  {
    set j <- analyses | analyses[j].artefact in rootOf && rootOf[analyses[j].artefact] in roots
  }

  lemma OwnedSplit(analyses: map<AnalysisId, Analysis>, rootOf: map<ArtefactId, ArtefactId>, roots: set<ArtefactId>,
                   root: ArtefactId)
    requires root in roots
    ensures |Owned(analyses, rootOf, roots)|
            == |Owned(analyses, rootOf, roots - {root})| + |InTree(analyses, rootOf, root)|
  {
    assert Owned(analyses, rootOf, roots) == Owned(analyses, rootOf, roots - {root}) + InTree(analyses, rootOf, root);
    assert Owned(analyses, rootOf, roots - {root}) !! InTree(analyses, rootOf, root);
  }

  lemma {:induction false} TotalsOf(analyses: map<AnalysisId, Analysis>, rootOf: map<ArtefactId, ArtefactId>,
                                    report: map<ArtefactId, Entry>, roots: set<ArtefactId>)
    requires roots <= report.Keys && forall root <- report :: report[root].total == |InTree(analyses, rootOf, root)|
    ensures SumTotals(report, roots) == |Owned(analyses, rootOf, roots)|
    decreases |roots|
  {
    if roots == {} {
      assert Owned(analyses, rootOf, roots) == {};
    } else {
      var root :| root in roots && SumTotals(report, roots) == report[root].total + SumTotals(report, roots - {root});
      TotalsOf(analyses, rootOf, report, roots - {root});
      OwnedSplit(analyses, rootOf, roots, root);
    }
  }

  /** The totals of all roots together are the number of analyses of mapped artefacts. */
  lemma TotalsConserved(analyses: map<AnalysisId, Analysis>, rootOf: map<ArtefactId, ArtefactId>,
                        report: map<ArtefactId, Entry>)
    requires IsReport(analyses, rootOf, report)
    ensures SumTotals(report, report.Keys) == |set j <- analyses | analyses[j].artefact in rootOf|
  {
    forall root <- report ensures report[root].total == |InTree(analyses, rootOf, root)| {
      assert IsEntry(analyses, rootOf, root, report[root]);
    }
    TotalsOf(analyses, rootOf, report, report.Keys);
    forall j <- analyses | analyses[j].artefact in rootOf ensures rootOf[analyses[j].artefact] in report {
      assert j in InTree(analyses, rootOf, rootOf[analyses[j].artefact]);
    }
    assert Owned(analyses, rootOf, report.Keys) == set j <- analyses | analyses[j].artefact in rootOf;
  }

  /** The whole computation, from root artefacts to the report. */
  method ComputeStatus(parents: Parents<ArtefactId>, roots: set<ArtefactId>, analyses: map<AnalysisId, Analysis>)
      returns (rootOf: map<ArtefactId, ArtefactId>, report: map<ArtefactId, Entry>)
    ensures IsRootMap(parents, roots, rootOf) && IsReport(analyses, rootOf, report)
    ensures SumTotals(report, report.Keys) == |set j <- analyses | analyses[j].artefact in rootOf|
  {
    rootOf := MapToRoots(parents, roots);
    var groups := GroupBy(analyses, rootOf);
    report := Report(analyses, rootOf, groups);
    TotalsConserved(analyses, rootOf, report);
  }

  /** The GROUP BY query. */
  method GroupBy(analyses: map<AnalysisId, Analysis>, rootOf: map<ArtefactId, ArtefactId>) returns (groups: seq<Group>)
    ensures IsGrouped(analyses, rootOf, groups)
  {
    groups := [];
    var left := set j <- analyses | analyses[j].artefact in rootOf;
    while left != {}
      invariant left <= analyses.Keys
                && forall j <- left :: analyses[j].artefact in rootOf && !InGroups(groups, analyses[j])
      invariant forall j <- analyses | analyses[j].artefact in rootOf && j !in left :: InGroups(groups, analyses[j])
      invariant forall k | 0 <= k < |groups| ::
                  groups[k].artefact in rootOf
                    && groups[k].count == |Members(analyses, groups[k].artefact, groups[k].status)| > 0
      invariant forall i, k | 0 <= i < k < |groups| ::
                  groups[i].artefact != groups[k].artefact || groups[i].status != groups[k].status
      decreases |left|
    {
      var j :| j in left;
      var members := Members(analyses, analyses[j].artefact, analyses[j].status);
      assert j in members;
      GroupsGrow(groups, Group(analyses[j].artefact, analyses[j].status, |members|));
      groups := groups + [Group(analyses[j].artefact, analyses[j].status, |members|)];
      left := left - members;
    }
  }

  lemma GroupsGrow(groups: seq<Group>, group: Group)
    ensures forall analysis :: InGroups(groups + [group], analysis) <==>
              InGroups(groups, analysis) || analysis == Analysis(group.artefact, group.status)
  {
    forall analysis ensures InGroups(groups + [group], analysis) <==>
              InGroups(groups, analysis) || analysis == Analysis(group.artefact, group.status)
    {
      if InGroups(groups, analysis) {
        var k :| 0 <= k < |groups| && groups[k].artefact == analysis.artefact && groups[k].status == analysis.status;
        assert (groups + [group])[k] == groups[k];
      }
      assert (groups + [group])[|groups|] == group;
    }
  }
}
