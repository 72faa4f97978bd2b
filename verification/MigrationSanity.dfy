/** The two loops-and-maps checks of ci/check_migration_sanity.py, proved against MigrationChain. */
module MigrationSanity {
  import opened Options
  import opened MigrationChain

  /** by_revision: the first migration filed under each revision. */
  ghost predicate FiledRevisions(ms: seq<Migration>, byRevision: map<string, Migration>) {
    && (forall rev :: rev in byRevision <==> HasRevision(ms, rev))
    && (forall rev <- byRevision :: byRevision[rev] == FirstWith(ms, rev))
  }

  /** by_down_revision and roots: the accepted migrations, grouped by what they extend. */
  ghost predicate FiledChildren(accepted: seq<Migration>, byDown: map<string, seq<Migration>>, roots: seq<Migration>) {
    && roots == ChildrenOf(accepted, None)
    && (forall d: string :: d in byDown <==> ChildrenOf(accepted, Some(d)) != [])
    && (forall d <- byDown :: byDown[d] == ChildrenOf(accepted, Some(d)))
  }

  lemma {:induction false} FirstWithAppend(ms: seq<Migration>, m: Migration, rev: string)
    requires HasRevision(ms, rev)
    ensures FirstWith(ms + [m], rev) == FirstWith(ms, rev)
  {
    assert (ms + [m])[0] == ms[0];
    if ms[0].revision != Some(rev) {
      assert (ms + [m])[1..] == ms[1..] + [m];
      FirstWithAppend(ms[1..], m, rev);
    }
  }

  lemma {:induction false} FirstWithNew(ms: seq<Migration>, m: Migration, rev: string)
    requires !HasRevision(ms, rev) && m.revision == Some(rev)
    ensures FirstWith(ms + [m], rev) == m
  {
    if ms != [] {
      assert ms[0] in ms;
      assert (ms + [m])[1..] == ms[1..] + [m];
      assert forall x <- ms[1..] :: x in ms;
      FirstWithNew(ms[1..], m, rev);
    }
  }

  /** The map's migration for a revision is the accepted one. */
  lemma {:induction false} FirstIsAccepted(ms: seq<Migration>, rev: string)
    requires HasRevision(ms, rev)
    ensures FirstWith(ms, rev) in Accepted(ms) && FirstWith(ms, rev).revision == Some(rev)
  {
    var init, m := ms[..|ms| - 1], ms[|ms| - 1];
    assert ms == init + [m];
    if HasRevision(init, rev) {
      FirstIsAccepted(init, rev);
      FirstWithAppend(init, m, rev);
    } else {
      FirstWithNew(init, m, rev);
    }
  }

  lemma FileRevision(ms: seq<Migration>, m: Migration, byRevision: map<string, Migration>)
    requires FiledRevisions(ms, byRevision)
    ensures m.revision.None? || m.revision.value in byRevision ==> FiledRevisions(ms + [m], byRevision)
    ensures m.revision.Some? && m.revision.value !in byRevision ==>
      FiledRevisions(ms + [m], byRevision[m.revision.value := m])
  {
    var next := ms + [m];
    assert forall x :: x in next <==> x in ms || x == m;
    forall rev | HasRevision(ms, rev) ensures HasRevision(next, rev) && FirstWith(next, rev) == FirstWith(ms, rev) {
      var x :| x in ms && x.revision == Some(rev);
      assert x in next;
      FirstWithAppend(ms, m, rev);
    }
    if m.revision.Some? && m.revision.value !in byRevision {
      assert m in next;
      FirstWithNew(ms, m, m.revision.value);
    }
  }

  lemma AcceptedAppend(ms: seq<Migration>, m: Migration)
    ensures Accepted(ms + [m]) ==
            if m.revision.None? || HasRevision(ms, m.revision.value) then Accepted(ms) else Accepted(ms) + [m]
    ensures IntakeErrors(ms + [m]) ==
            IntakeErrors(ms) +
            if m.revision.None? then [MissingRevision(m.filename)]
            else if HasRevision(ms, m.revision.value) then
              [DuplicateRevision(m.revision.value, m.filename, FirstWith(ms, m.revision.value).filename)]
            else []
  {
    assert (ms + [m])[..|ms|] == ms;
  }

  lemma ChildrenAppend(ms: seq<Migration>, m: Migration, down: Option<string>)
    ensures ChildrenOf(ms + [m], down) == ChildrenOf(ms, down) + if m.downRevision == down then [m] else []
  {
    assert (ms + [m])[..|ms|] == ms;
  }

  function ListedUnder(byDown: map<string, seq<Migration>>, d: string): seq<Migration> {
    if d in byDown then byDown[d] else []
  }

  lemma FileRoot(accepted: seq<Migration>, m: Migration, byDown: map<string, seq<Migration>>, roots: seq<Migration>)
    requires FiledChildren(accepted, byDown, roots) && m.downRevision.None?
    ensures FiledChildren(accepted + [m], byDown, roots + [m])
  {
    ChildrenAppend(accepted, m, None);
    forall d: string ensures ChildrenOf(accepted + [m], Some(d)) == ChildrenOf(accepted, Some(d)) {
      ChildrenAppend(accepted, m, Some(d));
    }
  }

  lemma FileChild(accepted: seq<Migration>, m: Migration, byDown: map<string, seq<Migration>>, roots: seq<Migration>)
    requires FiledChildren(accepted, byDown, roots) && m.downRevision.Some?
    ensures var d := m.downRevision.value;
      FiledChildren(accepted + [m], byDown[d := ListedUnder(byDown, d) + [m]], roots)
  {
    ChildrenAppend(accepted, m, None);
    forall d: string
      ensures ChildrenOf(accepted + [m], Some(d)) ==
              ChildrenOf(accepted, Some(d)) + if m.downRevision == Some(d) then [m] else []
    {
      ChildrenAppend(accepted, m, Some(d));
    }
  }

  /** The maps and findings of the filing loop over these migrations. */
  ghost predicate Filed(ms: seq<Migration>, errors: seq<ChainError>, byRevision: map<string, Migration>,
                        byDown: map<string, seq<Migration>>, roots: seq<Migration>) {
    && FiledRevisions(ms, byRevision) && FiledChildren(Accepted(ms), byDown, roots)
    && errors == IntakeErrors(ms)
  }

  /** A migration without a revision, or with one that is taken, is reported and filed nowhere. */
  lemma FileNothing(ms: seq<Migration>, m: Migration, errors: seq<ChainError>, byRevision: map<string, Migration>,
                    byDown: map<string, seq<Migration>>, roots: seq<Migration>)
    requires Filed(ms, errors, byRevision, byDown, roots)
    requires m.revision.None? || m.revision.value in byRevision
    ensures Filed(ms + [m], errors + [if m.revision.None? then MissingRevision(m.filename)
                                      else DuplicateRevision(m.revision.value, m.filename,
                                        byRevision[m.revision.value].filename)],
                  byRevision, byDown, roots)
  {
    AcceptedAppend(ms, m);
    FileRevision(ms, m, byRevision);
  }

  lemma FileAsRoot(ms: seq<Migration>, m: Migration, errors: seq<ChainError>, byRevision: map<string, Migration>,
                   byDown: map<string, seq<Migration>>, roots: seq<Migration>)
    requires Filed(ms, errors, byRevision, byDown, roots)
    requires m.revision.Some? && m.revision.value !in byRevision && m.downRevision.None?
    ensures Filed(ms + [m], errors, byRevision[m.revision.value := m], byDown, roots + [m])
  {
    AcceptedAppend(ms, m);
    FileRevision(ms, m, byRevision);
    FileRoot(Accepted(ms), m, byDown, roots);
  }

  lemma FileAsChild(ms: seq<Migration>, m: Migration, errors: seq<ChainError>, byRevision: map<string, Migration>,
                    byDown: map<string, seq<Migration>>, roots: seq<Migration>)
    requires Filed(ms, errors, byRevision, byDown, roots)
    requires m.revision.Some? && m.revision.value !in byRevision && m.downRevision.Some?
    ensures var d := m.downRevision.value;
      Filed(ms + [m], errors, byRevision[m.revision.value := m], byDown[d := ListedUnder(byDown, d) + [m]], roots)
  {
    AcceptedAppend(ms, m);
    FileRevision(ms, m, byRevision);
    FileChild(Accepted(ms), m, byDown, roots);
  }

  /** The filing loop. */
  method FileMigrations(migrations: seq<Migration>)
    returns (errors: seq<ChainError>, byRevision: map<string, Migration>,
             byDown: map<string, seq<Migration>>, roots: seq<Migration>)
    ensures FiledRevisions(migrations, byRevision) && FiledChildren(Accepted(migrations), byDown, roots)
    ensures errors == IntakeErrors(migrations)
  {
    errors, byRevision, byDown, roots := [], map[], map[], [];
    for i := 0 to |migrations|
      invariant Filed(migrations[..i], errors, byRevision, byDown, roots)
    {
      var m := migrations[i];
      assert migrations[..i + 1] == migrations[..i] + [m];
      if m.revision == None {
        FileNothing(migrations[..i], m, errors, byRevision, byDown, roots);
        errors := errors + [MissingRevision(m.filename)];
      } else if m.revision.value in byRevision {
        FileNothing(migrations[..i], m, errors, byRevision, byDown, roots);
        errors := errors + [DuplicateRevision(m.revision.value, m.filename, byRevision[m.revision.value].filename)];
      } else if m.downRevision == None {
        FileAsRoot(migrations[..i], m, errors, byRevision, byDown, roots);
        byRevision := byRevision[m.revision.value := m];
        roots := roots + [m];
      } else {
        FileAsChild(migrations[..i], m, errors, byRevision, byDown, roots);
        byRevision := byRevision[m.revision.value := m];
        var d := m.downRevision.value;
        byDown := byDown[d := ListedUnder(byDown, d) + [m]];
      }
    }
    assert migrations[..|migrations|] == migrations;
  }

  /** The checks on roots and branch points that follow the filing loop. */
  method CheckRootsAndBranches(ghost accepted: seq<Migration>, byDown: map<string, seq<Migration>>,
                               roots: seq<Migration>)
    returns (errors: seq<ChainError>)
    requires FiledChildren(accepted, byDown, roots)
    ensures errors == RootErrors(roots) + BranchErrors(accepted)
  {
    errors := [];
    if |roots| == 0 {
      errors := [NoRoot];
    } else if |roots| > 1 {
      errors := [MultipleRoots(roots)];
    }
    var branchPoints := map d | d in byDown && |byDown[d]| > 1 :: byDown[d];
    BranchMap(accepted, byDown, roots);
    if branchPoints != map[] {
      errors := errors + [BranchPoints(branchPoints)];
    }
  }

  /** check_chain_integrity: the loops and maps compute the report of MigrationChain. */
  method CheckChainIntegrity(migrations: seq<Migration>) returns (errors: seq<ChainError>)
    ensures errors == Report(migrations)
  {
    if migrations == [] {
      return [];
    }
    var intake, byRevision, byDown, roots := FileMigrations(migrations);
    ghost var accepted := Accepted(migrations);
    var shape := CheckRootsAndBranches(accepted, byDown, roots);
    errors := intake + shape;
    assert errors == IntakeErrors(migrations) + RootErrors(roots) + BranchErrors(accepted);

    var orphans: seq<ChainError> := [];
    if |roots| == 1 && errors == [] {
      assert Branches(accepted) == map[];
      var unvisited := FindUnvisited(migrations, byRevision, byDown, roots);
      if unvisited != {} {
        orphans := [Orphaned(unvisited)];
      }
    }
    assert orphans == if errors == [] then OrphanErrors(accepted) else [];

    var heads := FindHeads(migrations, byRevision, byDown, roots);
    var headLines: seq<ChainError> := [];
    if |heads| == 0 {
      headLines := [NoHead];
    } else if |heads| > 1 {
      headLines := [MultipleHeads(heads)];
    }
    assert headLines == HeadErrors(roots);
    errors := errors + orphans + headLines;
  }

  method FindUnvisited(ghost migrations: seq<Migration>, byRevision: map<string, Migration>,
                       byDown: map<string, seq<Migration>>, roots: seq<Migration>)
    returns (unvisited: set<string>)
    requires FiledRevisions(migrations, byRevision) && FiledChildren(Accepted(migrations), byDown, roots)
    requires |roots| == 1 && Branches(Accepted(migrations)) == map[]
    ensures roots[0].revision.Some?
    ensures unvisited == Orphans(Accepted(migrations), roots[0].revision.value)
  {
    AcceptedKeyed(migrations);
    NoBranches(Accepted(migrations));
    var visited := WalkChain(Accepted(migrations), byDown, roots);
    RevisionKeys(migrations, byRevision);
    unvisited := byRevision.Keys - visited;
  }

  method FindHeads(ghost migrations: seq<Migration>, byRevision: map<string, Migration>,
                   byDown: map<string, seq<Migration>>, ghost roots: seq<Migration>)
    returns (heads: set<Migration>)
    requires FiledRevisions(migrations, byRevision) && FiledChildren(Accepted(migrations), byDown, roots)
    ensures heads == Members(roots) && |heads| == |roots|
  {
    ChildrenKeyed(migrations, byDown, roots);
    var allChildren := set d, c | d in byDown && c in byDown[d] :: c.revision.value;
    heads := set rev | rev in byRevision && rev !in allChildren :: byRevision[rev];
    HeadsAreRoots(migrations, byRevision, byDown, roots, allChildren, heads);
  }

  // ---- The walk ----

  ghost function Pending(current: Option<Migration>): seq<Migration> {
    if current.Some? then [current.value] else []
  }

  /** Having visited `trail`, the walk is about to look at `current`. */
  ghost predicate Walking(ms: seq<Migration>, trail: seq<Migration>, current: Option<Migration>) {
    && Trail(ms, trail + Pending(current))
    && (forall i {:trigger After(trail, i)} | 0 <= i < |trail| - 1 ::
          ChildrenOf(ms, trail[i].revision) == After(trail, i))
    && (trail != [] ==> ChildrenOf(ms, trail[|trail| - 1].revision) == Pending(current))
  }

  /** Every stop of a walk has a revision of its own. */
  lemma WalkVisits(ms: seq<Migration>, trail: seq<Migration>, current: Migration)
    requires Walking(ms, trail, Some(current))
    ensures current.revision.Some? && current.revision.value in Revisions(ms)
    ensures current.revision.value !in Revisions(trail)
    ensures Revisions(trail + [current]) == Revisions(trail) + {current.revision.value}
  {
    TrailKeyed(ms, trail + [current]);
    assert current in trail + [current];
    NewStop(ms, trail, current);
  }

  lemma TrailGoesOn(ms: seq<Migration>, trail: seq<Migration>, next: Option<Migration>)
    requires Trail(ms, trail) && trail != [] && ChildrenOf(ms, trail[|trail| - 1].revision) == Pending(next)
    ensures Trail(ms, trail + Pending(next))
  {
    if next.Some? {
      ChildrenAre(ms, trail[|trail| - 1].revision);
      assert next.value in Pending(next);
      TrailGrows(ms, trail, next.value);
    } else {
      assert trail + Pending(next) == trail;
    }
  }

  lemma WalkStep(ms: seq<Migration>, trail: seq<Migration>, current: Migration, next: Option<Migration>)
    requires Walking(ms, trail, Some(current)) && ChildrenOf(ms, current.revision) == Pending(next)
    ensures Walking(ms, trail + [current], next)
  {
    var longer := trail + [current];
    TrailGoesOn(ms, longer, next);
    forall i {:trigger After(longer, i)} | 0 <= i < |longer| - 1
      ensures ChildrenOf(ms, longer[i].revision) == After(longer, i)
    {
      assert i < |trail| - 1 ==> ChildrenOf(ms, trail[i].revision) == After(trail, i);
    }
  }

  /** The `while current` walk: no seen-check, and it visits exactly the root's descendants. */
  method WalkChain(ghost accepted: seq<Migration>, byDown: map<string, seq<Migration>>, roots: seq<Migration>)
    returns (visited: set<string>)
    requires Keyed(accepted) && FiledChildren(accepted, byDown, roots) && |roots| == 1
    requires forall d: string :: |ChildrenOf(accepted, Some(d))| <= 1
    ensures roots[0].revision.Some?
    ensures visited == Revisions(accepted) - Orphans(accepted, roots[0].revision.value)
  {
    ChildrenAre(accepted, None);
    assert roots[0] in roots;
    visited := {};
    var current := Some(roots[0]);
    ghost var trail: seq<Migration> := [];
    StartOfWalk(accepted, roots[0]);
    while current.Some?
      invariant Walking(accepted, trail, current) && visited == Revisions(trail)
      invariant trail + Pending(current) != [] && (trail + Pending(current))[0] == roots[0]
      decreases Revisions(accepted) - visited
    {
      assert current.value in trail + Pending(current);
      var rev := current.value.revision.value;
      var children := ListedUnder(byDown, rev);
      var next := if children != [] then Some(children[0]) else None;
      assert |ChildrenOf(accepted, Some(rev))| <= 1;
      WalkVisits(accepted, trail, current.value);
      WalkStep(accepted, trail, current.value, next);
      visited := visited + {rev};
      trail := trail + [current.value];
      current := next;
    }
    EndOfWalk(accepted, trail);
  }

  lemma StartOfWalk(ms: seq<Migration>, root: Migration)
    requires Keyed(ms) && root in ms && root.downRevision.None?
    ensures Walking(ms, [], Some(root))
  {
    assert [] + Pending(Some(root)) == [root];
  }

  lemma EndOfWalk(ms: seq<Migration>, trail: seq<Migration>)
    requires Walking(ms, trail, None) && trail != []
    ensures trail[0].revision.Some?
    ensures Revisions(trail) == Revisions(ms) - Orphans(ms, trail[0].revision.value)
    ensures Trail(ms, trail) && Forced(ms, trail)
  {
    assert trail + Pending(None) == trail;
    forall i {:trigger After(trail, i)} | 0 <= i < |trail|
      ensures ChildrenOf(ms, trail[i].revision) == After(trail, i)
    {
    }
    EndedTrailVisits(ms, trail);
  }

  lemma TrailGrows(ms: seq<Migration>, trail: seq<Migration>, m: Migration)
    requires Trail(ms, trail) && trail != [] && m in ms && m.downRevision == trail[|trail| - 1].revision
    ensures Trail(ms, trail + [m])
  {
    var next := trail + [m];
    forall i | 0 <= i < |next| ensures next[i].downRevision == Before(next, i) {
      if i < |trail| { assert trail[i].downRevision == Before(trail, i); }
    }
  }

  lemma NewStop(ms: seq<Migration>, trail: seq<Migration>, m: Migration)
    requires Keyed(trail + [m]) && m in ms
    ensures m.revision.Some? && m.revision.value in Revisions(ms)
    ensures m.revision.value !in Revisions(trail)
    ensures Revisions(trail + [m]) == Revisions(trail) + {m.revision.value}
  {
    var next := trail + [m];
    assert m in next;
    forall x <- trail ensures x.revision != m.revision {
      var i :| 0 <= i < |trail| && trail[i] == x;
      assert next[i] == x && next[|trail|] == m;
    }
    assert forall x :: x in next <==> x in trail || x == m;
  }

  lemma RevisionKeys(ms: seq<Migration>, byRevision: map<string, Migration>)
    requires FiledRevisions(ms, byRevision)
    ensures byRevision.Keys == Revisions(Accepted(ms))
  {
    AcceptedKeyed(ms);
    forall rev ensures rev in byRevision <==> rev in Revisions(ms) {
      if HasRevision(ms, rev) {
        var m :| m in ms && m.revision == Some(rev);
      }
    }
  }

  lemma BranchMap(accepted: seq<Migration>, byDown: map<string, seq<Migration>>, roots: seq<Migration>)
    requires FiledChildren(accepted, byDown, roots)
    ensures (map d | d in byDown && |byDown[d]| > 1 :: byDown[d]) == Branches(accepted)
  {
    forall d <- byDown ensures d in Downs(accepted) {
      ChildrenAre(accepted, Some(d));
      assert byDown[d][0] in accepted;
    }
  }

  lemma ChildrenKeyed(ms: seq<Migration>, byDown: map<string, seq<Migration>>, roots: seq<Migration>)
    requires FiledChildren(Accepted(ms), byDown, roots)
    ensures forall d, c | d in byDown && c in byDown[d] ::
      c.revision.Some? && c in Accepted(ms) && c.downRevision == Some(d)
  {
    AcceptedKeyed(ms);
    forall d, c | d in byDown && c in byDown[d]
      ensures c.revision.Some? && c in Accepted(ms) && c.downRevision == Some(d)
    {
      ChildrenAre(Accepted(ms), Some(d));
    }
  }

  /** An accepted migration is a root exactly when its revision is nobody's child. */
  lemma RootIffNotChild(ms: seq<Migration>, byDown: map<string, seq<Migration>>, roots: seq<Migration>, m: Migration)
    requires FiledChildren(Accepted(ms), byDown, roots) && m in Accepted(ms)
    ensures m in roots <==> forall d, c | d in byDown && c in byDown[d] :: c.revision != m.revision
  {
    var acc := Accepted(ms);
    AcceptedKeyed(ms);
    ChildrenAre(acc, None);
    ChildrenKeyed(ms, byDown, roots);
    if m in roots {
      forall d, c | d in byDown && c in byDown[d] ensures c.revision != m.revision {
        OtherRevision(acc, c, m);
      }
    } else {
      ChildrenAre(acc, m.downRevision);
      var d := m.downRevision.value;
      assert m in ChildrenOf(acc, Some(d));
      assert d in byDown && m in byDown[d];
    }
  }

  /** Dropping every revision that is somebody's child leaves the roots. */
  lemma HeadsAreRoots(ms: seq<Migration>, byRevision: map<string, Migration>,
                      byDown: map<string, seq<Migration>>, roots: seq<Migration>,
                      allChildren: set<string>, heads: set<Migration>)
    requires FiledRevisions(ms, byRevision) && FiledChildren(Accepted(ms), byDown, roots)
    requires forall d, c | d in byDown && c in byDown[d] :: c.revision.Some?
    requires allChildren == set d, c | d in byDown && c in byDown[d] :: c.revision.value
    requires heads == set rev | rev in byRevision && rev !in allChildren :: byRevision[rev]
    ensures heads == Members(roots) && |heads| == |roots|
  {
    var acc := Accepted(ms);
    AcceptedKeyed(ms);
    ChildrenAre(acc, None);
    RevisionKeys(ms, byRevision);
    forall m | m in heads ensures m in roots {
      var rev :| rev in byRevision && rev !in allChildren && byRevision[rev] == m;
      FirstIsAccepted(ms, rev);
      RootIffNotChild(ms, byDown, roots, m);
    }
    forall m | m in roots ensures m in heads {
      var rev := m.revision.value;
      assert rev in Revisions(acc);
      FirstIsAccepted(ms, rev);
      SameRevisionSame(acc, m, byRevision[rev]);
      RootIffNotChild(ms, byDown, roots, m);
    }
    KeyedSize(roots);
  }

  lemma {:induction false} KeyedSize(ms: seq<Migration>)
    requires Keyed(ms)
    ensures |Members(ms)| == |ms|
  {
    if ms != [] {
      var init, m := ms[..|ms| - 1], ms[|ms| - 1];
      assert ms == init + [m];
      assert forall i | 0 <= i < |init| :: init[i] == ms[i];
      KeyedSize(init);
      forall i | 0 <= i < |init| ensures init[i] != m { assert ms[i].revision != m.revision; }
      assert Members(ms) == Members(init) + {m};
    }
  }
}
