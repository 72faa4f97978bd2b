/** check_filename_order_matches_chain of ci/check_migration_sanity.py. */
module FilenameOrder {
  import opened Options
  import opened MigrationChain
  import opened MigrationSanity

  // ---- Lexicographic order and sorting of filenames ----

  predicate LexLe(a: string, b: string) {
    a == "" || (b != "" && (a[0] < b[0] || (a[0] == b[0] && LexLe(a[1..], b[1..]))))
  }

  lemma {:induction false} LexTotal(a: string, b: string)
    ensures LexLe(a, b) || LexLe(b, a)
  {
    if a != "" && b != "" { LexTotal(a[1..], b[1..]); }
  }

  lemma {:induction false} LexAntisymmetric(a: string, b: string)
    requires LexLe(a, b) && LexLe(b, a)
    ensures a == b
  {
    if a != "" {
      LexAntisymmetric(a[1..], b[1..]);
      assert a == [a[0]] + a[1..] && b == [b[0]] + b[1..];
    }
  }

  lemma {:induction false} LexTransitive(a: string, b: string, c: string)
    requires LexLe(a, b) && LexLe(b, c)
    ensures LexLe(a, c)
  {
    if a != "" && a[0] == b[0] == c[0] { LexTransitive(a[1..], b[1..], c[1..]); }
  }

  /** Up to where they first differ, the names agree; there the lesser ends or has the lesser character. */
  ghost predicate DifferAt(a: string, b: string, k: nat) {
    k <= |a| && k <= |b| && a[..k] == b[..k] && (k == |a| || (k < |b| && a[k] < b[k]))
  }

  lemma {:induction false} LexLeIs(a: string, b: string)
    ensures LexLe(a, b) <==> exists k: nat :: DifferAt(a, b, k)
  {
    if a == "" {
      assert DifferAt(a, b, 0);
    } else if b != "" && a[0] == b[0] {
      LexLeIs(a[1..], b[1..]);
      if k: nat :| DifferAt(a[1..], b[1..], k) {
        assert a[..k + 1] == [a[0]] + a[1..][..k] && b[..k + 1] == [b[0]] + b[1..][..k];
        assert DifferAt(a, b, k + 1);
      }
      if k: nat :| DifferAt(a, b, k) {
        assert k > 0 && a[1..][..k - 1] == a[..k][1..] && b[1..][..k - 1] == b[..k][1..];
        assert DifferAt(a[1..], b[1..], k - 1);
      }
    } else if b != "" && a[0] < b[0] {
      assert DifferAt(a, b, 0);
    } else {
      assert forall k: nat :: DifferAt(a, b, k) ==> k == 0 || a[..k][0] == b[..k][0];
    }
  }

  ghost predicate Ascending(names: seq<string>) {
    forall i, j | 0 <= i < j < |names| :: LexLe(names[i], names[j])
  }

  function Insert(name: string, names: seq<string>): seq<string> {
    if names == [] || LexLe(name, names[0]) then [name] + names else [names[0]] + Insert(name, names[1..])
  }

  function Sorted(names: seq<string>): seq<string> {
    if names == [] then [] else Insert(names[0], Sorted(names[1..]))
  }

  lemma {:induction false} InsertPermutes(name: string, names: seq<string>)
    ensures multiset(Insert(name, names)) == multiset(names) + multiset{name}
  {
    if names != [] && !LexLe(name, names[0]) {
      InsertPermutes(name, names[1..]);
      assert names == [names[0]] + names[1..];
    }
  }

  lemma AscendingCons(first: string, rest: seq<string>)
    requires Ascending(rest) && forall other <- rest :: LexLe(first, other)
    ensures Ascending([first] + rest)
  {
    var all := [first] + rest;
    forall i, j | 0 <= i < j < |all| ensures LexLe(all[i], all[j]) {
      assert all[j] == rest[j - 1] && (i > 0 ==> all[i] == rest[i - 1]);
    }
  }

  lemma AscendingTail(names: seq<string>)
    requires Ascending(names) && names != []
    ensures Ascending(names[1..]) && forall other <- names[1..] :: LexLe(names[0], other)
  {
    forall other <- names[1..] ensures LexLe(names[0], other) {
      var k :| 0 <= k < |names| - 1 && names[1..][k] == other;
      assert names[k + 1] == other;
    }
  }

  lemma {:induction false} InsertAscends(name: string, names: seq<string>)
    requires Ascending(names)
    ensures Ascending(Insert(name, names))
  {
    if names == [] {
    } else if LexLe(name, names[0]) {
      forall other <- names ensures LexLe(name, other) {
        var j :| 0 <= j < |names| && names[j] == other;
        if j > 0 { LexTransitive(name, names[0], other); }
      }
      AscendingCons(name, names);
    } else {
      var rest := Insert(name, names[1..]);
      AscendingTail(names);
      InsertAscends(name, names[1..]);
      InsertPermutes(name, names[1..]);
      LexTotal(name, names[0]);
      forall other <- rest ensures LexLe(names[0], other) {
        assert other in multiset(rest);
      }
      AscendingCons(names[0], rest);
    }
  }

  lemma {:induction false} SortedAscends(names: seq<string>)
    ensures Ascending(Sorted(names)) && multiset(Sorted(names)) == multiset(names)
  {
    if names != [] {
      SortedAscends(names[1..]);
      InsertAscends(names[0], Sorted(names[1..]));
      InsertPermutes(names[0], Sorted(names[1..]));
      assert names == [names[0]] + names[1..];
    }
  }

  lemma FirstIsLeast(a: seq<string>, name: string)
    requires Ascending(a) && name in multiset(a)
    ensures LexLe(a[0], name)
  {
    LexTotal(a[0], a[0]);
  }

  lemma TailsPermute<T>(a: seq<T>, b: seq<T>)
    requires a != [] && b != [] && a[0] == b[0] && multiset(a) == multiset(b)
    ensures multiset(a[1..]) == multiset(b[1..])
  {
    assert a == [a[0]] + a[1..] && b == [b[0]] + b[1..];
    assert multiset(a[1..]) == multiset(a) - multiset{a[0]};
    assert multiset(b[1..]) == multiset(b) - multiset{b[0]};
  }

  lemma {:induction false} AscendingUnique(a: seq<string>, b: seq<string>)
    requires Ascending(a) && Ascending(b) && multiset(a) == multiset(b)
    ensures a == b
  {
    if a == [] {
      assert |multiset(b)| == 0;
    } else {
      assert a[0] in multiset(b);
      FirstIsLeast(b, a[0]);
      FirstIsLeast(a, b[0]);
      LexAntisymmetric(a[0], b[0]);
      TailsPermute(a, b);
      assert forall i | 0 <= i < |a[1..]| :: a[1..][i] == a[i + 1];
      AscendingUnique(a[1..], b[1..]);
      assert a == [a[0]] + a[1..] && b == [b[0]] + b[1..];
    }
  }

  function Names(ms: seq<Migration>): seq<string> {
    seq(|ms|, i requires 0 <= i < |ms| => ms[i].filename)
  }

  lemma NamesConcat(a: seq<Migration>, b: seq<Migration>)
    ensures Names(a + b) == Names(a) + Names(b)
  {
  }

  lemma NamesWithout(ms: seq<Migration>, k: nat)
    requires k < |ms|
    ensures multiset(ms) == multiset(ms[..k] + ms[k + 1..]) + multiset{ms[k]}
    ensures multiset(Names(ms)) == multiset(Names(ms[..k] + ms[k + 1..])) + multiset{ms[k].filename}
  {
    assert ms == ms[..k] + ([ms[k]] + ms[k + 1..]);
    NamesConcat(ms[..k], [ms[k]] + ms[k + 1..]);
    NamesConcat([ms[k]], ms[k + 1..]);
    NamesConcat(ms[..k], ms[k + 1..]);
    assert Names([ms[k]]) == [ms[k].filename];
  }

  lemma {:induction false} NamesPermutation(a: seq<Migration>, b: seq<Migration>)
    requires multiset(a) == multiset(b)
    ensures multiset(Names(a)) == multiset(Names(b))
  {
    if a == [] {
      assert |multiset(b)| == 0;
    } else {
      assert a[0] in multiset(b);
      var k :| 0 <= k < |b| && b[k] == a[0];
      NamesWithout(a, 0);
      NamesWithout(b, k);
      var x, y := a[..0] + a[1..], b[..k] + b[k + 1..];
      assert multiset(x) == multiset(a) - multiset{a[0]};
      assert multiset(y) == multiset(b) - multiset{a[0]};
      NamesPermutation(x, y);
    }
  }

  // ---- The check ----

  datatype OrderReport = InOrder | OutOfOrder(listing: seq<string>, chain: seq<string>)

  /** A bag of migrations has at most one chain order. */
  lemma OrderingUnique(ms: seq<Migration>, a: seq<Migration>, b: seq<Migration>)
    requires IsOrdering(a, ms) && IsOrdering(b, ms)
    ensures a == b
  {
    assert |multiset(a)| == |a| && |multiset(b)| == |b|;
    forall i: nat | i < |a| ensures a[i] == b[i] {
      OrderingsAgree(ms, a, b, i);
    }
  }

  lemma {:induction false} OrderingsAgree(ms: seq<Migration>, a: seq<Migration>, b: seq<Migration>, i: nat)
    requires IsOrdering(a, ms) && IsOrdering(b, ms) && i < |a| == |b|
    ensures a[i] == b[i]
  {
    if i == 0 {
      ChainChildren(ms, a, 0);
      ChainChildren(ms, b, 0);
    } else {
      OrderingsAgree(ms, a, b, i - 1);
      ChainChildren(ms, a, i - 1);
      ChainChildren(ms, b, i - 1);
    }
  }

  lemma NotLinear(ms: seq<Migration>)
    ensures !Keyed(ms) || |ChildrenOf(ms, None)| != 1 || Branches(ms) != map[] ==> !Linear(ms)
  {
    if Linear(ms) {
      var order: seq<Migration> :| IsOrdering(order, ms);
      ChainChildren(ms, order, 0);
      LinearHasNoBranch(ms, order);
    }
  }

  /** A finished walk over every revision is the chain order; a shorter one means there is none. */
  lemma FinishedWalk(ms: seq<Migration>, chain: seq<Migration>)
    requires Trail(ms, chain) && chain != [] && Forced(ms, chain)
    requires ChildrenOf(ms, None) == [chain[0]]
    ensures |chain| == |Revisions(ms)| ==> IsOrdering(chain, ms)
    ensures |chain| != |Revisions(ms)| ==> !Linear(ms)
  {
    EndedTrailVisits(ms, chain);
    TrailKeyed(ms, chain);
    RevisionCount(chain);
    if |chain| == |Revisions(ms)| {
      SameSize(Revisions(chain), Revisions(ms));
      FullTrailIsOrdering(ms, chain);
    }
    if Linear(ms) {
      var order: seq<Migration> :| IsOrdering(order, ms);
      LinearHasNoOrphan(ms, order);
    }
  }

  lemma FullTrailIsOrdering(ms: seq<Migration>, chain: seq<Migration>)
    requires Trail(ms, chain) && chain != [] && Keyed(chain) && Revisions(chain) == Revisions(ms)
    ensures IsOrdering(chain, ms)
  {
    forall m | m in ms ensures m in chain {
      assert m.revision.value in Revisions(ms);
      var x :| x in chain && x.revision == m.revision;
      SameRevisionSame(ms, x, m);
    }
    KeyedPermutation(chain, ms);
  }

  lemma SameSize<T>(a: set<T>, b: set<T>)
    requires a <= b && |a| == |b|
    ensures a == b
  {
    assert |b - a| == |b| - |a|;
  }

  lemma {:induction false} RevisionCount(ms: seq<Migration>)
    requires Keyed(ms)
    ensures |Revisions(ms)| == |ms|
  {
    if ms != [] {
      var init, m := ms[..|ms| - 1], ms[|ms| - 1];
      assert ms == init + [m];
      assert forall i | 0 <= i < |init| :: init[i] == ms[i];
      RevisionCount(init);
      NewStop(ms, init, m);
    }
  }

  ghost predicate FiledSoFar(ms: seq<Migration>, byRevision: map<string, Migration>,
                             byDown: map<string, seq<Migration>>, roots: seq<Migration>)
  {
    Keyed(ms) && FiledRevisions(ms, byRevision) && FiledChildren(ms, byDown, roots)
  }

  lemma FileNext(ms: seq<Migration>, i: nat, byRevision: map<string, Migration>,
                 byDown: map<string, seq<Migration>>, roots: seq<Migration>)
    requires i < |ms| && FiledSoFar(ms[..i], byRevision, byDown, roots)
    requires ms[i].revision.Some? && ms[i].revision.value !in byRevision
    ensures var m := ms[i];
      var filed := byRevision[m.revision.value := m];
      if m.downRevision.None? then FiledSoFar(ms[..i + 1], filed, byDown, roots + [m])
      else
        var d := m.downRevision.value;
        FiledSoFar(ms[..i + 1], filed, byDown[d := ListedUnder(byDown, d) + [m]], roots)
  {
    var before, m := ms[..i], ms[i];
    assert ms[..i + 1] == before + [m];
    FileRevision(before, m, byRevision);
    KeyedAppend(before, m);
    if m.downRevision.None? {
      FileRoot(before, m, byDown, roots);
    } else {
      FileChild(before, m, byDown, roots);
    }
  }

  lemma RepeatedNotKeyed(ms: seq<Migration>, i: nat)
    requires i < |ms| && ms[i].revision.Some? && HasRevision(ms[..i], ms[i].revision.value)
    ensures !Keyed(ms)
  {
    var x :| x in ms[..i] && x.revision == ms[i].revision;
    var k :| 0 <= k < i && ms[..i][k] == x;
    assert ms[k].revision == ms[i].revision;
  }

  lemma CannotFile(ms: seq<Migration>, i: nat, byRevision: map<string, Migration>)
    requires i < |ms| && FiledRevisions(ms[..i], byRevision)
    requires ms[i].revision.None? || ms[i].revision.value in byRevision
    ensures !Keyed(ms)
  {
    if ms[i].revision.Some? { RepeatedNotKeyed(ms, i); }
  }

  /** The filing loop; it gives up on a missing or repeated revision. */
  method FileKeyed(migrations: seq<Migration>)
    returns (keyed: bool, byRevision: map<string, Migration>, byDown: map<string, seq<Migration>>,
             roots: seq<Migration>)
    ensures keyed <==> Keyed(migrations)
    ensures keyed ==> FiledRevisions(migrations, byRevision) && FiledChildren(migrations, byDown, roots)
  {
    keyed, byRevision, byDown, roots := true, map[], map[], [];
    for i := 0 to |migrations|
      invariant keyed && FiledSoFar(migrations[..i], byRevision, byDown, roots)
    {
      var m := migrations[i];
      if m.revision == None || m.revision.value in byRevision {
        CannotFile(migrations, i, byRevision);
        return false, byRevision, byDown, roots;
      }
      FileNext(migrations, i, byRevision, byDown, roots);
      byRevision := byRevision[m.revision.value := m];
      if m.downRevision == None {
        roots := roots + [m];
      } else {
        var d := m.downRevision.value;
        byDown := byDown[d := ListedUnder(byDown, d) + [m]];
      }
    }
    assert migrations[..|migrations|] == migrations;
  }

  /** The chain the walk reads, when the migrations form one. */
  method FindChain(migrations: seq<Migration>) returns (chain: Option<seq<Migration>>)
    ensures chain.Some? <==> Linear(migrations)
    ensures chain.Some? ==> IsOrdering(chain.value, migrations)
  {
    var keyed, byRevision, byDown, roots := FileKeyed(migrations);
    NotLinear(migrations);
    if !keyed || |roots| != 1 {
      return None;
    }
    BranchMap(migrations, byDown, roots);
    var branchPoints := set d | d in byDown && |byDown[d]| > 1;
    if branchPoints != {} {
      var d :| d in branchPoints;
      assert d in Branches(migrations);
      return None;
    }
    assert Branches(migrations) == map[];
    var walked := ReadChain(migrations, byDown, roots);
    FinishedWalk(migrations, walked);
    IntakeCleanIffKeyed(migrations);
    RevisionKeys(migrations, byRevision);
    assert |byRevision| == |byRevision.Keys|;
    chain := if |walked| != |byRevision| then None else Some(walked);
  }

  /**
    The warning fires exactly when the migrations form one chain whose filenames
    do not ascend; anything that is not a chain is left to the other check.
   */
  method CheckFilenameOrder(migrations: seq<Migration>) returns (report: OrderReport)
    ensures report.OutOfOrder? <==> exists order :: IsOrdering(order, migrations) && !Ascending(Names(order))
    ensures report.OutOfOrder? ==>
      && Ascending(report.listing) && multiset(report.listing) == multiset(Names(migrations))
      && exists order :: IsOrdering(order, migrations) && report.chain == Names(order)
  {
    if migrations == [] {
      assert forall order: seq<Migration> | multiset(order) == multiset(migrations) :: |multiset(order)| == 0;
      return InOrder;
    }
    var chain := FindChain(migrations);
    if chain == None {
      return InOrder;
    }
    var filenameOrder := Sorted(Names(migrations));
    var chainOrder := Names(chain.value);
    SortedAscends(Names(migrations));
    NamesPermutation(chain.value, migrations);
    if Ascending(chainOrder) {
      AscendingUnique(filenameOrder, chainOrder);
    }
    forall order | IsOrdering(order, migrations) ensures order == chain.value {
      OrderingUnique(migrations, order, chain.value);
    }
    report := if filenameOrder != chainOrder then OutOfOrder(filenameOrder, chainOrder) else InOrder;
  }

  /** The guarded walk.  Its seen-check never fires. */
  method ReadChain(ghost migrations: seq<Migration>, byDown: map<string, seq<Migration>>, roots: seq<Migration>)
    returns (chain: seq<Migration>)
    requires Keyed(migrations) && FiledChildren(migrations, byDown, roots) && |roots| == 1
    requires Branches(migrations) == map[]
    ensures Trail(migrations, chain) && chain != [] && chain[0] == roots[0] && Forced(migrations, chain)
  {
    NoBranches(migrations);
    ChildrenAre(migrations, None);
    assert roots[0] in roots;
    chain := [];
    var current := Some(roots[0]);
    var seen: set<string> := {};
    StartOfWalk(migrations, roots[0]);
    while current.Some? && current.value.revision.Some? && current.value.revision.value !in seen
      invariant Walking(migrations, chain, current) && seen == Revisions(chain)
      invariant current.Some? ==> current.value.revision.Some? && current.value.revision.value !in seen
      invariant chain + Pending(current) != [] && (chain + Pending(current))[0] == roots[0]
      decreases Revisions(migrations) - seen
    {
      var rev := current.value.revision.value;
      var children := ListedUnder(byDown, rev);
      var next := if children != [] then Some(children[0]) else None;
      assert |ChildrenOf(migrations, Some(rev))| <= 1;
      WalkVisits(migrations, chain, current.value);
      WalkStep(migrations, chain, current.value, next);
      chain := chain + [current.value];
      seen := seen + {rev};
      current := next;
      FreshStop(migrations, chain, current);
    }
    EndOfWalk(migrations, chain);
  }

  lemma FreshStop(ms: seq<Migration>, trail: seq<Migration>, current: Option<Migration>)
    requires Walking(ms, trail, current)
    ensures current.Some? ==> current.value.revision.Some? && current.value.revision.value !in Revisions(trail)
  {
    if current.Some? {
      TrailKeyed(ms, trail + [current.value]);
      assert current.value in trail + [current.value];
      NewStop(ms, trail, current.value);
    }
  }
}
