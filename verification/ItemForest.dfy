/** The item tree under change: reparenting (myapp/blueprints/api.py) and inherited privacy (myapp/utils/privacy.py). */
module ItemForest {
  import opened Options
  import opened ParentForest
  import opened Visibility

  // ---- Runs of tree changes ----

  datatype TreeStep = Create(id: ItemId, parent: Option<ItemId>) | Move(id: ItemId, parent: Option<ItemId>)

  /** The guard of update_item: a new parent must not be the item or lie below it. */
  ghost predicate MoveAllowed(parents: Parents<ItemId>, id: ItemId, parent: Option<ItemId>) {
    parent.Some? ==> !AtOrAbove(parents, id, parent.value)
  }

  /** One request.  A refused request changes nothing. */
  ghost function ApplyStep(parents: Parents<ItemId>, step: TreeStep): Parents<ItemId> {
    match step
    case Create(id, parent) =>
      if id in parents || (parent.Some? && parent.value !in parents) then parents else parents[id := parent]
    case Move(id, parent) =>
      if id !in parents || (parent.Some? && parent.value !in parents) || !MoveAllowed(parents, id, parent)
      then parents else parents[id := parent]
  }

  ghost function RunSteps(parents: Parents<ItemId>, steps: seq<TreeStep>): Parents<ItemId> {
    if steps == [] then parents else ApplyStep(RunSteps(parents, steps[..|steps| - 1]), steps[|steps| - 1])
  }

  /** A request lands on a new id, or on a known one that it does not put below itself; its parent is known. */
  ghost predicate Lands(parents: Parents<ItemId>, step: TreeStep) {
    && (step.parent.Some? ==> step.parent.value in parents)
    && match step
       case Create(id, _) => id !in parents
       case Move(id, parent) => id in parents && (parent.Some? ==> !AtOrAbove(parents, id, parent.value))
  }

  lemma StepIs(parents: Parents<ItemId>, step: TreeStep)
    ensures ApplyStep(parents, step) == if Lands(parents, step) then parents[step.id := step.parent] else parents
  {
  }

  /** Requests are applied one after another. */
  lemma RunIs(parents: Parents<ItemId>, steps: seq<TreeStep>, step: TreeStep)
    ensures RunSteps(parents, []) == parents
    ensures RunSteps(parents, steps + [step]) == ApplyStep(RunSteps(parents, steps), step)
  {
    assert (steps + [step])[..|steps|] == steps;
  }

  lemma StepKeepsForest(parents: Parents<ItemId>, step: TreeStep)
    requires Closed(parents) && Acyclic(parents)
    ensures Closed(ApplyStep(parents, step)) && Acyclic(ApplyStep(parents, step))
  {
    if ApplyStep(parents, step) != parents {
      if step.parent.None? {
        DetachKeepsAcyclic(parents, step.id);
      } else {
        if step.Create? { NothingBelowNew(parents, step.id, step.parent.value); }
        MoveKeepsAcyclic(parents, step.id, step.parent.value);
      }
    }
  }

  lemma NothingBelowNew(parents: Parents<ItemId>, id: ItemId, k: ItemId)
    requires Closed(parents) && id !in parents && k in parents
    ensures !AtOrAbove(parents, id, k)
  {
    forall n: nat ensures Climb(parents, k, n) != Some(id) {
      ClimbStaysInside(parents, k, n);
    }
  }

  /** Every forest reachable by creating and moving items is acyclic, so every walk up it ends. */
  lemma {:induction false} RunKeepsForest(parents: Parents<ItemId>, steps: seq<TreeStep>)
    requires Closed(parents) && Acyclic(parents)
    ensures Closed(RunSteps(parents, steps)) && Acyclic(RunSteps(parents, steps))
  {
    if steps != [] {
      RunKeepsForest(parents, steps[..|steps| - 1]);
      StepKeepsForest(RunSteps(parents, steps[..|steps| - 1]), steps[|steps| - 1]);
    }
  }

  /** The guard refuses a move exactly when the move would close a cycle. */
  lemma GuardExact(parents: Parents<ItemId>, id: ItemId, parent: ItemId)
    requires Acyclic(parents) && parent in parents
    ensures var moved := parents[id := Some(parent)];
      MoveAllowed(parents, id, Some(parent)) <==> forall k <- moved :: !OnCycle(moved, k)
  {
    MoveKeepsAcyclic(parents, id, parent);
    AcyclicIffNoCycle(parents[id := Some(parent)]);
  }

  // ---- Two moves checked against one table ----

  function BothMoved(parents: Parents<ItemId>, x: ItemId, p: ItemId, y: ItemId, q: ItemId): Parents<ItemId> {
    parents[x := Some(p)][y := Some(q)]
  }

  /** After `x` moves below `p`, what lies on the way up from `q` past `x` is what lies at or above `p`. */
  lemma AboveAfterMove(parents: Parents<ItemId>, x: ItemId, p: ItemId, y: ItemId, q: ItemId)
    requires x in parents && x != y && AtOrAbove(parents[x := Some(p)], y, q) && !AtOrAbove(parents, y, q)
    ensures AtOrAbove(parents[x := Some(p)], y, p)
  {
    var moved := parents[x := Some(p)];
    var n: nat :| Climb(moved, q, n) == Some(y);
    assert moved[x := parents[x]] == parents;
    if i: nat :| i < n && Climb(moved, q, i) == Some(x) {
      ClimbAdd(moved, q, i, n - i);
      assert AtOrAbove(moved, y, x);
      AtOrAboveStep(moved, y, x);
    } else {
      ClimbUntilMoved(moved, x, parents[x], q, n);
    }
  }

  /**
    Two moves that the guard passed against the same table leave a forest if and
    only if they do not put each item below the other.
   */
  lemma TwoMovesIff(parents: Parents<ItemId>, x: ItemId, p: ItemId, y: ItemId, q: ItemId)
    requires Acyclic(parents) && x != y && x in parents && p in parents && q in parents
    requires MoveAllowed(parents, x, Some(p)) && MoveAllowed(parents, y, Some(q))
    ensures Acyclic(BothMoved(parents, x, p, y, q)) <==> !(AtOrAbove(parents, x, q) && AtOrAbove(parents, y, p))
  {
    var moved := parents[x := Some(p)];
    MoveKeepsAcyclic(parents, x, p);
    MoveKeepsAcyclic(moved, y, q);
    UnmovedAbove(parents, x, Some(p), p, y);
    BelowMoved(parents, x, Some(p), q);
    AtOrAboveStep(moved, y, x);
    if !AtOrAbove(parents, x, q) {
      UnmovedAbove(parents, x, Some(p), q, y);
    } else if AtOrAbove(moved, y, q) {
      AboveAfterMove(parents, x, p, y, q);
      assert AtOrAbove(parents, y, p);
    } else {
      assert !AtOrAbove(moved, y, x) by {
        if AtOrAbove(moved, y, x) { AtOrAboveTransitive(moved, y, x, q); }
      }
    }
  }

  /** Two roots, each moved below the other: both requests pass, and neither walk up ends. */
  lemma CrossingMovesCloseCycle()
    ensures exists parents: Parents<ItemId>, x, y ::
      && Closed(parents) && Acyclic(parents) && x in parents && y in parents
      && MoveAllowed(parents, x, Some(y)) && MoveAllowed(parents, y, Some(x))
      && !Acyclic(BothMoved(parents, x, y, y, x))
  {
    var parents: Parents<ItemId> := map[1 := None, 2 := None];
    assert Climb(parents, 1, 1).None? && Climb(parents, 2, 1).None?;
    AtOrAboveStep(parents, 1, 2);
    AtOrAboveStep(parents, 2, 1);
    AtOrAboveStep(parents, 1, 1);
    AtOrAboveStep(parents, 2, 2);
    TwoMovesIff(parents, 1, 2, 2, 1);
    assert Closed(parents) && Acyclic(parents);
    assert MoveAllowed(parents, 1, Some(2)) && MoveAllowed(parents, 2, Some(1));
    assert !Acyclic(BothMoved(parents, 1, 2, 2, 1));
  }

  // ---- Inherited privacy ----

  /** Own flag, or the flag of any ancestor. */
  ghost predicate InheritsPrivacy(items: Items, id: ItemId) {
    exists a <- items :: items[a].isPrivate && AtOrAbove(ParentsIn(items), a, id)
  }

  /** The denormalised column says what it stands for. */
  ghost predicate InSync(items: Items) {
    forall i <- items :: items[i].privateEffective == InheritsPrivacy(items, i)
  }

  lemma InheritStep(items: Items, id: ItemId)
    requires SoundTree(items) && id in items
    ensures InheritsPrivacy(items, id) <==>
            items[id].isPrivate || (items[id].parent.Some? && InheritsPrivacy(items, items[id].parent.value))
  {
    forall a ensures AtOrAbove(ParentsIn(items), a, id) <==>
      a == id || (items[id].parent.Some? && AtOrAbove(ParentsIn(items), a, items[id].parent.value))
    {
      AtOrAboveStep(ParentsIn(items), a, id);
    }
  }

  /** The rows below the roots in `tops` brought in line; all others as they were. */
  ghost function Resynced(items: Items, tops: set<ItemId>): (r: Items) {
    map i <- items ::
      if exists t <- tops :: AtOrAbove(ParentsIn(items), t, i)
      then items[i].(privateEffective := InheritsPrivacy(items, i)) else items[i]
  }

  /** Only the denormalised column differs. */
  ghost predicate SameButColumn(a: Items, b: Items) {
    a.Keys == b.Keys && forall i <- a :: b[i] == a[i].(privateEffective := b[i].privateEffective)
  }

  lemma SameTree(a: Items, b: Items)
    requires SameButColumn(a, b)
    ensures ParentsIn(a) == ParentsIn(b)
    ensures forall i :: InheritsPrivacy(a, i) <==> InheritsPrivacy(b, i)
  {
    assert ParentsIn(a) == ParentsIn(b);
  }

  lemma ResyncedTwice(items: Items, tops: set<ItemId>, more: set<ItemId>)
    ensures SameButColumn(items, Resynced(items, tops))
    ensures Resynced(Resynced(items, tops), more) == Resynced(items, tops + more)
  {
    SameTree(items, Resynced(items, tops));
  }

  /** Strictly below a node means at or below one of its children. */
  lemma BelowIsBelowChild(items: Items, id: ItemId, i: ItemId)
    requires i in items && i != id
    ensures AtOrAbove(ParentsIn(items), id, i) <==>
            exists c <- items :: items[c].parent == Some(id) && AtOrAbove(ParentsIn(items), c, i)
  {
    var parents := ParentsIn(items);
    if AtOrAbove(parents, id, i) {
      var n: nat :| Climb(parents, i, n) == Some(id);
      assert n > 0;
      ClimbLast(parents, i, n - 1);
      var c := Climb(parents, i, n - 1).value;
      assert AtOrAbove(parents, c, i) && items[c].parent == Some(id);
    }
    if c :| c in items && items[c].parent == Some(id) && AtOrAbove(parents, c, i) {
      assert Climb(parents, id, 0) == Some(id);
      assert Climb(parents, c, 1) == Some(id);
      AtOrAboveTransitive(parents, id, c, i);
    }
  }

  lemma ChildrenCover(items: Items, id: ItemId, children: set<ItemId>)
    requires id in items && children == set i <- items | items[i].parent == Some(id)
    ensures Resynced(items, children)[id := items[id].(privateEffective := InheritsPrivacy(items, id))]
            == Resynced(items, {id})
  {
    var parents := ParentsIn(items);
    assert Climb(parents, id, 0) == Some(id);
    forall i <- items | i != id
      ensures AtOrAbove(parents, id, i) <==> exists c <- children :: AtOrAbove(parents, c, i)
    {
      BelowIsBelowChild(items, id, i);
      assert forall c <- items | items[c].parent == Some(id) :: c in children;
    }
  }

  /** A flag or pointer change at `id` shows only at or below `id`. */
  lemma ChangeStaysBelow(items: Items, id: ItemId, changed: Item, i: ItemId)
    requires i in items && i != id && !AtOrAbove(ParentsIn(items), id, i)
    ensures InheritsPrivacy(items[id := changed], i) == InheritsPrivacy(items, i)
  {
    var next := items[id := changed];
    assert ParentsIn(next) == ParentsIn(items)[id := changed.parent];
    forall a: ItemId ensures AtOrAbove(ParentsIn(next), a, i) <==> AtOrAbove(ParentsIn(items), a, i) {
      UnmovedAbove(ParentsIn(items), id, changed.parent, i, a);
    }
  }

  /** After a change to one row, old or new, bringing its subtree in line brings the whole tree in line. */
  lemma ResyncRestores(items: Items, id: ItemId, changed: Item)
    requires SoundTree(items) && InSync(items)
    ensures InSync(Resynced(items[id := changed], {id}))
  {
    var next := items[id := changed];
    assert ParentsIn(next) == ParentsIn(items)[id := changed.parent];
    ResyncedTwice(next, {id}, {});
    SameTree(next, Resynced(next, {id}));
    forall i <- next | !AtOrAbove(ParentsIn(next), id, i) ensures next[i].privateEffective == InheritsPrivacy(next, i) {
      AtOrAboveStep(ParentsIn(next), id, i);
      BelowMoved(ParentsIn(items), id, changed.parent, i);
      ChangeStaysBelow(items, id, changed, i);
    }
  }
}
