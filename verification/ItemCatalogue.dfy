/** The item table and the requests that change its tree: create_item and update_item of myapp/blueprints/api.py. */
module ItemCatalogue {
  import opened Options
  import opened ParentForest
  import opened Visibility
  import opened Access
  import opened ItemForest

  /** The fields of a PUT that concern ownership, privacy and position; None leaves a field alone. */
  datatype ItemUpdate = ItemUpdate(owner: Option<Option<UserId>>, isPrivate: Option<bool>,
                                   parent: Option<Option<ItemId>>)

  /** What a request answers: the row it touched, or an HTTP error. */
  datatype Outcome = Done(id: ItemId) | Refused(code: nat)

  function Reversed<T>(s: seq<T>): seq<T> {
    if s == [] then [] else Reversed(s[1..]) + [s[0]]
  }

  lemma {:induction false} ReversedAppend<T>(s: seq<T>, t: seq<T>)
    ensures Reversed(s + t) == Reversed(t) + Reversed(s)
  {
    if s == [] {
      assert s + t == t;
    } else {
      assert (s + t)[1..] == s[1..] + t;
      ReversedAppend(s[1..], t);
    }
  }

  function WithItem(w: World, id: ItemId, item: Item): World {
    w.(items := w.items[id := item])
  }

  lemma SoundIs(w: World)
    ensures w.Parents() == ParentsIn(w.items)
    ensures w.Sound() <==> SoundTree(w.items) && forall s <- w.shares :: s.item in w.items
  {
  }

  lemma SamePointerSound(w: World, id: ItemId, item: Item)
    requires w.Sound() && id in w.items && item.parent == w.items[id].parent
    ensures WithItem(w, id, item).Sound() && WithItem(w, id, item).Parents() == w.Parents()
  {
    assert WithItem(w, id, item).Parents() == w.Parents();
  }

  lemma MovedSound(w: World, id: ItemId, item: Item)
    requires w.Sound() && id in w.items && (item.parent.Some? ==> item.parent.value in w.items)
    requires MoveAllowed(w.Parents(), id, item.parent)
    ensures WithItem(w, id, item).Sound() && WithItem(w, id, item).Parents() == w.Parents()[id := item.parent]
  {
    assert WithItem(w, id, item).Parents() == w.Parents()[id := item.parent];
    if item.parent.Some? {
      MoveKeepsAcyclic(w.Parents(), id, item.parent.value);
    } else {
      DetachKeepsAcyclic(w.Parents(), id);
    }
  }

  // ---- The two walks ----

  /** What is left of a walk that is about to look at `current`. */
  ghost function Remaining(w: World, current: Option<ItemId>): seq<ItemId>
    requires w.Sound() && (current.Some? ==> current.value in w.items)
  {
    if current.Some? then Walk(w.Parents(), current.value) else []
  }

  lemma WalkUnfolds(w: World, id: ItemId, before: seq<ItemId>)
    requires w.Sound() && id in w.items
    ensures before + Walk(w.Parents(), id) == (before + [id]) + Remaining(w, w.items[id].parent)
  {
    HeightIfParent(w, id);
    assert w.Parents()[id] == w.items[id].parent;
  }

  /** Item.ancestors: from the root down to the parent. */
  method Ancestors(w: World, id: ItemId) returns (chain: seq<ItemId>)
    requires w.Sound() && id in w.items
    ensures chain + [id] == Reversed(Walk(w.Parents(), id))
  {
    chain := [];
    var current := w.items[id].parent;
    WalkUnfolds(w, id, []);
    HeightIfParent(w, id);
    while current.Some?
      invariant current.Some? ==> current.value in w.items
      invariant Walk(w.Parents(), id) == ([id] + chain) + Remaining(w, current)
      decreases if current.Some? then Height(w.Parents(), current.value) else 0
    {
      HeightIfParent(w, current.value);
      WalkUnfolds(w, current.value, [id] + chain);
      assert ([id] + chain) + [current.value] == [id] + (chain + [current.value]);
      chain := chain + [current.value];
      current := w.items[current.value].parent;
    }
    ReversedAppend([id], chain);
    assert Walk(w.Parents(), id) == [id] + chain;
    assert Reversed([id]) == [id];
    chain := Reversed(chain);
  }

  lemma HeightIfParent(w: World, id: ItemId)
    requires w.Sound() && id in w.items
    ensures Grounded(w.Parents(), id)
    ensures w.items[id].parent.Some? ==>
      Grounded(w.Parents(), w.items[id].parent.value) &&
      Height(w.Parents(), w.items[id].parent.value) < Height(w.Parents(), id)
  {
    if w.items[id].parent.Some? {
      HeightDrops(w.Parents(), id);
    }
  }

  /** Item.is_ancestor_of: strictly above. */
  method IsAncestorOf(w: World, self: ItemId, other: ItemId) returns (above: bool)
    requires w.Sound() && self in w.items && other in w.items
    ensures above <==> w.items[other].parent.Some? && AtOrAbove(w.Parents(), self, w.items[other].parent.value)
    ensures other == self || above <==> AtOrAbove(w.Parents(), self, other)
  {
    AtOrAboveStep(w.Parents(), self, other);
    HeightIfParent(w, other);
    var current := w.items[other].parent;
    ghost var start := current;
    while current.Some?
      invariant current.Some? ==> current.value in w.items
      invariant (start.Some? && AtOrAbove(w.Parents(), self, start.value)) <==>
                (current.Some? && AtOrAbove(w.Parents(), self, current.value))
      decreases if current.Some? then Height(w.Parents(), current.value) else 0
    {
      AtOrAboveStep(w.Parents(), self, current.value);
      HeightIfParent(w, current.value);
      if current.value == self {
        return true;
      }
      current := w.items[current.value].parent;
    }
    return false;
  }

  /** The caller of a recomputation knows what the parent of `id` passes down; `depth` bounds the recursion. */
  ghost predicate RightAbove(w: World, id: ItemId, parentEffective: bool, depth: nat) {
    && w.Sound() && id in w.items
    && (parentEffective <==> w.items[id].parent.Some? && InheritsPrivacy(w.items, w.items[id].parent.value))
    && Climb(w.Parents(), id, depth).Some?
  }

  // ---- The table ----

  class Catalogue {
    var world: World
    var users: set<UserId>

    ghost predicate Valid()
      reads this
    {
      world.Sound() && InSync(world.items)
    }

    constructor (users: set<UserId>, memberships: set<(UserId, GroupId)>)
      ensures Valid() && world.items == map[] && this.users == users
    {
      this.users := users;
      world := World(map[], {}, memberships);
    }

    /**
      recompute_item_privacy: the recursion over children brings the whole
      subtree in line and touches nothing else.
     */
    method RecomputePrivacy(id: ItemId, parentEffective: bool, ghost depth: nat)
      requires RightAbove(world, id, parentEffective, depth)
      modifies this`world
      ensures WithResynced(old(world), world, {id})
      decreases |world.items| + 1 - depth, 2
    {
      ghost var before := world;
      InheritStep(before.items, id);
      var effective := world.items[id].isPrivate || parentEffective;
      var row := world.items[id].(privateEffective := effective);
      var children := set i <- world.items | world.items[i].parent == Some(id);
      RecomputeChildren(id, children, effective, depth);
      ChildrenCover(before.items, id, children);
      world := WithItem(world, id, row);
    }

    /** The loop over the children of an item. */
    method RecomputeChildren(id: ItemId, children: set<ItemId>, effective: bool, ghost depth: nat)
      requires world.Sound() && id in world.items
      requires forall c <- children :: c in world.items && world.items[c].parent == Some(id)
      requires effective <==> InheritsPrivacy(world.items, id)
      requires Climb(world.Parents(), id, depth).Some?
      modifies this`world
      ensures WithResynced(old(world), world, children)
      decreases |world.items| + 1 - depth, 1
    {
      ghost var before := world;
      var rest := children;
      NoChildYet(before, children);
      while rest != {}
        invariant rest <= children && WithResynced(before, world, children - rest)
        decreases rest
      {
        var child :| child in rest;
        SameSize(before, world, children - rest);
        RecomputeChild(before, id, children, rest, child, effective, depth);
        rest := rest - {child};
      }
      AllChildren(before, world, children, rest);
    }

    /** One turn of that loop, seen from the table as it was before the loop. */
    method RecomputeChild(ghost before: World, id: ItemId, ghost children: set<ItemId>, ghost rest: set<ItemId>,
                          child: ItemId, effective: bool, ghost depth: nat)
      requires before.Sound() && id in before.items && child in before.items && child in rest && rest <= children
      requires before.items[child].parent == Some(id) && Climb(before.Parents(), id, depth).Some?
      requires effective <==> InheritsPrivacy(before.items, id)
      requires WithResynced(before, world, children - rest)
      modifies this`world
      ensures WithResynced(before, world, children - (rest - {child}))
      decreases |world.items| + 1 - depth, 0
    {
      ghost var now := world;
      ChildReady(before, now, id, children - rest, child, depth);
      RecomputePrivacy(child, effective, depth + 1);
      ChildDone(before, now, world, children, rest, child);
    }

    /** create_item: the new row inherits its privacy from the parent. */
    method CreateItem(newId: ItemId, user: Caller, seesAll: bool, parent: Option<ItemId>, isPrivate: bool)
      returns (outcome: Outcome)
      requires Valid() && newId !in world.items
      modifies this`world
      ensures Valid()
      ensures outcome.Refused? ==> world == old(world)
      ensures outcome.Done? ==>
        && outcome.id == newId
        && world.items
             == Resynced(old(world).items[newId := Item(parent, UserIdOf(user), isPrivate, false, false)], {newId})
        && world.Parents() == ApplyStep(old(world).Parents(), Create(newId, parent))
      // Hidden parents are not found, and private ones are for those who contribute.
      ensures outcome.Done? <==> Verdict(old(world), parent, user, seesAll).None?
      ensures outcome.Refused? ==> Verdict(old(world), parent, user, seesAll) == Some(outcome.code)
      // A viewer adds nothing to a private item.
      ensures parent.Some? && ViewsHidden(old(world), parent.value, user, seesAll) ==> outcome.Refused?
      ensures outcome.Done? ==>
        var owner := if user.Some? then Some(user.value.id) else None;
        CreatedRow(old(world).items, world.items, newId, parent, owner, isPrivate)
    {
      var code := CheckNewParent(world, user, seesAll, parent);
      if code.Some? { return Refused(code.value); }
      ghost var before := world;
      var row := Item(parent, UserIdOf(user), isPrivate, false, false);
      CreatedSound(before, newId, row);
      world := WithItem(world, newId, row);
      var above := parent.Some? && world.items[parent.value].privateEffective;
      CreatedAbove(before, newId, row);
      assert Climb(world.Parents(), newId, 0) == Some(newId);
      RecomputePrivacy(newId, above, 0);
      AfterResync(before, newId, row);
      CreatedAlone(before, newId, row);
      outcome := Done(newId);
    }

    /** update_item, for the fields that concern ownership, privacy and position. */
    method UpdateItem(id: ItemId, user: Caller, seesAll: bool, update: ItemUpdate) returns (outcome: Outcome)
      requires Valid()
      modifies this`world
      ensures Valid()
      ensures outcome.Refused? ==> world == old(world)
      ensures outcome.Done? ==>
        && id in old(world).items && outcome.id == id
        && world.items == Resynced(old(world).items[id := FinalRow(old(world), id, user, update)], {id})
      // Accepted exactly when the caller may make every change asked for, and the changes make sense.
      ensures outcome.Done? <==> Accepts(old(world), users, id, user, seesAll, update)
      ensures outcome.Done? <==> MayUpdate(old(world), users, id, user, seesAll, update)
      ensures outcome.Done? ==> UpdatedRow(old(world), world.items, id, user, update)
      // A viewer changes nothing of a private item, and what is hidden is not found.
      ensures ViewsHidden(old(world), id, user, seesAll) ==> outcome.Refused?
      ensures id !in old(world).items || !MaySee(old(world), id, user, seesAll) ==> outcome == Refused(404)
      ensures OnlySees(old(world), id, user, seesAll) ==> outcome == Refused(403)
      // The tree moves as the guarded step moves it, and 400 is for a would-be cycle that nothing else forbids.
      ensures outcome.Done? && update.parent.Some? ==>
        && MoveAllowed(old(world).Parents(), id, update.parent.value)
        && world.Parents() == ApplyStep(old(world).Parents(), Move(id, update.parent.value))
      ensures outcome == Refused(400) <==> OnlyCycle(old(world), users, id, user, seesAll, update)
      ensures outcome == Refused(400) <==> ClosesCycle(old(world), users, id, user, seesAll, update)
    {
      var next;
      outcome, next := PlanUpdate(world, users, id, user, seesAll, update);
      if outcome.Refused? {
        return;
      }
      ghost var before := world;
      ghost var row := FinalRow(before, id, user, update);
      world := next;
      FinalAbove(before, id, row);
      var privacyChanged := update.isPrivate.Some? || update.parent.Some?;
      if privacyChanged {
        var parent := world.items[id].parent;
        assert Climb(world.Parents(), id, 0) == Some(id);
        RecomputePrivacy(id, parent.Some? && world.items[parent.value].privateEffective, 0);
      } else {
        NothingToResync(before, id, row);
      }
      AfterResync(before, id, row);
      UpdatedColumns(before, id, user, update);
    }
  }

  /** Why nothing can be put under this parent, told from the rows. */
  ghost function Verdict(w: World, parent: Option<ItemId>, user: Caller, seesAll: bool): Option<nat> {
    if parent.None? then None
    else if parent.value !in w.items || !MaySee(w, parent.value, user, seesAll) then Some(404)
    else if OnlySees(w, parent.value, user, seesAll) then Some(403)
    else None
  }

  /** A private item that the caller has nothing but viewer shares on. */
  ghost predicate ViewsHidden(w: World, id: ItemId, user: Caller, seesAll: bool) {
    !seesAll && id in w.items && w.items[id].privateEffective && OnlyViews(w, id, user)
  }

  /** A private item that the caller sees and does not contribute to. */
  ghost predicate OnlySees(w: World, id: ItemId, user: Caller, seesAll: bool) {
    && id in w.items && MaySee(w, id, user, seesAll)
    && w.items[id].privateEffective && !MayContribute(w, id, user, seesAll)
  }

  /** One row more, with these columns; no other row differs. */
  ghost predicate CreatedRow(before: Items, after: Items, id: ItemId, parent: Option<ItemId>, owner: Option<UserId>,
                             isPrivate: bool)
  {
    && after.Keys == before.Keys + {id}
    && after[id].parent == parent && after[id].owner == owner && after[id].isPrivate == isPrivate
    && !after[id].pendingDeletion
    && forall other <- before :: after[other] == before[other]
  }

  /** The checks of create_item. */
  method CheckNewParent(w: World, user: Caller, seesAll: bool, parent: Option<ItemId>) returns (code: Option<nat>)
    requires w.Sound()
    ensures code == Verdict(w, parent, user, seesAll)
    ensures code.None? && parent.Some? ==> parent.value in w.items
    ensures parent.Some? && ViewsHidden(w, parent.value, user, seesAll) ==> code.Some?
  {
    if parent.None? { return None; }
    if parent.value in w.items {
      ViewItemIs(w, parent.value, user, seesAll);
      ContributeIs(w, parent.value, user, seesAll);
      if ViewsHidden(w, parent.value, user, seesAll) { ViewersOnlyView(w, parent.value, user); }
    }
    if parent.value !in w.items || !CanViewItem(w, parent.value, user, seesAll) { return Some(404); }
    if w.items[parent.value].privateEffective && !CanContributeToItem(w, parent.value, user, seesAll) {
      return Some(403);
    }
    code := None;
  }

  lemma CreatedAlone(w: World, id: ItemId, row: Item)
    requires w.Sound() && id !in w.items && (row.parent.Some? ==> row.parent.value in w.items) && !row.pendingDeletion
    ensures CreatedRow(w.items, Resynced(w.items[id := row], {id}), id, row.parent, row.owner, row.isPrivate)
  {
    var next := w.items[id := row];
    assert ParentsIn(next) == ParentsIn(w.items)[id := row.parent];
    forall other <- w.items ensures !AtOrAbove(ParentsIn(next), id, other) {
      NothingBelowNew(ParentsIn(w.items), id, other);
      BelowMoved(ParentsIn(w.items), id, row.parent, other);
    }
  }

  /** The part of update_item that checks the request and fills in the row. */
  method PlanUpdate(w: World, users: set<UserId>, id: ItemId, user: Caller, seesAll: bool, update: ItemUpdate)
    returns (outcome: Outcome, next: World)
    requires w.Sound()
    ensures outcome.Done? ==>
      && id in w.items && outcome.id == id
      && next == WithItem(w, id, FinalRow(w, id, user, update)) && next.Sound()
    ensures outcome.Done? && update.parent.Some? ==>
      && MoveAllowed(w.Parents(), id, update.parent.value)
      && next.Parents() == ApplyStep(w.Parents(), Move(id, update.parent.value))
    ensures outcome.Done? <==> Accepts(w, users, id, user, seesAll, update)
    ensures outcome.Done? <==> MayUpdate(w, users, id, user, seesAll, update)
    ensures ViewsHidden(w, id, user, seesAll) ==> outcome.Refused?
    ensures id !in w.items || !MaySee(w, id, user, seesAll) ==> outcome == Refused(404)
    ensures OnlySees(w, id, user, seesAll) ==> outcome == Refused(403)
    ensures outcome == Refused(400) <==> OnlyCycle(w, users, id, user, seesAll, update)
    ensures outcome == Refused(400) <==> ClosesCycle(w, users, id, user, seesAll, update)
  {
    OnlyCycleIs(w, users, id, user, seesAll, update);
    AcceptsIs(w, users, id, user, seesAll, update);
    if id in w.items {
      ViewItemIs(w, id, user, seesAll);
      ContributeIs(w, id, user, seesAll);
      if ViewsHidden(w, id, user, seesAll) { ViewersOnlyView(w, id, user); }
    }
    next := w;
    if id !in w.items || !CanViewItem(w, id, user, seesAll) {
      return Refused(404), w;
    }
    if w.items[id].privateEffective && !CanContributeToItem(w, id, user, seesAll) {
      return Refused(403), w;
    }
    var flagged;
    outcome, flagged := PlanFlags(w, users, id, user, seesAll, update);
    if outcome.Refused? {
      return;
    }
    if update.parent.None? {
      return outcome, flagged;
    }
    outcome := MoveItem(flagged, id, user, seesAll, update.parent.value);
    if outcome.Refused? {
      return;
    }
    var moved := flagged.items[id].(parent := update.parent.value);
    MovedSound(flagged, id, moved);
    WithItemTwice(w, id, flagged.items[id], moved);
    next := WithItem(flagged, id, moved);
  }

  /** Its first two steps: the owner, and the privacy flag on the row as the owner change leaves it. */
  method PlanFlags(w: World, users: set<UserId>, id: ItemId, user: Caller, seesAll: bool, update: ItemUpdate)
    returns (outcome: Outcome, flagged: World)
    requires w.Sound() && id in w.items
    ensures outcome.Done? <==>
      && OwnerAllowed(w, users, id, user, seesAll, update.owner)
      && PrivacyAllowed(GivenWorld(w, id, update.owner), id, user, seesAll, update.isPrivate)
    ensures outcome.Done? ==> outcome.id == id && flagged == FlaggedWorld(w, id, user, update)
    ensures outcome != Refused(400)
  {
    var given;
    outcome, given := ChangeOwner(w, users, id, user, seesAll, update.owner);
    if outcome.Refused? {
      return outcome, w;
    }
    outcome, flagged := ChangePrivacy(given, id, user, seesAll, update.isPrivate);
  }

  /** The owner may be changed by those who may give the item away, to someone who exists. */
  ghost predicate OwnerAllowed(w: World, users: set<UserId>, id: ItemId, user: Caller, seesAll: bool,
                               owner: Option<Option<UserId>>)
    requires id in w.items
  {
    owner.Some? ==>
      && (seesAll || CanChangeOwner(w.items[id], user))
      && (owner.value.Some? ==> owner.value.value in users)
  }

  /** The flag may be changed by curators, the owner, administrators, and any user when nobody owns the item. */
  ghost predicate PrivacyAllowed(w: World, id: ItemId, user: Caller, seesAll: bool, isPrivate: Option<bool>)
    requires w.Sound() && id in w.items
  {
    isPrivate.Some? ==> seesAll || CanCurateItem(w, id, user, seesAll) || CanManagePrivacy(w.items[id], user)
  }

  /** The new parent is there for the caller, who may put items under it. */
  ghost predicate ParentOpen(w: World, user: Caller, seesAll: bool, parent: Option<ItemId>)
    requires w.Sound()
  {
    parent.Some? ==>
      && parent.value in w.items && CanViewItem(w, parent.value, user, seesAll)
      && (w.items[parent.value].privateEffective ==> seesAll || CanChangeOwner(w.items[parent.value], user))
  }

  ghost predicate MoveAccepted(w: World, id: ItemId, user: Caller, seesAll: bool, parent: Option<ItemId>)
    requires w.Sound() && id in w.items
  {
    && ParentOpen(w, user, seesAll, parent) && MoveAllowed(w.Parents(), id, parent)
    && (parent != w.items[id].parent ==> seesAll || CanChangeOwner(w.items[id], user))
  }

  /** The item is there for the caller, who may make every change that comes before the move. */
  ghost predicate ReachesMove(w: World, users: set<UserId>, id: ItemId, user: Caller, seesAll: bool, update: ItemUpdate)
    requires w.Sound()
  {
    && id in w.items && CanViewItem(w, id, user, seesAll)
    && (w.items[id].privateEffective ==> CanContributeToItem(w, id, user, seesAll))
    && OwnerAllowed(w, users, id, user, seesAll, update.owner)
    && PrivacyAllowed(GivenWorld(w, id, update.owner), id, user, seesAll, update.isPrivate)
  }

  ghost predicate Accepts(w: World, users: set<UserId>, id: ItemId, user: Caller, seesAll: bool, update: ItemUpdate)
    requires w.Sound()
  {
    && ReachesMove(w, users, id, user, seesAll, update)
    && (update.parent.Some? ==> MoveAccepted(FlaggedWorld(w, id, user, update), id, user, seesAll, update.parent.value))
  }

  // ---- The same, told from the rows ----

  /** Who owns the item once the owner change is made. */
  function OwnerGiven(item: Item, update: ItemUpdate): Option<UserId> {
    if update.owner.Some? then update.owner.value else item.owner
  }

  /** Making an item private that nobody owns claims it, unless it is shared with the caller to curate. */
  ghost function OwnerThen(w: World, id: ItemId, user: Caller, update: ItemUpdate): Option<UserId>
    requires id in w.items
  {
    var given := OwnerGiven(w.items[id], update);
    if update.isPrivate == Some(true) && given.None? && user.Some?
      && (user.value.isAdmin || !SharedWithCaller(w, id, user, {Curator}))
    then Some(user.value.id) else given
  }

  /** The caller sees the item, and may make each change that is asked for. */
  ghost predicate MayUpdate(w: World, users: set<UserId>, id: ItemId, user: Caller, seesAll: bool, update: ItemUpdate)
    requires w.Sound()
  {
    && id in w.items && MaySee(w, id, user, seesAll)
    && (w.items[id].privateEffective ==> MayContribute(w, id, user, seesAll))
    && (update.owner.Some? ==>
          && (seesAll || Rules(w.items[id].owner, user))
          && (update.owner.value.Some? ==> update.owner.value.value in users))
    && (update.isPrivate.Some? ==> MayFlag(w, id, user, seesAll, OwnerGiven(w.items[id], update)))
    && (update.parent.Some? ==> MayPlace(w, id, user, seesAll, update.parent.value, OwnerThen(w, id, user, update)))
  }

  /** The flag is for the owner and administrators, curators, and any user when nobody owns the item. */
  ghost predicate MayFlag(w: World, id: ItemId, user: Caller, seesAll: bool, owner: Option<UserId>)
    requires id in w.items
  {
    || seesAll || Rules(owner, user) || (user.Some? && owner.None?)
    || (w.items[id].privateEffective && SharedWithCaller(w, id, user, {Curator}))
  }

  /** Moving is for the owner and administrators, who need the same of a private new parent. */
  ghost predicate MayPlace(w: World, id: ItemId, user: Caller, seesAll: bool, parent: Option<ItemId>,
                           owner: Option<UserId>)
    requires id in w.items
  {
    && (parent != w.items[id].parent ==> seesAll || Rules(owner, user))
    && (parent.Some? ==>
          && parent.value in w.items && MaySee(w, parent.value, user, seesAll)
          && (w.items[parent.value].privateEffective ==> seesAll || Rules(w.items[parent.value].owner, user))
          && !AtOrAbove(w.Parents(), id, parent.value))
  }

  /** The columns an accepted update leaves; of the other rows only the inherited flag may differ. */
  ghost predicate UpdatedRow(w: World, after: Items, id: ItemId, user: Caller, update: ItemUpdate)
    requires id in w.items
  {
    && after.Keys == w.items.Keys
    && after[id].pendingDeletion == w.items[id].pendingDeletion
    && after[id].owner == OwnerThen(w, id, user, update)
    && after[id].isPrivate == (if update.isPrivate.Some? then update.isPrivate.value else w.items[id].isPrivate)
    && after[id].parent == (if update.parent.Some? then update.parent.value else w.items[id].parent)
    && forall other <- after :: other != id ==>
         after[other] == w.items[other].(privateEffective := after[other].privateEffective)
  }

  /** A row's owner or flag has no say in shares. */
  lemma SharesStay(w: World, id: ItemId, item: Item, other: ItemId, user: Caller, permissions: set<Permission>)
    requires w.Sound() && id in w.items && item.parent == w.items[id].parent
    ensures SharedWithCaller(WithItem(w, id, item), other, user, permissions) <==>
            SharedWithCaller(w, other, user, permissions)
  {
    SamePointerSound(w, id, item);
  }

  lemma FlagIs(w: World, id: ItemId, user: Caller, seesAll: bool, update: ItemUpdate)
    requires w.Sound() && id in w.items
    ensures PrivacyAllowed(GivenWorld(w, id, update.owner), id, user, seesAll, update.isPrivate) <==>
            (update.isPrivate.Some? ==> MayFlag(w, id, user, seesAll, OwnerGiven(w.items[id], update)))
  {
    var given := GivenWorld(w, id, update.owner);
    CurateIs(given, id, user, seesAll);
    OwnershipIs(given.items[id], user);
    SharesStay(w, id, given.items[id], id, user, {Curator});
  }

  lemma FlaggedIs(w: World, id: ItemId, user: Caller, update: ItemUpdate)
    requires w.Sound() && id in w.items
    ensures var row, was := FlaggedWorld(w, id, user, update).items[id], w.items[id];
      && row.owner == OwnerThen(w, id, user, update)
      && row.isPrivate == (if update.isPrivate.Some? then update.isPrivate.value else was.isPrivate)
      && row.parent == was.parent && row.pendingDeletion == was.pendingDeletion
      && row.privateEffective == was.privateEffective
  {
    var given := GivenWorld(w, id, update.owner);
    ClaimIs(given, id, user);
    SharesStay(w, id, given.items[id], id, user, {Curator});
  }

  lemma PlaceIs(w: World, id: ItemId, user: Caller, seesAll: bool, update: ItemUpdate)
    requires w.Sound() && id in w.items && update.parent.Some?
    ensures MoveAccepted(FlaggedWorld(w, id, user, update), id, user, seesAll, update.parent.value) <==>
            MayPlace(w, id, user, seesAll, update.parent.value, OwnerThen(w, id, user, update))
  {
    var flagged, parent := FlaggedWorld(w, id, user, update), update.parent.value;
    FlaggedIs(w, id, user, update);
    OwnershipIs(flagged.items[id], user);
    if parent.Some? {
      if parent.value == id {
        assert Climb(w.Parents(), id, 0) == Some(id);
      } else if parent.value in w.items {
        ViewItemIs(flagged, parent.value, user, seesAll);
        OwnershipIs(flagged.items[parent.value], user);
        SharesStay(w, id, flagged.items[id], parent.value, user, {Viewer, Editor, Curator});
      }
    }
  }

  lemma AcceptsIs(w: World, users: set<UserId>, id: ItemId, user: Caller, seesAll: bool, update: ItemUpdate)
    requires w.Sound()
    ensures Accepts(w, users, id, user, seesAll, update) <==> MayUpdate(w, users, id, user, seesAll, update)
  {
    if id in w.items {
      ViewItemIs(w, id, user, seesAll);
      ContributeIs(w, id, user, seesAll);
      OwnershipIs(w.items[id], user);
      FlagIs(w, id, user, seesAll, update);
      if update.parent.Some? { PlaceIs(w, id, user, seesAll, update); }
    }
  }

  /** The new parent is there for the caller, once the owner change and the claim are made. */
  ghost predicate ParentThere(w: World, id: ItemId, user: Caller, seesAll: bool, parent: ItemId, owner: Option<UserId>)
    requires id in w.items
  {
    && parent in w.items && !w.items[parent].pendingDeletion
    && var holder := if parent == id then owner else w.items[parent].owner;
    w.items[parent].privateEffective ==> seesAll || Rules(holder, user)
  }

  /** All that stands in the way is that the new parent is the item or lies below it. */
  ghost predicate ClosesCycle(w: World, users: set<UserId>, id: ItemId, user: Caller, seesAll: bool, update: ItemUpdate)
    requires w.Sound()
  {
    && MayUpdate(w, users, id, user, seesAll, update.(parent := None))
    && update.parent.Some? && update.parent.value.Some?
    && AtOrAbove(w.Parents(), id, update.parent.value.value)
    && ParentThere(w, id, user, seesAll, update.parent.value.value, OwnerThen(w, id, user, update))
  }

  lemma OnlyCycleIs(w: World, users: set<UserId>, id: ItemId, user: Caller, seesAll: bool, update: ItemUpdate)
    requires w.Sound()
    ensures OnlyCycle(w, users, id, user, seesAll, update) <==> ClosesCycle(w, users, id, user, seesAll, update)
  {
    if id in w.items {
      AcceptsIs(w, users, id, user, seesAll, update.(parent := None));
      if update.parent.Some? && update.parent.value.Some? {
        var flagged, parent := FlaggedWorld(w, id, user, update), update.parent.value.value;
        FlaggedIs(w, id, user, update);
        if parent in w.items {
          ViewItemIs(flagged, parent, user, seesAll);
          OwnershipIs(flagged.items[parent], user);
        }
      }
    }
  }

  lemma UpdatedColumns(w: World, id: ItemId, user: Caller, update: ItemUpdate)
    requires w.Sound() && id in w.items
    ensures UpdatedRow(w, Resynced(w.items[id := FinalRow(w, id, user, update)], {id}), id, user, update)
  {
    var row := FinalRow(w, id, user, update);
    ResyncedTwice(w.items[id := row], {id}, {});
    RowColumns(w, id, user, update, row);
    AfterColumns(w, Resynced(w.items[id := row], {id}), id, user, update, row);
  }

  lemma RowColumns(w: World, id: ItemId, user: Caller, update: ItemUpdate, row: Item)
    requires w.Sound() && id in w.items && row == FinalRow(w, id, user, update)
    ensures UpdatedRow(w, w.items[id := row], id, user, update)
  {
    FlaggedIs(w, id, user, update);
  }

  lemma AfterColumns(w: World, after: Items, id: ItemId, user: Caller, update: ItemUpdate, row: Item)
    requires id in w.items && UpdatedRow(w, w.items[id := row], id, user, update)
    requires SameButColumn(w.items[id := row], after)
    ensures UpdatedRow(w, after, id, user, update)
  {
  }

  /** The parent is open to the caller, but lies at or below the item. */
  ghost predicate OnlyCycle(w: World, users: set<UserId>, id: ItemId, user: Caller, seesAll: bool, update: ItemUpdate)
    requires w.Sound()
  {
    && ReachesMove(w, users, id, user, seesAll, update) && update.parent.Some?
    && ParentOpen(FlaggedWorld(w, id, user, update), user, seesAll, update.parent.value)
    && !MoveAllowed(w.Parents(), id, update.parent.value)
  }

  /** A caller nothing is hidden from is refused only what is malformed. */
  lemma AllSeeingIsAccepted(w: World, users: set<UserId>, id: ItemId, user: Caller, update: ItemUpdate)
    requires w.Sound() && id in w.items && !w.items[id].pendingDeletion
    ensures Accepts(w, users, id, user, true, update) <==> WellFormedUpdate(w, users, id, update)
  {
  }

  /** Who only contributes cannot hide an item that someone else owns. */
  lemma StrangersCannotHide(w: World, users: set<UserId>, id: ItemId, user: Caller, update: ItemUpdate)
    requires w.Sound() && id in w.items && Accepts(w, users, id, user, false, update) && update.isPrivate.Some?
    requires w.items[id].owner.Some? && !IsAdmin(user) && !IsOwner(w.items[id].owner, user)
    ensures w.items[id].privateEffective && HasShareAccess(w, id, UserIdOf(user), Curator)
  {
  }

  lemma WithItemTwice(w: World, id: ItemId, first: Item, second: Item)
    ensures WithItem(WithItem(w, id, first), id, second) == WithItem(w, id, second)
  {
    assert w.items[id := first][id := second] == w.items[id := second];
  }

  method ChangeOwner(w: World, users: set<UserId>, id: ItemId, user: Caller, seesAll: bool,
                     owner: Option<Option<UserId>>)
    returns (outcome: Outcome, next: World)
    requires w.Sound() && id in w.items
    ensures outcome.Done? ==>
      && outcome.id == id && next == WithItem(w, id, Given(w, id, owner))
      && next.Sound() && next.Parents() == w.Parents()
    ensures outcome.Done? <==>
      (owner.Some? ==>
        (seesAll || CanChangeOwner(w.items[id], user)) && (owner.value.Some? ==> owner.value.value in users))
    ensures outcome.Refused? ==>
      outcome.code == if seesAll || Rules(w.items[id].owner, user) then 404 else 403
  {
    next := w;
    assert WithItem(w, id, w.items[id]) == w;
    if owner.Some? {
      if !(seesAll || CanChangeOwner(w.items[id], user)) {
        return Refused(403), w;
      }
      var newOwner := owner.value;
      if newOwner.Some? && newOwner.value !in users {
        return Refused(404), w;
      }
      SamePointerSound(w, id, w.items[id].(owner := newOwner));
      next := WithItem(w, id, w.items[id].(owner := newOwner));
    }
    outcome := Done(id);
  }

  method ChangePrivacy(w: World, id: ItemId, user: Caller, seesAll: bool, isPrivate: Option<bool>)
    returns (outcome: Outcome, next: World)
    requires w.Sound() && id in w.items
    ensures outcome.Done? ==>
      && outcome.id == id && next == WithItem(w, id, Privatised(w, id, user, isPrivate))
      && next.Sound() && next.Parents() == w.Parents()
    ensures outcome.Refused? ==> outcome.code == 403
    ensures outcome.Done? <==>
      (isPrivate.Some? ==> seesAll || CanCurateItem(w, id, user, seesAll) || CanManagePrivacy(w.items[id], user))
  {
    next := w;
    assert WithItem(w, id, w.items[id]) == w;
    if isPrivate.Some? {
      if !(seesAll || CanCurateItem(w, id, user, seesAll) || CanManagePrivacy(w.items[id], user)) {
        return Refused(403), w;
      }
      var newPrivate := isPrivate.value;
      var owner := if newPrivate && CanClaimItem(w, id, user) then Some(user.value.id) else w.items[id].owner;
      SamePointerSound(w, id, w.items[id].(owner := owner, isPrivate := newPrivate));
      next := WithItem(w, id, w.items[id].(owner := owner, isPrivate := newPrivate));
    }
    outcome := Done(id);
  }

  /** The checks of update_item before a new parent is stored. */
  method MoveItem(w: World, id: ItemId, user: Caller, seesAll: bool, newParent: Option<ItemId>)
    returns (outcome: Outcome)
    requires w.Sound() && id in w.items
    ensures outcome.Done? <==> MoveAccepted(w, id, user, seesAll, newParent)
    ensures outcome.Done? ==> outcome.id == id
    ensures outcome == Refused(400) <==>
      ParentOpen(w, user, seesAll, newParent) && !MoveAllowed(w.Parents(), id, newParent)
    ensures outcome == Refused(404) <==>
      newParent.Some? && (newParent.value in w.items ==> !MaySee(w, newParent.value, user, seesAll))
    ensures outcome.Refused? ==> outcome.code in {400, 403, 404}
  {
    if newParent.Some? && newParent.value in w.items { ViewItemIs(w, newParent.value, user, seesAll); }
    if newParent.Some? {
      var p := newParent.value;
      if p !in w.items || !CanViewItem(w, p, user, seesAll) {
        return Refused(404);
      }
      if w.items[p].privateEffective && !(seesAll || CanChangeOwner(w.items[p], user)) {
        return Refused(403);
      }
      var above := IsAncestorOf(w, id, p);
      if p == id || above {
        return Refused(400);
      }
    }
    if newParent != w.items[id].parent && !(seesAll || CanChangeOwner(w.items[id], user)) {
      return Refused(403);
    }
    outcome := Done(id);
  }

  /** The table after the owner change. */
  ghost function GivenWorld(w: World, id: ItemId, owner: Option<Option<UserId>>): (given: World)
    requires w.Sound() && id in w.items
    ensures given.Sound() && given.Parents() == w.Parents() && given.items.Keys == w.items.Keys
  {
    SamePointerSound(w, id, Given(w, id, owner));
    WithItem(w, id, Given(w, id, owner))
  }

  /** The table after the owner and privacy changes. */
  ghost function FlaggedWorld(w: World, id: ItemId, user: Caller, update: ItemUpdate): (flagged: World)
    requires w.Sound() && id in w.items
    ensures flagged.Sound() && flagged.Parents() == w.Parents() && flagged.items.Keys == w.items.Keys
    ensures flagged == WithItem(w, id, flagged.items[id])
  {
    var given := GivenWorld(w, id, update.owner);
    var row := Privatised(given, id, user, update.isPrivate);
    SamePointerSound(given, id, row);
    WithItemTwice(w, id, given.items[id], row);
    WithItem(given, id, row)
  }

  /** The row an accepted update leaves behind, before its privacy column is brought in line. */
  ghost function FinalRow(w: World, id: ItemId, user: Caller, update: ItemUpdate): Item
    requires w.Sound() && id in w.items
  {
    var row := FlaggedWorld(w, id, user, update).items[id];
    if update.parent.Some? then row.(parent := update.parent.value) else row
  }

  /** The row with the owner the request names. */
  ghost function Given(w: World, id: ItemId, owner: Option<Option<UserId>>): Item
    requires id in w.items
  {
    if owner.Some? then w.items[id].(owner := owner.value) else w.items[id]
  }

  /** The row with its own flag set; privatising an unowned item claims it. */
  ghost function Privatised(w: World, id: ItemId, user: Caller, isPrivate: Option<bool>): Item
    requires w.Sound() && id in w.items
  {
    if isPrivate.None? then w.items[id]
    else
      w.items[id].(isPrivate := isPrivate.value,
                   owner := if isPrivate.value && CanClaimItem(w, id, user) then UserIdOf(user) else w.items[id].owner)
  }

  ghost predicate WellFormedUpdate(w: World, users: set<UserId>, id: ItemId, update: ItemUpdate) {
    && (update.owner.Some? && update.owner.value.Some? ==> update.owner.value.value in users)
    && (update.parent.Some? && update.parent.value.Some? ==>
          var p := update.parent.value.value;
          p in w.items && !w.items[p].pendingDeletion && MoveAllowed(w.Parents(), id, Some(p)))
  }

  // ---- Proof steps ----

  lemma ChildDepth(w: World, id: ItemId, child: ItemId, depth: nat)
    requires w.Sound() && child in w.items && w.items[child].parent == Some(id)
    requires Climb(w.Parents(), id, depth).Some?
    ensures Climb(w.Parents(), child, depth + 1).Some? && depth < |w.items| + 1
  {
    GroundedBound(w.Parents(), child);
    assert w.Parents().Keys == w.items.Keys;
    assert |w.Parents()| == |w.Parents().Keys| == |w.items|;
    if depth >= |w.items| {
      ClimbNoneStays(w.Parents(), child, |w.items| + 1, depth + 1);
    }
  }

  /** `now` is `before` with the subtrees of `tops` recomputed. */
  ghost predicate WithResynced(before: World, now: World, tops: set<ItemId>) {
    now == before.(items := Resynced(before.items, tops))
  }

  lemma NoChildYet(before: World, children: set<ItemId>)
    ensures WithResynced(before, before, children - children)
  {
    assert children - children == {};
    assert Resynced(before.items, {}) == before.items;
  }

  lemma SameSize(before: World, now: World, tops: set<ItemId>)
    requires WithResynced(before, now, tops)
    ensures |now.items| == |before.items|
  {
    assert now.items.Keys == before.items.Keys;
    assert |now.items| == |now.items.Keys| == |before.items.Keys| == |before.items|;
  }

  lemma AllChildren(before: World, now: World, children: set<ItemId>, rest: set<ItemId>)
    requires rest == {} && WithResynced(before, now, children - rest)
    ensures WithResynced(before, now, children)
  {
    assert children - rest == children;
  }

  lemma ChildReady(before: World, now: World, id: ItemId, done: set<ItemId>, child: ItemId, depth: nat)
    requires before.Sound() && id in before.items && child in before.items
    requires before.items[child].parent == Some(id) && Climb(before.Parents(), id, depth).Some?
    requires WithResynced(before, now, done)
    ensures |now.items| == |before.items| && depth < |before.items| + 1
    ensures RightAbove(now, child, InheritsPrivacy(before.items, id), depth + 1)
  {
    ChildStep(before, id, done, child, depth);
  }

  lemma ChildDone(before: World, now: World, after: World, children: set<ItemId>, rest: set<ItemId>, child: ItemId)
    requires child in rest && rest <= children
    requires WithResynced(before, now, children - rest) && WithResynced(now, after, {child})
    ensures WithResynced(before, after, children - (rest - {child}))
  {
    ResyncedTwice(before.items, children - rest, {child});
    assert children - (rest - {child}) == (children - rest) + {child};
  }

  /** Recomputing one more child, seen from the table as it was at the start. */
  lemma ChildStep(before: World, id: ItemId, done: set<ItemId>, child: ItemId, depth: nat)
    requires before.Sound() && id in before.items && child in before.items
    requires before.items[child].parent == Some(id) && Climb(before.Parents(), id, depth).Some?
    ensures var now := before.(items := Resynced(before.items, done));
      && |now.items| == |before.items| && depth < |before.items| + 1
      && RightAbove(now, child, InheritsPrivacy(before.items, id), depth + 1)
      && Resynced(now.items, {child}) == Resynced(before.items, done + {child})
  {
    var now := before.(items := Resynced(before.items, done));
    ResyncedTwice(before.items, done, {child});
    SameTree(before.items, now.items);
    SoundIs(before);
    SoundIs(now);
    ChildDepth(before, id, child, depth);
    assert now.items.Keys == before.items.Keys;
    assert |now.items| == |now.items.Keys| == |before.items.Keys| == |before.items|;
  }

  lemma CreatedSound(w: World, id: ItemId, row: Item)
    requires w.Sound() && id !in w.items && (row.parent.Some? ==> row.parent.value in w.items)
    ensures WithItem(w, id, row).Sound()
    ensures WithItem(w, id, row).Parents() == ApplyStep(w.Parents(), Create(id, row.parent))
  {
    assert WithItem(w, id, row).Parents() == w.Parents()[id := row.parent];
    StepKeepsForest(w.Parents(), Create(id, row.parent));
  }

  lemma CreatedAbove(w: World, id: ItemId, row: Item)
    requires w.Sound() && InSync(w.items) && id !in w.items && (row.parent.Some? ==> row.parent.value in w.items)
    ensures row.parent.Some? ==>
      (InheritsPrivacy(w.items[id := row], row.parent.value) <==> w.items[row.parent.value].privateEffective)
  {
    if row.parent.Some? {
      SoundIs(w);
      NothingBelowNew(ParentsIn(w.items), id, row.parent.value);
      ChangeStaysBelow(w.items, id, row, row.parent.value);
    }
  }

  lemma FinalAbove(w: World, id: ItemId, row: Item)
    requires w.Sound() && InSync(w.items) && id in w.items && WithItem(w, id, row).Sound()
    ensures row.parent.Some? ==> row.parent.value != id && row.parent.value in w.items
    ensures row.parent.Some? ==>
      (InheritsPrivacy(w.items[id := row], row.parent.value) <==> w.items[row.parent.value].privateEffective)
  {
    if row.parent.Some? {
      var next := WithItem(w, id, row);
      var p := row.parent.value;
      SoundIs(w);
      SoundIs(next);
      assert ParentsIn(next.items) == ParentsIn(w.items)[id := row.parent];
      HeightIfParent(next, id);
      NotOwnAncestor(next, id);
      BelowMoved(ParentsIn(w.items), id, row.parent, p);
      AtOrAboveStep(ParentsIn(w.items), id, p);
      ChangeStaysBelow(w.items, id, row, p);
    }
  }

  lemma NotOwnAncestor(w: World, id: ItemId)
    requires w.Sound() && id in w.items && w.items[id].parent.Some?
    ensures !AtOrAbove(w.Parents(), id, w.items[id].parent.value) && w.items[id].parent.value != id
  {
    var p := w.items[id].parent.value;
    if AtOrAbove(w.Parents(), id, p) {
      var n: nat :| Climb(w.Parents(), p, n) == Some(id);
      assert Climb(w.Parents(), id, n + 1) == Some(id);
      AcyclicIffNoCycle(w.Parents());
    }
    assert Climb(w.Parents(), p, 0) == Some(p);
  }

  /** Without a privacy or position change the column is already right. */
  lemma NothingToResync(w: World, id: ItemId, row: Item)
    requires w.Sound() && InSync(w.items) && id in w.items
    requires row.isPrivate == w.items[id].isPrivate && row.parent == w.items[id].parent
    requires row.privateEffective == w.items[id].privateEffective
    ensures Resynced(w.items[id := row], {id}) == w.items[id := row]
  {
    var next := w.items[id := row];
    assert ParentsIn(next) == ParentsIn(w.items);
    forall i <- next ensures InheritsPrivacy(next, i) <==> InheritsPrivacy(w.items, i) {
      forall a <- next ensures next[a].isPrivate == w.items[a].isPrivate {}
    }
  }

  lemma AfterResync(w: World, id: ItemId, row: Item)
    requires w.Sound() && InSync(w.items) && WithItem(w, id, row).Sound()
    ensures var after := WithItem(w, id, row).(items := Resynced(w.items[id := row], {id}));
      after.Sound() && InSync(after.items) && after.Parents() == WithItem(w, id, row).Parents()
  {
    var next := w.items[id := row];
    SoundIs(w);
    SoundIs(WithItem(w, id, row));
    ResyncRestores(w.items, id, row);
    ResyncedTwice(next, {id}, {});
    SameTree(next, Resynced(next, {id}));
    SoundIs(WithItem(w, id, row).(items := Resynced(next, {id})));
  }
}
