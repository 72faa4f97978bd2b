/** Who may see and change an item or an artefact: myapp/visibility.py. */
module Visibility {
  import opened Options
  import opened ParentForest

  type ItemId = nat
  type UserId = nat
  type GroupId = nat

  datatype Item = Item(parent: Option<ItemId>, owner: Option<UserId>,
                       isPrivate: bool, privateEffective: bool, pendingDeletion: bool)

  datatype Artefact = Artefact(itemId: Option<ItemId>, owner: Option<UserId>,
                               isPrivate: bool, pendingDeletion: bool)

  datatype Permission = Viewer | Editor | Curator

  datatype Principal = ToUser(user: UserId) | ToGroup(group: GroupId)

  datatype Share = Share(item: ItemId, principal: Principal, permission: Permission)

  /** The caller of a request; None is an anonymous caller. */
  datatype User = User(id: UserId, isAdmin: bool)
  type Caller = Option<User>

  type Items = map<ItemId, Item>

  function ParentsIn(items: Items): Parents<ItemId> {
    map i <- items :: items[i].parent
  }

  /** Every parent exists and every walk up ends. */
  ghost predicate SoundTree(items: Items) {
    Closed(ParentsIn(items)) && Acyclic(ParentsIn(items))
  }

  /** The rows the visibility rules read. */
  datatype World = World(items: Items, shares: set<Share>, memberships: set<(UserId, GroupId)>) {

    function Parents(): Parents<ItemId> {
      ParentsIn(items)
    }

    /** Foreign keys hold and every walk up the item tree ends. */
    ghost predicate Sound() {
      SoundTree(items) && forall s <- shares :: s.item in items
    }
  }

  // ---- Callers ----

  function IsAdmin(user: Caller): bool {
    user.Some? && user.value.isAdmin
  }

  function UserIdOf(user: Caller): Option<UserId> {
    if user.Some? then Some(user.value.id) else None
  }

  function IsOwner(owner: Option<UserId>, user: Caller): bool {
    user.Some? && owner == UserIdOf(user)
  }

  function CanManagePrivacy(item: Item, user: Caller): bool {
    IsAdmin(user) || IsOwner(item.owner, user) || (item.owner.None? && user.Some?)
  }

  function CanChangeOwner(item: Item, user: Caller): bool {
    IsAdmin(user) || IsOwner(item.owner, user)
  }

  // ---- Shares, walking up ----

  function Passes(permission: Permission, level: Permission): bool {
    match level
    case Viewer => true
    case Editor => permission != Viewer
    case Curator => permission == Curator
  }

  function GroupsOf(w: World, uid: UserId): set<GroupId> {
    set m <- w.memberships | m.0 == uid :: m.1
  }

  function HasShareAccess(w: World, id: ItemId, uid: Option<UserId>, level: Permission): bool
    requires w.Sound() && id in w.items
  {
    if uid.None? then false
    else
      var chainIds := Walk(w.Parents(), id);
      if exists s <- w.shares :: s.item in chainIds && s.principal == ToUser(uid.value) && Passes(s.permission, level)
      then true
      else
        var groupIds := GroupsOf(w, uid.value);
        if groupIds == {} then false
        else
          exists s <- w.shares ::
            s.item in chainIds && s.principal.ToGroup? && s.principal.group in groupIds && Passes(s.permission, level)
  }

  // ---- Shares, expanding down ----

  /** The anchor of the recursive query: items shared with the user. */
  function Anchor(w: World, uid: UserId): set<ItemId> {
    (set s <- w.shares | s.principal == ToUser(uid) :: s.item) +
    (set s <- w.shares | s.principal.ToGroup? && (uid, s.principal.group) in w.memberships :: s.item)
  }

  function ChildrenOf(w: World, working: set<ItemId>): set<ItemId> {
    set i <- w.items | w.items[i].parent.Some? && w.items[i].parent.value in working
  }

  /**
    The recursive query: the working table, then the children of the working
    table, until a round finds none.  `round` counts the rounds taken; it bounds
    how far down the tree the working table can still be.
   */
  function ExpandDown(w: World, working: set<ItemId>, ghost round: nat): set<ItemId>
    requires w.Sound() && working <= w.items.Keys
    requires forall i <- working :: Climb(w.Parents(), i, round).Some?
    decreases |w.items| + 1 - round
  {
    if working == {} then {}
    else
      NextRound(w, working, round);
      working + ExpandDown(w, ChildrenOf(w, working), round + 1)
  }

  lemma NextRound(w: World, working: set<ItemId>, round: nat)
    requires w.Sound() && working <= w.items.Keys && working != {}
    requires forall i <- working :: Climb(w.Parents(), i, round).Some?
    ensures round < |w.items| + 1
    ensures forall i <- ChildrenOf(w, working) :: Climb(w.Parents(), i, round + 1).Some?
  {
    var i :| i in working;
    GroundedBound(w.Parents(), i);
    assert |w.Parents().Keys| == |w.Parents()| && |w.items.Keys| == |w.items| && w.Parents().Keys == w.items.Keys;
    if round >= |w.items| + 1 {
      ClimbNoneStays(w.Parents(), i, |w.items| + 1, round);
    }
  }

  function AccessibleViaShare(w: World, uid: UserId): set<ItemId>
    requires w.Sound()
  {
    ExpandDown(w, Anchor(w, uid), 0)
  }

  /** The expansion holds exactly the items at or below the working table. */
  lemma {:induction false} ExpandDownIs(w: World, working: set<ItemId>, round: nat, id: ItemId)
    requires w.Sound() && working <= w.items.Keys && id in w.items
    requires forall i <- working :: Climb(w.Parents(), i, round).Some?
    ensures id in ExpandDown(w, working, round) <==> exists a <- working :: AtOrAbove(w.Parents(), a, id)
    decreases |w.items| + 1 - round
  {
    var parents := w.Parents();
    if working != {} {
      NextRound(w, working, round);
      var below := ChildrenOf(w, working);
      ExpandDownIs(w, below, round + 1, id);
      if id in working {
        assert Climb(parents, id, 0) == Some(id);
      }
      forall a <- working | AtOrAbove(parents, a, id) && id !in working
        ensures exists b <- below :: AtOrAbove(parents, b, id)
      {
        ChildOnTheWay(w, a, id);
      }
      forall b <- below | AtOrAbove(parents, b, id) ensures exists a <- working :: AtOrAbove(parents, a, id) {
        var a := w.items[b].parent.value;
        assert Climb(parents, a, 0) == Some(a) && Climb(parents, b, 1) == Some(a);
        AtOrAboveTransitive(parents, a, b, id);
      }
    }
  }

  /** Between an item and a proper ancestor lies a child of that ancestor. */
  lemma ChildOnTheWay(w: World, a: ItemId, id: ItemId)
    requires w.Sound() && id in w.items && a != id && AtOrAbove(w.Parents(), a, id)
    ensures exists b <- ChildrenOf(w, {a}) :: AtOrAbove(w.Parents(), b, id)
  {
    var parents := w.Parents();
    var n: nat :| Climb(parents, id, n) == Some(a);
    assert n > 0;
    ClimbLast(parents, id, n - 1);
    var b := Climb(parents, id, n - 1).value;
    assert AtOrAbove(parents, b, id);
  }

  /**
    Expanding down from the shares and walking up to them agree: the list queries
    and the per-object guards see the same shared items.
   */
  lemma ExpandMeetsWalk(w: World, uid: UserId, id: ItemId)
    requires w.Sound() && id in w.items
    ensures id in AccessibleViaShare(w, uid) <==> HasShareAccess(w, id, Some(uid), Viewer)
  {
    var parents := w.Parents();
    var anchor := Anchor(w, uid);
    ExpandDownIs(w, anchor, 0, id);
    forall a ensures a in Walk(parents, id) <==> AtOrAbove(parents, a, id) {
      WalkIsAtOrAbove(parents, id, a);
    }
    forall g ensures g in GroupsOf(w, uid) <==> (uid, g) in w.memberships {
      assert (uid, g).1 == g;
    }
  }

  /** Access through a share carries down the tree. */
  lemma ShareDescends(w: World, above: ItemId, id: ItemId, uid: Option<UserId>, level: Permission)
    requires w.Sound() && above in w.items && id in w.items && AtOrAbove(w.Parents(), above, id)
    ensures HasShareAccess(w, above, uid, level) ==> HasShareAccess(w, id, uid, level)
  {
    var parents := w.Parents();
    forall a | a in Walk(parents, above) ensures a in Walk(parents, id) {
      WalkIsAtOrAbove(parents, above, a);
      AtOrAboveTransitive(parents, a, above, id);
      WalkIsAtOrAbove(parents, id, a);
    }
  }

  // ---- Per-object guards ----

  function CanViewItem(w: World, id: ItemId, user: Caller, seesAll: bool): bool
    requires w.Sound() && id in w.items
  {
    var item := w.items[id];
    if item.pendingDeletion then false
    else if !item.privateEffective then true
    else if seesAll || IsAdmin(user) then true
    else
      var uid := UserIdOf(user);
      if uid.None? then false
      else if item.owner == uid then true
      else HasShareAccess(w, id, uid, Viewer)
  }

  function CanContributeToItem(w: World, id: ItemId, user: Caller, seesAll: bool): bool
    requires w.Sound() && id in w.items
  {
    if seesAll || IsAdmin(user) || IsOwner(w.items[id].owner, user) then true
    else if user.None? then false
    else w.items[id].privateEffective && HasShareAccess(w, id, UserIdOf(user), Editor)
  }

  function CanCurateItem(w: World, id: ItemId, user: Caller, seesAll: bool): bool
    requires w.Sound() && id in w.items
  {
    if seesAll || IsAdmin(user) || IsOwner(w.items[id].owner, user) then true
    else if user.None? then false
    else w.items[id].privateEffective && HasShareAccess(w, id, UserIdOf(user), Curator)
  }

  function CanClaimItem(w: World, id: ItemId, user: Caller): bool
    requires w.Sound() && id in w.items
  {
    if user.None? then false
    else if w.items[id].owner.Some? then false
    else if IsAdmin(user) then true
    else !HasShareAccess(w, id, UserIdOf(user), Curator)
  }

  function EffectivePrivate(w: World, artefact: Artefact): bool
    requires artefact.itemId.Some? ==> artefact.itemId.value in w.items
  {
    artefact.isPrivate || (artefact.itemId.Some? && w.items[artefact.itemId.value].privateEffective)
  }

  function CanViewArtefact(w: World, artefact: Artefact, user: Caller, seesAll: bool): bool
    requires w.Sound() && (artefact.itemId.Some? ==> artefact.itemId.value in w.items)
  {
    if artefact.pendingDeletion || (artefact.itemId.Some? && w.items[artefact.itemId.value].pendingDeletion) then false
    else if !EffectivePrivate(w, artefact) then true
    else if seesAll || IsAdmin(user) then true
    else
      var uid := UserIdOf(user);
      if uid.None? then false
      else if artefact.itemId.Some? && w.items[artefact.itemId.value].privateEffective then
        w.items[artefact.itemId.value].owner == uid || HasShareAccess(w, artefact.itemId.value, uid, Viewer)
      else
        artefact.owner == uid || (artefact.itemId.Some? && w.items[artefact.itemId.value].owner == uid)
  }

  // ---- Query clauses, in SQL's three-valued logic ----

  datatype Sql = True | False | Unknown {
    function And(other: Sql): Sql {
      if False? || other.False? then False else if True? && other.True? then True else Unknown
    }
    function Or(other: Sql): Sql {
      if True? || other.True? then True else if False? && other.False? then False else Unknown
    }
  }

  function Truth(b: bool): Sql {
    if b then True else False
  }

  /** `column = value`: unknown when the column is NULL. */
  function SqlEquals(column: Option<UserId>, value: UserId): Sql {
    if column.None? then Unknown else Truth(column.value == value)
  }

  function ItemVisibilityClause(w: World, id: ItemId, user: Caller, seesAll: bool): Sql
    requires w.Sound() && id in w.items
  {
    var item := w.items[id];
    var notPending := Truth(!item.pendingDeletion);
    if seesAll || IsAdmin(user) then notPending
    else
      var uid := UserIdOf(user);
      if uid.None? then notPending.And(Truth(!item.privateEffective))
      else notPending.And(
        Truth(!item.privateEffective)
        .Or(SqlEquals(item.owner, uid.value))
        .Or(Truth(id in AccessibleViaShare(w, uid.value))))
  }

  /** The clause for an artefact row joined to its item. */
  function ArtefactVisibilityClause(w: World, artefact: Artefact, user: Caller, seesAll: bool): Sql
    requires w.Sound() && artefact.itemId.Some? && artefact.itemId.value in w.items
  {
    var item := w.items[artefact.itemId.value];
    var notPending := Truth(!artefact.pendingDeletion).And(Truth(!item.pendingDeletion));
    if seesAll || IsAdmin(user) then notPending
    else
      var public := Truth(!artefact.isPrivate).And(Truth(!item.privateEffective));
      var uid := UserIdOf(user);
      if uid.None? then notPending.And(public)
      else notPending.And(
        public
        .Or(SqlEquals(item.owner, uid.value))
        .Or(Truth(item.privateEffective).And(Truth(artefact.itemId.value in AccessibleViaShare(w, uid.value))))
        .Or(Truth(!item.privateEffective).And(SqlEquals(artefact.owner, uid.value))))
  }

  /** A row is listed exactly when the guard would let the caller open it. */
  lemma ItemListedIffViewable(w: World, id: ItemId, user: Caller, seesAll: bool)
    requires w.Sound() && id in w.items
    ensures ItemVisibilityClause(w, id, user, seesAll) == True <==> CanViewItem(w, id, user, seesAll)
  {
    if user.Some? {
      ExpandMeetsWalk(w, user.value.id, id);
    }
  }

  lemma ArtefactListedIffViewable(w: World, artefact: Artefact, user: Caller, seesAll: bool)
    requires w.Sound() && artefact.itemId.Some? && artefact.itemId.value in w.items
    ensures ArtefactVisibilityClause(w, artefact, user, seesAll) == True <==>
            CanViewArtefact(w, artefact, user, seesAll)
  {
    if user.Some? {
      ExpandMeetsWalk(w, user.value.id, artefact.itemId.value);
    }
  }
}
