/**
  Who may do what, in terms of the rows alone: the guards of myapp/visibility.py
  against a description that walks no chain and names no other guard.
 */
module Access {
  import opened Options
  import opened ParentForest
  import opened Visibility

  /** The share was given to the user, or to a group the user is in. */
  predicate GivenTo(w: World, s: Share, uid: UserId) {
    match s.principal
    case ToUser(other) => other == uid
    case ToGroup(group) => (uid, group) in w.memberships
  }

  /** The item, or something above it, is shared with the user at one of these permissions. */
  ghost predicate SharedWith(w: World, id: ItemId, uid: UserId, permissions: set<Permission>) {
    exists s <- w.shares :: AtOrAbove(w.Parents(), s.item, id) && GivenTo(w, s, uid) && s.permission in permissions
  }

  /** Signed in, and an administrator or the owner. */
  predicate Rules(owner: Option<UserId>, user: Caller) {
    user.Some? && (user.value.isAdmin || (owner.Some? && owner.value == user.value.id))
  }

  ghost predicate SharedWithCaller(w: World, id: ItemId, user: Caller, permissions: set<Permission>) {
    user.Some? && SharedWith(w, id, user.value.id, permissions)
  }

  // ---- Shares ----

  function AtLeast(level: Permission): set<Permission> {
    match level
    case Viewer => {Viewer, Editor, Curator}
    case Editor => {Editor, Curator}
    case Curator => {Curator}
  }

  lemma PassesIs(permission: Permission, level: Permission)
    ensures Passes(permission, level) <==> permission in AtLeast(level)
  {
    match level
    case Viewer => assert permission == Viewer || permission == Editor || permission == Curator;
    case _ =>
  }

  lemma GroupsAre(w: World, uid: UserId, g: GroupId)
    ensures g in GroupsOf(w, uid) <==> (uid, g) in w.memberships
  {
    assert (uid, g).1 == g;
  }

  /** Access is a share at or above the item, given to the user or one of their groups, at the level or more. */
  lemma ShareAccessIs(w: World, id: ItemId, uid: UserId, level: Permission)
    requires w.Sound() && id in w.items
    ensures HasShareAccess(w, id, Some(uid), level) <==> SharedWith(w, id, uid, AtLeast(level))
    ensures !HasShareAccess(w, id, None, level)
  {
    var chain := Walk(w.Parents(), id);
    forall s <- w.shares ensures s.item in chain <==> AtOrAbove(w.Parents(), s.item, id) {
      WalkIsAtOrAbove(w.Parents(), id, s.item);
    }
    forall s <- w.shares | s.principal.ToGroup?
      ensures s.principal.group in GroupsOf(w, uid) <==> (uid, s.principal.group) in w.memberships
    {
      GroupsAre(w, uid, s.principal.group);
    }
    forall s <- w.shares ensures Passes(s.permission, level) <==> s.permission in AtLeast(level) {
      PassesIs(s.permission, level);
    }
  }

  // ---- Guards ----

  /** A public item is for everyone; a private one for its owner, administrators and whom it is shared with. */
  ghost predicate MaySee(w: World, id: ItemId, user: Caller, seesAll: bool)
    requires id in w.items
  {
    && !w.items[id].pendingDeletion
    && (|| !w.items[id].privateEffective || seesAll || Rules(w.items[id].owner, user)
        || SharedWithCaller(w, id, user, {Viewer, Editor, Curator}))
  }

  /** Contributors: the owner, administrators, and editors and curators of a private item. */
  ghost predicate MayContribute(w: World, id: ItemId, user: Caller, seesAll: bool)
    requires id in w.items
  {
    || seesAll || Rules(w.items[id].owner, user)
    || (w.items[id].privateEffective && SharedWithCaller(w, id, user, {Editor, Curator}))
  }

  ghost predicate MayCurate(w: World, id: ItemId, user: Caller, seesAll: bool)
    requires id in w.items
  {
    || seesAll || Rules(w.items[id].owner, user)
    || (w.items[id].privateEffective && SharedWithCaller(w, id, user, {Curator}))
  }

  /** An item that nobody owns goes to who makes it private, unless it is shared with them to curate. */
  ghost predicate MayClaim(w: World, id: ItemId, user: Caller)
    requires id in w.items
  {
    && user.Some? && w.items[id].owner.None?
    && (user.value.isAdmin || !SharedWithCaller(w, id, user, {Curator}))
  }

  lemma ViewItemIs(w: World, id: ItemId, user: Caller, seesAll: bool)
    requires w.Sound() && id in w.items
    ensures CanViewItem(w, id, user, seesAll) <==> MaySee(w, id, user, seesAll)
  {
    if user.Some? { ShareAccessIs(w, id, user.value.id, Viewer); }
  }

  lemma ContributeIs(w: World, id: ItemId, user: Caller, seesAll: bool)
    requires w.Sound() && id in w.items
    ensures CanContributeToItem(w, id, user, seesAll) <==> MayContribute(w, id, user, seesAll)
  {
    if user.Some? { ShareAccessIs(w, id, user.value.id, Editor); }
  }

  lemma CurateIs(w: World, id: ItemId, user: Caller, seesAll: bool)
    requires w.Sound() && id in w.items
    ensures CanCurateItem(w, id, user, seesAll) <==> MayCurate(w, id, user, seesAll)
  {
    if user.Some? { ShareAccessIs(w, id, user.value.id, Curator); }
  }

  lemma ClaimIs(w: World, id: ItemId, user: Caller)
    requires w.Sound() && id in w.items
    ensures CanClaimItem(w, id, user) <==> MayClaim(w, id, user)
  {
    if user.Some? { ShareAccessIs(w, id, user.value.id, Curator); }
  }

  lemma OwnershipIs(item: Item, user: Caller)
    ensures CanChangeOwner(item, user) <==> Rules(item.owner, user)
    ensures CanManagePrivacy(item, user) <==> Rules(item.owner, user) || (user.Some? && item.owner.None?)
  {
  }

  /** An artefact is as private as its item or itself; the owner of the one that hides it sees it. */
  lemma ViewArtefactIs(w: World, artefact: Artefact, user: Caller, seesAll: bool)
    requires w.Sound() && (artefact.itemId.Some? ==> artefact.itemId.value in w.items)
    ensures CanViewArtefact(w, artefact, user, seesAll) <==>
      var hidden := artefact.itemId.Some? && w.items[artefact.itemId.value].privateEffective;
      && !artefact.pendingDeletion
      && (artefact.itemId.Some? ==> !w.items[artefact.itemId.value].pendingDeletion)
      && (|| !(artefact.isPrivate || hidden) || seesAll || (user.Some? && user.value.isAdmin)
          || (if hidden then
                || Rules(w.items[artefact.itemId.value].owner, user)
                || SharedWithCaller(w, artefact.itemId.value, user, {Viewer, Editor, Curator})
              else
                || Rules(artefact.owner, user)
                || (artefact.itemId.Some? && Rules(w.items[artefact.itemId.value].owner, user))))
  {
    if user.Some? && artefact.itemId.Some? { ShareAccessIs(w, artefact.itemId.value, user.value.id, Viewer); }
  }

  // ---- Three-valued logic ----

  /** False below unknown below true. */
  function Order(a: Sql): nat {
    match a
    case False => 0
    case Unknown => 1
    case True => 2
  }

  /** AND is the lesser and OR the greater of the two. */
  lemma ConnectivesAre(a: Sql, b: Sql)
    ensures Order(a.And(b)) == if Order(a) <= Order(b) then Order(a) else Order(b)
    ensures Order(a.Or(b)) == if Order(a) >= Order(b) then Order(a) else Order(b)
  {
  }

  // ---- What a viewer may not do ----

  /** Neither owner nor administrator, and every share at or above the item is for viewing only. */
  ghost predicate OnlyViews(w: World, id: ItemId, user: Caller)
    requires id in w.items
  {
    && !Rules(w.items[id].owner, user)
    && (user.Some? ==> forall s <- w.shares ::
          AtOrAbove(w.Parents(), s.item, id) && GivenTo(w, s, user.value.id) ==> s.permission == Viewer)
  }

  /** Who only views an item neither contributes to it nor curates it. */
  lemma ViewersOnlyView(w: World, id: ItemId, user: Caller)
    requires w.Sound() && id in w.items && OnlyViews(w, id, user)
    ensures !CanContributeToItem(w, id, user, false) && !CanCurateItem(w, id, user, false)
  {
    ContributeIs(w, id, user, false);
    CurateIs(w, id, user, false);
  }
}
