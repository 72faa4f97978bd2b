/** Download restrictions along the derivation chain: myapp/database.py and myapp/visibility.py. */
module Restrictions {
  import opened Options
  import opened ParentForest

  type ArtefactId = nat
  datatype RestrictionType = Malware | Pii | Copyright | LegalHold | Explicit | Corrupted

  /** A user's standing permissions to download restricted content. */
  datatype Holder = Holder(isAdmin: bool, everywhere: set<RestrictionType>,
                           onArtefacts: set<(ArtefactId, RestrictionType)>)

  /** The artefacts: what each is derived from, and the restrictions placed on it. */
  datatype Artefacts = Artefacts(parents: Parents<ArtefactId>, placed: map<ArtefactId, seq<RestrictionType>>) {

    /** Foreign keys hold and every derivation chain ends. */
    ghost predicate Sound() {
      && placed.Keys == parents.Keys
      && Closed(parents)
      && Acyclic(parents)
    }
  }

  // ---- Artefact.ancestor_ids and Artefact.effective_restrictions ----

  lemma ChainStep(w: Artefacts, a: ArtefactId)
    requires w.Sound() && a in w.parents
    ensures Grounded(w.parents, a)
    ensures w.parents[a].Some? ==>
      && Grounded(w.parents, w.parents[a].value)
      && Height(w.parents, w.parents[a].value) < Height(w.parents, a)
  {
    if w.parents[a].Some? { HeightDrops(w.parents, a); }
  }

  method AncestorIds(w: Artefacts, id: ArtefactId) returns (ids: set<ArtefactId>)
    requires w.Sound() && id in w.parents
    ensures forall a :: a in ids <==> AtOrAbove(w.parents, a, id)
  {
    ids := {};
    var current := Some(id);
    ChainStep(w, id);
    while current.Some?
      invariant current.Some? ==> current.value in w.parents
      invariant forall a :: AtOrAbove(w.parents, a, id) <==>
        a in ids || (current.Some? && AtOrAbove(w.parents, a, current.value))
      decreases if current.Some? then Height(w.parents, current.value) else 0
    {
      ChainStep(w, current.value);
      forall a: ArtefactId
        ensures AtOrAbove(w.parents, a, current.value) <==>
          a == current.value ||
          (w.parents[current.value].Some? && AtOrAbove(w.parents, a, w.parents[current.value].value))
      {
        AtOrAboveStep(w.parents, a, current.value);
      }
      ids := ids + {current.value};
      current := w.parents[current.value];
    }
  }

  /** The type is placed on the artefact or on something it was derived from. */
  ghost predicate Restricted(w: Artefacts, id: ArtefactId, r: RestrictionType) {
    exists a <- w.placed :: r in w.placed[a] && AtOrAbove(w.parents, a, id)
  }

  lemma RestrictedStep(w: Artefacts, id: ArtefactId, r: RestrictionType)
    requires w.Sound() && id in w.parents
    ensures Restricted(w, id, r) <==>
      r in w.placed[id] || (w.parents[id].Some? && Restricted(w, w.parents[id].value, r))
  {
    forall a: ArtefactId ensures AtOrAbove(w.parents, a, id) <==>
      a == id || (w.parents[id].Some? && AtOrAbove(w.parents, a, w.parents[id].value))
    {
      AtOrAboveStep(w.parents, a, id);
    }
  }

  method EffectiveRestrictions(w: Artefacts, id: ArtefactId) returns (result: seq<RestrictionType>)
    requires w.Sound() && id in w.parents
    ensures forall r :: r in result <==> Restricted(w, id, r)
  {
    result := w.placed[id];
    var current := w.parents[id];
    ChainStep(w, id);
    forall r: RestrictionType
      ensures Restricted(w, id, r) <==>
              r in w.placed[id] || (w.parents[id].Some? && Restricted(w, w.parents[id].value, r))
    {
      RestrictedStep(w, id, r);
    }
    while current.Some?
      invariant current.Some? ==> current.value in w.parents
      invariant forall r :: Restricted(w, id, r) <==> r in result || (current.Some? && Restricted(w, current.value, r))
      decreases if current.Some? then Height(w.parents, current.value) else 0
    {
      ChainStep(w, current.value);
      var next := w.parents[current.value];
      forall r: RestrictionType
        ensures Restricted(w, current.value, r) <==>
                r in w.placed[current.value] || (next.Some? && Restricted(w, next.value, r))
      {
        RestrictedStep(w, current.value, r);
      }
      result := result + w.placed[current.value];
      current := next;
    }
  }

  // ---- The gate ----

  function Missing(user: Holder, restrictions: seq<RestrictionType>): seq<RestrictionType> {
    if restrictions == [] then []
    else
      var rest := Missing(user, restrictions[1..]);
      if restrictions[0] in user.everywhere then rest else [restrictions[0]] + rest
  }

  lemma {:induction false} MissingAre(user: Holder, restrictions: seq<RestrictionType>)
    ensures forall r :: r in Missing(user, restrictions) <==> r in restrictions && r !in user.everywhere
  {
    if restrictions != [] {
      MissingAre(user, restrictions[1..]);
      assert restrictions == [restrictions[0]] + restrictions[1..];
    }
  }

  /** User.can_bypass_all_restrictions; without artefact ids only the global grants count. */
  function CanBypassAll(user: Holder, restrictions: seq<RestrictionType>, artefactIds: Option<set<ArtefactId>>): bool {
    if restrictions == [] then true
    else if user.isAdmin then true
    else
      var missing := Missing(user, restrictions);
      if missing == [] then true
      else if artefactIds.None? then false
      else
        var specific := set g <- user.onArtefacts | g.0 in artefactIds.value :: g.1;
        forall r <- missing :: r in specific
  }

  function CanDownload(user: Option<Holder>, restrictions: seq<RestrictionType>, ancestorIds: set<ArtefactId>): bool {
    if restrictions == [] then true
    else if user.None? then false
    else CanBypassAll(user.value, restrictions, Some(ancestorIds))
  }

  /** Each type must be granted everywhere or, if artefacts are named, on one of them, but to administrators. */
  lemma BypassIs(user: Holder, restrictions: seq<RestrictionType>, ids: Option<set<ArtefactId>>)
    ensures CanBypassAll(user, restrictions, ids) <==>
      user.isAdmin || forall r <- restrictions ::
        r in user.everywhere || (ids.Some? && exists a <- ids.value :: (a, r) in user.onArtefacts)
  {
    var missing := Missing(user, restrictions);
    MissingAre(user, restrictions);
    assert missing != [] ==> missing[0] in missing;
    if ids.Some? {
      var specific := set g <- user.onArtefacts | g.0 in ids.value :: g.1;
      forall r ensures r in specific <==> exists a <- ids.value :: (a, r) in user.onArtefacts {
        if r in specific {
          var g :| g in user.onArtefacts && g.0 in ids.value && g.1 == r;
          assert g == (g.0, r);
        }
        if a :| a in ids.value && (a, r) in user.onArtefacts {
          assert (a, r).0 in ids.value && (a, r).1 == r;
        }
      }
    }
  }

  /** The type is waived everywhere, or on this artefact or something it was derived from. */
  ghost predicate Waived(w: Artefacts, user: Holder, id: ArtefactId, r: RestrictionType) {
    r in user.everywhere || exists a <- w.parents :: (a, r) in user.onArtefacts && AtOrAbove(w.parents, a, id)
  }

  ghost predicate MayDownload(w: Artefacts, user: Option<Holder>, id: ArtefactId) {
    || (forall r :: !Restricted(w, id, r))
    || (user.Some? && (user.value.isAdmin || forall r | Restricted(w, id, r) :: Waived(w, user.value, id, r)))
  }

  lemma GateIs(w: Artefacts, user: Option<Holder>, id: ArtefactId, restrictions: seq<RestrictionType>,
               ids: set<ArtefactId>)
    requires w.Sound() && id in w.parents
    requires forall r :: r in restrictions <==> Restricted(w, id, r)
    requires forall a :: a in ids <==> AtOrAbove(w.parents, a, id)
    ensures CanDownload(user, restrictions, ids) <==> MayDownload(w, user, id)
  {
    assert restrictions != [] ==> restrictions[0] in restrictions;
    if user.Some? {
      var missing := Missing(user.value, restrictions);
      MissingAre(user.value, restrictions);
      assert missing != [] ==> missing[0] in missing;
      var specific := set g <- user.value.onArtefacts | g.0 in ids :: g.1;
      forall r | r !in user.value.everywhere ensures r in specific <==> Waived(w, user.value, id, r) {
        if r in specific {
          var g :| g in user.value.onArtefacts && g.0 in ids && g.1 == r;
          AboveInTable(w, g.0, id);
          assert g == (g.0, r);
        }
        if Waived(w, user.value, id, r) {
          var a :| a in w.parents && (a, r) in user.value.onArtefacts && AtOrAbove(w.parents, a, id);
          assert (a, r).0 in ids && (a, r).1 == r;
        }
      }
    }
  }

  lemma AboveInTable(w: Artefacts, a: ArtefactId, id: ArtefactId)
    requires w.Sound() && id in w.parents && AtOrAbove(w.parents, a, id)
    ensures a in w.parents
  {
    var n: nat :| Climb(w.parents, id, n) == Some(a);
    ClimbStaysInside(w.parents, id, n);
  }

  /** The download gate as the routes apply it: both walks, then the decision. */
  method CheckDownload(w: Artefacts, user: Option<Holder>, id: ArtefactId) returns (allowed: bool)
    requires w.Sound() && id in w.parents
    ensures allowed <==> MayDownload(w, user, id)
  {
    var restrictions := EffectiveRestrictions(w, id);
    var ids := AncestorIds(w, id);
    GateIs(w, user, id, restrictions, ids);
    allowed := CanDownload(user, restrictions, ids);
  }

  /** A derived artefact that adds no new restriction type is open to whoever may download its source. */
  lemma PermissionCarriesDown(w: Artefacts, user: Option<Holder>, source: ArtefactId, derived: ArtefactId)
    requires w.Sound() && AtOrAbove(w.parents, source, derived) && MayDownload(w, user, source)
    requires forall r | Restricted(w, derived, r) :: Restricted(w, source, r)
    ensures MayDownload(w, user, derived)
  {
    if user.Some? {
      forall r | Waived(w, user.value, source, r) ensures Waived(w, user.value, derived, r) {
        if a :| a in w.parents && (a, r) in user.value.onArtefacts && AtOrAbove(w.parents, a, source) {
          AtOrAboveTransitive(w.parents, a, source, derived);
        }
      }
    }
  }

  /** A restriction carries down too: it stops everyone it is not waived for. */
  lemma RestrictionCarriesDown(w: Artefacts, user: Holder, source: ArtefactId, derived: ArtefactId, r: RestrictionType)
    requires w.Sound() && AtOrAbove(w.parents, source, derived) && Restricted(w, source, r)
    ensures Restricted(w, derived, r)
    ensures MayDownload(w, Some(user), derived) ==> user.isAdmin || Waived(w, user, derived, r)
    ensures !MayDownload(w, None, derived)
  {
    var a :| a in w.placed && r in w.placed[a] && AtOrAbove(w.parents, a, source);
    AtOrAboveTransitive(w.parents, a, source, derived);
    assert a in w.placed && r in w.placed[a] && AtOrAbove(w.parents, a, derived);
    assert Restricted(w, derived, r);
  }
}
