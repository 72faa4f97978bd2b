/** The cross-branch merge guard: ci/check_migration_conflict.py. */
module MergeGuard {
  import opened Options
  import opened MigrationChain

  /** A revision as the guard sees it: the empty string is as good as none. */
  predicate Named(revision: Option<string>) {
    revision.Some? && revision.value != ""
  }

  // ---- get_new_migrations ----

  function Filenames(ms: seq<Migration>): set<string> {
    set m <- ms :: m.filename
  }

  function NamedRevisions(ms: seq<Migration>): set<Option<string>> {
    set m <- ms | Named(m.revision) :: m.revision
  }

  function NewMigrations(local: seq<Migration>, target: seq<Migration>): (incoming: seq<Migration>)
    ensures forall m :: m in incoming <==>
      m in local && m.filename !in Filenames(target) && m.revision !in NamedRevisions(target)
  {
    if local == [] then []
    else
      var init, m := local[..|local| - 1], local[|local| - 1];
      var rest := NewMigrations(init, target);
      assert local == init + [m];
      if m.filename !in Filenames(target) && m.revision !in NamedRevisions(target) then rest + [m] else rest
  }

  /** New is what shares neither its file name nor a revision, other than an empty one, with the target. */
  lemma NewIs(local: seq<Migration>, target: seq<Migration>, m: Migration)
    ensures m in NewMigrations(local, target) <==>
      && m in local
      && forall t <- target ::
           t.filename != m.filename && (t.revision == m.revision ==> t.revision == None || t.revision == Some(""))
  {
    assert forall t <- target :: t.filename in Filenames(target);
  }

  lemma {:induction false} NewKeepsKeyed(local: seq<Migration>, target: seq<Migration>)
    requires Keyed(local)
    ensures Keyed(NewMigrations(local, target))
    decreases |local|
  {
    if local != [] {
      var init := local[..|local| - 1];
      assert forall i | 0 <= i < |init| :: init[i] == local[i];
      NewKeepsKeyed(init, target);
      assert forall x <- init :: x.revision != local[|local| - 1].revision;
    }
  }

  // ---- find_conflicts ----

  /** A new migration that extends a revision `existing` on the target already extends. */
  datatype Conflict = Conflict(migration: Migration, existing: Migration)

  ghost predicate Clashes(m: Migration, incoming: seq<Migration>, target: seq<Migration>) {
    && m.downRevision.Some?
    && m.downRevision !in NamedRevisions(incoming)
    && exists t <- target :: t.downRevision == m.downRevision
  }

  /** It extends what the target extends already, and no new migration is what it extends. */
  lemma ClashIs(m: Migration, incoming: seq<Migration>, target: seq<Migration>)
    ensures Clashes(m, incoming, target) <==>
      && m.downRevision != None
      && (exists t <- target :: t.downRevision == m.downRevision)
      && (m.downRevision != Some("") ==> forall n <- incoming :: n.revision != m.downRevision)
  {
  }

  method FindConflicts(incoming: seq<Migration>, target: seq<Migration>) returns (errors: seq<Conflict>)
    ensures forall m :: (exists t :: Conflict(m, t) in errors) <==> m in incoming && Clashes(m, incoming, target)
    ensures forall e <- errors :: e.existing in target && e.existing.downRevision == e.migration.downRevision
    ensures errors == [] <==> Silent(incoming, target)
  {
    var targetChildren: map<string, Migration> := map[];
    for i := 0 to |target|
      invariant forall d :: d in targetChildren <==> exists t <- target[..i] :: t.downRevision == Some(d)
      invariant forall d <- targetChildren :: targetChildren[d] in target && targetChildren[d].downRevision == Some(d)
    {
      assert target[..i + 1] == target[..i] + [target[i]];
      if target[i].downRevision.Some? {
        targetChildren := targetChildren[target[i].downRevision.value := target[i]];
      }
    }
    assert target[..|target|] == target;
    var newRevisions := NamedRevisions(incoming);
    errors := [];
    for i := 0 to |incoming|
      invariant forall e <- errors ::
        && e.migration in incoming[..i] && Clashes(e.migration, incoming, target)
        && e.existing in target && e.existing.downRevision == e.migration.downRevision
      invariant forall m <- incoming[..i] | Clashes(m, incoming, target) :: exists t :: Conflict(m, t) in errors
    {
      var m := incoming[i];
      assert incoming[..i + 1] == incoming[..i] + [m];
      var before := errors;
      if m.downRevision.Some? && m.downRevision !in newRevisions && m.downRevision.value in targetChildren {
        var existing := targetChildren[m.downRevision.value];
        errors := errors + [Conflict(m, existing)];
        assert Conflict(m, existing) in errors;
      }
      forall x <- incoming[..i] | Clashes(x, incoming, target) ensures exists t :: Conflict(x, t) in errors {
        var t :| Conflict(x, t) in before;
        assert Conflict(x, t) in errors;
      }
    }
    assert incoming[..|incoming|] == incoming;
    if errors != [] { assert errors[0] in errors; }
  }

  // ---- What the guard promises ----

  ghost predicate Silent(incoming: seq<Migration>, target: seq<Migration>) {
    forall m <- incoming :: !Clashes(m, incoming, target)
  }

  ghost predicate AllNamed(ms: seq<Migration>) {
    forall m <- ms :: Named(m.revision)
  }

  /** A filename both branches have carries the same revision on both. */
  ghost predicate SameFileSameRevision(local: seq<Migration>, target: seq<Migration>) {
    forall l <- local, t <- target :: l.filename == t.filename ==> l.revision == t.revision
  }

  /** What the guard takes for granted of the two listings. */
  ghost predicate Comparable(local: seq<Migration>, target: seq<Migration>) {
    AllNamed(local) && AllNamed(target) && SameFileSameRevision(local, target)
  }

  ghost predicate NoNewRoot(incoming: seq<Migration>) {
    forall m <- incoming :: m.downRevision.Some?
  }

  /** What every new migration extends is there after the merge. */
  ghost predicate NoDangling(incoming: seq<Migration>, target: seq<Migration>) {
    forall m <- incoming | m.downRevision.Some? :: exists x <- target + incoming :: x.revision == m.downRevision
  }

  /** `incoming` in chain order, standing on `head`. */
  ghost predicate SegmentOn(segment: seq<Migration>, head: Migration) {
    && Keyed(segment)
    && (segment != [] ==> segment[0].downRevision == head.revision)
    && (forall i {:trigger Before(segment, i)} | 0 < i < |segment| :: segment[i].downRevision == Before(segment, i))
  }

  lemma NewIsUnseen(local: seq<Migration>, target: seq<Migration>, m: Migration)
    requires AllNamed(target) && m in NewMigrations(local, target)
    ensures m in local && forall t <- target :: t.revision != m.revision
  {
    forall t <- target ensures t.revision != m.revision {
      assert Named(t.revision);
    }
  }

  /** With shared files alike, the new migrations are all those whose revision the target lacks. */
  lemma OldIsSeen(local: seq<Migration>, target: seq<Migration>, m: Migration)
    requires Comparable(local, target) && m in local && m !in NewMigrations(local, target)
    ensures exists t <- target :: t.revision == m.revision
  {
    if m.filename in Filenames(target) {
      var t :| t in target && t.filename == m.filename;
      assert t.revision == m.revision;
    } else {
      var t :| t in target && t.revision == m.revision;
    }
  }

  /** A revision of the target is its head, or some target migration extends it. */
  lemma HeadOrExtended(target: seq<Migration>, t: seq<Migration>, x: Migration)
    requires IsOrdering(t, target) && x in target
    ensures x.revision == t[|t| - 1].revision || exists y <- target :: y.downRevision == x.revision
  {
    PermutationKeyed(t, target);
    assert x in t;
    var k :| 0 <= k < |t| && t[k] == x;
    if k < |t| - 1 {
      assert t[k + 1].downRevision == Before(t, k + 1);
      assert t[k + 1] in target;
    }
  }

  /** What the guard needs to see the whole of a merge: two chains of named revisions, and no parent gone. */
  ghost predicate Waved(local: seq<Migration>, target: seq<Migration>) {
    var incoming := NewMigrations(local, target);
    AllNamed(target) && Silent(incoming, target) && NoDangling(incoming, target)
  }

  /** Old and new migrations of one chain carry different revisions. */
  lemma OldIsNotNew(local: seq<Migration>, target: seq<Migration>, known: Migration, m: Migration)
    requires Keyed(local) && known in local && known !in NewMigrations(local, target)
             && m in NewMigrations(local, target)
    ensures m.revision != known.revision
  {
    if m.revision == known.revision {
      SameRevisionSame(local, m, known);
    }
  }

  /** A silent guard leaves one place where new work can start: on the target's head. */
  lemma EntryPoint(local: seq<Migration>, target: seq<Migration>, l: seq<Migration>, t: seq<Migration>, i: nat)
    requires IsOrdering(l, local) && IsOrdering(t, target) && Waved(local, target)
    requires 0 < i < |l| && l[i] in NewMigrations(local, target) && l[i - 1] !in NewMigrations(local, target)
    ensures l[i].downRevision == l[i - 1].revision == t[|t| - 1].revision
  {
    var incoming, prev := NewMigrations(local, target), l[i - 1];
    PermutationKeyed(l, local);
    assert l[i].downRevision == Before(l, i);
    assert prev in l;
    forall f <- incoming ensures f.revision != prev.revision {
      OldIsNotNew(local, target, prev, f);
    }
    var x :| x in target + incoming && x.revision == prev.revision;
    assert x in target;
    assert !Clashes(l[i], incoming, target);
    HeadOrExtended(target, t, x);
  }

  lemma OneEntry(local: seq<Migration>, target: seq<Migration>, l: seq<Migration>, t: seq<Migration>, i: nat, j: nat)
    requires IsOrdering(l, local) && IsOrdering(t, target) && Waved(local, target)
    requires 0 < i < j < |l| && l[i] in NewMigrations(local, target)
    requires l[i - 1] !in NewMigrations(local, target) && l[j - 1] !in NewMigrations(local, target)
    ensures l[j] !in NewMigrations(local, target)
  {
    if l[j] in NewMigrations(local, target) {
      EntryPoint(local, target, l, t, i);
      EntryPoint(local, target, l, t, j);
    }
  }

  /** A mark that is off, and the next one on. */
  ghost predicate SwitchesOn(marks: seq<bool>, i: nat) {
    i + 1 < |marks| && !marks[i] && marks[i + 1]
  }

  /** Marks that switch on at one place only form one run. */
  lemma SingleRun(marks: seq<bool>) returns (from: nat, to: nat)
    requires marks != [] && !marks[0]
    requires forall i: nat, j: nat | SwitchesOn(marks, i) && SwitchesOn(marks, j) :: i == j
    ensures 0 < from <= to <= |marks|
    ensures forall i | 0 <= i < |marks| :: marks[i] <==> from <= i < to
  {
    from := 1;
    while from < |marks| && !marks[from]
      invariant 0 < from <= |marks|
      invariant forall i | 0 <= i < from :: !marks[i]
    {
      from := from + 1;
    }
    to := from;
    while to < |marks| && marks[to]
      invariant from <= to <= |marks|
      invariant forall i | from <= i < to :: marks[i]
    {
      to := to + 1;
    }
    var after := to;
    while after < |marks|
      invariant to <= after <= |marks|
      invariant forall i | to <= i < after :: !marks[i]
    {
      assert SwitchesOn(marks, from - 1);
      if after > to {
        assert !SwitchesOn(marks, after - 1);
      }
      after := after + 1;
    }
  }

  /** Which positions of the local chain are new; they switch on at one place only. */
  lemma NewMarks(local: seq<Migration>, target: seq<Migration>, l: seq<Migration>, t: seq<Migration>)
    returns (marks: seq<bool>)
    requires IsOrdering(l, local) && IsOrdering(t, target) && Waved(local, target)
    ensures |marks| == |l| && forall i | 0 <= i < |l| :: marks[i] <==> l[i] in NewMigrations(local, target)
    ensures forall i: nat, j: nat | SwitchesOn(marks, i) && SwitchesOn(marks, j) :: i == j
  {
    var incoming := NewMigrations(local, target);
    marks := seq(|l|, i requires 0 <= i < |l| => l[i] in incoming);
    forall i: nat, j: nat | i < j ensures !(SwitchesOn(marks, i) && SwitchesOn(marks, j)) {
      if SwitchesOn(marks, i) && j + 1 < |l| && l[j] !in incoming {
        OneEntry(local, target, l, t, i + 1, j + 1);
      }
    }
  }

  /** The new migrations are one run of the local chain, and it starts on the target's head. */
  lemma NewRun(local: seq<Migration>, target: seq<Migration>, l: seq<Migration>, t: seq<Migration>)
    returns (from: nat, to: nat)
    requires IsOrdering(l, local) && IsOrdering(t, target)
    requires Waved(local, target) && NoNewRoot(NewMigrations(local, target))
    ensures 0 < from <= to <= |l|
    ensures forall i | 0 <= i < |l| :: l[i] in NewMigrations(local, target) <==> from <= i < to
    ensures from < to ==> l[from].downRevision == t[|t| - 1].revision
  {
    assert l[0].downRevision == Before(l, 0);
    var marks := NewMarks(local, target, l, t);
    from, to := SingleRun(marks);
    if from < to {
      assert l[from] in NewMigrations(local, target) && l[from - 1] !in NewMigrations(local, target);
      EntryPoint(local, target, l, t, from);
    }
  }

  /** A run of a chain is a segment on whatever its first migration extends. */
  lemma RunIsSegment(l: seq<Migration>, from: nat, to: nat, head: Migration)
    requires Chain(l) && 0 < from <= to <= |l|
    requires from < to ==> l[from].downRevision == head.revision
    ensures SegmentOn(l[from..to], head)
  {
    var segment := l[from..to];
    forall i {:trigger Before(segment, i)} | 0 < i < |segment| ensures segment[i].downRevision == Before(segment, i) {
      assert l[from + i].downRevision == Before(l, from + i);
    }
    assert forall i | 0 <= i < |segment| :: segment[i] == l[from + i];
  }

  lemma RunMembers(l: seq<Migration>, from: nat, to: nat, incoming: seq<Migration>)
    requires 0 <= from <= to <= |l| && forall m <- incoming :: m in l
    requires forall i | 0 <= i < |l| :: l[i] in incoming <==> from <= i < to
    ensures forall m :: m in l[from..to] <==> m in incoming
  {
    forall m <- incoming ensures m in l[from..to] {
      var k :| 0 <= k < |l| && l[k] == m;
      assert l[from..to][k - from] == m;
    }
  }

  /** A silent guard, no new root and no parent gone: the new migrations are one segment on the head. */
  lemma SilentGivesSegment(local: seq<Migration>, target: seq<Migration>, t: seq<Migration>)
    returns (segment: seq<Migration>)
    requires Linear(local) && IsOrdering(t, target)
    requires Waved(local, target) && NoNewRoot(NewMigrations(local, target))
    ensures multiset(segment) == multiset(NewMigrations(local, target))
    ensures SegmentOn(segment, t[|t| - 1])
  {
    var l: seq<Migration> :| IsOrdering(l, local);
    var incoming := NewMigrations(local, target);
    var from, to := NewRun(local, target, l, t);
    segment := l[from..to];
    RunIsSegment(l, from, to, t[|t| - 1]);
    PermutationKeyed(l, local);
    RunMembers(l, from, to, incoming);
    NewKeepsKeyed(local, target);
    KeyedPermutation(segment, incoming);
  }

  lemma SegmentExtendsChain(target: seq<Migration>, incoming: seq<Migration>, t: seq<Migration>,
                            segment: seq<Migration>)
    requires IsOrdering(t, target) && multiset(segment) == multiset(incoming)
    requires SegmentOn(segment, t[|t| - 1])
    requires forall m <- incoming, x <- target :: m.revision != x.revision
    ensures IsOrdering(t + segment, target + incoming)
  {
    var all := t + segment;
    PermutationKeyed(t, target);
    PermutationKeyed(segment, incoming);
    forall i, j | 0 <= i < j < |all| ensures all[i].revision != all[j].revision {
      if i < |t| <= j { assert t[i] in target && segment[j - |t|] in incoming; }
    }
    forall i | 0 <= i < |all| ensures all[i].downRevision == Before(all, i) {
      if i < |t| {
        assert t[i].downRevision == Before(t, i);
      } else if i > |t| {
        assert segment[i - |t|].downRevision == Before(segment, i - |t|);
      }
    }
  }

  /** A merge result with two migrations on one revision, or with two roots, is not linear. */
  lemma LinearForbids(ms: seq<Migration>, a: Migration, b: Migration)
    requires Linear(ms) && a in ms && b in ms && a != b
    ensures a.downRevision != b.downRevision
  {
    var order: seq<Migration> :| IsOrdering(order, ms);
    PermutationKeyed(order, ms);
    var i :| 0 <= i < |order| && order[i] == a;
    var j :| 0 <= j < |order| && order[j] == b;
    assert order[i].downRevision == Before(order, i) && order[j].downRevision == Before(order, j);
    if i > 0 { assert order[i - 1] in order; }
    if j > 0 { assert order[j - 1] in order; }
  }

  lemma LinearMergeIsSilent(local: seq<Migration>, target: seq<Migration>)
    requires Linear(target) && AllNamed(target)
    requires Linear(target + NewMigrations(local, target))
    ensures Silent(NewMigrations(local, target), target) && NoNewRoot(NewMigrations(local, target))
  {
    var incoming := NewMigrations(local, target);
    var merged := target + incoming;
    var t: seq<Migration> :| IsOrdering(t, target);
    PermutationKeyed(t, target);
    assert t[0] in t && t[0].downRevision == Before(t, 0);
    forall m <- incoming ensures m.downRevision.Some? && !Clashes(m, incoming, target) {
      NewIsUnseen(local, target, m);
      forall x <- target ensures x.downRevision != m.downRevision {
        LinearForbids(merged, m, x);
      }
      assert t[0] in target;
    }
  }

  lemma MissingParent(ms: seq<Migration>, m: Migration)
    requires m in ms && m.downRevision.Some? && forall x <- ms :: x.revision != m.downRevision
    ensures !Linear(ms)
  {
    if Linear(ms) {
      var order: seq<Migration> :| IsOrdering(order, ms);
      PermutationKeyed(order, ms);
      var k :| 0 <= k < |order| && order[k] == m;
      assert order[k].downRevision == Before(order, k);
      assert forall j | 0 <= j < |order| :: order[j] in order;
    }
  }

  lemma LinearMergeHasParents(incoming: seq<Migration>, target: seq<Migration>)
    requires Linear(target + incoming)
    ensures NoDangling(incoming, target)
  {
    forall m <- incoming | m.downRevision.Some? ensures exists x <- target + incoming :: x.revision == m.downRevision {
      assert m in target + incoming;
      if forall x <- target + incoming :: x.revision != m.downRevision {
        MissingParent(target + incoming, m);
      }
    }
  }

  /**
    The guard is exact up to what it does not look at.  Given one chain of named
    revisions on each side, target plus the new migrations is one chain again if and
    only if the guard reports nothing, no new migration is a root, and what each one
    extends is there.
   */
  lemma GuardExact(local: seq<Migration>, target: seq<Migration>)
    requires Linear(local) && Linear(target) && AllNamed(target)
    ensures var incoming := NewMigrations(local, target);
      Linear(target + incoming) <==> Silent(incoming, target) && NoNewRoot(incoming) && NoDangling(incoming, target)
  {
    var incoming := NewMigrations(local, target);
    if Linear(target + incoming) {
      LinearMergeIsSilent(local, target);
      LinearMergeHasParents(incoming, target);
    }
    if Silent(incoming, target) && NoNewRoot(incoming) && NoDangling(incoming, target) {
      var t: seq<Migration> :| IsOrdering(t, target);
      var segment := SilentGivesSegment(local, target, t);
      forall m <- incoming, x <- target ensures m.revision != x.revision {
        NewIsUnseen(local, target, m);
      }
      SegmentExtendsChain(target, incoming, t, segment);
    }
  }

  /** Shared files that carry the same revision leave no parent gone. */
  lemma SharedFilesLeaveParents(local: seq<Migration>, target: seq<Migration>)
    requires Linear(local) && Comparable(local, target)
    ensures NoDangling(NewMigrations(local, target), target)
  {
    var incoming := NewMigrations(local, target);
    var l: seq<Migration> :| IsOrdering(l, local);
    PermutationKeyed(l, local);
    forall m <- incoming | m.downRevision.Some? ensures exists x <- target + incoming :: x.revision == m.downRevision {
      assert m in l;
      var i :| 0 <= i < |l| && l[i] == m;
      assert l[i].downRevision == Before(l, i);
      assert l[i - 1] in l;
      if l[i - 1] in incoming {
        assert l[i - 1] in target + incoming;
      } else {
        OldIsSeen(local, target, l[i - 1]);
        var x :| x in target && x.revision == l[i - 1].revision;
        assert x in target + incoming;
      }
    }
  }

  /** So with those, and no new root, the guard alone decides. */
  lemma GuardExactOnSharedFiles(local: seq<Migration>, target: seq<Migration>)
    requires Linear(local) && Linear(target) && Comparable(local, target)
    ensures var incoming := NewMigrations(local, target);
      Linear(target + incoming) <==> Silent(incoming, target) && NoNewRoot(incoming)
  {
    GuardExact(local, target);
    SharedFilesLeaveParents(local, target);
  }

  // ---- What the hypotheses are for ----

  lemma TwoStepChain(a: Migration, b: Migration)
    requires a.revision.Some? && b.revision.Some? && a.revision != b.revision
    requires a.downRevision.None? && b.downRevision == a.revision
    ensures Linear([a, b])
  {
    assert IsOrdering([a, b], [a, b]);
  }

  /** A branch that starts its own history is waved through, and the merge has two roots. */
  lemma NewRootIsMissed()
    ensures exists local, target :: Misses(local, target) && NoDangling(NewMigrations(local, target), target)
  {
    var a := Migration("1.py", Some("a"), None);
    var b := Migration("2.py", Some("b"), None);
    var target, local := [a], [b];
    assert IsOrdering(target, target) && IsOrdering(local, local);
    var incoming := NewMigrations(local, target);
    NewIsMember(local, target, b);
    if Linear(target + incoming) {
      LinearForbids(target + incoming, a, b);
    }
    assert Misses(local, target) && NoDangling(incoming, target);
  }

  /** Both chains are in order and the guard is silent, yet the merge is no chain. */
  ghost predicate Misses(local: seq<Migration>, target: seq<Migration>) {
    && Linear(local) && Linear(target) && AllNamed(local) && AllNamed(target)
    && Silent(NewMigrations(local, target), target)
    && !Linear(target + NewMigrations(local, target))
  }

  /** The revisions of these migrations are named, and all different. */
  ghost predicate FourRevisions(a: Migration, b: Migration, c: Migration, d: Migration) {
    && Named(a.revision) && Named(b.revision) && Named(c.revision) && Named(d.revision)
    && a.revision !in {b.revision, c.revision, d.revision}
    && b.revision !in {c.revision, d.revision} && c.revision != d.revision
  }

  /** On `a`, the target has `b`; the branch reuses its filename for `c` and builds `d` on that. */
  lemma DanglingParent(a: Migration, b: Migration, c: Migration, d: Migration)
    requires FourRevisions(a, b, c, d)
    requires a.downRevision.None? && b.downRevision == c.downRevision == a.revision && d.downRevision == c.revision
    requires c.filename == b.filename && d.filename !in {a.filename, b.filename}
    ensures Misses([a, c, d], [a, b])
    ensures forall m :: m in NewMigrations([a, c, d], [a, b]) <==> m == d
  {
    var target, local := [a, b], [a, c, d];
    TwoStepChain(a, b);
    ThreeStepChain(a, c, d);
    OnlyNew(a, b, c, d);
    var incoming := NewMigrations(local, target);
    assert d in target + incoming;
    assert !Clashes(d, incoming, target);
    MissingParent(target + incoming, d);
  }

  lemma OnlyNew(a: Migration, b: Migration, c: Migration, d: Migration)
    requires FourRevisions(a, b, c, d) && c.filename == b.filename && d.filename !in {a.filename, b.filename}
    ensures forall m :: m in NewMigrations([a, c, d], [a, b]) <==> m == d
  {
    assert a in [a, b] && b in [a, b];
    NewIsMember([a, c, d], [a, b], d);
  }

  lemma NewIsMember(local: seq<Migration>, target: seq<Migration>, m: Migration)
    requires m in local && forall t <- target :: t.filename != m.filename && t.revision != m.revision
    ensures m in NewMigrations(local, target)
  {
  }

  lemma ThreeStepChain(a: Migration, b: Migration, c: Migration)
    requires a.revision.Some? && b.revision.Some? && c.revision.Some?
    requires a.revision != b.revision && a.revision != c.revision && b.revision != c.revision
    requires a.downRevision.None? && b.downRevision == a.revision && c.downRevision == b.revision
    ensures Linear([a, b, c])
  {
    assert IsOrdering([a, b, c], [a, b, c]);
  }

  /**
    A local file that reuses a target filename for another revision is taken for
    known work, so what is built on it is waved through although its parent is gone.
   */
  lemma ReusedFilenameIsMissed()
    ensures exists local, target :: Misses(local, target) && NoNewRoot(NewMigrations(local, target))
  {
    var a := Migration("1.py", Some("a"), None);
    var b := Migration("2.py", Some("b"), Some("a"));
    var c := Migration("2.py", Some("c"), Some("a"));
    var d := Migration("3.py", Some("d"), Some("c"));
    DanglingParent(a, b, c, d);
    assert NoNewRoot(NewMigrations([a, c, d], [a, b]));
  }

  lemma HasMember(ms: seq<Migration>)
    ensures ms == [] || ms[0] in ms
  {
  }

  /** The same reuse does no harm when nothing is built on it. */
  lemma ReusedFilenameMayDoNoHarm()
    ensures exists local, target ::
      && Linear(local) && Linear(target) && AllNamed(target) && !SameFileSameRevision(local, target)
      && Linear(target + NewMigrations(local, target))
  {
    var a := Migration("1.py", Some("a"), None);
    var b := Migration("2.py", Some("b"), Some("a"));
    var c := Migration("2.py", Some("c"), Some("a"));
    var target, local := [a, b], [a, c];
    TwoStepChain(a, b);
    TwoStepChain(a, c);
    assert b in target && c in local && a in target;
    var incoming := NewMigrations(local, target);
    assert forall m <- incoming :: m !in local;
    HasMember(incoming);
    assert target + incoming == target;
  }
}
