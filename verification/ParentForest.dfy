/**
  Parent pointers.  Items, artefacts and migrations all name at most one parent,
  and the code walks those pointers upwards with unguarded `while` loops.  This
  module says when such a walk ends, and how one changed pointer affects it.
 */
module ParentForest {
  import opened Options

  type Parents<!K> = map<K, Option<K>>

  /** Where `n` steps up from `k` lead; None once the walk has left the table. */
  ghost function Climb<K>(parents: Parents<K>, k: K, n: nat): Option<K>
    decreases n
  {
    if n == 0 then Some(k)
    else if k !in parents || parents[k].None? then None
    else Climb(parents, parents[k].value, n - 1)
  }

  /** `a` is `k` itself or one of its ancestors. */
  ghost predicate AtOrAbove<K>(parents: Parents<K>, a: K, k: K) {
    exists n: nat :: Climb(parents, k, n) == Some(a)
  }

  /** The walk up from `k` ends. */
  ghost predicate Grounded<K>(parents: Parents<K>, k: K) {
    exists n: nat :: Climb(parents, k, n).None?
  }

  ghost predicate Acyclic<K>(parents: Parents<K>) {
    forall k <- parents :: Grounded(parents, k)
  }

  /** `k` is its own proper ancestor. */
  ghost predicate OnCycle<K>(parents: Parents<K>, k: K) {
    exists n: nat :: n > 0 && Climb(parents, k, n) == Some(k)
  }

  /** Foreign keys hold. */
  ghost predicate Closed<K>(parents: Parents<K>) {
    forall k <- parents :: parents[k].Some? ==> parents[k].value in parents
  }

  // ---- Composing climbs ----

  lemma {:induction false} ClimbStaysInside<K>(parents: Parents<K>, k: K, n: nat)
    requires Closed(parents) && k in parents
    ensures Climb(parents, k, n).Some? ==> Climb(parents, k, n).value in parents
    decreases n
  {
    if n > 0 && parents[k].Some? { ClimbStaysInside(parents, parents[k].value, n - 1); }
  }

  lemma {:induction false} ClimbAdd<K>(parents: Parents<K>, k: K, m: nat, n: nat)
    ensures Climb(parents, k, m + n) ==
            if Climb(parents, k, m).None? then None
            else Climb(parents, Climb(parents, k, m).value, n)
    decreases m
  {
    if m > 0 && k in parents && parents[k].Some? {
      ClimbAdd(parents, parents[k].value, m - 1, n);
    }
  }

  /** The last step of a climb reads the pointer of the node reached before it. */
  lemma ClimbLast<K>(parents: Parents<K>, k: K, n: nat)
    ensures Climb(parents, k, n + 1) ==
            match Climb(parents, k, n)
            case None => None
            case Some(a) => if a in parents then parents[a] else None
  {
    ClimbAdd(parents, k, n, 1);
    if Climb(parents, k, n).Some? {
      var a := Climb(parents, k, n).value;
      if a in parents && parents[a].Some? {
        assert Climb(parents, parents[a].value, 0) == parents[a];
      }
    }
  }

  lemma ClimbNoneStays<K>(parents: Parents<K>, k: K, m: nat, n: nat)
    requires m <= n && Climb(parents, k, m).None?
    ensures Climb(parents, k, n).None?
  {
    ClimbAdd(parents, k, m, n - m);
  }

  lemma AtOrAboveTransitive<K>(parents: Parents<K>, a: K, b: K, c: K)
    requires AtOrAbove(parents, a, b) && AtOrAbove(parents, b, c)
    ensures AtOrAbove(parents, a, c)
  {
    var m: nat :| Climb(parents, b, m) == Some(a);
    var n: nat :| Climb(parents, c, n) == Some(b);
    ClimbAdd(parents, c, n, m);
    assert Climb(parents, c, n + m) == Some(a);
  }

  lemma AtOrAboveStep<K>(parents: Parents<K>, a: K, k: K)
    ensures AtOrAbove(parents, a, k) <==>
            a == k || (k in parents && parents[k].Some? && AtOrAbove(parents, a, parents[k].value))
  {
    assert Climb(parents, k, 0) == Some(k);
    if a != k && AtOrAbove(parents, a, k) {
      var n: nat :| Climb(parents, k, n) == Some(a);
      assert Climb(parents, parents[k].value, n - 1) == Some(a);
    }
    if k in parents && parents[k].Some? && AtOrAbove(parents, a, parents[k].value) {
      var n: nat :| Climb(parents, parents[k].value, n) == Some(a);
      assert Climb(parents, k, n + 1) == Some(a);
    }
  }

  // ---- Ending walks and cycles ----

  /** A sequence longer than the set its elements come from repeats one of them. */
  lemma {:induction false} Pigeonhole<K>(s: seq<K>, pool: set<K>) returns (i: nat, j: nat)
    requires |s| > |pool| && forall x <- s :: x in pool
    ensures i < j < |s| && s[i] == s[j]
    decreases |s|
  {
    var last := |s| - 1;
    if k :| 0 <= k < last && s[k] == s[last] {
      i, j := k, last;
    } else {
      assert forall x <- s[..last] :: x in pool - {s[last]};
      assert |pool - {s[last]}| == |pool| - 1;
      i, j := Pigeonhole(s[..last], pool - {s[last]});
    }
  }

  /** A walk that is still going after one step per table row has met a cycle. */
  lemma LongWalkMeetsCycle<K>(parents: Parents<K>, k: K) returns (c: K)
    requires Climb(parents, k, |parents| + 1).Some?
    ensures AtOrAbove(parents, c, k) && OnCycle(parents, c) && c in parents
  {
    var n := |parents| + 1;
    forall i: nat | i < n
      ensures Climb(parents, k, i).Some? && Climb(parents, k, i).value in parents
    {
      if Climb(parents, k, i).None? { ClimbNoneStays(parents, k, i, n); }
      ClimbLast(parents, k, i);
      if Climb(parents, k, i + 1).None? { ClimbNoneStays(parents, k, i + 1, n); }
    }
    var walk := seq(n, i requires 0 <= i < n => Climb(parents, k, i).value);
    assert |parents.Keys| == |parents|;
    var i, j := Pigeonhole(walk, parents.Keys);
    c := walk[i];
    ClimbAdd(parents, k, i, j - i);
    assert Climb(parents, c, j - i) == Some(c);
    assert Climb(parents, k, i) == Some(c);
  }

  lemma {:induction false} CycleRepeats<K>(parents: Parents<K>, k: K, n: nat, m: nat)
    requires Climb(parents, k, n) == Some(k)
    ensures Climb(parents, k, n * m) == Some(k)
    decreases m
  {
    if m > 0 {
      CycleRepeats(parents, k, n, m - 1);
      ClimbAdd(parents, k, n * (m - 1), n);
      assert n * (m - 1) + n == n * m;
    }
  }

  lemma CycleNotGrounded<K>(parents: Parents<K>, c: K, k: K)
    requires OnCycle(parents, c) && AtOrAbove(parents, c, k)
    ensures !Grounded(parents, k)
  {
    if Grounded(parents, k) {
      var stop: nat :| Climb(parents, k, stop).None?;
      var n: nat :| n > 0 && Climb(parents, c, n) == Some(c);
      var up: nat :| Climb(parents, k, up) == Some(c);
      CycleRepeats(parents, c, n, stop);
      ClimbAdd(parents, k, up, n * stop);
      assert n * stop >= stop;
      ClimbNoneStays(parents, k, stop, up + n * stop);
    }
  }

  /** An ending walk ends within one step per row, plus one for a dangling pointer. */
  lemma GroundedBound<K>(parents: Parents<K>, k: K)
    requires Grounded(parents, k)
    ensures Climb(parents, k, |parents| + 1).None?
  {
    if Climb(parents, k, |parents| + 1).Some? {
      var c := LongWalkMeetsCycle(parents, k);
      CycleNotGrounded(parents, c, k);
    }
  }

  /** Every walk ends exactly when no row is its own proper ancestor. */
  lemma AcyclicIffNoCycle<K>(parents: Parents<K>)
    ensures Acyclic(parents) <==> forall k <- parents :: !OnCycle(parents, k)
  {
    forall k <- parents | OnCycle(parents, k) ensures !Grounded(parents, k) {
      assert Climb(parents, k, 0) == Some(k);
      CycleNotGrounded(parents, k, k);
    }
    forall k <- parents | !Grounded(parents, k) ensures exists c <- parents :: OnCycle(parents, c) {
      var c := LongWalkMeetsCycle(parents, k);
    }
  }

  // ---- The walk itself ----

  /** The number of rows an ending walk passes. */
  ghost function Height<K>(parents: Parents<K>, k: K): (h: nat)
    requires Grounded(parents, k)
    ensures Climb(parents, k, h).None? && h > 0
    ensures forall n: nat | n < h :: Climb(parents, k, n).Some?
  {
    var n: nat :| Climb(parents, k, n).None?;
    FirstNone(parents, k, n)
  }

  ghost function FirstNone<K>(parents: Parents<K>, k: K, n: nat): (h: nat)
    requires Climb(parents, k, n).None?
    ensures Climb(parents, k, h).None?
    ensures forall m: nat | m < h :: Climb(parents, k, m).Some?
    decreases n
  {
    if n > 0 && Climb(parents, k, n - 1).None? then FirstNone(parents, k, n - 1)
    else
      assert forall m: nat | m < n :: Climb(parents, k, m).Some? by {
        forall m: nat | m < n && Climb(parents, k, m).None? ensures false {
          ClimbNoneStays(parents, k, m, n - 1);
        }
      }
      n
  }

  lemma HeightDrops<K>(parents: Parents<K>, k: K)
    requires Grounded(parents, k) && k in parents && parents[k].Some?
    ensures Grounded(parents, parents[k].value)
    ensures Height(parents, parents[k].value) < Height(parents, k)
  {
    var p := parents[k].value;
    var h := Height(parents, k);
    assert Climb(parents, p, h - 1) == Climb(parents, k, h);
  }

  /** `k` and its ancestors, nearest first: `while current: ...; current = current.parent`. */
  function Walk<K(==)>(parents: Parents<K>, k: K): (path: seq<K>)
    requires Grounded(parents, k)
    decreases Height(parents, k)
  {
    if k in parents && parents[k].Some? then
      HeightDrops(parents, k);
      [k] + Walk(parents, parents[k].value)
    else [k]
  }

  lemma {:induction false} WalkIsAtOrAbove<K>(parents: Parents<K>, k: K, a: K)
    requires Grounded(parents, k)
    ensures a in Walk(parents, k) <==> AtOrAbove(parents, a, k)
    decreases Height(parents, k)
  {
    AtOrAboveStep(parents, a, k);
    if k in parents && parents[k].Some? {
      HeightDrops(parents, k);
      WalkIsAtOrAbove(parents, parents[k].value, a);
    }
  }

  // ---- Changing one pointer ----

  /** Moving `x` leaves a climb unchanged up to the moment it arrives at `x`. */
  lemma {:induction false} ClimbUntilMoved<K>(parents: Parents<K>, x: K, p: Option<K>, k: K, n: nat)
    requires forall i: nat | i < n :: Climb(parents, k, i) != Some(x)
    ensures Climb(parents[x := p], k, n) == Climb(parents, k, n)
    decreases n
  {
    if n > 0 {
      assert Climb(parents, k, 0) != Some(x);
      if k in parents && parents[k].Some? {
        forall i: nat | i < n - 1 ensures Climb(parents, parents[k].value, i) != Some(x) {
          assert Climb(parents, k, i + 1) == Climb(parents, parents[k].value, i);
        }
        ClimbUntilMoved(parents, x, p, parents[k].value, n - 1);
      }
    }
  }

  /** Moving `x` does not change what lies below it. */
  lemma {:induction false} StillBelowMoved<K>(parents: Parents<K>, x: K, p: Option<K>, k: K, n: nat)
    requires Climb(parents, k, n) == Some(x)
    ensures AtOrAbove(parents[x := p], x, k)
    decreases n
  {
    var moved := parents[x := p];
    if k == x {
      assert Climb(moved, k, 0) == Some(x);
    } else {
      StillBelowMoved(parents, x, p, parents[k].value, n - 1);
      var m: nat :| Climb(moved, parents[k].value, m) == Some(x);
      assert Climb(moved, k, m + 1) == Some(x);
    }
  }

  /** Moving `x` changes nothing for rows that are not below it. */
  lemma UnmovedAbove<K>(parents: Parents<K>, x: K, p: Option<K>, k: K, a: K)
    requires !AtOrAbove(parents, x, k)
    ensures AtOrAbove(parents[x := p], a, k) <==> AtOrAbove(parents, a, k)
  {
    forall n: nat ensures Climb(parents[x := p], k, n) == Climb(parents, k, n) {
      ClimbUntilMoved(parents, x, p, k, n);
    }
    if AtOrAbove(parents, a, k) {
      var n: nat :| Climb(parents, k, n) == Some(a);
      assert Climb(parents[x := p], k, n) == Some(a);
    }
    if AtOrAbove(parents[x := p], a, k) {
      var n: nat :| Climb(parents[x := p], k, n) == Some(a);
      assert Climb(parents, k, n) == Some(a);
    }
  }

  lemma BelowMoved<K>(parents: Parents<K>, x: K, p: Option<K>, k: K)
    ensures AtOrAbove(parents[x := p], x, k) <==> AtOrAbove(parents, x, k)
  {
    if AtOrAbove(parents, x, k) {
      var n: nat :| Climb(parents, k, n) == Some(x);
      StillBelowMoved(parents, x, p, k, n);
    }
    if AtOrAbove(parents[x := p], x, k) {
      var n: nat :| Climb(parents[x := p], k, n) == Some(x);
      if x in parents {
        assert parents[x := p][x := parents[x]] == parents;
        StillBelowMoved(parents[x := p], x, parents[x], k, n);
      } else {
        DanglingBelow(parents, x, p, k, n);
      }
    }
  }

  /** The same, when `x` had no row before: only the last arrival at `x` matters. */
  lemma {:induction false} DanglingBelow<K>(parents: Parents<K>, x: K, p: Option<K>, k: K, n: nat)
    requires x !in parents && Climb(parents[x := p], k, n) == Some(x)
    ensures AtOrAbove(parents, x, k)
    decreases n
  {
    if k == x {
      assert Climb(parents, k, 0) == Some(x);
    } else {
      DanglingBelow(parents, x, p, parents[k].value, n - 1);
      var m: nat :| Climb(parents, parents[k].value, m) == Some(x);
      assert Climb(parents, k, m + 1) == Some(x);
    }
  }

  lemma {:induction false} GroundedAfterMove<K>(parents: Parents<K>, x: K, p: Option<K>, k: K, n: nat)
    requires Climb(parents, k, n).None?
    requires p.Some? ==> Grounded(parents[x := p], p.value)
    ensures Grounded(parents[x := p], k)
    decreases n
  {
    var moved := parents[x := p];
    if k == x {
      if p.None? {
        assert Climb(moved, k, 1).None?;
      } else {
        var m: nat :| Climb(moved, p.value, m).None?;
        assert Climb(moved, k, m + 1).None?;
      }
    } else if k !in parents || parents[k].None? {
      assert Climb(moved, k, 1).None?;
    } else {
      GroundedAfterMove(parents, x, p, parents[k].value, n - 1);
      var m: nat :| Climb(moved, parents[k].value, m).None?;
      assert Climb(moved, k, m + 1).None?;
    }
  }

  /** Giving `x` the parent `p` keeps the table acyclic exactly when `p` is not `x` or below it. */
  lemma MoveKeepsAcyclic<K>(parents: Parents<K>, x: K, p: K)
    requires Acyclic(parents) && p in parents
    ensures Acyclic(parents[x := Some(p)]) <==> !AtOrAbove(parents, x, p)
  {
    var moved := parents[x := Some(p)];
    if AtOrAbove(parents, x, p) {
      BelowMoved(parents, x, Some(p), p);
      var n: nat :| Climb(moved, p, n) == Some(x);
      assert Climb(moved, x, n + 1) == Some(x);
      assert Climb(moved, x, 0) == Some(x);
      CycleNotGrounded(moved, x, x);
      assert x in moved;
    } else {
      var n: nat :| Climb(parents, p, n).None?;
      ClimbUntilMoved(parents, x, Some(p), p, n);
      assert Grounded(moved, p);
      forall k <- moved ensures Grounded(moved, k) {
        if k in parents {
          var m: nat :| Climb(parents, k, m).None?;
          GroundedAfterMove(parents, x, Some(p), k, m);
        } else {
          assert Climb(parents, k, 1).None?;
          GroundedAfterMove(parents, x, Some(p), k, 1);
        }
      }
    }
  }

  lemma DetachKeepsAcyclic<K>(parents: Parents<K>, x: K)
    requires Acyclic(parents)
    ensures Acyclic(parents[x := None])
  {
    var moved := parents[x := None];
    forall k <- moved ensures Grounded(moved, k) {
      if k in parents {
        var m: nat :| Climb(parents, k, m).None?;
        GroundedAfterMove(parents, x, None, k, m);
      } else {
        assert Climb(moved, k, 1).None?;
      }
    }
  }
}
