/** Positions chosen from the pool for one bar, and their removal.

    The reconstruction step lists the chosen pool positions from highest to
    lowest; such a strictly decreasing list is a selection. Removal pops the
    positions one by one in that order, so every pop leaves the positions
    still to be popped where they were. */
module Selection {
  import opened Pool

  /** Every listed position indexes a pool of size n. */
  predicate InRange(sel: seq<int>, n: int) {
    forall j :: 0 <= j < |sel| ==> 0 <= sel[j] < n
  }

  /** Distinct pool positions below n, listed from highest to lowest. */
  predicate IsSelection(sel: seq<int>, n: int) {
    && InRange(sel, n)
    && forall i, j :: 0 <= i < j < |sel| ==> sel[i] > sel[j]
  }

  /** The pool entries at the selected positions, in selection order. */
  function Picked(pool: seq<int>, sel: seq<int>): seq<int>
    requires InRange(sel, |pool|)
  {
    seq(|sel|, j requires 0 <= j < |sel| => pool[sel[j]])
  }

  /** Total length of the selected pool entries. */
  function SumAt(pool: seq<int>, sel: seq<int>): int
    requires InRange(sel, |pool|)
  {
    Sum(Picked(pool, sel))
  }

  function Elems(sel: seq<int>): set<int> {
    set i | i in sel
  }

  /** `pool.pop(i)`: the pool with position i taken out. */
  function RemoveAt(pool: seq<int>, i: int): seq<int>
    requires 0 <= i < |pool|
  {
    pool[..i] + pool[i + 1..]
  }

  /** Reference definition of removal: the pool entries whose positions are
      not in `drop`, in their original order. */
  function Without(pool: seq<int>, drop: set<int>): seq<int>
    decreases |pool|
  {
    if |pool| == 0 then []
    else
      var last := |pool| - 1;
      Without(pool[..last], drop) + (if last in drop then [] else [pool[last]])
  }

  /** `for idx in order: items.pop(idx)` with the popped values in pop order.
      The pair holds the remaining pool and the popped values. */
  function PopAll(pool: seq<int>, order: seq<int>): (res: (seq<int>, seq<int>))
    requires IsSelection(order, |pool|)
    ensures |res.0| == |pool| - |order|
    ensures res.1 == Picked(pool, order)
    ensures multiset(res.0) + multiset(res.1) == multiset(pool)
    ensures NonIncreasing(pool) ==> NonIncreasing(res.0)
    decreases |order|
  {
    if |order| == 0 then (pool, [])
    else
      var i := order[0];
      var shrunk := RemoveAt(pool, i);
      RemoveAtFacts(pool, i);
      assert IsSelection(order[1..], |shrunk|);
      var next := PopAll(shrunk, order[1..]);
      assert Picked(pool, order) == [pool[i]] + Picked(shrunk, order[1..]);
      (next.0, [pool[i]] + next.1)
  }

  // ---------------------------------------------------------------------
  // Lemmas
  // ---------------------------------------------------------------------

  /** Popping position i removes exactly pool[i], shifts nothing below i,
      and keeps a non-increasing pool non-increasing. */
  lemma RemoveAtFacts(pool: seq<int>, i: int)
    requires 0 <= i < |pool|
    ensures |RemoveAt(pool, i)| == |pool| - 1
    ensures forall k :: 0 <= k < i ==> RemoveAt(pool, i)[k] == pool[k]
    ensures multiset(RemoveAt(pool, i)) + multiset{pool[i]} == multiset(pool)
    ensures NonIncreasing(pool) ==> NonIncreasing(RemoveAt(pool, i))
  {
    RemoveAtMultiset(pool, i);
    var r := RemoveAt(pool, i);
    if NonIncreasing(pool) {
      forall a, b | 0 <= a < b < |r|
        ensures r[a] >= r[b]
      {
        var a' := if a < i then a else a + 1;
        var b' := if b < i then b else b + 1;
        assert r[a] == pool[a'] && r[b] == pool[b'] && a' < b';
      }
    }
  }

  lemma PickedAppend(pool: seq<int>, sel: seq<int>, k: int)
    requires InRange(sel, |pool|) && 0 <= k < |pool|
    ensures InRange(sel + [k], |pool|)
    ensures SumAt(pool, sel + [k]) == SumAt(pool, sel) + pool[k]
  {
    assert Picked(pool, sel + [k]) == Picked(pool, sel) + [pool[k]];
    SumConcat(Picked(pool, sel), [pool[k]]);
  }

  /** Positions at or beyond the end of the pool do not affect removal. */
  lemma {:induction false} WithoutIgnoresBeyond(pool: seq<int>, drop: set<int>, x: int)
    requires x >= |pool|
    ensures Without(pool, drop + {x}) == Without(pool, drop)
    decreases |pool|
  {
    if |pool| > 0 {
      WithoutIgnoresBeyond(pool[..|pool| - 1], drop, x);
    }
  }

  /** When every dropped position lies in the prefix a, the suffix b survives whole. */
  lemma {:induction false} WithoutSuffix(a: seq<int>, b: seq<int>, drop: set<int>)
    requires forall d :: d in drop ==> d < |a|
    ensures Without(a + b, drop) == Without(a, drop) + b
    decreases |b|
  {
    if |b| == 0 {
      assert a + b == a;
    } else {
      var b' := b[..|b| - 1];
      assert (a + b)[..|a + b| - 1] == a + b';
      assert (a + b)[|a + b| - 1] == b[|b| - 1];
      WithoutSuffix(a, b', drop);
      assert b == b' + [b[|b| - 1]];
    }
  }

  /** Popping the highest dropped position first agrees with the reference removal. */
  lemma RemoveAtWithout(pool: seq<int>, i: int, drop: set<int>)
    requires 0 <= i < |pool|
    requires forall d :: d in drop ==> d < i
    ensures Without(RemoveAt(pool, i), drop) == Without(pool, drop + {i})
  {
    var pre := pool[..i];
    var post := pool[i + 1..];
    WithoutSuffix(pre, post, drop);
    assert pool == pool[..i + 1] + post;
    WithoutSuffix(pool[..i + 1], post, drop + {i});
    assert pool[..i + 1][..i] == pre;
    WithoutIgnoresBeyond(pre, drop, i);
  }

  /** Popping a selection's positions from highest to lowest removes exactly
      those positions and leaves every other entry in its original order. */
  lemma {:induction false} PopAllRemovesExactly(pool: seq<int>, order: seq<int>)
    requires IsSelection(order, |pool|)
    ensures PopAll(pool, order).0 == Without(pool, Elems(order))
    decreases |order|
  {
    if |order| == 0 {
      assert Elems(order) == {};
      WithoutNothing(pool);
    } else {
      var i := order[0];
      var shrunk := RemoveAt(pool, i);
      RemoveAtFacts(pool, i);
      SelectionTail(order, |pool|);
      assert PopAll(pool, order).0 == PopAll(shrunk, order[1..]).0;
      PopAllRemovesExactly(shrunk, order[1..]);
      RemoveAtWithout(pool, i, Elems(order[1..]));
    }
  }

  /** Below the head of a selection lies a smaller selection holding every other position. */
  lemma SelectionTail(order: seq<int>, n: int)
    requires IsSelection(order, n) && |order| > 0
    ensures IsSelection(order[1..], order[0])
    ensures Elems(order) == Elems(order[1..]) + {order[0]}
    ensures forall d :: d in Elems(order[1..]) ==> d < order[0]
  {
    assert order == [order[0]] + order[1..];
  }

  lemma {:induction false} WithoutNothing(pool: seq<int>)
    ensures Without(pool, {}) == pool
    decreases |pool|
  {
    if |pool| > 0 {
      WithoutNothing(pool[..|pool| - 1]);
      assert pool == pool[..|pool| - 1] + [pool[|pool| - 1]];
    }
  }

  /** The picked entries of a non-negative pool each lie between 0 and their total. */
  lemma PickedBoundedBySum(pool: seq<int>, sel: seq<int>, j: int)
    requires InRange(sel, |pool|)
    requires forall i :: 0 <= i < |pool| ==> pool[i] >= 0
    requires 0 <= j < |sel|
    ensures 0 <= pool[sel[j]] <= SumAt(pool, sel)
  {
    SumBoundsEntry(Picked(pool, sel), j);
  }
}
