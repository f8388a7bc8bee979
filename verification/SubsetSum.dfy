/** The bar packer: a 0/1 subset-sum dynamic program over the current pool,
    the largest reachable sum not above the capacity, and the walk back along
    the recorded pointers that recovers the pool positions used. */
module SubsetSum {
  import opened Pool
  import opened Selection

  predicate NonNegative(items: seq<int>) {
    forall i :: 0 <= i < |items| ==> items[i] >= 0
  }

  /** The recurrence the table fill follows: w is a sum of some of the first
      k pool entries, each used at most once, when it is already a sum of the
      first k - 1 or becomes one by adding entry k - 1. */
  ghost predicate Reachable(items: seq<int>, k: nat, w: int)
    requires k <= |items|
    decreases k
  {
    if k == 0 then w == 0
    else Reachable(items, k - 1, w) || Reachable(items, k - 1, w - items[k - 1])
  }

  /** The back-pointer tables after the fill: dp[0] holds, and every other
      reachable sum w points at a positive entry prevIdx[w] and at the smaller
      reachable sum prevW[w] it extends, whose own pointer (if any) names a
      strictly lower position. */
  ghost predicate WellLinked(items: seq<int>, dp: seq<bool>, prevW: seq<int>, prevIdx: seq<int>) {
    && |dp| > 0 && |prevW| == |dp| && |prevIdx| == |dp|
    && dp[0]
    && forall w :: 1 <= w < |dp| && dp[w] ==>
         && 0 <= prevIdx[w] < |items|
         && items[prevIdx[w]] > 0
         && prevW[w] == w - items[prevIdx[w]]
         && 0 <= prevW[w]
         && dp[prevW[w]]
         && (prevW[w] == 0 || prevIdx[prevW[w]] < prevIdx[w])
  }

  /** No selection of pool positions fits the capacity with a larger total than w. */
  ghost predicate MaxFill(pool: seq<int>, capacity: int, w: int) {
    forall sel :: IsSelection(sel, |pool|) && SumAt(pool, sel) <= capacity ==> SumAt(pool, sel) <= w
  }

  /** The pointer tables part way through the fill: every reachable sum
      other than 0 was first reached by a position at most k, and those reached
      by position k itself lie above w. Each points at a positive entry and at
      the smaller reachable sum it extends, whose own pointer names a strictly
      lower position. */
  ghost predicate Linked(items: seq<int>, t: seq<bool>, pw: seq<int>, pi: seq<int>, k: int, w: int) {
    && |t| > 0 && |pw| == |t| && |pi| == |t|
    && t[0]
    && forall v :: 1 <= v < |t| && t[v] ==>
         && 0 <= pi[v] <= k && pi[v] < |items|
         && (pi[v] == k ==> v > w)
         && items[pi[v]] > 0
         && pw[v] == v - items[pi[v]]
         && 0 <= pw[v] < v
         && t[pw[v]]
         && (pw[v] == 0 || pi[pw[v]] < pi[v])
  }

  /** Fills `dp`, `prev_w` and `prev_idx` for the whole pool, one position
      at a time in pool order. */
  method FillTable(items: seq<int>, capacity: nat) returns (dp: seq<bool>, prevW: seq<int>, prevIdx: seq<int>)
    requires NonNegative(items)
    ensures |dp| == capacity + 1
    ensures forall w :: 0 <= w <= capacity ==> (dp[w] <==> Reachable(items, |items|, w))
    ensures forall sel :: IsSelection(sel, |items|) && SumAt(items, sel) <= capacity ==>
              0 <= SumAt(items, sel) && dp[SumAt(items, sel)]
    ensures WellLinked(items, dp, prevW, prevIdx)
  {
    dp := seq(capacity + 1, v => v == 0);
    prevW := seq(capacity + 1, _ => -1);
    prevIdx := seq(capacity + 1, _ => -1);
    var k := 0;
    while k < |items|
      invariant 0 <= k <= |items|
      invariant |dp| == capacity + 1
      invariant forall v :: 0 <= v <= capacity ==> (dp[v] <==> Reachable(items, k, v))
      invariant Linked(items, dp, prevW, prevIdx, k, capacity)
    {
      dp, prevW, prevIdx := Relax(items, k, dp, prevW, prevIdx);
      k := k + 1;
    }
    forall sel | IsSelection(sel, |items|) && SumAt(items, sel) <= capacity
      ensures 0 <= SumAt(items, sel) && dp[SumAt(items, sel)]
    {
      SelectionReachable(items, |items|, sel);
      ReachableNonNegative(items, |items|, SumAt(items, sel));
    }
  }

  /** Processes pool position k: for w from the capacity down to the entry p,
      marks w reachable (recording where it came from) when w - p was
      reachable and w was not. Going downwards reads w - p before this
      position can have marked it, so position k is counted at most once. */
  method Relax(items: seq<int>, k: int, dp: seq<bool>, prevW: seq<int>, prevIdx: seq<int>)
    returns (dp': seq<bool>, prevW': seq<int>, prevIdx': seq<int>)
    requires 0 <= k < |items| && NonNegative(items)
    requires forall v :: 0 <= v < |dp| ==> (dp[v] <==> Reachable(items, k, v))
    requires Linked(items, dp, prevW, prevIdx, k, |dp| - 1)
    ensures |dp'| == |dp|
    ensures forall v :: 0 <= v < |dp'| ==> (dp'[v] <==> Reachable(items, k + 1, v))
    ensures Linked(items, dp', prevW', prevIdx', k + 1, |dp| - 1)
  {
    var p := items[k];
    var capacity := |dp| - 1;
    dp', prevW', prevIdx' := dp, prevW, prevIdx;
    var w := capacity;
    while w >= p
      invariant -1 <= w <= capacity && |dp'| == |dp|
      invariant SplitAt(items, k, dp', w)
      invariant Linked(items, dp', prevW', prevIdx', k, w)
    {
      ReachStep(items, k, dp', w);
      if dp'[w - p] && !dp'[w] {
        LinkStep(items, dp', prevW', prevIdx', k, w);
        dp' := dp'[w := true];
        prevW' := prevW'[w := w - p];
        prevIdx' := prevIdx'[w := k];
      } else {
        LinkLower(items, dp', prevW', prevIdx', k, w);
      }
      w := w - 1;
    }
    forall v | 0 <= v <= w
      ensures Reachable(items, k + 1, v) == Reachable(items, k, v)
    {
      if Reachable(items, k, v - p) {
        ReachableNonNegative(items, k, v - p);
      }
    }
    LinkNext(items, dp', prevW', prevIdx', k, w);
  }

  /** Part way through position k: sums above w already include position k,
      sums up to w do not yet. */
  ghost predicate SplitAt(items: seq<int>, k: int, t: seq<bool>, w: int)
    requires 0 <= k < |items|
  {
    && (forall v :: 0 <= v < |t| && w < v ==> (t[v] <==> Reachable(items, k + 1, v)))
    && (forall v :: 0 <= v <= w && v < |t| ==> (t[v] <==> Reachable(items, k, v)))
  }

  /** One step of the downward sweep: after deciding sum w, it includes position k. */
  lemma ReachStep(items: seq<int>, k: int, t: seq<bool>, w: int)
    requires 0 <= k < |items| && NonNegative(items)
    requires 0 <= items[k] <= w < |t|
    requires SplitAt(items, k, t, w)
    ensures SplitAt(items, k, if t[w - items[k]] && !t[w] then t[w := true] else t, w - 1)
  {
  }

  /** Setting sum w from position k (the table's `if dp[w - p] and not dp[w]`
      branch) keeps the pointers linked. */
  lemma LinkStep(items: seq<int>, t: seq<bool>, pw: seq<int>, pi: seq<int>, k: int, w: int)
    requires 0 <= k < |items| && NonNegative(items)
    requires Linked(items, t, pw, pi, k, w)
    requires 0 <= items[k] <= w < |t|
    requires t[w - items[k]] && !t[w]
    ensures Linked(items, t[w := true], pw[w := w - items[k]], pi[w := k], k, w - 1)
  {
    var t', pw', pi' := t[w := true], pw[w := w - items[k]], pi[w := k];
    forall v | 1 <= v < |t'| && t'[v]
      ensures && 0 <= pi'[v] <= k && pi'[v] < |items|
              && (pi'[v] == k ==> v > w - 1)
              && items[pi'[v]] > 0
              && pw'[v] == v - items[pi'[v]]
              && 0 <= pw'[v] < v
              && t'[pw'[v]]
              && (pw'[v] == 0 || pi'[pw'[v]] < pi'[v])
    {
      if v != w {
        assert pw[v] != w;
      }
    }
  }

  /** Leaving sum w untouched keeps the pointers linked one step further down. */
  lemma LinkLower(items: seq<int>, t: seq<bool>, pw: seq<int>, pi: seq<int>, k: int, w: int)
    requires Linked(items, t, pw, pi, k, w)
    ensures Linked(items, t, pw, pi, k, w - 1)
  {
  }

  /** Once position k is done, every recorded pointer names a position below k + 1. */
  lemma LinkNext(items: seq<int>, t: seq<bool>, pw: seq<int>, pi: seq<int>, k: int, w: int)
    requires Linked(items, t, pw, pi, k, w)
    ensures Linked(items, t, pw, pi, k + 1, |t| - 1)
  {
  }

  /** `max(w for w in range(capacity + 1) if dp[w])`. */
  method LargestReachable(dp: seq<bool>) returns (wMax: nat)
    requires |dp| > 0 && dp[0]
    ensures wMax < |dp| && dp[wMax]
    ensures forall w :: wMax < w < |dp| ==> !dp[w]
  {
    wMax := 0;
    var w := 1;
    while w < |dp|
      invariant 1 <= w <= |dp|
      invariant wMax < w && dp[wMax]
      invariant forall v :: wMax < v < w ==> !dp[v]
    {
      if dp[w] {
        wMax := w;
      }
      w := w + 1;
    }
  }

  /** Walks the pointers back from wMax to 0, collecting the pool positions. */
  method Reconstruct(items: seq<int>, dp: seq<bool>, prevW: seq<int>, prevIdx: seq<int>, wMax: nat)
    returns (used: seq<int>)
    requires WellLinked(items, dp, prevW, prevIdx)
    requires wMax < |dp| && dp[wMax]
    ensures IsSelection(used, |items|)
    ensures SumAt(items, used) == wMax
    ensures forall j :: 0 <= j < |used| ==> items[used[j]] > 0
  {
    used := [];
    var w := wMax;
    while w > 0
      invariant 0 <= w <= wMax && dp[w]
      invariant IsSelection(used, |items|)
      invariant forall j :: 0 <= j < |used| ==> items[used[j]] > 0
      invariant w > 0 ==> forall j :: 0 <= j < |used| ==> used[j] > prevIdx[w]
      invariant SumAt(items, used) + w == wMax
      decreases w
    {
      var idx := prevIdx[w];
      PickedAppend(items, used, idx);
      used := used + [idx];
      w := prevW[w];
    }
  }

  /** One bar's packing: the pool positions giving the fullest fill that fits. */
  method PackBar(pool: seq<int>, capacity: nat) returns (used: seq<int>, wMax: nat)
    requires NonNegative(pool)
    ensures IsSelection(used, |pool|)
    ensures SumAt(pool, used) == wMax <= capacity
    ensures MaxFill(pool, capacity, wMax)
    ensures forall j :: 0 <= j < |used| ==> pool[used[j]] > 0
    ensures used == [] <==> forall i :: 0 <= i < |pool| ==> pool[i] == 0 || pool[i] > capacity
  {
    var dp, prevW, prevIdx := FillTable(pool, capacity);
    wMax := LargestReachable(dp);
    used := Reconstruct(pool, dp, prevW, prevIdx, wMax);
    if used != [] {
      PickedBoundedBySum(pool, used, 0);
    } else {
      forall i | 0 <= i < |pool|
        ensures pool[i] == 0 || pool[i] > capacity
      {
        SingletonSum(pool, i);
      }
    }
  }

  // ---------------------------------------------------------------------
  // Lemmas
  // ---------------------------------------------------------------------

  lemma {:induction false} ReachableNonNegative(items: seq<int>, k: nat, w: int)
    requires k <= |items| && NonNegative(items)
    requires Reachable(items, k, w)
    ensures w >= 0
    decreases k
  {
    if k > 0 {
      if Reachable(items, k - 1, w) {
        ReachableNonNegative(items, k - 1, w);
      } else {
        ReachableNonNegative(items, k - 1, w - items[k - 1]);
      }
    }
  }

  /** Every selection among the first k positions reaches its own sum. */
  lemma {:induction false} SelectionReachable(items: seq<int>, k: nat, sel: seq<int>)
    requires k <= |items| && IsSelection(sel, k)
    ensures InRange(sel, |items|)
    ensures Reachable(items, k, SumAt(items, sel))
    decreases k
  {
    if k == 0 {
      assert |sel| == 0 by {
        if |sel| > 0 {
          assert false;
        }
      }
      assert Picked(items, sel) == [];
    } else if |sel| > 0 && sel[0] == k - 1 {
      SelectionTail(sel, k);
      assert Picked(items, sel) == [items[k - 1]] + Picked(items, sel[1..]);
      SelectionReachable(items, k - 1, sel[1..]);
    } else {
      assert IsSelection(sel, k - 1) by {
        if |sel| > 0 {
          assert forall j :: 0 < j < |sel| ==> sel[j] < sel[0];
        }
      }
      SelectionReachable(items, k - 1, sel);
    }
  }

  /** Every reachable sum is the sum of some selection among the first k positions. */
  lemma {:induction false} ReachableSelection(items: seq<int>, k: nat, w: int) returns (sel: seq<int>)
    requires k <= |items| && Reachable(items, k, w)
    ensures IsSelection(sel, k) && InRange(sel, |items|)
    ensures SumAt(items, sel) == w
    decreases k
  {
    if k == 0 {
      sel := [];
      assert Picked(items, sel) == [];
    } else if Reachable(items, k - 1, w) {
      sel := ReachableSelection(items, k - 1, w);
    } else {
      var rest := ReachableSelection(items, k - 1, w - items[k - 1]);
      sel := [k - 1] + rest;
      assert sel[1..] == rest;
      assert Picked(items, sel) == [items[k - 1]] + Picked(items, rest);
    }
  }

  /** The table's recurrence describes exactly the sums of selections of distinct positions. */
  lemma ReachableIffSelection(items: seq<int>, k: nat, w: int)
    requires k <= |items|
    ensures Reachable(items, k, w) <==> exists sel :: IsSelection(sel, k) && SumAt(items, sel) == w
  {
    if Reachable(items, k, w) {
      var sel := ReachableSelection(items, k, w);
    }
    if exists sel :: IsSelection(sel, k) && SumAt(items, sel) == w {
      var sel :| IsSelection(sel, k) && SumAt(items, sel) == w;
      SelectionReachable(items, k, sel);
    }
  }

  lemma SingletonSum(pool: seq<int>, i: int)
    requires 0 <= i < |pool|
    ensures IsSelection([i], |pool|) && SumAt(pool, [i]) == pool[i]
  {
    assert Picked(pool, [i]) == [pool[i]];
    assert [pool[i]][1..] == [];
    assert Sum([pool[i]]) == pool[i] + Sum([]);
  }
}
