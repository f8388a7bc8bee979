/** The piece pool: expansion of (length, count) pairs into one entry per
    physical piece, the descending sort applied before packing, and sums of
    lengths over sequences and multisets. Lengths are already quantized to
    integers. */
module Pool {

  /** `[x] * n`: n copies of x, and none at all when n is not positive. */
  function Copies(x: int, n: int): (r: seq<int>)
    ensures |r| == Clamp(n)
    ensures forall i :: 0 <= i < |r| ==> r[i] == x
    decreases Clamp(n)
  {
    if n <= 0 then [] else [x] + Copies(x, n - 1)
  }

  /** The number of copies `[x] * n` produces. */
  function Clamp(n: int): nat {
    if n > 0 then n else 0
  }

  /** How many pairs `zip(lengths, counts)` visits: the shorter length. */
  function Width(lengths: seq<int>, counts: seq<int>): nat {
    if |lengths| < |counts| then |lengths| else |counts|
  }

  function Sum(s: seq<int>): int {
    if |s| == 0 then 0 else s[0] + Sum(s[1..])
  }

  /** Total number of pieces requested over all pairs. */
  function Demand(lengths: seq<int>, counts: seq<int>): int {
    Sum(seq(Width(lengths, counts), i requires 0 <= i < Width(lengths, counts) => Clamp(counts[i])))
  }

  /** Number of pieces of length x requested, over every pair naming x. */
  function DemandOf(lengths: seq<int>, counts: seq<int>, x: int): int {
    Sum(seq(Width(lengths, counts),
            i requires 0 <= i < Width(lengths, counts) => if lengths[i] == x then Clamp(counts[i]) else 0))
  }

  /** The pool before sorting: `count` copies of each `length`, pair by pair. */
  function Expand(lengths: seq<int>, counts: seq<int>): seq<int>
    decreases |lengths|
  {
    if |lengths| == 0 || |counts| == 0 then []
    else Copies(lengths[0], counts[0]) + Expand(lengths[1..], counts[1..])
  }

  predicate NonIncreasing(s: seq<int>) {
    forall i, j :: 0 <= i < j < |s| ==> s[i] >= s[j]
  }

  /** Inserts x into a non-increasing sequence, keeping it non-increasing. */
  function Insert(x: int, s: seq<int>): (r: seq<int>)
    requires NonIncreasing(s)
    ensures NonIncreasing(r)
    ensures multiset(r) == multiset(s) + multiset{x}
  {
    if |s| == 0 || x >= s[0] then [x] + s
    else
      var tail := Insert(x, s[1..]);
      assert s == [s[0]] + s[1..];
      assert forall j :: 0 <= j < |tail| ==> tail[j] in multiset(s[1..]) + multiset{x};
      [s[0]] + tail
  }

  /** `items.sort(reverse=True)` on integers. */
  function SortDesc(s: seq<int>): (r: seq<int>)
    ensures NonIncreasing(r)
    ensures multiset(r) == multiset(s)
  {
    if |s| == 0 then []
    else
      assert s == [s[0]] + s[1..];
      Insert(s[0], SortDesc(s[1..]))
  }

  /** Sum over a multiset of lengths, the total length of a bar's composition. */
  ghost function MSum(m: multiset<int>): int
    decreases |m|
  {
    if m == multiset{} then 0
    else
      NonEmptyHasElement(m);
      var x :| x in m; x + MSum(m - multiset{x})
  }

  lemma NonEmptyHasElement(m: multiset<int>)
    requires m != multiset{}
    ensures exists x :: x in m
  {
    if forall x :: x !in m {
      assert false;
    }
  }

  // ---------------------------------------------------------------------
  // Lemmas
  // ---------------------------------------------------------------------

  lemma {:induction false} SumConcat(a: seq<int>, b: seq<int>)
    ensures Sum(a + b) == Sum(a) + Sum(b)
    decreases |a|
  {
    if |a| == 0 {
      assert a + b == b;
    } else {
      assert (a + b)[1..] == a[1..] + b;
      SumConcat(a[1..], b);
    }
  }

  /** Removing the entry at position i takes exactly s[i] off the sum. */
  lemma SumRemoveAt(s: seq<int>, i: int)
    requires 0 <= i < |s|
    ensures Sum(s) == s[i] + Sum(s[..i] + s[i + 1..])
  {
    assert s == s[..i] + ([s[i]] + s[i + 1..]);
    SumConcat(s[..i], [s[i]] + s[i + 1..]);
    SumConcat(s[..i], s[i + 1..]);
  }

  /** A sum of non-negative entries bounds each entry. */
  lemma {:induction false} SumBoundsEntry(s: seq<int>, j: int)
    requires forall i :: 0 <= i < |s| ==> s[i] >= 0
    requires 0 <= j < |s|
    ensures 0 <= s[j] <= Sum(s)
    decreases |s|
  {
    if j > 0 {
      SumBoundsEntry(s[1..], j - 1);
    } else if |s| > 1 {
      SumNonNegative(s[1..]);
    }
  }

  lemma {:induction false} SumNonNegative(s: seq<int>)
    requires forall i :: 0 <= i < |s| ==> s[i] >= 0
    ensures Sum(s) >= 0
    decreases |s|
  {
    if |s| > 0 {
      SumNonNegative(s[1..]);
    }
  }

  /** The multiset sum agrees with the sequence sum in any order of the entries. */
  lemma {:induction false} MSumOfSeq(s: seq<int>)
    ensures MSum(multiset(s)) == Sum(s)
    decreases |s|
  {
    if |s| > 0 {
      var m := multiset(s);
      var x := MSumStep(m);
      var i := IndexOf(s, x);
      var rest := s[..i] + s[i + 1..];
      RemoveAtMultiset(s, i);
      MSumOfSeq(rest);
      SumRemoveAt(s, i);
    }
  }

  /** The length sum of a union of two multisets adds up. */
  lemma MSumUnion(a: multiset<int>, b: multiset<int>)
    ensures MSum(a + b) == MSum(a) + MSum(b)
  {
    var sa := SeqOf(a);
    var sb := SeqOf(b);
    assert multiset(sa + sb) == a + b;
    MSumOfSeq(sa);
    MSumOfSeq(sb);
    MSumOfSeq(sa + sb);
    SumConcat(sa, sb);
  }

  /** Every multiset lists as some sequence. */
  lemma {:induction false} SeqOf(m: multiset<int>) returns (s: seq<int>)
    ensures multiset(s) == m
    decreases |m|
  {
    if m == multiset{} {
      s := [];
    } else {
      NonEmptyHasElement(m);
      var x :| x in m;
      var rest := SeqOf(m - multiset{x});
      s := [x] + rest;
    }
  }

  /** The element MSum peels off a non-empty multiset. */
  lemma MSumStep(m: multiset<int>) returns (x: int)
    requires m != multiset{}
    ensures x in m && MSum(m) == x + MSum(m - multiset{x})
  {
    NonEmptyHasElement(m);
    x :| x in m && MSum(m) == x + MSum(m - multiset{x});
  }

  lemma IndexOf(s: seq<int>, x: int) returns (i: int)
    requires x in multiset(s)
    ensures 0 <= i < |s| && s[i] == x
  {
    i :| 0 <= i < |s| && s[i] == x;
  }

  lemma RemoveAtMultiset(s: seq<int>, i: int)
    requires 0 <= i < |s|
    ensures multiset(s[..i] + s[i + 1..]) == multiset(s) - multiset{s[i]}
  {
    assert s == s[..i] + [s[i]] + s[i + 1..];
  }

  lemma {:induction false} CopiesCount(x: int, n: int, y: int)
    ensures multiset(Copies(x, n))[y] == if y == x then Clamp(n) else 0
    decreases Clamp(n)
  {
    if n > 0 {
      CopiesCount(x, n - 1, y);
    }
  }

  /** The total demand splits into the first pair and the remaining pairs. */
  lemma DemandSplit(lengths: seq<int>, counts: seq<int>)
    requires Width(lengths, counts) > 0
    ensures Demand(lengths, counts) == Clamp(counts[0]) + Demand(lengths[1..], counts[1..])
  {
    var whole := seq(Width(lengths, counts), i requires 0 <= i < Width(lengths, counts) => Clamp(counts[i]));
    var tail := seq(Width(lengths[1..], counts[1..]),
                    i requires 0 <= i < Width(lengths[1..], counts[1..]) => Clamp(counts[1..][i]));
    assert whole[1..] == tail;
  }

  /** The demand for one length splits into the first pair and the remaining pairs. */
  lemma DemandOfSplit(lengths: seq<int>, counts: seq<int>, x: int)
    requires Width(lengths, counts) > 0
    ensures DemandOf(lengths, counts, x)
         == (if lengths[0] == x then Clamp(counts[0]) else 0) + DemandOf(lengths[1..], counts[1..], x)
  {
    var whole := seq(Width(lengths, counts),
                     i requires 0 <= i < Width(lengths, counts) => if lengths[i] == x then Clamp(counts[i]) else 0);
    var tail := seq(Width(lengths[1..], counts[1..]),
                    i requires 0 <= i < Width(lengths[1..], counts[1..]) =>
                      if lengths[1..][i] == x then Clamp(counts[1..][i]) else 0);
    assert whole[1..] == tail;
  }

  /** Expansion yields one entry per requested piece: the pool's size is the
      total count, and each length x occurs exactly as often as the counts of
      the pairs naming x add up to. */
  lemma {:induction false} ExpandCounts(lengths: seq<int>, counts: seq<int>)
    ensures |Expand(lengths, counts)| == Demand(lengths, counts)
    ensures forall x :: multiset(Expand(lengths, counts))[x] == DemandOf(lengths, counts, x)
    decreases |lengths|
  {
    if |lengths| == 0 || |counts| == 0 {
    } else {
      var pool := Expand(lengths, counts);
      ExpandCounts(lengths[1..], counts[1..]);
      DemandSplit(lengths, counts);
      forall x
        ensures multiset(pool)[x] == DemandOf(lengths, counts, x)
      {
        DemandOfSplit(lengths, counts, x);
        CopiesCount(lengths[0], counts[0], x);
      }
    }
  }

  /** Every pooled piece comes from a pair with that length and a positive count. */
  lemma {:induction false} ExpandMembers(lengths: seq<int>, counts: seq<int>, x: int)
    requires x in Expand(lengths, counts)
    ensures exists i :: 0 <= i < Width(lengths, counts) && lengths[i] == x && counts[i] > 0
    decreases |lengths|
  {
    var head := Copies(lengths[0], counts[0]);
    if x in head {
      assert lengths[0] == x && counts[0] > 0;
    } else {
      ExpandMembers(lengths[1..], counts[1..], x);
      var i :| 0 <= i < Width(lengths[1..], counts[1..]) && lengths[1..][i] == x && counts[1..][i] > 0;
      assert lengths[i + 1] == x && counts[i + 1] > 0;
    }
  }

  /** A non-increasing order of a multiset of integers is unique, so any
      descending sort of the pool yields exactly SortDesc's result. */
  lemma {:induction false} SortedUnique(a: seq<int>, b: seq<int>)
    requires NonIncreasing(a) && NonIncreasing(b)
    requires multiset(a) == multiset(b)
    ensures a == b
    decreases |a|
  {
    if |a| == 0 {
      assert |b| == |multiset(b)| == 0;
    } else {
      HeadsAgree(a, b);
      var x := HeadSplit(a);
      var y := HeadSplit(b);
      SortedUnique(a[1..], b[1..]);
    }
  }

  lemma HeadsAgree(a: seq<int>, b: seq<int>)
    requires NonIncreasing(a) && NonIncreasing(b)
    requires multiset(a) == multiset(b) && |a| > 0
    ensures |b| > 0 && a[0] == b[0]
  {
    assert a[0] in multiset(b);
    assert |b| > 0;
    assert b[0] in multiset(a);
    SortedHeadIsMax(a, b[0]);
    SortedHeadIsMax(b, a[0]);
  }

  /** A non-empty non-increasing sequence is its head followed by a non-increasing tail. */
  lemma HeadSplit(s: seq<int>) returns (x: int)
    requires NonIncreasing(s) && |s| > 0
    ensures x == s[0] && x in multiset(s)
    ensures s == [x] + s[1..]
    ensures multiset(s[1..]) == multiset(s) - multiset{x}
    ensures NonIncreasing(s[1..])
  {
    x := s[0];
    assert s == [x] + s[1..];
  }

  /** The head of a non-increasing sequence bounds everything it holds. */
  lemma SortedHeadIsMax(s: seq<int>, x: int)
    requires NonIncreasing(s)
    requires x in multiset(s)
    ensures s[0] >= x
  {
    var i := IndexOf(s, x);
  }

  /** Sorting a sequence that is already non-increasing leaves it unchanged. */
  lemma SortDescOfSorted(s: seq<int>)
    requires NonIncreasing(s)
    ensures SortDesc(s) == s
  {
    SortedUnique(SortDesc(s), s);
  }
}
