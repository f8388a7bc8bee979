/** The allocation driver: expand and sort the requested pieces, then cut
    one maximally filled bar after another from the pool until it is empty. */
module Allocator {
  import opened Pool
  import opened Selection
  import opened SubsetSum

  /** One cut bar: how many pieces of each length it holds (the per-bar
      length-to-count tally) and the length left over. */
  datatype Bar = Bar(composition: multiset<int>, waste: int)

  /** The bar's pieces and its waste make up exactly one capacity, and the
      waste is neither negative nor more than the capacity. */
  ghost predicate Fits(b: Bar, capacity: int) {
    && MSum(b.composition) + b.waste == capacity
    && 0 <= b.waste <= capacity
  }

  /** Bar b was cut from pool `before` at the distinct positions `sel`,
      leaving `after`: those positions make the fullest fill the capacity
      allows, b holds exactly the pieces at them, and `after` is `before`
      with them removed and the rest in their original order. */
  ghost predicate CutWith(before: seq<int>, after: seq<int>, b: Bar, sel: seq<int>, capacity: int) {
    && IsSelection(sel, |before|)
    && after == Without(before, Elems(sel))
    && b.composition == multiset(Picked(before, sel))
    && b.waste == capacity - SumAt(before, sel)
    && MaxFill(before, capacity, SumAt(before, sel))
  }

  /** Every piece requested with a positive count is positive and no longer than a bar. */
  predicate PiecesFit(lengths: seq<int>, counts: seq<int>, capacity: int) {
    forall i :: 0 <= i < Width(lengths, counts) && counts[i] > 0 ==> 0 < lengths[i] <= capacity
  }

  /** All pieces of all bars, as one multiset. */
  function Compositions(bars: seq<Bar>): multiset<int> {
    if |bars| == 0 then multiset{}
    else Compositions(bars[..|bars| - 1]) + bars[|bars| - 1].composition
  }

  /** `total_waste`: the wastes of all bars added up. */
  function TotalWaste(bars: seq<Bar>): int {
    if |bars| == 0 then 0
    else TotalWaste(bars[..|bars| - 1]) + bars[|bars| - 1].waste
  }

  /** One pass of the `while items` loop: pack, pop the chosen positions from
      highest to lowest while tallying their lengths, and record the waste. */
  method CutBar(items: seq<int>, capacity: nat) returns (bar: Bar, rest: seq<int>, used: seq<int>)
    requires NonNegative(items)
    ensures CutWith(items, rest, bar, used, capacity)
    ensures Fits(bar, capacity)
    ensures multiset(rest) + bar.composition == multiset(items)
    ensures NonIncreasing(items) ==> NonIncreasing(rest)
    ensures |rest| == |items| - |used|
    ensures used == [] <==> forall i :: 0 <= i < |items| ==> items[i] == 0 || items[i] > capacity
    ensures used != [] ==> bar.waste < capacity
  {
    var wMax;
    used, wMax := PackBar(items, capacity);
    var order := SortDesc(used);
    SelectionSorted(used, |items|);
    SortDescOfSorted(used);
    var popped := PopAll(items, order);
    PopAllRemovesExactly(items, order);
    rest := popped.0;
    bar := Bar(multiset(popped.1), capacity - wMax);
    MSumOfSeq(popped.1);
    assert IsSelection(used, |items|) && rest == Without(items, Elems(used));
    if used != [] {
      PickedBoundedBySum(items, used, 0);
    }
  }

  /** The bars so far were cut one after another: trace[i] is the pool bar i
      was cut from, picks[i] the positions it took, trace[i + 1] what it left,
      and every such pool was sorted. */
  ghost predicate History(bars: seq<Bar>, trace: seq<seq<int>>, picks: seq<seq<int>>, capacity: int) {
    && |trace| == |bars| + 1 && |picks| == |bars|
    && forall i :: 0 <= i < |bars| ==>
         NonIncreasing(trace[i]) && CutWith(trace[i], trace[i + 1], bars[i], picks[i], capacity)
  }

  /** What holds at the top of every pass of the `while items` loop. */
  ghost predicate Progress(lengths: seq<int>, counts: seq<int>, capacity: int,
                           items: seq<int>, bars: seq<Bar>, totalWaste: int,
                           trace: seq<seq<int>>, picks: seq<seq<int>>)
  {
    && NonIncreasing(items)
    && (forall i :: 0 <= i < |items| ==> 0 < items[i] <= capacity)
    && |bars| + |items| <= |Expand(lengths, counts)|
    && Compositions(bars) + multiset(items) == multiset(Expand(lengths, counts))
    && totalWaste == TotalWaste(bars)
    && (forall b :: b in bars ==> Fits(b, capacity) && b.waste < capacity)
    && History(bars, trace, picks, capacity)
    && trace[0] == SortDesc(Expand(lengths, counts)) && trace[|bars|] == items
  }

  /** `allocate_bars` on quantized lengths: returns the number of bars, the
      bars and the total waste. The ghost trace lists the pool before each bar
      and the empty pool at the end; picks lists the positions each bar took. */
  method Allocate(lengths: seq<int>, counts: seq<int>, capacity: nat)
    returns (barsUsed: nat, bars: seq<Bar>, totalWaste: int,
             ghost trace: seq<seq<int>>, ghost picks: seq<seq<int>>)
    requires PiecesFit(lengths, counts, capacity)
    ensures barsUsed == |bars| <= |Expand(lengths, counts)|
    ensures Compositions(bars) == multiset(Expand(lengths, counts))
    ensures forall b :: b in bars ==> Fits(b, capacity) && b.waste < capacity
    ensures totalWaste == TotalWaste(bars)
    ensures totalWaste + Sum(Expand(lengths, counts)) == barsUsed * capacity
    ensures History(bars, trace, picks, capacity)
    ensures trace[0] == SortDesc(Expand(lengths, counts)) && trace[|bars|] == []
  {
    var items := SortDesc(Expand(lengths, counts));
    bars := [];
    totalWaste := 0;
    trace := [items];
    picks := [];
    InitialProgress(lengths, counts, capacity);
    while |items| > 0
      invariant Progress(lengths, counts, capacity, items, bars, totalWaste, trace, picks)
      decreases |items|
    {
      items, bars, totalWaste, trace, picks :=
        NextBar(lengths, counts, capacity, items, bars, totalWaste, trace, picks);
    }
    barsUsed := |bars|;
    WasteAccounts(bars, capacity);
    MSumOfSeq(Expand(lengths, counts));
  }

  /** The body of the `while items` loop: cuts one bar and accounts for it. */
  method NextBar(ghost lengths: seq<int>, ghost counts: seq<int>, capacity: nat,
                 items: seq<int>, bars: seq<Bar>, totalWaste: int,
                 ghost trace: seq<seq<int>>, ghost picks: seq<seq<int>>)
    returns (items': seq<int>, bars': seq<Bar>, totalWaste': int,
             ghost trace': seq<seq<int>>, ghost picks': seq<seq<int>>)
    requires |items| > 0
    requires Progress(lengths, counts, capacity, items, bars, totalWaste, trace, picks)
    ensures |items'| < |items| && |bars'| == |bars| + 1
    ensures Progress(lengths, counts, capacity, items', bars', totalWaste', trace', picks')
  {
    var bar, rest, used := CutBar(items, capacity);
    StepKeepsProgress(lengths, counts, capacity, items, bars, totalWaste, trace, picks, bar, rest, used);
    items', bars', totalWaste' := rest, bars + [bar], totalWaste + bar.waste;
    trace', picks' := trace + [rest], picks + [used];
  }

  lemma InitialProgress(lengths: seq<int>, counts: seq<int>, capacity: int)
    requires PiecesFit(lengths, counts, capacity)
    ensures Progress(lengths, counts, capacity, SortDesc(Expand(lengths, counts)), [], 0,
                     [SortDesc(Expand(lengths, counts))], [])
  {
    var pool := SortDesc(Expand(lengths, counts));
    assert |pool| == |multiset(pool)| == |Expand(lengths, counts)|;
    PoolFits(lengths, counts, capacity);
  }

  /** A pass that cuts `bar` from a non-empty pool, leaving `rest`, keeps the
      loop's facts and shrinks the pool. */
  lemma StepKeepsProgress(lengths: seq<int>, counts: seq<int>, capacity: int,
                          items: seq<int>, bars: seq<Bar>, totalWaste: int,
                          trace: seq<seq<int>>, picks: seq<seq<int>>,
                          bar: Bar, rest: seq<int>, used: seq<int>)
    requires Progress(lengths, counts, capacity, items, bars, totalWaste, trace, picks)
    requires |items| > 0
    requires CutWith(items, rest, bar, used, capacity)
    requires Fits(bar, capacity)
    requires multiset(rest) + bar.composition == multiset(items)
    requires NonIncreasing(rest)
    requires |rest| == |items| - |used|
    requires used == [] <==> forall i :: 0 <= i < |items| ==> items[i] == 0 || items[i] > capacity
    requires used != [] ==> bar.waste < capacity
    ensures |rest| < |items|
    ensures Progress(lengths, counts, capacity, rest, bars + [bar], totalWaste + bar.waste,
                     trace + [rest], picks + [used])
  {
    assert 0 < items[0] <= capacity;
    RestFits(items, rest, bar.composition, capacity);
    HistoryExtend(bars, trace, picks, bar, rest, used, capacity);
    AppendBar(bars, bar);
  }

  // ---------------------------------------------------------------------
  // Lemmas
  // ---------------------------------------------------------------------

  /** A selection is already in descending order, so `sorted(used_idx, reverse=True)` keeps it. */
  lemma SelectionSorted(sel: seq<int>, n: int)
    requires IsSelection(sel, n)
    ensures NonIncreasing(sel)
  {
  }

  /** Every piece of the sorted pool fits a bar when every requested piece does. */
  lemma PoolFits(lengths: seq<int>, counts: seq<int>, capacity: int)
    requires PiecesFit(lengths, counts, capacity)
    ensures forall i :: 0 <= i < |SortDesc(Expand(lengths, counts))| ==> 0 < SortDesc(Expand(lengths, counts))[i] <= capacity
  {
    var items := SortDesc(Expand(lengths, counts));
    forall i | 0 <= i < |items|
      ensures 0 < items[i] <= capacity
    {
      assert items[i] in multiset(Expand(lengths, counts));
      ExpandMembers(lengths, counts, items[i]);
    }
  }

  lemma RestFits(items: seq<int>, rest: seq<int>, cut: multiset<int>, capacity: int)
    requires multiset(rest) + cut == multiset(items)
    requires forall i :: 0 <= i < |items| ==> 0 < items[i] <= capacity
    ensures forall i :: 0 <= i < |rest| ==> 0 < rest[i] <= capacity
  {
    forall i | 0 <= i < |rest|
      ensures 0 < rest[i] <= capacity
    {
      assert rest[i] in multiset(items);
    }
  }

  lemma HistoryExtend(bars: seq<Bar>, trace: seq<seq<int>>, picks: seq<seq<int>>,
                      bar: Bar, rest: seq<int>, used: seq<int>, capacity: int)
    requires History(bars, trace, picks, capacity)
    requires NonIncreasing(trace[|bars|]) && CutWith(trace[|bars|], rest, bar, used, capacity)
    ensures History(bars + [bar], trace + [rest], picks + [used], capacity)
  {
  }

  lemma AppendBar(bars: seq<Bar>, bar: Bar)
    ensures Compositions(bars + [bar]) == Compositions(bars) + bar.composition
    ensures TotalWaste(bars + [bar]) == TotalWaste(bars) + bar.waste
  {
    assert (bars + [bar])[..|bars|] == bars;
  }

  /** Bars that each fit account for every unit of length: the total waste
      and the total length of all pieces make up one capacity per bar. */
  lemma {:induction false} WasteAccounts(bars: seq<Bar>, capacity: int)
    requires forall b :: b in bars ==> Fits(b, capacity)
    ensures TotalWaste(bars) + MSum(Compositions(bars)) == |bars| * capacity
    decreases |bars|
  {
    if |bars| > 0 {
      var front := bars[..|bars| - 1];
      var last := bars[|bars| - 1];
      assert Fits(last, capacity) by {
        assert last in bars;
      }
      assert forall b :: b in front ==> b in bars;
      WasteAccounts(front, capacity);
      MSumUnion(Compositions(front), last.composition);
      MulStep(|front|, capacity);
    }
  }

  lemma MulStep(n: int, c: int)
    ensures (n + 1) * c == n * c + c
  {
  }

  /** A pool whose pieces are all longer than a bar admits no cut: the pass
      leaves the pool as it was and records an empty bar wasting the whole
      capacity, so `while items` repeats the same pass without end. */
  lemma OversizedStalls(items: seq<int>, rest: seq<int>, bar: Bar, sel: seq<int>, capacity: int)
    requires 0 <= capacity
    requires forall i :: 0 <= i < |items| ==> items[i] > capacity
    requires CutWith(items, rest, bar, sel, capacity) && Fits(bar, capacity)
    ensures sel == [] && rest == items && bar.composition == multiset{} && bar.waste == capacity
  {
    if |sel| > 0 {
      PickedBoundedBySum(items, sel, 0);
      assert false;
    }
    assert Elems(sel) == {};
    WithoutNothing(items);
    assert Picked(items, sel) == [];
  }
}
