/** Grouping of the cut bars into cutting patterns with counts, the part of
    the grouped cutting instructions that decides what is reported. */
module Patterns {
  import opened Allocator

  /** One distinct (composition, waste) pattern and how many bars share it. */
  datatype PatternCount = PatternCount(pattern: Bar, count: nat)

  function PatternSet(groups: seq<PatternCount>): set<Bar> {
    set g | g in groups :: g.pattern
  }

  /** No pattern has two entries. */
  predicate DistinctPatterns(groups: seq<PatternCount>) {
    forall i, j :: 0 <= i < j < |groups| ==> groups[i].pattern != groups[j].pattern
  }

  /** The count recorded for pattern p over all entries (0 when it has none). */
  function CountOf(groups: seq<PatternCount>, p: Bar): nat {
    if |groups| == 0 then 0
    else (if groups[0].pattern == p then groups[0].count else 0) + CountOf(groups[1..], p)
  }

  function SumCounts(groups: seq<PatternCount>): int {
    if |groups| == 0 then 0 else groups[0].count + SumCounts(groups[1..])
  }

  /** `patterns[key] = patterns.get(key, 0) + 1` on an insertion-ordered
      dictionary: bump the entry for key, or append a new entry counting 1.
      Entries other than key's keep their place and their count. */
  function Tally(groups: seq<PatternCount>, key: Bar): (r: seq<PatternCount>)
    ensures key !in PatternSet(groups) ==> r == groups + [PatternCount(key, 1)]
    ensures key in PatternSet(groups) ==> |r| == |groups|
    ensures forall i :: 0 <= i < |groups| ==> r[i].pattern == groups[i].pattern
    ensures forall i :: 0 <= i < |groups| && groups[i].pattern != key ==> r[i] == groups[i]
    ensures forall i :: 0 <= i < |groups| ==> r[i].count >= groups[i].count
  {
    if |groups| == 0 then [PatternCount(key, 1)]
    else if groups[0].pattern == key then
      [groups[0].(count := groups[0].count + 1)] + groups[1..]
    else
      PatternSetSplit(groups);
      [groups[0]] + Tally(groups[1..], key)
  }

  /** `format_instructions_grouped`'s pattern table: one entry per distinct
      (composition, waste) in order of first appearance, counting the bars
      that share it. */
  function GroupPatterns(bars: seq<Bar>): (groups: seq<PatternCount>)
    ensures DistinctPatterns(groups)
    ensures PatternSet(groups) == set b | b in bars
    ensures forall p :: CountOf(groups, p) == multiset(bars)[p]
    ensures forall i :: 0 <= i < |groups| ==> groups[i].count > 0
    ensures SumCounts(groups) == |bars|
  {
    if |bars| == 0 then []
    else
      var front := bars[..|bars| - 1];
      var last := bars[|bars| - 1];
      assert bars == front + [last];
      var prior := GroupPatterns(front);
      TallyKeepsDistinct(prior, last);
      TallyCounts(prior, last);
      TallySum(prior, last);
      TallyPositive(prior, last);
      Tally(prior, last)
  }

  // ---------------------------------------------------------------------
  // Lemmas
  // ---------------------------------------------------------------------

  lemma PatternSetSplit(groups: seq<PatternCount>)
    requires |groups| > 0
    ensures PatternSet(groups) == {groups[0].pattern} + PatternSet(groups[1..])
  {
    assert groups == [groups[0]] + groups[1..];
  }

  /** A pattern without an entry has count 0. */
  lemma {:induction false} CountOfAbsent(groups: seq<PatternCount>, p: Bar)
    requires p !in PatternSet(groups)
    ensures CountOf(groups, p) == 0
    decreases |groups|
  {
    if |groups| > 0 {
      PatternSetSplit(groups);
      CountOfAbsent(groups[1..], p);
    }
  }

  /** With distinct patterns, the count of an entry's pattern is that entry's count. */
  lemma {:induction false} CountOfEntry(groups: seq<PatternCount>, i: int)
    requires DistinctPatterns(groups) && 0 <= i < |groups|
    ensures CountOf(groups, groups[i].pattern) == groups[i].count
    decreases |groups|
  {
    PatternSetSplit(groups);
    if i == 0 {
      assert groups[0].pattern !in PatternSet(groups[1..]);
      CountOfAbsent(groups[1..], groups[0].pattern);
    } else {
      CountOfEntry(groups[1..], i - 1);
    }
  }

  /** Each group's count is the number of bars cut to exactly that pattern. */
  lemma GroupCountsBars(bars: seq<Bar>, i: int)
    requires 0 <= i < |GroupPatterns(bars)|
    ensures GroupPatterns(bars)[i].count == multiset(bars)[GroupPatterns(bars)[i].pattern]
  {
    CountOfEntry(GroupPatterns(bars), i);
  }

  /** Tallying keeps one entry per pattern and adds key to the patterns seen. */
  lemma TallyKeepsDistinct(groups: seq<PatternCount>, key: Bar)
    requires DistinctPatterns(groups)
    ensures DistinctPatterns(Tally(groups, key))
    ensures PatternSet(Tally(groups, key)) == PatternSet(groups) + {key}
  {
    var r := Tally(groups, key);
    if key in PatternSet(groups) {
      forall q | q in PatternSet(r)
        ensures q in PatternSet(groups)
      {
        var g :| g in r && g.pattern == q;
        var i :| 0 <= i < |r| && r[i] == g;
      }
      forall q | q in PatternSet(groups)
        ensures q in PatternSet(r)
      {
        var g :| g in groups && g.pattern == q;
        var i :| 0 <= i < |groups| && groups[i] == g;
        assert r[i] in r;
      }
    } else {
      forall j | 0 <= j < |groups|
        ensures groups[j].pattern != key
      {
        assert groups[j] in groups;
      }
    }
  }

  /** Tallying adds one to key's count and leaves every other count alone. */
  lemma {:induction false} TallyCounts(groups: seq<PatternCount>, key: Bar)
    ensures forall p :: CountOf(Tally(groups, key), p) == CountOf(groups, p) + (if p == key then 1 else 0)
    decreases |groups|
  {
    if |groups| > 0 && groups[0].pattern != key {
      TallyCounts(groups[1..], key);
      assert Tally(groups, key)[1..] == Tally(groups[1..], key);
    } else if |groups| > 0 {
      assert Tally(groups, key)[1..] == groups[1..];
    } else {
      assert Tally(groups, key)[1..] == [];
    }
  }

  /** Tallying one more bar adds one to the total count. */
  lemma {:induction false} TallySum(groups: seq<PatternCount>, key: Bar)
    ensures SumCounts(Tally(groups, key)) == SumCounts(groups) + 1
    decreases |groups|
  {
    if |groups| > 0 && groups[0].pattern != key {
      TallySum(groups[1..], key);
      assert Tally(groups, key)[1..] == Tally(groups[1..], key);
    } else if |groups| > 0 {
      assert Tally(groups, key)[1..] == groups[1..];
    } else {
      assert Tally(groups, key)[1..] == [];
    }
  }

  /** No tallied entry has a zero count. */
  lemma TallyPositive(groups: seq<PatternCount>, key: Bar)
    requires forall i :: 0 <= i < |groups| ==> groups[i].count > 0
    ensures forall i :: 0 <= i < |Tally(groups, key)| ==> Tally(groups, key)[i].count > 0
  {
  }

  /** Position of the first bar equal to b. */
  function FirstAt(bars: seq<Bar>, b: Bar): (i: nat)
    requires b in bars
    ensures i < |bars| && bars[i] == b
    ensures forall j :: 0 <= j < i ==> bars[j] != b
  {
    if bars[0] == b then 0 else 1 + FirstAt(bars[1..], b)
  }

  /** Every pattern comes from some bar, and the patterns are listed in the
      order their first bars appear. */
  predicate FirstSeenOrder(groups: seq<PatternCount>, bars: seq<Bar>) {
    && (forall i :: 0 <= i < |groups| ==> groups[i].pattern in bars)
    && forall i, j :: 0 <= i < j < |groups| ==>
         FirstAt(bars, groups[i].pattern) < FirstAt(bars, groups[j].pattern)
  }

  /** The pattern table lists patterns in the order their first bars were cut,
      as an insertion-ordered dictionary iterates. */
  lemma {:induction false} GroupOrder(bars: seq<Bar>)
    ensures FirstSeenOrder(GroupPatterns(bars), bars)
    decreases |bars|
  {
    if |bars| > 0 {
      var front := bars[..|bars| - 1];
      var last := bars[|bars| - 1];
      assert bars == front + [last];
      GroupOrder(front);
      TallyOrder(GroupPatterns(front), front, last);
    }
  }

  /** Tallying the next bar keeps the table in first-seen order. */
  lemma TallyOrder(prior: seq<PatternCount>, front: seq<Bar>, last: Bar)
    requires FirstSeenOrder(prior, front)
    requires PatternSet(prior) == set b | b in front
    ensures FirstSeenOrder(Tally(prior, last), front + [last])
  {
    var bars := front + [last];
    var groups := Tally(prior, last);
    forall i | 0 <= i < |prior|
      ensures groups[i].pattern == prior[i].pattern && prior[i].pattern in bars
      ensures FirstAt(bars, prior[i].pattern) == FirstAt(front, prior[i].pattern)
    {
      FirstAtExtend(front, last, prior[i].pattern);
    }
    if last !in PatternSet(prior) {
      assert last !in front;
      FirstAtFresh(front, last);
      assert groups[|prior|].pattern == last;
    }
  }

  /** Appending a bar moves no earlier first appearance. */
  lemma FirstAtExtend(front: seq<Bar>, x: Bar, b: Bar)
    requires b in front
    ensures FirstAt(front + [x], b) == FirstAt(front, b)
  {
    var i := FirstAt(front, b);
    var k := FirstAt(front + [x], b);
    assert (front + [x])[i] == b;
  }

  /** A bar first seen at the end first appears at the end. */
  lemma FirstAtFresh(front: seq<Bar>, x: Bar)
    requires x !in front
    ensures FirstAt(front + [x], x) == |front|
  {
    var k := FirstAt(front + [x], x);
  }

  /** Within one run the waste of a bar follows from its pieces, so the
      (composition, waste) key is decided by the composition alone. */
  lemma CompositionFixesWaste(a: Bar, b: Bar, capacity: int)
    requires Fits(a, capacity) && Fits(b, capacity)
    requires a.composition == b.composition
    ensures a == b
  {
  }
}
