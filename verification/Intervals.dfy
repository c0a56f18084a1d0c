/** Interval unions in the trace tools.

    Three programs sweep sorted intervals in three different ways; the reference
    is the finite set of integer instants [start, end) covers.
 */
module Intervals {
  import opened Common
  import opened Sorting

  datatype Interval = Interval(start: int, end: int)

  /** Python's tuple order. */
  predicate Le(a: Interval, b: Interval) {
    a.start < b.start || (a.start == b.start && a.end <= b.end)
  }

  /** No interval is inverted. */
  ghost predicate Valid(iv: seq<Interval>) {
    forall i :: 0 <= i < |iv| ==> iv[i].start <= iv[i].end
  }

  // ---- the reference: covered instants ------------------------------------------

  function Span(start: int, end: int): (r: set<int>)
    ensures forall x :: x in r <==> start <= x < end
    ensures |r| == Max(0, end - start)
    decreases end - start
  {
    if start >= end then {} else Span(start, end - 1) + {end - 1}
  }

  function Points(iv: seq<Interval>): set<int> {
    if iv == [] then {} else Span(iv[0].start, iv[0].end) + Points(iv[1..])
  }

  lemma {:induction false} PointsMember(iv: seq<Interval>, x: int)
    ensures x in Points(iv) <==> exists i :: 0 <= i < |iv| && iv[i].start <= x < iv[i].end
  {
    if iv != [] {
      PointsMember(iv[1..], x);
      if i :| 0 <= i < |iv| && iv[i].start <= x < iv[i].end {
        assert i > 0 ==> iv[1..][i - 1] == iv[i];
      }
    }
  }

  lemma {:induction false} PointsConcat(a: seq<Interval>, b: seq<Interval>)
    ensures Points(a + b) == Points(a) + Points(b)
  {
    if a == [] {
      assert a + b == b;
    } else {
      assert (a + b)[1..] == a[1..] + b;
      PointsConcat(a[1..], b);
    }
  }

  lemma PointsSnoc(s: seq<Interval>, i: nat)
    requires i < |s|
    ensures Points(s[..i + 1]) == Points(s[..i]) + Span(s[i].start, s[i].end)
  {
    assert s[..i + 1] == s[..i] + [s[i]];
    PointsConcat(s[..i], [s[i]]);
    assert Points([s[i]]) == Span(s[i].start, s[i].end) + Points([s[i]][1..]);
  }

  lemma PointsLast(s: seq<Interval>)
    requires s != []
    ensures Points(s) == Points(s[..|s| - 1]) + Span(s[|s| - 1].start, s[|s| - 1].end)
  {
    PointsSnoc(s, |s| - 1);
    assert s[..|s| - 1 + 1] == s;
  }

  lemma PointsPermute(a: seq<Interval>, b: seq<Interval>)
    requires multiset(a) == multiset(b)
    ensures Points(a) == Points(b)
  {
    forall x ensures x in Points(a) <==> x in Points(b) {
      PointsMember(a, x);
      PointsMember(b, x);
      if i :| 0 <= i < |a| && a[i].start <= x < a[i].end {
        assert a[i] in multiset(b);
      }
      if j :| 0 <= j < |b| && b[j].start <= x < b[j].end {
        assert b[j] in multiset(a);
      }
    }
  }

  lemma LeTotal()
    ensures TotalOrder(Le)
  {
  }

  /** What the sweeps may use about their sorted input. */
  lemma SortedInput(iv: seq<Interval>)
    ensures var s := Sort(iv, Le);
            && |s| == |iv| && Points(s) == Points(iv)
            && (forall i, j :: 0 <= i < j < |s| ==> s[i].start <= s[j].start)
            && (Valid(iv) ==> Valid(s))
  {
    var s := Sort(iv, Le);
    LeTotal();
    SortSorts(iv, Le);
    SortMultiset(iv, Le);
    PointsPermute(s, iv);
    if Valid(iv) {
      forall i | 0 <= i < |s| ensures s[i].start <= s[i].end {
        assert s[i] in multiset(iv);
      }
    }
  }

  // ---- analyze_resource_overlap.py: a running end -----------------------------------

  /** p is what has been swept: it ends at `end`, solidly from `from` on. */
  ghost predicate Running(p: set<int>, hasEnd: bool, end: int, from: int) {
    if hasEnd then Span(from, end) <= p && forall x :: x in p ==> x < end else p == {}
  }

  /** Adding [begin, finish) to a set that is solid on [from, end) and ends there. */
  lemma ExtendSolid(p: set<int>, from: int, end: int, begin: int, finish: int)
    requires Span(from, end) <= p && (forall x :: x in p ==> x < end) && from <= begin < finish
    ensures |p + Span(begin, finish)| == |p| + Max(0, finish - Max(begin, end))
  {
    var added := Span(Max(begin, end), finish);
    forall x | x in Span(begin, finish) ensures x in p + added {
      if x < end {
        assert x in Span(from, end);
      }
    }
    assert p + Span(begin, finish) == p + added;
    assert p !! added;
  }

  lemma RunningStep(p: set<int>, hasEnd: bool, end: int, from: int, begin: int, finish: int)
    requires Running(p, hasEnd, end, from) && begin < finish && (hasEnd ==> from <= begin)
    ensures |p + Span(begin, finish)| == |p| + Max(0, finish - Max(begin, if hasEnd then end else begin))
  {
    if hasEnd {
      ExtendSolid(p, from, end, begin, finish);
    } else {
      assert p + Span(begin, finish) == Span(begin, finish);
    }
  }

  lemma RunningOn(p: set<int>, hasEnd: bool, end: int, from: int, begin: int, finish: int)
    requires Running(p, hasEnd, end, from) && begin < finish && (hasEnd ==> from <= begin)
    ensures !hasEnd || finish >= end ==> Running(p + Span(begin, finish), true, finish, begin)
    ensures hasEnd && finish < end ==> Running(p + Span(begin, finish), true, end, from)
  {
  }

  datatype RunningState = RunningState(hasEnd: bool, end: int, total: int)

  function RunningNext(st: RunningState, x: Interval): RunningState {
    if x.end > x.start then
      RunningState(true, Max(x.end, if st.hasEnd then st.end else x.end),
                   st.total + Max(0, x.end - Max(x.start, if st.hasEnd then st.end else x.start)))
    else st
  }

  function RunningSweep(s: seq<Interval>): RunningState {
    if s == [] then RunningState(false, 0, 0) else RunningNext(RunningSweep(s[..|s| - 1]), s[|s| - 1])
  }

  /** The running end counts every covered instant once. */
  lemma {:induction false} RunningSweepMeasures(s: seq<Interval>) returns (from: int)
    requires forall j, k :: 0 <= j < k < |s| ==> s[j].start <= s[k].start
    ensures RunningSweep(s).total == |Points(s)|
    ensures Running(Points(s), RunningSweep(s).hasEnd, RunningSweep(s).end, from)
    ensures RunningSweep(s).hasEnd ==> s != [] && from <= s[|s| - 1].start
  {
    from := 0;
    if s != [] {
      var init, x := s[..|s| - 1], s[|s| - 1];
      from := RunningSweepMeasures(init);
      var st := RunningSweep(init);
      PointsLast(s);
      from := RunningNextMeasures(Points(init), st, from, x);
    }
  }

  lemma RunningNextMeasures(p: set<int>, st: RunningState, from: int, x: Interval) returns (from': int)
    requires st.total == |p| && Running(p, st.hasEnd, st.end, from) && (st.hasEnd ==> from <= x.start)
    ensures var q, t := p + Span(x.start, x.end), RunningNext(st, x);
            && t.total == |q| && Running(q, t.hasEnd, t.end, from') && (t.hasEnd ==> from' <= x.start)
  {
    from' := from;
    if x.end > x.start {
      RunningStep(p, st.hasEnd, st.end, from, x.start, x.end);
      RunningOn(p, st.hasEnd, st.end, from, x.start, x.end);
      from' := if !st.hasEnd || x.end >= st.end then x.start else from;
    } else {
      assert p + Span(x.start, x.end) == p;
    }
  }

  lemma RunningSweepSnoc(s: seq<Interval>, i: nat)
    requires i < |s|
    ensures RunningSweep(s[..i + 1]) == RunningNext(RunningSweep(s[..i]), s[i])
  {
    assert s[..i + 1][..i] == s[..i];
  }

  /** Total covered length, inverted and empty intervals ignored, for any input order. */
  method UnionNs(intervals: seq<Interval>) returns (total: int)
    ensures total == |Points(intervals)|
  {
    var s := Sort(intervals, Le);
    var hasEnd, end := false, 0;
    total := 0;
    var i := 0;
    assert RunningState(hasEnd, end, total) == RunningSweep(s[..0]);
    hide RunningSweep;
    hide Points;
    hide Sort;
    while i < |s|
      invariant 0 <= i <= |s|
      invariant RunningState(hasEnd, end, total) == RunningSweep(s[..i])
    {
      RunningSweepSnoc(s, i);
      var begin, finish := s[i].start, s[i].end;
      if finish > begin {
        total := total + Max(0, finish - Max(begin, if hasEnd then end else begin));
        end := Max(finish, if hasEnd then end else finish);
        hasEnd := true;
      }
      i := i + 1;
    }
    assert s[..i] == s;
    SortedInput(intervals);
    ghost var from := RunningSweepMeasures(s);
  }

  // ---- beat_torch/analyze.py: a current block ------------------------------------------

  lemma JoinSpans(s0: int, e0: int, s1: int, e1: int)
    requires s0 <= s1 <= e0
    ensures Span(s0, e0) + Span(s1, e1) == Span(s0, Max(e0, e1))
  {
  }

  datatype BlockState = BlockState(hasCurrent: bool, start: int, end: int, total: int)

  function BlockNext(st: BlockState, x: Interval): BlockState {
    if !st.hasCurrent || x.start > st.end then
      BlockState(true, x.start, x.end, st.total + if st.hasCurrent then st.end - st.start else 0)
    else BlockState(true, st.start, Max(st.end, x.end), st.total)
  }

  function BlockSweep(s: seq<Interval>): BlockState {
    if s == [] then BlockState(false, 0, 0, 0) else BlockNext(BlockSweep(s[..|s| - 1]), s[|s| - 1])
  }

  /** What the sweep returns from state st. */
  function BlockTotal(st: BlockState): int {
    st.total + if st.hasCurrent then st.end - st.start else 0
  }

  /** x starts beyond everything before it, so it opens a block. */
  predicate Opens(before: seq<Interval>, x: Interval) {
    forall i :: 0 <= i < |before| ==> before[i].end < x.start
  }

  /** What inverted intervals that open a block take away. */
  function Deficit(s: seq<Interval>): int {
    if s == [] then 0 else
      var init, x := s[..|s| - 1], s[|s| - 1];
      Deficit(init) + if Opens(init, x) && x.end < x.start then x.end - x.start else 0
  }

  /** The state's end is the last end that matters: every other lies before the block. */
  ghost predicate Ends(s: seq<Interval>, st: BlockState) {
    && st.hasCurrent == (s != [])
    && (st.hasCurrent ==>
          && st.start <= s[|s| - 1].start
          && (forall i :: 0 <= i < |s| ==> s[i].end <= st.end || s[i].end < st.start)
          && (exists i :: 0 <= i < |s| && s[i].end == st.end))
  }

  /** The current block is covered and nothing lies beyond it. */
  ghost predicate Solid(p: set<int>, st: BlockState) {
    st.hasCurrent && st.start <= st.end ==> Span(st.start, st.end) <= p && forall q :: q in p ==> q < st.end
  }

  lemma BlockOpens(s: seq<Interval>, st: BlockState, x: Interval)
    requires Ends(s, st) && (s != [] ==> s[|s| - 1].start <= x.start)
    ensures (!st.hasCurrent || x.start > st.end) == Opens(s, x)
  {
  }

  lemma EndsNext(s: seq<Interval>, st: BlockState, x: Interval)
    requires Ends(s, st) && (s != [] ==> s[|s| - 1].start <= x.start)
    ensures Ends(s + [x], BlockNext(st, x))
  {
    var t := s + [x];
    if st.hasCurrent && x.start <= st.end && x.end < st.end {
      var i :| 0 <= i < |s| && s[i].end == st.end;
      assert t[i].end == st.end;
    } else {
      assert t[|s|].end == x.end;
    }
  }

  /** Opening a block adds all of x. */
  lemma OpeningAdds(s: seq<Interval>, x: Interval)
    requires Opens(s, x)
    ensures |Points(s) + Span(x.start, x.end)| == |Points(s)| + Max(0, x.end - x.start)
    ensures forall p :: p in Points(s) ==> p < x.start
  {
    forall p | p in Points(s) ensures p < x.start {
      PointsMember(s, p);
    }
    assert Points(s) !! Span(x.start, x.end);
  }

  /** Joining the current block adds what lies beyond its end. */
  lemma JoiningAdds(p: set<int>, start: int, end: int, x: Interval)
    requires start <= x.start <= end
    requires Span(start, end) <= p && forall q :: q in p ==> q < end
    ensures |p + Span(x.start, x.end)| == |p| + Max(0, x.end - end)
    ensures Span(start, Max(end, x.end)) <= p + Span(x.start, x.end)
    ensures forall q :: q in p + Span(x.start, x.end) ==> q < Max(end, x.end)
  {
    if x.start < x.end {
      ExtendSolid(p, start, end, x.start, x.end);
      JoinSpans(start, end, x.start, x.end);
    } else {
      assert p + Span(x.start, x.end) == p;
    }
  }

  /** One interval: what it adds to the covered instants and to the sweep's total. */
  lemma SweepNext(s: seq<Interval>, st: BlockState, x: Interval)
    requires Ends(s, st) && Solid(Points(s), st) && (s != [] ==> s[|s| - 1].start <= x.start)
    ensures var p := Points(s) + Span(x.start, x.end);
            && Solid(p, BlockNext(st, x))
            && BlockTotal(BlockNext(st, x)) - BlockTotal(st)
               == |p| - |Points(s)| + if Opens(s, x) && x.end < x.start then x.end - x.start else 0
  {
    BlockOpens(s, st, x);
    if Opens(s, x) {
      OpeningAdds(s, x);
      hide *;
      SweepOpens(Points(s), st, x);
    } else {
      hide Points;
      hide Span;
      hide Opens;
      hide Max;
      JoiningAdds(Points(s), st.start, st.end, x);
    }
  }

  lemma SweepOpens(p: set<int>, st: BlockState, x: Interval)
    requires !st.hasCurrent || x.start > st.end
    requires forall q :: q in p ==> q < x.start
    ensures Solid(p + Span(x.start, x.end), BlockNext(st, x))
    ensures BlockTotal(BlockNext(st, x)) - BlockTotal(st) == x.end - x.start
  {
  }

  lemma SweepUnfold(s: seq<Interval>)
    ensures s == [] ==> Ends(s, BlockSweep(s)) && Solid(Points(s), BlockSweep(s))
    ensures s == [] ==> BlockTotal(BlockSweep(s)) == |Points(s)| + Deficit(s)
    ensures s != [] ==>
              var init, x := s[..|s| - 1], s[|s| - 1];
              && BlockSweep(s) == BlockNext(BlockSweep(init), x)
              && Deficit(s) == Deficit(init) + if Opens(init, x) && x.end < x.start then x.end - x.start else 0
  {
  }

  /** The sweep counts every covered instant once, and then subtracts the inverted blocks. */
  lemma {:induction false} BlockSweepMeasures(s: seq<Interval>)
    requires forall j, k :: 0 <= j < k < |s| ==> s[j].start <= s[k].start
    ensures Ends(s, BlockSweep(s)) && Solid(Points(s), BlockSweep(s))
    ensures BlockTotal(BlockSweep(s)) == |Points(s)| + Deficit(s)
  {
    hide *;
    SweepUnfold(s);
    if s != [] {
      var init, x := s[..|s| - 1], s[|s| - 1];
      assert init != [] ==> init[|init| - 1].start <= x.start;
      BlockSweepMeasures(init);
      assert s == init + [x];
      PointsLast(s);
      SweepNext(init, BlockSweep(init), x);
      EndsNext(init, BlockSweep(init), x);
    }
  }

  /** No inverted interval opens a block. */
  ghost predicate NoInvertedBlock(s: seq<Interval>) {
    forall i :: 0 <= i < |s| && s[i].end < s[i].start ==> !Opens(s[..i], s[i])
  }

  lemma {:induction false} DeficitSign(s: seq<Interval>)
    ensures Deficit(s) <= 0 && (Deficit(s) == 0 <==> NoInvertedBlock(s))
  {
    if s != [] {
      var init := s[..|s| - 1];
      DeficitSign(init);
      assert forall i :: 0 <= i < |init| ==> init[i] == s[i] && init[..i] == s[..i];
    }
  }

  /** What the sweep returns, compared with the covered instants. */
  lemma BlockSweepTotal(s: seq<Interval>)
    requires forall j, k :: 0 <= j < k < |s| ==> s[j].start <= s[k].start
    ensures BlockTotal(BlockSweep(s)) <= |Points(s)|
    ensures BlockTotal(BlockSweep(s)) == |Points(s)| <==> NoInvertedBlock(s)
    ensures Valid(s) ==> BlockTotal(BlockSweep(s)) == |Points(s)|
  {
    assert Valid(s) ==> NoInvertedBlock(s);
    BlockSweepMeasures(s);
    DeficitSign(s);
  }

  lemma BlockSweepSnoc(s: seq<Interval>, i: nat)
    requires i < |s|
    ensures BlockSweep(s[..i + 1]) == BlockNext(BlockSweep(s[..i]), s[i])
  {
    assert s[..i + 1][..i] == s[..i];
  }

  /** Total length of the union of [start, end) intervals: never more than the covered
      instants, and equal to them exactly when no inverted interval opens a block. */
  method BlockUnion(intervals: seq<Interval>) returns (total: int)
    ensures total <= |Points(intervals)|
    ensures total == |Points(intervals)| <==> NoInvertedBlock(Sort(intervals, Le))
    ensures Valid(intervals) ==> total == |Points(intervals)|
  {
    var s := Sort(intervals, Le);
    total := 0;
    var hasCurrent, start, end := false, 0, 0;
    var i := 0;
    assert BlockState(hasCurrent, start, end, total) == BlockSweep(s[..0]);
    hide BlockSweep;
    hide NoInvertedBlock;
    hide Points;
    hide Valid;
    hide Sort;
    while i < |s|
      invariant 0 <= i <= |s|
      invariant BlockState(hasCurrent, start, end, total) == BlockSweep(s[..i])
    {
      BlockSweepSnoc(s, i);
      if !hasCurrent || s[i].start > end {
        if hasCurrent {
          total := total + (end - start);
        }
        hasCurrent, start, end := true, s[i].start, s[i].end;
      } else {
        end := Max(end, s[i].end);
      }
      i := i + 1;
    }
    assert s[..i] == s;
    SortedInput(intervals);
    BlockSweepTotal(s);
    if hasCurrent {
      total := total + (end - start);
    }
  }

  /** A single inverted interval covers nothing and has negative length. */
  lemma InvertedBlockIsNegative(x: Interval)
    requires x.end < x.start
    ensures Points([x]) == {} && !NoInvertedBlock(Sort([x], Le))
    ensures BlockTotal(BlockSweep(Sort([x], Le))) == x.end - x.start
  {
    PointsOfOne(x);
    assert Sort([x], Le) == [x] by { assert [x][1..] == []; }
    assert [x][..0] == [] && Opens([x][..0], [x][0]);
    assert BlockSweep([x][..0]) == BlockState(false, 0, 0, 0);
    assert BlockSweep([x]) == BlockState(true, x.start, x.end, 0);
  }

  // ---- issue221/analyze_trace.py: disjoint blocks -----------------------------------------

  function MergeStep(blocks: seq<Interval>, x: Interval): seq<Interval> {
    if blocks != [] && x.start <= blocks[|blocks| - 1].end then
      var last := blocks[|blocks| - 1];
      blocks[..|blocks| - 1] + [Interval(last.start, Max(last.end, x.end))]
    else blocks + [x]
  }

  function MergeSorted(s: seq<Interval>): seq<Interval> {
    if s == [] then [] else MergeStep(MergeSorted(s[..|s| - 1]), s[|s| - 1])
  }

  /** union(intervals): the merged blocks. */
  function Blocks(intervals: seq<Interval>): seq<Interval> {
    MergeSorted(Sort(intervals, Le))
  }

  lemma MergeSnoc(s: seq<Interval>, i: nat)
    requires i < |s|
    ensures MergeSorted(s[..i + 1]) == MergeStep(MergeSorted(s[..i]), s[i])
  {
    assert s[..i + 1][..i] == s[..i];
  }

  lemma UpdateLast(blocks: seq<Interval>, x: Interval)
    requires blocks != []
    ensures blocks[|blocks| - 1 := x] == blocks[..|blocks| - 1] + [x]
  {
  }

  method Union(intervals: seq<Interval>) returns (result: seq<Interval>)
    ensures result == Blocks(intervals)
  {
    var s := Sort(intervals, Le);
    result := [];
    var i := 0;
    while i < |s|
      invariant 0 <= i <= |s|
      invariant result == MergeSorted(s[..i])
    {
      MergeSnoc(s, i);
      var n := |result|;
      if n > 0 && s[i].start <= result[n - 1].end {
        var joined := Interval(result[n - 1].start, Max(result[n - 1].end, s[i].end));
        UpdateLast(result, joined);
        result := result[n - 1 := joined];
      } else {
        result := result + [s[i]];
      }
      i := i + 1;
    }
    assert s[..i] == s;
  }

  /** Sorted, and a gap between any two. */
  ghost predicate Separated(blocks: seq<Interval>) {
    Sorted(blocks, Le) && forall i, j :: 0 <= i < j < |blocks| ==> blocks[i].end < blocks[j].start
  }

  /** The last block starts no later than x, and with equal starts ends no later. */
  ghost predicate Follows(blocks: seq<Interval>, x: Interval) {
    blocks != [] ==> Le(blocks[|blocks| - 1], x)
  }

  lemma MergeStepSeparated(r: seq<Interval>, x: Interval, y: Interval)
    requires Separated(r) && Follows(r, x) && Le(x, y)
    ensures var t := MergeStep(r, x); t != [] && Separated(t) && Follows(t, y)
  {
    var t := MergeStep(r, x);
    forall i, j | 0 <= i < j < |t| ensures Le(t[i], t[j]) && t[i].end < t[j].start {
      if j < |r| {
        assert Le(r[i], r[j]) && r[i].end < r[j].start;
      } else {
        assert i < |r| - 1 ==> Le(r[i], r[|r| - 1]) && r[i].end < r[|r| - 1].start;
      }
    }
  }

  lemma JoinedPoints(init: seq<Interval>, last: Interval, x: Interval)
    requires last.start <= x.start <= last.end
    ensures Points(init + [Interval(last.start, Max(last.end, x.end))])
         == Points(init + [last]) + Span(x.start, x.end)
  {
    var joined := Interval(last.start, Max(last.end, x.end));
    PointsOfOne(last);
    PointsOfOne(joined);
    PointsConcat(init, [last]);
    PointsConcat(init, [joined]);
    JoinSpans(last.start, last.end, x.start, x.end);
  }

  lemma MergeStepPoints(r: seq<Interval>, x: Interval)
    requires r != [] ==> r[|r| - 1].start <= x.start
    ensures Points(MergeStep(r, x)) == Points(r) + Span(x.start, x.end)
  {
    hide Points;
    hide Span;
    if r != [] && x.start <= r[|r| - 1].end {
      var init, last := r[..|r| - 1], r[|r| - 1];
      assert r == init + [last];
      assert MergeStep(r, x) == init + [Interval(last.start, Max(last.end, x.end))];
      JoinedPoints(init, last, x);
    } else {
      PointsOfOne(x);
      PointsConcat(r, [x]);
    }
  }

  lemma PointsOfOne(x: Interval)
    ensures Points([x]) == Span(x.start, x.end)
  {
    assert [x][1..] == [] && Points([]) == {};
  }

  lemma {:induction false} MergeSortedIsSeparated(s: seq<Interval>, y: Interval)
    requires Sorted(s, Le) && (s != [] ==> Le(s[|s| - 1], y))
    ensures Separated(MergeSorted(s)) && Points(MergeSorted(s)) == Points(s) && Follows(MergeSorted(s), y)
  {
    if s != [] {
      var init, x := s[..|s| - 1], s[|s| - 1];
      assert init != [] ==> Le(init[|init| - 1], x);
      var r := MergeSorted(init);
      assert MergeSorted(s) == MergeStep(r, x);
      assert Le(x, y) && Sorted(init, Le);
      assert Follows(r, x) && r != [] ==> r[|r| - 1].start <= x.start;
      hide *;
      MergeSortedIsSeparated(init, x);
      MergeStepSeparated(r, x, y);
      MergeStepPoints(r, x);
      PointsLast(s);
    }
  }

  /** Blocks are sorted and strictly separated and cover exactly the input's instants. */
  lemma BlocksCover(iv: seq<Interval>)
    ensures Separated(Blocks(iv)) && Points(Blocks(iv)) == Points(iv)
  {
    var s := Sort(iv, Le);
    LeTotal();
    SortSorts(iv, Le);
    SortMultiset(iv, Le);
    PointsPermute(s, iv);
    hide Points;
    hide Sort;
    MergeSortedIsSeparated(s, if s == [] then Interval(0, 0) else s[|s| - 1]);
  }

  /** Merging leaves no inverted block unless one was there. */
  lemma BlocksValid(iv: seq<Interval>)
    requires Valid(iv)
    ensures Valid(Blocks(iv))
  {
    SortedInput(iv);
    MergeKeepsValid(Sort(iv, Le));
  }

  lemma {:induction false} MergeKeepsValid(s: seq<Interval>)
    requires Valid(s)
    ensures Valid(MergeSorted(s))
  {
    if s != [] {
      MergeKeepsValid(s[..|s| - 1]);
    }
  }

  lemma BlocksAnyOrder(a: seq<Interval>, b: seq<Interval>)
    requires multiset(a) == multiset(b)
    ensures Blocks(a) == Blocks(b)
  {
    LeTotal();
    SortOrderIrrelevant(a, b, Le);
  }

  lemma SeparatedInit(blocks: seq<Interval>)
    requires Separated(blocks) && blocks != []
    ensures var init, last := blocks[..|blocks| - 1], blocks[|blocks| - 1];
            Separated(init) && MergeStep(init, last) == blocks
  {
    var init, last := blocks[..|blocks| - 1], blocks[|blocks| - 1];
    assert blocks == init + [last];
    if init != [] {
      assert init[|init| - 1] == blocks[|blocks| - 2];
    }
  }

  lemma {:induction false} MergeOfSeparated(blocks: seq<Interval>)
    requires Separated(blocks)
    ensures MergeSorted(blocks) == blocks
  {
    if blocks != [] {
      SeparatedInit(blocks);
      MergeOfSeparated(blocks[..|blocks| - 1]);
    }
  }

  /** Merging merged blocks changes nothing. */
  lemma BlocksIdempotent(iv: seq<Interval>)
    ensures Blocks(Blocks(iv)) == Blocks(iv)
  {
    BlocksCover(iv);
    LeTotal();
    SortOfSorted(Blocks(iv), Le);
    MergeOfSeparated(Blocks(iv));
  }

  function TotalLength(blocks: seq<Interval>): int {
    if blocks == [] then 0 else blocks[0].end - blocks[0].start + TotalLength(blocks[1..])
  }

  /** The head block lies wholly before the rest. */
  lemma HeadApart(blocks: seq<Interval>)
    requires Separated(blocks) && blocks != []
    ensures Span(blocks[0].start, blocks[0].end) !! Points(blocks[1..])
  {
    forall x | x in Points(blocks[1..]) ensures x !in Span(blocks[0].start, blocks[0].end) {
      PointsMember(blocks[1..], x);
      var i :| 0 <= i < |blocks[1..]| && blocks[1..][i].start <= x < blocks[1..][i].end;
      assert blocks[i + 1] == blocks[1..][i];
    }
  }

  lemma {:induction false} LengthIsMeasure(blocks: seq<Interval>)
    requires Separated(blocks) && Valid(blocks)
    ensures TotalLength(blocks) == |Points(blocks)|
  {
    if blocks != [] {
      SeparatedTail(blocks);
      LengthIsMeasure(blocks[1..]);
      HeadApart(blocks);
    }
  }

  /** The three sweeps agree with each other and with the covered instants. */
  lemma BlockLengthsMeasure(iv: seq<Interval>)
    requires Valid(iv)
    ensures TotalLength(Blocks(iv)) == |Points(iv)|
  {
    BlocksCover(iv);
    BlocksValid(iv);
    LengthIsMeasure(Blocks(iv));
  }

  // ---- issue228/trace.py: overlap -----------------------------------------------------------

  function PairOverlap(p: Interval, q: Interval): int {
    Max(0, Min(p.end, q.end) - Max(p.start, q.start))
  }

  function RowOverlap(p: Interval, qs: seq<Interval>): int {
    if qs == [] then 0 else PairOverlap(p, qs[0]) + RowOverlap(p, qs[1..])
  }

  function SumOverlap(ps: seq<Interval>, qs: seq<Interval>): int {
    if ps == [] then 0 else RowOverlap(ps[0], qs) + SumOverlap(ps[1..], qs)
  }

  function Overlap(a: seq<Interval>, b: seq<Interval>): int {
    SumOverlap(Blocks(a), Blocks(b))
  }

  lemma MeetUnion(a: set<int>, b: set<int>, c: set<int>)
    requires b !! c
    ensures |a * (b + c)| == |a * b| + |a * c|
  {
    assert a * (b + c) == a * b + a * c;
    assert a * b !! a * c;
  }

  lemma SpansMeet(p: Interval, q: Interval)
    ensures Span(p.start, p.end) * Span(q.start, q.end) == Span(Max(p.start, q.start), Min(p.end, q.end))
  {
    var a, b, c := Span(p.start, p.end), Span(q.start, q.end), Span(Max(p.start, q.start), Min(p.end, q.end));
    hide Span;
    forall x ensures x in a * b <==> x in c {
    }
  }

  lemma PairOverlapMeasure(p: Interval, q: Interval)
    ensures PairOverlap(p, q) == |Span(p.start, p.end) * Span(q.start, q.end)|
  {
    hide Span;
    SpansMeet(p, q);
    var c := Span(Max(p.start, q.start), Min(p.end, q.end));
    assert |c| == Max(0, Min(p.end, q.end) - Max(p.start, q.start));
  }

  lemma SeparatedTail(blocks: seq<Interval>)
    requires Separated(blocks) && blocks != []
    ensures Separated(blocks[1..])
  {
    assert forall i :: 0 <= i < |blocks[1..]| ==> blocks[1..][i] == blocks[i + 1];
  }

  lemma {:induction false} RowOverlapMeasure(p: Interval, qs: seq<Interval>)
    requires Separated(qs)
    ensures RowOverlap(p, qs) == |Span(p.start, p.end) * Points(qs)|
  {
    if qs == [] {
      assert Span(p.start, p.end) * Points(qs) == {};
    } else {
      SeparatedTail(qs);
      RowOverlapMeasure(p, qs[1..]);
      HeadApart(qs);
      PairOverlapMeasure(p, qs[0]);
      MeetUnion(Span(p.start, p.end), Span(qs[0].start, qs[0].end), Points(qs[1..]));
    }
  }

  lemma {:induction false} SumOverlapMeasure(ps: seq<Interval>, qs: seq<Interval>)
    requires Separated(ps) && Separated(qs)
    ensures SumOverlap(ps, qs) == |Points(qs) * Points(ps)|
  {
    if ps == [] {
      assert Points(qs) * Points(ps) == {};
    } else {
      SeparatedTail(ps);
      SumOverlapMeasure(ps[1..], qs);
      RowOverlapMeasure(ps[0], qs);
      HeadApart(ps);
      MeetUnion(Points(qs), Span(ps[0].start, ps[0].end), Points(ps[1..]));
      assert Points(qs) * Span(ps[0].start, ps[0].end) == Span(ps[0].start, ps[0].end) * Points(qs);
    }
  }

  /** overlap(a, b) is the measure of the intersection. */
  lemma OverlapIsIntersection(a: seq<Interval>, b: seq<Interval>)
    ensures Overlap(a, b) == |Points(a) * Points(b)|
  {
    BlocksCover(a);
    BlocksCover(b);
    SumOverlapMeasure(Blocks(a), Blocks(b));
    assert Points(b) * Points(a) == Points(a) * Points(b);
  }

  lemma OverlapSymmetric(a: seq<Interval>, b: seq<Interval>)
    ensures Overlap(a, b) == Overlap(b, a)
  {
    OverlapIsIntersection(a, b);
    OverlapIsIntersection(b, a);
    assert Points(a) * Points(b) == Points(b) * Points(a);
  }

  /** |A| + |B| == |A u B| + overlap(A, B), all four read off merged blocks. */
  lemma InclusionExclusion(a: seq<Interval>, b: seq<Interval>)
    requires Valid(a) && Valid(b)
    ensures TotalLength(Blocks(a)) + TotalLength(Blocks(b)) == TotalLength(Blocks(a + b)) + Overlap(a, b)
  {
    BlockLengthsMeasure(a);
    BlockLengthsMeasure(b);
    BlockLengthsMeasure(a + b);
    OverlapIsIntersection(a, b);
    PointsConcat(a, b);
  }

  // ---- beat_torch/analyze.py: attribution ------------------------------------------------------

  function Overlapping(rows: seq<Interval>, start: int, end: int): seq<Interval> {
    if rows == [] then [] else
      var rest := Overlapping(rows[1..], start, end);
      if rows[0].start < end && rows[0].end > start then
        [Interval(Max(rows[0].start, start), Min(rows[0].end, end))] + rest
      else rest
  }

  lemma ClipOne(x: Interval, start: int, end: int)
    requires x.start <= x.end && start <= end
    ensures x.start < end && x.end > start ==>
              && Max(x.start, start) <= Min(x.end, end)
              && Span(Max(x.start, start), Min(x.end, end)) == Span(x.start, x.end) * Span(start, end)
    ensures !(x.start < end && x.end > start) ==> Span(x.start, x.end) * Span(start, end) == {}
  {
  }

  lemma MeetDistributes(a: set<int>, b: set<int>, range: set<int>)
    ensures (a + b) * range == a * range + b * range
  {
  }

  lemma PointsCons(x: Interval, rest: seq<Interval>)
    ensures Points([x] + rest) == Span(x.start, x.end) + Points(rest)
  {
    assert ([x] + rest)[1..] == rest;
  }

  lemma OverlappingStep(rows: seq<Interval>, start: int, end: int)
    requires Valid(rows) && start <= end && rows != []
    requires Valid(Overlapping(rows[1..], start, end))
    ensures Valid(Overlapping(rows, start, end))
    ensures Points(Overlapping(rows, start, end))
         == Span(rows[0].start, rows[0].end) * Span(start, end) + Points(Overlapping(rows[1..], start, end))
  {
    ClipOnto(rows[0], Overlapping(rows[1..], start, end), start, end);
  }

  /** What one row contributes in front of the clipped rest. */
  lemma ClipOnto(x: Interval, rest: seq<Interval>, start: int, end: int)
    requires x.start <= x.end && start <= end && Valid(rest)
    ensures var clipped := [Interval(Max(x.start, start), Min(x.end, end))] + rest;
            x.start < end && x.end > start ==>
              Valid(clipped) && Points(clipped) == Span(x.start, x.end) * Span(start, end) + Points(rest)
    ensures !(x.start < end && x.end > start) ==>
              Span(x.start, x.end) * Span(start, end) + Points(rest) == Points(rest)
  {
    hide Points;
    hide Span;
    ClipOne(x, start, end);
    PointsCons(Interval(Max(x.start, start), Min(x.end, end)), rest);
  }

  /** Clipping to the range keeps exactly the instants inside it. */
  lemma {:induction false} ClippedPoints(rows: seq<Interval>, start: int, end: int)
    requires Valid(rows) && start <= end
    ensures Valid(Overlapping(rows, start, end))
    ensures Points(Overlapping(rows, start, end)) == Points(rows) * Span(start, end)
  {
    if rows != [] {
      ClippedPoints(rows[1..], start, end);
      OverlappingStep(rows, start, end);
      MeetDistributes(Span(rows[0].start, rows[0].end), Points(rows[1..]), Span(start, end));
    }
  }

  datatype Attribution = Attribution(wall: int, dmaBusy: int, kernelBusy: int, idle: int)

  /** One NVTX range: idle time counts the instants covered by neither copies nor kernels. */
  method Attribute(start: int, end: int, copies: seq<Interval>, kernels: seq<Interval>) returns (r: Attribution)
    requires start <= end && Valid(copies) && Valid(kernels)
    ensures r.wall == |Span(start, end)|
    ensures r.dmaBusy == |Points(copies) * Span(start, end)|
    ensures r.kernelBusy == |Points(kernels) * Span(start, end)|
    ensures r.idle == |Span(start, end) - (Points(copies) + Points(kernels))|
  {
    var dma := Overlapping(copies, start, end);
    var gpu := Overlapping(kernels, start, end);
    ClippedPoints(copies, start, end);
    ClippedPoints(kernels, start, end);
    var dmaBusy := BlockUnion(dma);
    var kernelBusy := BlockUnion(gpu);
    var busy := BlockUnion(dma + gpu);
    PointsConcat(dma, gpu);
    IdlePart(Span(start, end), Points(copies), Points(kernels));
    r := Attribution(end - start, dmaBusy, kernelBusy, (end - start) - busy);
  }

  lemma IdlePart(range: set<int>, a: set<int>, b: set<int>)
    ensures |range| == |a * range + b * range| + |range - (a + b)|
  {
    assert range == (a * range + b * range) + (range - (a + b));
    assert (a * range + b * range) !! (range - (a + b));
  }
}
