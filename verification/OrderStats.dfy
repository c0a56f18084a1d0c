/** Percentiles and the gates built on them, over the reals. */
module OrderStats {
  import opened Common
  import opened Sorting

  predicate Leq(a: real, b: real) { a <= b }

  lemma LeqTotal()
    ensures TotalOrder(Leq)
  {
  }

  function Ceil(x: real): int {
    -((-x).Floor)
  }

  function Clamp(lo: int, x: int, hi: int): int {
    if x > hi then (if hi < lo then lo else hi) else if x < lo then lo else x
  }

  // ---- nearest rank ------------------------------------------------------------

  /** v3_gate.percentile: element max(0, min(n - 1, ceil(p * n) - 1)) of the sorted values. */
  function Percentile(vals: seq<real>, p: real): Option<real> {
    if vals == [] then None else
      SortMultiset(vals, Leq);
      var s := Sort(vals, Leq);
      Some(s[RankIndex(|s|, p)])
  }

  function RankIndex(n: nat, p: real): (k: int)
    requires n >= 1
    ensures 0 <= k < n
  {
    Clamp(0, Ceil(p * (n as real)) - 1, n - 1)
  }

  /** The rank the percentile asks for: ceil(p * n), at least 1 and at most n. */
  function Rank(n: nat, p: real): int
    requires n >= 1
  {
    RankIndex(n, p) + 1
  }

  /** The least whole number not below x. */
  lemma CeilIs(x: real)
    ensures x <= Ceil(x) as real < x + 1.0
  {
  }

  /** Outside (0, 1] it is the first or the last rank. */
  lemma RankClamped(n: nat, p: real)
    requires n >= 1
    ensures p <= 0.0 ==> Rank(n, p) == 1
    ensures p > 1.0 ==> Rank(n, p) == n
  {
    var m := n as real;
    if p <= 0.0 {
      NonNegative(-p, m);
      assert (-p) * m == -(p * m);
    } else if p > 1.0 {
      ProductPositive(p - 1.0, m);
      assert (p - 1.0) * m == p * m - m;
    }
    CeilIs(p * m);
  }

  /** Inside (0, 1] the rank is ceil(p * n) itself. */
  lemma RankIsCeil(n: nat, p: real)
    requires n >= 1 && 0.0 < p <= 1.0
    ensures Rank(n, p) == Ceil(p * (n as real))
  {
    var m := n as real;
    var x := p * m;
    ProductPositive(p, m);
    AtMostWhole(p, m);
    CeilBetween(x, n);
  }

  lemma AtMostWhole(p: real, m: real)
    requires p <= 1.0 && m >= 0.0
    ensures p * m <= m
  {
    NonNegative(1.0 - p, m);
    assert (1.0 - p) * m == m - p * m;
  }

  lemma CeilBetween(x: real, n: nat)
    requires 0.0 < x <= n as real
    ensures 1 <= Ceil(x) <= n
  {
    var f := (-x).Floor;
    var m := n as real;
    assert f as real <= -x < (f + 1) as real;
    assert f as real < 0.0 && (f + 1 + n) as real > 0.0;
  }

  function AtMost(v: real): real -> bool {
    (x: real) => x <= v
  }

  function Below(v: real): real -> bool {
    (x: real) => x < v
  }

  /** In a sorted list, the number of elements satisfying a downward-closed predicate
      is the length of the prefix that satisfies it. */
  lemma {:induction false} PrefixCount(s: seq<real>, p: real -> bool, k: nat)
    requires k <= |s|
    requires forall i :: 0 <= i < k ==> p(s[i])
    requires forall i :: k <= i < |s| ==> !p(s[i])
    ensures Count(s, p) == k
  {
    if s != [] {
      PrefixCount(s[1..], p, if k == 0 then 0 else k - 1);
    }
  }

  /** Only the first k elements may satisfy p. */
  lemma {:induction false} CountAtMost(s: seq<real>, p: real -> bool, k: nat)
    requires k <= |s| && forall i :: k <= i < |s| ==> !p(s[i])
    ensures Count(s, p) <= k
  {
    if s != [] {
      CountAtMost(s[1..], p, if k == 0 then 0 else k - 1);
    }
  }

  /** The first k elements all satisfy p. */
  lemma {:induction false} CountAtLeast(s: seq<real>, p: real -> bool, k: nat)
    requires k <= |s| && forall i :: 0 <= i < k ==> p(s[i])
    ensures Count(s, p) >= k
  {
    if s != [] && k > 0 {
      CountAtLeast(s[1..], p, k - 1);
    }
  }

  /** The percentile is the sorted sample of that rank. */
  lemma PercentileIsRanked(vals: seq<real>, p: real) returns (s: seq<real>, rank: int)
    requires vals != []
    ensures s == Sort(vals, Leq) && |s| == |vals| && multiset(s) == multiset(vals)
    ensures rank == Rank(|vals|, p) && 1 <= rank <= |s|
    ensures Percentile(vals, p) == Some(s[rank - 1])
    ensures forall i, j :: 0 <= i < j < |s| ==> s[i] <= s[j]
  {
    s, rank := Sort(vals, Leq), Rank(|vals|, p);
    SortMultiset(vals, Leq);
    LeqTotal();
    SortSorts(vals, Leq);
    forall i, j | 0 <= i < j < |s| ensures s[i] <= s[j] {
      assert Leq(s[i], s[j]);
    }
  }

  /** The nearest-rank percentile is a sample with at least `rank` samples at or
      below it and fewer than `rank` strictly below. */
  lemma PercentileRank(vals: seq<real>, p: real)
    requires vals != []
    ensures var v := Percentile(vals, p).value; var rank := Rank(|vals|, p);
            v in vals && Count(vals, AtMost(v)) >= rank && Count(vals, Below(v)) < rank
  {
    var s, rank := PercentileIsRanked(vals, p);
    var v := s[rank - 1];
    assert v in multiset(vals);
    CountSort(vals, Leq, AtMost(v));
    CountSort(vals, Leq, Below(v));
    RankedCounts(s, rank);
  }

  lemma RankedCounts(s: seq<real>, rank: int)
    requires 1 <= rank <= |s| && forall i, j :: 0 <= i < j < |s| ==> s[i] <= s[j]
    ensures Count(s, AtMost(s[rank - 1])) >= rank && Count(s, Below(s[rank - 1])) < rank
  {
    CountAtLeast(s, AtMost(s[rank - 1]), rank);
    CountAtMost(s, Below(s[rank - 1]), rank - 1);
  }

  lemma RankedGate(s: seq<real>, rank: int, bar: real)
    requires 1 <= rank <= |s| && forall i, j :: 0 <= i < j < |s| ==> s[i] <= s[j]
    ensures s[rank - 1] <= bar <==> Count(s, AtMost(bar)) >= rank
  {
    if s[rank - 1] <= bar {
      CountAtLeast(s, AtMost(bar), rank);
    } else {
      CountAtMost(s, AtMost(bar), rank - 1);
    }
  }

  /** A percentile is within a bar exactly when enough samples are. */
  lemma PercentileGate(vals: seq<real>, p: real, bar: real)
    requires vals != []
    ensures Percentile(vals, p).Some?
    ensures Percentile(vals, p).value <= bar <==> Count(vals, AtMost(bar)) >= Rank(|vals|, p)
  {
    var s, rank := PercentileIsRanked(vals, p);
    RankedGate(s, rank, bar);
    CountSort(vals, Leq, AtMost(bar));
  }

  // ---- the winner gates -----------------------------------------------------------

  datatype Winner = A | B

  datatype Cell = Cell(pred: Winner, ta: real, tb: real)

  ghost predicate Measured(cells: seq<Cell>) {
    forall i :: 0 <= i < |cells| ==> cells[i].ta > 0.0 && cells[i].tb > 0.0
  }

  function MeasuredWinner(c: Cell): Winner {
    if c.ta <= c.tb then A else B
  }

  predicate Wrong(c: Cell) {
    c.pred != MeasuredWinner(c)
  }

  function MinReal(a: real, b: real): real { if a <= b then a else b }

  function Regret(c: Cell): real
    requires c.ta > 0.0 && c.tb > 0.0
  {
    (if c.pred == A then c.ta else c.tb) / MinReal(c.ta, c.tb) - 1.0
  }

  function Regrets(cells: seq<Cell>): (r: seq<real>)
    requires Measured(cells)
    ensures |r| == |cells| && forall i :: 0 <= i < |cells| ==> r[i] == Regret(cells[i])
  {
    seq(|cells|, i requires 0 <= i < |cells| => Regret(cells[i]))
  }

  /** Regret is never negative, and zero exactly when the chosen method is a fastest one. */
  lemma RegretSign(c: Cell)
    requires c.ta > 0.0 && c.tb > 0.0
    ensures Regret(c) >= 0.0
    ensures Regret(c) == 0.0 <==> (if c.pred == A then c.ta <= c.tb else c.tb <= c.ta)
    ensures !Wrong(c) ==> Regret(c) == 0.0
    ensures Wrong(c) <==> if c.ta <= c.tb then c.pred == B else c.pred == A
    ensures (Regret(c) + 1.0) * (if c.ta < c.tb then c.ta else c.tb) == if c.pred == A then c.ta else c.tb
  {
    RatioAtLeastOne(if c.pred == A then c.ta else c.tb, MinReal(c.ta, c.tb));
  }

  lemma RatioAtLeastOne(t: real, m: real)
    requires 0.0 < m <= t
    ensures t / m >= 1.0 && (t / m == 1.0 <==> t == m)
  {
    var r := t / m;
    assert r * m == t;
    assert r < 1.0 ==> (1.0 - r) * m > 0.0;
    assert (1.0 - r) * m == m - t;
  }

  /** misclass: the verdict compares the share of wrong cells with the bar. */
  function MisclassPasses(cells: seq<Cell>, bar: real): Option<bool> {
    if cells == [] then None
    else Some((Count(cells, Wrong) as real) / (|cells| as real) <= bar)
  }

  /** The misclassification gate passes if and only if the wrong cells are within the bar. */
  lemma MisclassGateIsCount(cells: seq<Cell>, bar: real)
    requires cells != []
    ensures MisclassPasses(cells, bar) == Some((Count(cells, Wrong) as real) <= bar * (|cells| as real))
  {
    var m, w := |cells| as real, Count(cells, Wrong) as real;
    QuotientTimes(w, m);
    if w / m <= bar {
      ScaleReal(w / m, bar, |cells|);
    } else {
      assert (w / m - bar) * m > 0.0 by { ProductPositive(w / m - bar, m); }
      assert (w / m - bar) * m == (w / m) * m - bar * m;
    }
  }

  function RegretPasses(cells: seq<Cell>, bar: real): Option<bool>
    requires Measured(cells)
  {
    match Percentile(Regrets(cells), 0.9)
    case None => None
    case Some(p90) => Some(p90 <= bar)
  }

  function WithinBar(bar: real): Cell -> bool {
    (c: Cell) => c.ta > 0.0 && c.tb > 0.0 && Regret(c) <= bar
  }

  lemma {:induction false} CountRegrets(cells: seq<Cell>, bar: real)
    requires Measured(cells)
    ensures Count(Regrets(cells), AtMost(bar)) == Count(cells, WithinBar(bar))
  {
    if cells != [] {
      assert forall i :: 0 <= i < |cells[1..]| ==> cells[1..][i] == cells[i + 1];
      assert Regrets(cells)[1..] == Regrets(cells[1..]);
      CountRegrets(cells[1..], bar);
    }
  }

  /** The regret gate passes if and only if at least ceil(0.9 n) cells are within the bar. */
  lemma RegretGateIsCount(cells: seq<Cell>, bar: real)
    requires Measured(cells) && cells != []
    ensures RegretPasses(cells, bar) == Some(Count(cells, WithinBar(bar)) >= Ceil(0.9 * (|cells| as real)))
  {
    PercentileGate(Regrets(cells), 0.9, bar);
    CountRegrets(cells, bar);
    RankOfP90(|cells|);
  }

  lemma RankOfP90(n: nat)
    requires n >= 1
    ensures Rank(n, 0.9) == Ceil(0.9 * (n as real)) && 1 <= Ceil(0.9 * (n as real)) <= n
  {
    RankIsCeil(n, 0.9);
  }

  lemma {:induction false} CorrectCellsCount(cells: seq<Cell>)
    requires Measured(cells)
    ensures Count(cells, WithinBar(0.0)) >= |cells| - Count(cells, Wrong)
  {
    if cells != [] {
      assert forall i :: 0 <= i < |cells[1..]| ==> cells[1..][i] == cells[i + 1];
      RegretSign(cells[0]);
      CorrectCellsCount(cells[1..]);
    }
  }

  /** Few enough misclassified winners make the p90 regret exactly zero. */
  lemma FewMistakesNoRegret(cells: seq<Cell>)
    requires Measured(cells) && cells != []
    requires Count(cells, Wrong) <= |cells| - Ceil(0.9 * (|cells| as real))
    ensures Percentile(Regrets(cells), 0.9) == Some(0.0)
  {
    CorrectCellsCount(cells);
    CountRegrets(cells, 0.0);
    RankOfP90(|cells|);
    PercentileGate(Regrets(cells), 0.9, 0.0);
    PercentileRank(Regrets(cells), 0.9);
    var v := Percentile(Regrets(cells), 0.9).value;
    assert v in Regrets(cells);
    var i :| 0 <= i < |cells| && Regrets(cells)[i] == v;
    RegretSign(cells[i]);
  }

  /** A misclassification gate at ten percent already forces a p90 regret of zero. */
  lemma TenPercentMisclassNoRegret(cells: seq<Cell>)
    requires Measured(cells) && MisclassPasses(cells, 0.1) == Some(true)
    ensures Percentile(Regrets(cells), 0.9) == Some(0.0)
  {
    var wrong, n := Count(cells, Wrong), |cells|;
    var m, w := n as real, wrong as real;
    var rate := w / m;
    QuotientTimes(w, m);
    ScaleReal(rate, 0.1, n);
    TenPercentLeft(rate * m, m);
    CeilLeast(0.9 * m, n - wrong);
    FewMistakesNoRegret(cells);
  }

  lemma QuotientTimes(a: real, b: real)
    requires b != 0.0
    ensures (a / b) * b == a
  {
  }

  lemma TenPercentLeft(w: real, m: real)
    requires w <= 0.1 * m
    ensures 0.9 * m <= m - w
  {
  }

  lemma CeilLeast(x: real, k: int)
    requires x <= k as real
    ensures Ceil(x) <= k
  {
    var f := (-x).Floor;
    assert f as real <= -x < (f + 1) as real;
    assert (f + 1 + k) as real > 0.0;
  }

  // ---- linear interpolation -----------------------------------------------------------

  /** protocol.h percentileSorted, for p in [0, 1] (size_t truncation is floor there). */
  function PercentileSorted(s: seq<real>, p: real): real
    requires 0.0 <= p <= 1.0
  {
    if s == [] then 0.0
    else if |s| == 1 then s[0]
    else
      var pos := p * ((|s| - 1) as real);
      var lo := pos.Floor;
      var frac := pos - (lo as real);
      if lo + 1 >= |s| then s[|s| - 1]
      else
        PosNonNegative(p, |s| - 1);
        s[lo] * (1.0 - frac) + s[lo + 1] * frac
  }

  lemma NonNegative(a: real, b: real)
    requires a >= 0.0 && b >= 0.0
    ensures a * b >= 0.0
  {
  }

  lemma ProductPositive(a: real, b: real)
    requires a > 0.0 && b > 0.0
    ensures a * b > 0.0
  {
  }

  lemma PosNonNegative(p: real, n: int)
    requires 0.0 <= p <= 1.0 && n >= 0
    ensures 0.0 <= p * (n as real) <= (n as real)
    ensures 0 <= (p * (n as real)).Floor <= n
  {
    var m := n as real;
    NonNegative(p, m);
    NonNegative(1.0 - p, m);
    assert (1.0 - p) * m == m - p * m;
  }

  lemma ScaleReal(p: real, q: real, n: int)
    requires p <= q && n >= 0
    ensures p * (n as real) <= q * (n as real)
  {
    var m := n as real;
    NonNegative(q - p, m);
    assert (q - p) * m == q * m - p * m;
  }

  /** a + (b - a) t for t in [0, 1] stays between a and b and grows with t. */
  lemma Lerp(a: real, b: real, t: real, u: real)
    requires a <= b && 0.0 <= t <= u <= 1.0
    ensures a <= a * (1.0 - t) + b * t <= a * (1.0 - u) + b * u <= b
  {
    assert a * (1.0 - t) + b * t == a + (b - a) * t;
    assert a * (1.0 - u) + b * u == a + (b - a) * u;
    NonNegative(b - a, t);
    NonNegative(b - a, u - t);
    NonNegative(b - a, 1.0 - u);
    assert (b - a) * u == (b - a) * t + (b - a) * (u - t);
    assert b - a == (b - a) * u + (b - a) * (1.0 - u);
  }

  /** Interpolated value at position x of a sorted list. */
  function ValueAt(s: seq<real>, x: real): real
    requires 0.0 <= x <= (|s| - 1) as real
  {
    var lo := x.Floor;
    if lo + 1 >= |s| then s[|s| - 1]
    else s[lo] * (1.0 - (x - (lo as real))) + s[lo + 1] * (x - (lo as real))
  }

  lemma ValueBetween(s: seq<real>, x: real)
    requires Sorted(s, Leq) && 0.0 <= x <= (|s| - 1) as real
    ensures s[x.Floor] <= ValueAt(s, x)
    ensures ValueAt(s, x) <= s[if x.Floor + 1 < |s| then x.Floor + 1 else |s| - 1]
  {
    if x.Floor + 1 < |s| {
      assert Leq(s[x.Floor], s[x.Floor + 1]);
      Lerp(s[x.Floor], s[x.Floor + 1], x - (x.Floor as real), x - (x.Floor as real));
    }
  }

  lemma ValueMonotone(s: seq<real>, x: real, y: real)
    requires Sorted(s, Leq) && 0.0 <= x <= y <= (|s| - 1) as real
    ensures ValueAt(s, x) <= ValueAt(s, y)
  {
    if x.Floor == y.Floor {
      if x.Floor + 1 < |s| {
        assert Leq(s[x.Floor], s[x.Floor + 1]);
        Lerp(s[x.Floor], s[x.Floor + 1], x - (x.Floor as real), y - (y.Floor as real));
      }
    } else {
      ValueBetween(s, x);
      ValueBetween(s, y);
      assert x.Floor + 1 < y.Floor ==> Leq(s[x.Floor + 1], s[y.Floor]);
    }
  }

  /** The position p * (n - 1) in a sorted list. */
  function Position(s: seq<real>, p: real): real
    requires s != []
  {
    p * ((|s| - 1) as real)
  }

  lemma PositionsOrdered(s: seq<real>, p: real, q: real)
    requires 0.0 <= p <= q <= 1.0 && s != []
    ensures Position(s, p) <= Position(s, q)
  {
    ScaleReal(p, q, |s| - 1);
  }

  /** The percentile is the interpolated value at that position. */
  lemma PercentileIsValueAt(s: seq<real>, p: real)
    requires 0.0 <= p <= 1.0 && s != []
    ensures 0.0 <= Position(s, p) <= (|s| - 1) as real
    ensures PercentileSorted(s, p) == ValueAt(s, Position(s, p))
  {
    PosNonNegative(p, |s| - 1);
    if |s| == 1 {
      TimesNothing(p);
    } else {
      UnfoldPercentile(s, p);
    }
  }

  lemma TimesNothing(p: real)
    ensures p * (0 as real) == 0.0
  {
  }

  lemma UnfoldPercentile(s: seq<real>, p: real)
    requires 0.0 <= p <= 1.0 && |s| > 1 && 0.0 <= Position(s, p) <= (|s| - 1) as real
    ensures PercentileSorted(s, p) == ValueAt(s, Position(s, p))
  {
    var pos := Position(s, p);
    assert pos == p * ((|s| - 1) as real);
    assert pos.Floor == (p * ((|s| - 1) as real)).Floor;
  }

  /** The interpolated percentile lies between its neighbouring ranks. */
  lemma BetweenNeighbours(s: seq<real>, p: real)
    requires 0.0 <= p <= 1.0 && Sorted(s, Leq) && s != []
    ensures var lo := Position(s, p).Floor;
            var hi := if lo + 1 < |s| then lo + 1 else |s| - 1;
            && 0 <= lo < |s| && s[lo] <= PercentileSorted(s, p) <= s[hi]
    ensures s[0] <= PercentileSorted(s, p) <= s[|s| - 1]
  {
    hide PercentileSorted;
    hide ValueAt;
    hide Position;
    PercentileIsValueAt(s, p);
    var pos := Position(s, p);
    ValueBetween(s, pos);
    FloorWithin(pos, |s| - 1);
    var lo := pos.Floor;
    assert lo > 0 ==> Leq(s[0], s[lo]);
    assert lo + 1 < |s| - 1 ==> Leq(s[lo + 1], s[|s| - 1]);
  }

  lemma FloorWithin(x: real, n: int)
    requires 0.0 <= x <= n as real
    ensures 0 <= x.Floor <= n
  {
  }

  /** ... and never decreases in p. */
  lemma PercentileMonotone(s: seq<real>, p: real, q: real)
    requires 0.0 <= p <= q <= 1.0 && Sorted(s, Leq)
    ensures PercentileSorted(s, p) <= PercentileSorted(s, q)
  {
    if s != [] {
      hide PercentileSorted;
      hide ValueAt;
      hide Position;
      PercentileIsValueAt(s, p);
      PercentileIsValueAt(s, q);
      PositionsOrdered(s, p, q);
      ValueMonotone(s, Position(s, p), Position(s, q));
    }
  }

  // ---- what the interpolated value is ---------------------------------------------------

  /** The straight line through a at 0 and b at 1. */
  function Line(a: real, b: real, x: real): real {
    a + x * (b - a)
  }

  /** Between ranks k and k + 1 the value runs along the straight line through both. */
  lemma OnTheLine(s: seq<real>, p: real, k: nat)
    requires 0.0 <= p <= 1.0 && k + 1 < |s| && k as real <= Position(s, p) <= (k + 1) as real
    ensures PercentileSorted(s, p) == Line(s[k], s[k + 1], Position(s, p) - k as real)
  {
    var x := Position(s, p);
    PercentileIsValueAt(s, p);
    hide PercentileSorted;
    hide Position;
    ValueOnLine(s, x, k);
  }

  lemma ValueOnLine(s: seq<real>, x: real, k: nat)
    requires k + 1 < |s| && k as real <= x <= (k + 1) as real
    ensures 0.0 <= x <= (|s| - 1) as real
    ensures ValueAt(s, x) == Line(s[k], s[k + 1], x - k as real)
  {
    if x < (k + 1) as real {
      assert x.Floor == k;
      Blend(s[k], s[k + 1], x - k as real);
    } else {
      assert x.Floor == k + 1;
    }
  }

  lemma Blend(a: real, b: real, t: real)
    ensures a * (1.0 - t) + b * t == a + t * (b - a)
  {
  }

  /** At the position of a rank the value is that sample. */
  lemma AtTheRank(s: seq<real>, p: real, k: nat)
    requires 0.0 <= p <= 1.0 && k < |s| && Position(s, p) == k as real
    ensures PercentileSorted(s, p) == s[k]
  {
    if k + 1 < |s| {
      OnTheLine(s, p, k);
    } else if k > 0 {
      OnTheLine(s, p, k - 1);
    }
  }

  /** Within one segment the value is affine in p. */
  lemma PercentileAffine(s: seq<real>, p: real, q: real, t: real, k: nat)
    requires 0.0 <= p <= 1.0 && 0.0 <= q <= 1.0 && 0.0 <= t <= 1.0 && k + 1 < |s|
    requires k as real <= Position(s, p) <= (k + 1) as real && k as real <= Position(s, q) <= (k + 1) as real
    ensures 0.0 <= Line(p, q, t) <= 1.0
    ensures PercentileSorted(s, Line(p, q, t)) == Line(PercentileSorted(s, p), PercentileSorted(s, q), t)
  {
    hide *;
    Between(p, q, t, 0.0, 1.0);
    Between(Position(s, p), Position(s, q), t, k as real, (k + 1) as real);
    PositionBlends(s, p, q, t);
    OnTheLine(s, p, k);
    OnTheLine(s, q, k);
    OnTheLine(s, Line(p, q, t), k);
    BlendsAlong(s[k], s[k + 1], Position(s, p), Position(s, q), t, k as real);
  }

  lemma PositionBlends(s: seq<real>, p: real, q: real, t: real)
    requires s != []
    ensures Position(s, Line(p, q, t)) == Line(Position(s, p), Position(s, q), t)
  {
    Scaled(p, q, t, (|s| - 1) as real);
  }

  lemma BlendsAlong(a: real, b: real, x: real, y: real, t: real, k: real)
    ensures Line(a, b, Line(x, y, t) - k) == Line(Line(a, b, x - k), Line(a, b, y - k), t)
  {
    assert (y - k) - (x - k) == y - x;
    Scaled(x - k, y - k, t, b - a);
  }

  lemma Scaled(a: real, b: real, t: real, m: real)
    ensures (a + t * (b - a)) * m == a * m + t * (b * m - a * m)
  {
  }

  lemma Between(a: real, b: real, t: real, lo: real, hi: real)
    requires lo <= a <= hi && lo <= b <= hi && 0.0 <= t <= 1.0
    ensures lo <= Line(a, b, t) <= hi
  {
    NonNegative(1.0 - t, a - lo);
    NonNegative(t, b - lo);
    NonNegative(1.0 - t, hi - a);
    NonNegative(t, hi - b);
    assert a + t * (b - a) == lo + (1.0 - t) * (a - lo) + t * (b - lo);
    assert a + t * (b - a) == hi - (1.0 - t) * (hi - a) - t * (hi - b);
  }

  /** The value num hundredths of the way through the ranks, in whole numbers. */
  ghost predicate IsPercent(s: seq<real>, num: nat, v: real) {
    && (s == [] ==> v == 0.0)
    && (|s| == 1 ==> v == s[0])
    && forall k :: 0 <= k < |s| - 1 && 100 * k <= num * (|s| - 1) <= 100 * k + 100 ==>
         v == Line(s[k], s[k + 1], (num * (|s| - 1) - 100 * k) as real / 100.0)
  }

  lemma PercentIs(s: seq<real>, num: nat)
    requires num <= 100
    ensures IsPercent(s, num, PercentileSorted(s, num as real / 100.0))
  {
    var v := PercentileSorted(s, num as real / 100.0);
    assert |s| == 1 ==> v == s[0];
    forall k | 0 <= k < |s| - 1 && 100 * k <= num * (|s| - 1) <= 100 * k + 100
      ensures v == Line(s[k], s[k + 1], (num * (|s| - 1) - 100 * k) as real / 100.0)
    {
      PercentOnLine(s, num, k);
    }
  }

  lemma PercentOnLine(s: seq<real>, num: nat, k: nat)
    requires num <= 100 && k < |s| - 1 && 100 * k <= num * (|s| - 1) <= 100 * k + 100
    ensures PercentileSorted(s, num as real / 100.0)
         == Line(s[k], s[k + 1], (num * (|s| - 1) - 100 * k) as real / 100.0)
  {
    var n, p := num * (|s| - 1), num as real / 100.0;
    assert n as real == (num as real) * ((|s| - 1) as real);
    assert Position(s, p) == n as real / 100.0;
    assert (n - 100 * k) as real / 100.0 == n as real / 100.0 - k as real;
    hide *;
    OnTheLine(s, p, k);
  }

  /** The middle sample, or the mean of the two middle ones. */
  lemma MedianIs(s: seq<real>, v: real)
    requires s != [] && IsPercent(s, 50, v)
    ensures |s| % 2 == 1 ==> v == s[|s| / 2]
    ensures |s| % 2 == 0 ==> v == (s[|s| / 2 - 1] + s[|s| / 2]) / 2.0
  {
    var n := |s|;
    if n % 2 == 0 {
      var k := n / 2 - 1;
      assert v == Line(s[k], s[k + 1], (50 * (n - 1) - 100 * k) as real / 100.0);
    } else if n > 1 {
      var k := n / 2 - 1;
      assert v == Line(s[k], s[k + 1], (50 * (n - 1) - 100 * k) as real / 100.0);
    }
  }

  datatype Stats = Stats(median: real, q1: real, q3: real, iqr: real, n: nat)

  /** summarize sorts its own copy. */
  method Summarize(samples: seq<real>) returns (r: Stats)
    ensures r == Summary(samples) && r.n == |samples|
    ensures samples != [] ==>
              exists lo, hi :: lo in samples && hi in samples && lo <= r.q1 <= r.median <= r.q3 <= hi
    ensures r.iqr == r.q3 - r.q1 >= 0.0
    ensures |samples| % 2 == 1 ==> r.median == Sort(samples, Leq)[|samples| / 2]
    ensures samples != [] && |samples| % 2 == 0 ==>
              r.median == (Sort(samples, Leq)[|samples| / 2 - 1] + Sort(samples, Leq)[|samples| / 2]) / 2.0
    ensures IsPercent(Sort(samples, Leq), 25, r.q1) && IsPercent(Sort(samples, Leq), 75, r.q3)
    ensures forall other :: multiset(other) == multiset(samples) ==> Summary(other) == r
  {
    var s := Sort(samples, Leq);
    SortMultiset(samples, Leq);
    var median := PercentileSorted(s, 0.5);
    var q1 := PercentileSorted(s, 0.25);
    var q3 := PercentileSorted(s, 0.75);
    r := Stats(median, q1, q3, q3 - q1, |s|);
    SummaryMeans(samples);
    SummaryIs(samples);
    forall other | multiset(other) == multiset(samples) ensures Summary(other) == r {
      SummaryAnyOrder(samples, other);
    }
  }

  /** The percentiles the summaries use. */
  lemma UsedPercents(s: seq<real>)
    ensures IsPercent(s, 25, PercentileSorted(s, 0.25)) && IsPercent(s, 50, PercentileSorted(s, 0.5))
    ensures IsPercent(s, 75, PercentileSorted(s, 0.75)) && IsPercent(s, 95, PercentileSorted(s, 0.95))
  {
    hide *;
    PercentIs(s, 25);
    PercentIs(s, 50);
    PercentIs(s, 75);
    PercentIs(s, 95);
    assert 25 as real / 100.0 == 0.25 && 50 as real / 100.0 == 0.5;
    assert 75 as real / 100.0 == 0.75 && 95 as real / 100.0 == 0.95;
  }

  lemma SummaryIs(samples: seq<real>)
    ensures var r, s := Summary(samples), Sort(samples, Leq);
            && IsPercent(s, 25, r.q1) && IsPercent(s, 75, r.q3)
            && (|s| % 2 == 1 ==> r.median == s[|s| / 2])
            && (s != [] && |s| % 2 == 0 ==> r.median == (s[|s| / 2 - 1] + s[|s| / 2]) / 2.0)
  {
    var s, r := Sort(samples, Leq), Summary(samples);
    UsedPercents(s);
    assert r.q1 == PercentileSorted(s, 0.25) && r.median == PercentileSorted(s, 0.5) && r.q3 == PercentileSorted(s, 0.75);
    hide *;
    if s != [] {
      MedianIs(s, r.median);
    }
  }

  lemma SummaryMeans(samples: seq<real>)
    ensures var r := Summary(samples);
            && (samples != [] ==>
                  exists lo, hi :: lo in samples && hi in samples && lo <= r.q1 <= r.median <= r.q3 <= hi)
            && r.iqr == r.q3 - r.q1 >= 0.0
  {
    if samples != [] {
      SummaryOrdered(samples);
      var t, lo := Summary(samples), SummaryRtrack(samples).min;
      var hi :| hi in samples && t.q3 <= hi;
      assert lo in samples && lo <= t.q1;
    }
  }

  function Summary(samples: seq<real>): Stats {
    var s := Sort(samples, Leq);
    Stats(PercentileSorted(s, 0.5), PercentileSorted(s, 0.25), PercentileSorted(s, 0.75),
          PercentileSorted(s, 0.75) - PercentileSorted(s, 0.25), |samples|)
  }

  datatype RStats = RStats(median: real, min: real, p95: real, iqrOverMedianPct: real, unstable: bool, n: nat)

  /** rstats.h summarizeSamples. */
  function SummaryRtrack(samples: seq<real>): RStats {
    if samples == [] then RStats(0.0, 0.0, 0.0, 0.0, false, 0) else
      SortMultiset(samples, Leq);
      var s := Sort(samples, Leq);
      var median := PercentileSorted(s, 0.5);
      var iqr := PercentileSorted(s, 0.75) - PercentileSorted(s, 0.25);
      var pct := if median > 0.0 then 100.0 * iqr / median else 0.0;
      RStats(median, s[0], PercentileSorted(s, 0.95), pct, pct > 5.0, |samples|)
  }

  lemma PercentOf(iqr: real, median: real)
    ensures median > 0.0 ==> (100.0 * iqr / median) * median == 100.0 * iqr
  {
    if median > 0.0 {
      QuotientTimes(100.0 * iqr, median);
    }
  }

  /** What the benchmark's summary holds. */
  lemma SummaryRtrackIs(samples: seq<real>)
    ensures samples == [] ==> SummaryRtrack(samples) == RStats(0.0, 0.0, 0.0, 0.0, false, 0)
    ensures samples != [] ==>
            var r, s := SummaryRtrack(samples), Sort(samples, Leq);
            && r.n == |samples| && r.min == s[0] && r.median == Summary(samples).median && IsPercent(s, 95, r.p95)
            && (r.median <= 0.0 ==> r.iqrOverMedianPct == 0.0)
            && (r.median > 0.0 ==> r.iqrOverMedianPct * r.median == 100.0 * Summary(samples).iqr)
            && (r.unstable <==> r.iqrOverMedianPct > 5.0)
  {
    hide PercentileSorted;
    hide Sort;
    hide IsPercent;
    var s := Sort(samples, Leq);
    SortMultiset(samples, Leq);
    UsedPercents(s);
    var median, iqr := PercentileSorted(s, 0.5), PercentileSorted(s, 0.75) - PercentileSorted(s, 0.25);
    PercentOf(iqr, median);
  }

  /** The summaries do not depend on the order of the samples. */
  lemma SummaryAnyOrder(samples: seq<real>, other: seq<real>)
    requires multiset(samples) == multiset(other)
    ensures Summary(samples) == Summary(other) && SummaryRtrack(samples) == SummaryRtrack(other)
  {
    LeqTotal();
    assert |samples| == |multiset(samples)| == |multiset(other)| == |other|;
    SortOrderIrrelevant(samples, other, Leq);
  }

  /** The quartiles, the median and the 95th percentile are ordered. */
  lemma QuartilesOrdered(s: seq<real>)
    requires s != [] && Sorted(s, Leq)
    ensures s[0] <= PercentileSorted(s, 0.25) <= PercentileSorted(s, 0.5) <= PercentileSorted(s, 0.75)
    ensures PercentileSorted(s, 0.5) <= PercentileSorted(s, 0.95) <= s[|s| - 1]
    ensures PercentileSorted(s, 0.75) <= s[|s| - 1]
  {
    BetweenNeighbours(s, 0.75);
    BetweenNeighbours(s, 0.25);
    BetweenNeighbours(s, 0.95);
    PercentileMonotone(s, 0.25, 0.5);
    PercentileMonotone(s, 0.5, 0.75);
    PercentileMonotone(s, 0.5, 0.95);
  }

  /** The ends of the sorted samples are the least and the greatest sample. */
  lemma SortedEnds(samples: seq<real>)
    requires samples != []
    ensures var s := Sort(samples, Leq);
            && s != [] && Sorted(s, Leq) && s[0] in samples && s[|s| - 1] in samples
            && forall x :: x in samples ==> s[0] <= x <= s[|s| - 1]
  {
    var s := Sort(samples, Leq);
    LeqTotal();
    SortSorts(samples, Leq);
    SortMultiset(samples, Leq);
    assert s[0] in multiset(samples) && s[|s| - 1] in multiset(samples);
    forall x | x in samples ensures s[0] <= x <= s[|s| - 1] {
      assert x in multiset(s);
      var k :| 0 <= k < |s| && s[k] == x;
      assert k > 0 ==> Leq(s[0], s[k]);
      assert k < |s| - 1 ==> Leq(s[k], s[|s| - 1]);
    }
  }

  /** The summaries are ordered and bounded by the samples. */
  lemma SummaryOrdered(samples: seq<real>)
    requires samples != []
    ensures var t, r := Summary(samples), SummaryRtrack(samples);
            && r.min <= t.q1 <= t.median <= t.q3 && t.iqr >= 0.0
            && r.min <= r.median <= r.p95 && r.median == t.median && r.iqrOverMedianPct >= 0.0
            && r.min in samples && (forall x :: x in samples ==> r.min <= x)
            && (exists x :: x in samples && r.p95 <= x) && (exists x :: x in samples && t.q3 <= x)
  {
    hide Sort;
    hide PercentileSorted;
    var s := Sort(samples, Leq);
    SortedEnds(samples);
    QuartilesOrdered(s);
    SortMultiset(samples, Leq);
    PercentNonNegative(PercentileSorted(s, 0.75) - PercentileSorted(s, 0.25), PercentileSorted(s, 0.5));
  }

  lemma PercentNonNegative(iqr: real, median: real)
    requires iqr >= 0.0
    ensures median > 0.0 ==> 100.0 * iqr / median >= 0.0
  {
    if median > 0.0 {
      var q := 100.0 * iqr / median;
      assert q * median == 100.0 * iqr;
      assert q < 0.0 ==> (-q) * median > 0.0;
    }
  }

  /** Reruns a and b have the least and the greatest median, and pct is their relative spread. */
  ghost predicate Spread(reruns: seq<Stats>, a: int, b: int, pct: real) {
    && 0 <= a < |reruns| && 0 <= b < |reruns|
    && (forall i :: 0 <= i < |reruns| ==> reruns[a].median <= reruns[i].median <= reruns[b].median)
    && var low, high := reruns[a].median, reruns[b].median;
       pct == if low > 0.0 then 100.0 * (high - low) / low else 0.0
  }

  /** analyzeReruns: spread of the rerun medians, in percent of the smallest. */
  method AnalyzeReruns(perRerun: seq<seq<real>>) returns (reruns: seq<Stats>, spreadPct: real)
    ensures |reruns| == |perRerun| && forall i :: 0 <= i < |perRerun| ==> reruns[i] == Summary(perRerun[i])
    ensures perRerun == [] ==> spreadPct == 0.0
    ensures perRerun != [] ==> exists a, b :: Spread(reruns, a, b, spreadPct)
  {
    hide Summary;
    reruns := [];
    var minMed, maxMed := 0.0, 0.0;
    ghost var a, b := 0, 0;
    var i := 0;
    while i < |perRerun|
      invariant 0 <= i <= |perRerun| && |reruns| == i
      invariant forall k :: 0 <= k < i ==> reruns[k] == Summary(perRerun[k])
      invariant i == 0 ==> minMed == 0.0 && a == 0 && b == 0
      invariant i > 0 ==> 0 <= a < i && 0 <= b < i && minMed == reruns[a].median && maxMed == reruns[b].median
      invariant forall k :: 0 <= k < i ==> minMed <= reruns[k].median <= maxMed
    {
      var st := Summarize(perRerun[i]);
      if i == 0 {
        minMed, maxMed := st.median, st.median;
      } else {
        if st.median < minMed { a := i; }
        if maxMed < st.median { b := i; }
        minMed := if st.median < minMed then st.median else minMed;
        maxMed := if maxMed < st.median then st.median else maxMed;
      }
      reruns := reruns + [st];
      i := i + 1;
    }
    spreadPct := if minMed > 0.0 then 100.0 * (maxMed - minMed) / minMed else 0.0;
    assert perRerun != [] ==> Spread(reruns, a, b, spreadPct);
  }
}
