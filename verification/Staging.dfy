/** What a chunk schedule may rely on: the windows it cuts, serialized or not, against
    the moves of the whole plan.  Nothing here needs a packed destination.
 */
module Staging {
  import opened Common
  import opened MixedRadix
  import opened Relocation
  import opened Plan
  import opened Executor
  import opened Gather
  import opened Execute
  import opened Chunking
  import opened Interleaving
  import opened Threads

  // ---- the test of planChunks keeps physical rows apart ----------------------------------

  lemma {:induction false} InnerSpanIs(b: BoundPlan, k: nat)
    requires Shaped(b) && 1 <= k <= |b.extents|
    ensures InnerSpan(b, k) == Dot(LastIndex(b.Padded()[1..])[..k - 1], b.dstStrides[1..][..k - 1])
  {
    if k > 1 {
      InnerSpanIs(b, k - 1);
      DotSnoc(LastIndex(b.Padded()[1..]), b.dstStrides[1..], k - 2);
    }
  }

  lemma SpanIsMaxOffset(b: BoundPlan)
    requires Shaped(b)
    ensures InnerSpan(b, |b.extents|) == MaxOffset(b.Padded()[1..], b.dstStrides[1..])
  {
    var last, ds, n := LastIndex(b.Padded()[1..]), b.dstStrides[1..], |b.extents|;
    InnerSpanIs(b, n);
    assert last[..n - 1] == last && ds[..n - 1] == ds;
  }

  /** The test of planChunks passes exactly if every element of a physical row's span lies
      before the next row's first element. */
  lemma RowsDisjointExactly(b: BoundPlan)
    requires b.WellFormed() && NonNegative(b.dstStrides)
    ensures RowsDisjoint(b) <==> forall x :: InRange(x, b.Padded()[1..]) ==> Dot(x, b.dstStrides[1..]) < b.dstStrides[0]
  {
    var pad, ds := b.Padded()[1..], b.dstStrides[1..];
    PaddedPositive(b);
    SpanIsMaxOffset(b);
    assert forall k :: 0 <= k < |ds| ==> ds[k] == b.dstStrides[k + 1] && pad[k] == b.Padded()[k + 1];
    assert InRange(LastIndex(pad), pad);
    forall x | InRange(x, pad) ensures Dot(x, ds) <= MaxOffset(pad, ds) {
      OffsetWithin(x, pad, ds);
    }
  }

  /** Pads included, a row's valid cells lie within the span of its physical cells. */
  lemma ReachWithinSpan(b: BoundPlan)
    requires b.WellFormed() && NonNegative(b.dstStrides)
    ensures 0 <= Dot(b.Lo()[1..], b.dstStrides[1..])
    ensures Dot(b.Lo()[1..], b.dstStrides[1..]) + InnerReach(b) <= InnerSpan(b, |b.extents|)
  {
    var lo, last, pad, ds := b.Lo()[1..], LastIndex(b.extents[1..]), b.Padded()[1..], b.dstStrides[1..];
    BoxInPadded(b);
    SpanIsMaxOffset(b);
    assert forall k :: 0 <= k < |lo| ==>
             lo[k] == b.Lo()[k + 1] && pad[k] == b.Padded()[k + 1] && ds[k] == b.dstStrides[k + 1];
    DotNonNegative(lo, ds);
    DotAdd(lo, last, ds);
    DotMonotone(Add(lo, last), LastIndex(pad), ds);
  }

  lemma PhysicalImpliesValid(b: BoundPlan)
    requires b.WellFormed() && NonNegative(b.dstStrides) && RowsDisjoint(b)
    ensures ValidRowsDisjoint(b)
  {
    ReachWithinSpan(b);
  }

  /** Passing the test of planChunks, the rows [begin, end) write only inside their own
      physical rows. */
  lemma PhysicalTargets(b: BoundPlan, base: int, begin: int, end: int, k: int)
    requires b.WellFormed() && NonNegative(b.dstStrides) && RowsDisjoint(b)
    requires 0 <= begin < end <= b.extents[0] && 0 <= k < |ChunkMoves(b, base, begin, end)|
    ensures var d, lo0 := b.dstStrides[0], b.Lo()[0];
            base + (begin + lo0) * d <= ChunkMoves(b, base, begin, end)[k].to < base + (end + lo0) * d
  {
    var d, lo0 := b.dstStrides[0], b.Lo()[0];
    RowTargets(b, base, begin, end, k);
    ReachWithinSpan(b);
    MulDistributes(begin, lo0, d);
    MulDistributes(end, lo0, d);
    MulDistributes(end - 1, 1, d);
  }

  // ---- a window's moves ------------------------------------------------------------------------

  /** Move k of a nonempty range of outer rows. */
  lemma RowMoveAt(b: BoundPlan, base: int, vb: int, ve: int, k: int)
    requires b.WellFormed() && 0 <= vb < ve <= b.extents[0]
    requires 0 <= k < |ChunkMoves(b, base, vb, ve)|
    ensures var box := [ve - vb] + b.extents[1..];
            && Positive(box) && |ChunkMoves(b, base, vb, ve)| == Product(box)
            && ChunkMoves(b, base, vb, ve)[k]
               == MoveOf(Unrank(k, box), b.srcStrides, b.dstStrides, vb * b.srcStrides[0],
                         base + Dot(b.Lo(), b.dstStrides) + vb * b.dstStrides[0])
  {
    var box, to := [ve - vb] + b.extents[1..], base + Dot(b.Lo(), b.dstStrides);
    assert Positive(box) by {
      assert forall i :: 0 < i < |box| ==> box[i] == b.extents[i];
    }
    RowMovesAsMoves(b.extents, b.srcStrides, b.dstStrides, vb, ve, 0, to);
    MovesLength(box, b.srcStrides, b.dstStrides, vb * b.srcStrides[0], to + vb * b.dstStrides[0]);
    MovesByRank(box, b.srcStrides, b.dstStrides, vb * b.srcStrides[0], to + vb * b.dstStrides[0], k);
  }

  /** Rebasing a range of rows shifts where it writes and nothing else. */
  lemma Rebased(b: BoundPlan, base: int, vb: int, ve: int)
    requires b.WellFormed() && 0 <= vb <= ve <= b.extents[0]
    ensures |ChunkMoves(b, base, vb, ve)| == |ChunkMoves(b, 0, vb, ve)|
    ensures forall k {:trigger ChunkMoves(b, base, vb, ve)[k]} :: 0 <= k < |ChunkMoves(b, base, vb, ve)| ==>
              ChunkMoves(b, base, vb, ve)[k] ==
              Move(ChunkMoves(b, 0, vb, ve)[k].from, ChunkMoves(b, 0, vb, ve)[k].to + base)
  {
    var o := Dot(b.Lo(), b.dstStrides);
    RowMovesLength(b.extents, b.srcStrides, b.dstStrides, vb, ve, 0, base + o);
    RowMovesLength(b.extents, b.srcStrides, b.dstStrides, vb, ve, 0, o);
    forall k | 0 <= k < |ChunkMoves(b, base, vb, ve)|
      ensures ChunkMoves(b, base, vb, ve)[k] ==
              Move(ChunkMoves(b, 0, vb, ve)[k].from, ChunkMoves(b, 0, vb, ve)[k].to + base)
    {
      RebasedAt(b, base, vb, ve, k);
    }
  }

  lemma RebasedAt(b: BoundPlan, base: int, vb: int, ve: int, k: int)
    requires b.WellFormed() && 0 <= vb <= ve <= b.extents[0]
    requires 0 <= k < |ChunkMoves(b, base, vb, ve)| == |ChunkMoves(b, 0, vb, ve)|
    ensures ChunkMoves(b, base, vb, ve)[k] ==
            Move(ChunkMoves(b, 0, vb, ve)[k].from, ChunkMoves(b, 0, vb, ve)[k].to + base)
  {
    if vb < ve {
      RowMoveAt(b, base, vb, ve, k);
      RowMoveAt(b, 0, vb, ve, k);
    }
  }

  lemma NoRows(b: BoundPlan, base: int, i: int)
    requires Shaped(b)
    ensures ChunkMoves(b, base, i, i) == []
  {
  }

  lemma AllSplit(b: BoundPlan, vb: int, ve: int)
    requires Shaped(b) && 0 <= vb <= ve <= b.extents[0]
    ensures AllMoves(b) == ChunkMoves(b, 0, 0, vb) + ChunkMoves(b, 0, vb, ve) + ChunkMoves(b, 0, ve, b.extents[0])
  {
    var to := Dot(b.Lo(), b.dstStrides);
    RowMovesConcat(b.extents, b.srcStrides, b.dstStrides, 0, vb, b.extents[0], 0, to);
    RowMovesConcat(b.extents, b.srcStrides, b.dstStrides, vb, ve, b.extents[0], 0, to);
    var before, own, after := ChunkMoves(b, 0, 0, vb), ChunkMoves(b, 0, vb, ve), ChunkMoves(b, 0, ve, b.extents[0]);
    assert AllMoves(b) == before + (own + after);
    hide *;
    assert before + (own + after) == before + own + after;
  }

  // ---- what the pipelines assume of a schedule -------------------------------------------------

  /** A transfer of `total` destination elements: one whole chunk, or windows of rows that
      passed the test and together contain every physical row. */
  ghost predicate Stageable(b: BoundPlan, srcLen: int, total: int, windows: seq<Rows>, serialized: bool) {
    && b.WellFormed() && total >= 0
    && if serialized then windows == [AllRows(b)] && Fits(AllMoves(b), srcLen, total)
       else && NonNegative(b.dstStrides) && RowsDisjoint(b) && b.ReadsWithin(srcLen)
            && Tiles(b, windows) && b.Padded()[0] * b.dstStrides[0] <= total
  }

  /** Elements copied for window w. */
  function CopyCount(b: BoundPlan, total: int, w: Rows, serialized: bool): int
    requires b.dstStrides != []
  {
    if serialized then total else Elements(b, w)
  }

  /** Destination offset of element o of window w. */
  function DeviceAt(b: BoundPlan, w: Rows, o: int): int
    requires b.dstStrides != []
  {
    w.pb * b.dstStrides[0] + o
  }

  lemma WindowInRange(b: BoundPlan, srcLen: int, total: int, windows: seq<Rows>, serialized: bool, c: nat)
    requires Stageable(b, srcLen, total, windows, serialized) && c < |windows|
    ensures 0 <= windows[c].vb <= windows[c].ve <= b.extents[0] && 0 <= windows[c].pb
    ensures 0 <= CopyCount(b, total, windows[c], serialized)
    ensures 0 <= DeviceAt(b, windows[c], 0)
    ensures DeviceAt(b, windows[c], CopyCount(b, total, windows[c], serialized)) <= total
  {
    var w, d := windows[c], b.dstStrides[0];
    if !serialized {
      assert RowsOf(b, w);
      MulAtLeast(w.pb, 0, d);
      MulAtLeast(w.pe - w.pb, 0, d);
      MulDistributes(w.pe - w.pb, w.pb, d);
      MulDistributes(b.Padded()[0] - w.pe, w.pe, d);
      MulAtLeast(b.Padded()[0] - w.pe, 0, d);
    }
  }

  lemma SourcesInRange(b: BoundPlan, srcLen: int, k: int)
    requires b.WellFormed() && b.ReadsWithin(srcLen) && 0 <= k < |AllMoves(b)|
    ensures 0 <= AllMoves(b)[k].from < srcLen
  {
    var idx := VisitedIsInBox(b.extents, b.srcStrides, b.dstStrides, 0, Dot(b.Lo(), b.dstStrides), k);
  }

  /** Every access of the whole plan is in bounds. */
  lemma AllFit(b: BoundPlan, srcLen: int, total: int, windows: seq<Rows>, serialized: bool)
    requires Stageable(b, srcLen, total, windows, serialized)
    ensures Fits(AllMoves(b), srcLen, total)
  {
    if !serialized {
      var d, lo0, e0, p0 := b.dstStrides[0], b.Lo()[0], b.extents[0], b.Padded()[0];
      BoxInPadded(b);
      MulAtLeast(lo0, 0, d);
      MulDistributes(p0 - (e0 + lo0), e0 + lo0, d);
      MulAtLeast(p0 - (e0 + lo0), 0, d);
      forall k | 0 <= k < |AllMoves(b)|
        ensures 0 <= AllMoves(b)[k].from < srcLen && 0 <= AllMoves(b)[k].to < total
      {
        SourcesInRange(b, srcLen, k);
        PhysicalTargets(b, 0, 0, e0, k);
      }
    }
  }

  /** A window's own rows write only inside the window. */
  lemma StageInWindow(b: BoundPlan, srcLen: int, total: int, windows: seq<Rows>, serialized: bool, c: nat, k: int)
    requires Stageable(b, srcLen, total, windows, serialized) && c < |windows|
    requires 0 <= k < |StageMoves(b, windows[c])|
    ensures 0 <= StageMoves(b, windows[c])[k].to < CopyCount(b, total, windows[c], serialized)
  {
    var w, d, lo0 := windows[c], b.dstStrides[0], b.Lo()[0];
    if serialized {
      assert -w.pb * d == 0;
      assert StageMoves(b, w) == AllMoves(b);
    } else {
      assert RowsOf(b, w);
      if w.vb == w.ve {
        NoRows(b, -w.pb * d, w.vb);
      }
      assert w.vb < w.ve;
      PhysicalTargets(b, -w.pb * d, w.vb, w.ve, k);
      InsideWindow(w, d, lo0);
    }
  }

  lemma InsideWindow(w: Rows, d: int, lo0: int)
    requires d >= 0 && w.pb <= w.vb + lo0 && w.ve + lo0 <= w.pe
    ensures 0 <= -w.pb * d + (w.vb + lo0) * d && -w.pb * d + (w.ve + lo0) * d <= (w.pe - w.pb) * d
  {
    MulDistributes(-w.pb, w.vb + lo0, d);
    MulAtLeast(w.vb + lo0 - w.pb, 0, d);
    MulDistributes(-w.pb, w.ve + lo0, d);
    MulDistributes(w.pe - (w.ve + lo0), w.ve + lo0 - w.pb, d);
    MulAtLeast(w.pe - (w.ve + lo0), 0, d);
  }

  /** Every access of a staged window is in bounds. */
  lemma StageFits(b: BoundPlan, srcLen: int, total: int, windows: seq<Rows>, serialized: bool, c: nat)
    requires Stageable(b, srcLen, total, windows, serialized) && c < |windows|
    ensures Fits(StageMoves(b, windows[c]), srcLen, CopyCount(b, total, windows[c], serialized))
  {
    var w := windows[c];
    WindowInRange(b, srcLen, total, windows, serialized, c);
    AllFit(b, srcLen, total, windows, serialized);
    AllSplit(b, w.vb, w.ve);
    FitsPart(ChunkMoves(b, 0, 0, w.vb) + ChunkMoves(b, 0, w.vb, w.ve), ChunkMoves(b, 0, w.ve, b.extents[0]), srcLen, total);
    FitsPart(ChunkMoves(b, 0, 0, w.vb), ChunkMoves(b, 0, w.vb, w.ve), srcLen, total);
    Rebased(b, -w.pb * b.dstStrides[0], w.vb, w.ve);
    forall k | 0 <= k < |StageMoves(b, w)|
      ensures 0 <= StageMoves(b, w)[k].from < srcLen
      ensures 0 <= StageMoves(b, w)[k].to < CopyCount(b, total, w, serialized)
    {
      StageInWindow(b, srcLen, total, windows, serialized, c, k);
    }
  }

  // ---- a staged window and the whole plan agree --------------------------------------------------

  lemma NoWrites(ms: seq<Move>, o: int)
    requires forall k :: 0 <= k < |ms| ==> ms[k].to != o
    ensures LastWrite(ms, o).None?
  {
    LastWriteIs(ms, o);
  }

  /** Rows outside a window write outside it. */
  lemma OutsideWindow(b: BoundPlan, w: Rows, begin: int, end: int, g: int)
    requires b.WellFormed() && NonNegative(b.dstStrides) && RowsDisjoint(b) && RowsOf(b, w)
    requires 0 <= begin <= end <= b.extents[0] && (end <= w.vb || w.ve <= begin)
    requires w.pb * b.dstStrides[0] <= g < w.pe * b.dstStrides[0]
    ensures LastWrite(ChunkMoves(b, 0, begin, end), g).None?
  {
    var d, lo0 := b.dstStrides[0], b.Lo()[0];
    forall k | 0 <= k < |ChunkMoves(b, 0, begin, end)| ensures ChunkMoves(b, 0, begin, end)[k].to != g {
      if begin == end {
        NoRows(b, 0, begin);
      }
      assert begin < end;
      PhysicalTargets(b, 0, begin, end, k);
      if end <= w.vb {
        MulDistributes(w.pb - (end + lo0), end + lo0, d);
        MulAtLeast(w.pb - (end + lo0), 0, d);
      } else {
        MulDistributes(begin + lo0 - w.pe, w.pe, d);
        MulAtLeast(begin + lo0 - w.pe, 0, d);
      }
    }
    NoWrites(ChunkMoves(b, 0, begin, end), g);
  }

  /** Inside a window, the last write of the whole plan is the last write of the staged rows. */
  lemma WindowLastWrite(b: BoundPlan, srcLen: int, total: int, windows: seq<Rows>, serialized: bool, c: nat, o: int)
    requires Stageable(b, srcLen, total, windows, serialized) && c < |windows|
    requires 0 <= o < CopyCount(b, total, windows[c], serialized)
    ensures LastWrite(AllMoves(b), DeviceAt(b, windows[c], o)) == LastWrite(StageMoves(b, windows[c]), o)
  {
    var w, d := windows[c], b.dstStrides[0];
    var g := DeviceAt(b, w, o);
    if serialized {
      assert -w.pb * d == 0 && g == o;
      assert StageMoves(b, w) == AllMoves(b);
    } else {
      assert RowsOf(b, w);
      MulDistributes(w.pe - w.pb, w.pb, d);
      assert g - w.pb * d == o && w.pb * d <= g < w.pe * d;
      var lo0 := b.Lo()[0];
      assert 0 <= w.vb <= w.ve <= b.extents[0];
      hide *;
      OwnRowsLast(b, w, g);
      assert -w.pb * d == -(w.pb * d);
      assert StageMoves(b, w) == ChunkMoves(b, -w.pb * d, w.vb, w.ve) by { StageMovesAre(b, w); }
      Rebased(b, -w.pb * d, w.vb, w.ve);
      LastWriteShifted(ChunkMoves(b, 0, w.vb, w.ve), StageMoves(b, w), -w.pb * d, g);
    }
  }

  lemma StageMovesAre(b: BoundPlan, w: Rows)
    requires Shaped(b)
    ensures StageMoves(b, w) == ChunkMoves(b, -w.pb * b.dstStrides[0], w.vb, w.ve)
  {
  }

  /** Inside a window only its own rows write. */
  lemma OwnRowsLast(b: BoundPlan, w: Rows, g: int)
    requires b.WellFormed() && NonNegative(b.dstStrides) && RowsDisjoint(b) && RowsOf(b, w)
    requires 0 <= w.vb <= w.ve <= b.extents[0]
    requires w.pb * b.dstStrides[0] <= g < w.pe * b.dstStrides[0]
    ensures LastWrite(AllMoves(b), g) == LastWrite(ChunkMoves(b, 0, w.vb, w.ve), g)
  {
    var before, own := ChunkMoves(b, 0, 0, w.vb), ChunkMoves(b, 0, w.vb, w.ve);
    var after := ChunkMoves(b, 0, w.ve, b.extents[0]);
    AllSplit(b, w.vb, w.ve);
    OutsideWindow(b, w, 0, w.vb, g);
    OutsideWindow(b, w, w.ve, b.extents[0], g);
    hide *;
    LastWriteConcat(before + own, after, g);
    LastWriteConcat(before, own, g);
  }

  /** Every element of the destination that the plan writes is in some window. */
  lemma WrittenIsCopied(b: BoundPlan, srcLen: int, total: int, windows: seq<Rows>, serialized: bool, g: int)
    returns (c: nat)
    requires Stageable(b, srcLen, total, windows, serialized)
    requires LastWrite(AllMoves(b), g).Some? || (!serialized && 0 <= g < b.Padded()[0] * b.dstStrides[0])
             || (serialized && 0 <= g < total)
    ensures c < |windows|
    ensures 0 <= g - windows[c].pb * b.dstStrides[0] < CopyCount(b, total, windows[c], serialized)
  {
    var d := b.dstStrides[0];
    LastWriteIs(AllMoves(b), g);
    AllFit(b, srcLen, total, windows, serialized);
    if serialized {
      c := 0;
      assert windows[0].pb * d == 0;
    } else {
      if LastWrite(AllMoves(b), g).Some? {
        WrittenInRows(b, g);
      }
      HeadDigit(g, b.Padded()[0], d);
      var i := g / d;
      assert InSomeWindow(windows, i);
      c :| 0 <= c < |windows| && Contains(windows[c], i);
      var w := windows[c];
      MulDistributes(i - w.pb, w.pb, d);
      DigitBounds(i - w.pb, w.pe - w.pb, d, g % d);
    }
  }

  lemma WrittenInRows(b: BoundPlan, g: int)
    requires b.WellFormed() && NonNegative(b.dstStrides) && RowsDisjoint(b) && LastWrite(AllMoves(b), g).Some?
    ensures 0 <= g < b.Padded()[0] * b.dstStrides[0]
  {
    var d, lo0, e0, p0 := b.dstStrides[0], b.Lo()[0], b.extents[0], b.Padded()[0];
    var k := LastWriteAt(AllMoves(b), g);
    PhysicalTargets(b, 0, 0, e0, k);
    BoxInPadded(b);
    MulAtLeast(lo0, 0, d);
    MulDistributes(p0 - (e0 + lo0), e0 + lo0, d);
    MulAtLeast(p0 - (e0 + lo0), 0, d);
  }

  // ---- the staging ring and the work left ---------------------------------------------------------

  /** Ring position of the c-th acquire. */
  function RingSlot(first: nat, slots: nat, c: nat): nat
    requires slots > 0
  {
    (first + c) % slots
  }

  /** Fewer than a ring's length apart, acquires get different buffers. */
  lemma ApartInRing(first: nat, slots: nat, c: nat, d: nat)
    requires c < d < c + slots
    ensures RingSlot(first, slots, c) != RingSlot(first, slots, d)
  {
    var a, b, n := first + c, first + d, slots;
    var q, r := a / n, b / n;
    MulDistributes(r - q, q, n);
    assert b - a == (r - q) * n + (b % n - a % n);
    if r - q >= 1 {
      MulAtLeast(r - q, 1, n);
    } else {
      MulAtLeast(q - r, 0, n);
      MulDistributes(r - q, q - r, n);
    }
  }

  /** How many of the first n elements have not landed. */
  function Missing(n: int, landed: set<int>): (m: int)
    ensures 0 <= m <= Max(n, 0)
  {
    if n <= 0 then 0 else Missing(n - 1, landed) + if n - 1 in landed then 0 else 1
  }

  lemma {:induction false} OneLands(n: int, landed: set<int>, o: int)
    requires 0 <= o && o !in landed
    ensures Missing(n, landed + {o}) == Missing(n, landed) - if o < n then 1 else 0
  {
    if n > 0 {
      OneLands(n - 1, landed, o);
    }
  }

  function SumOf(work: seq<int>): (total: int)
    ensures (forall i :: 0 <= i < |work| ==> work[i] >= 0) ==> total >= 0
  {
    if work == [] then 0 else work[0] + SumOf(work[1..])
  }

  lemma {:induction false} SumOfUpdate(work: seq<int>, i: nat, x: int)
    requires i < |work|
    ensures SumOf(work[i := x]) == SumOf(work) - work[i] + x
  {
    if i == 0 {
      assert work[i := x][1..] == work[1..];
    } else {
      assert work[i := x][1..] == work[1..][i - 1 := x];
      SumOfUpdate(work[1..], i - 1, x);
    }
  }

  // ---- which schedules are stageable ------------------------------------------------------------------

  /** A packed plan with any windows that tile it. */
  lemma CanonicalStageable(b: BoundPlan, srcLen: int, windows: seq<Rows>)
    requires b.Canonical() && b.ReadsWithin(srcLen) && Tiles(b, windows)
    ensures Stageable(b, srcLen, Product(b.Padded()), windows, false)
    ensures b.Padded()[0] * b.dstStrides[0] == Product(b.Padded())
  {
    CanonicalDisjoint(b);
    PaddedPositive(b);
    ProductPositive(b.Padded());
  }

  /** The windows of a list of chunks. */
  function WindowsOf(chunks: seq<Chunk>): (windows: seq<Rows>)
    ensures |windows| == |chunks|
  {
    seq(|chunks|, c requires 0 <= c < |chunks| => chunks[c].rows)
  }

  lemma CutStageable(b: BoundPlan, per: int, chunks: seq<Chunk>, srcLen: int, total: int)
    requires Schedulable(b) && RowsDisjoint(b) && b.ReadsWithin(srcLen)
    requires 1 <= per <= b.Padded()[0] && |chunks| == CeilDiv(b.Padded()[0], per)
    requires forall c :: 0 <= c < |chunks| ==> chunks[c] == ChunkAt(b, per, c)
    requires 0 <= total && b.Padded()[0] * b.dstStrides[0] <= total
    ensures Stageable(b, srcLen, total, WindowsOf(chunks), false)
  {
    ScheduleTiles(b, per, chunks);
    hide CeilDiv;
    hide ChunkAt;
    hide Tiles;
    hide RowsDisjoint;
  }

  /** What a chunk copies, in bytes. */
  lemma ScheduleBytes(b: BoundPlan, nBuffers: int, override_: nat, s: ChunkSchedule, total: int)
    requires Schedulable(b) && IsScheduleOf(s, b, nBuffers, override_)
    requires !s.serialized || b.totalBytes == total * b.elementSize
    ensures forall c :: 0 <= c < |s.chunks| ==>
              && s.chunks[c].byteOffset == DeviceAt(b, s.chunks[c].rows, 0) * b.elementSize
              && s.chunks[c].bytes == CopyCount(b, total, s.chunks[c].rows, s.serialized) * b.elementSize
  {
    forall c | 0 <= c < |s.chunks|
      ensures s.chunks[c].byteOffset == DeviceAt(b, s.chunks[c].rows, 0) * b.elementSize
      ensures s.chunks[c].bytes == CopyCount(b, total, s.chunks[c].rows, s.serialized) * b.elementSize
    {
      var w := s.chunks[c].rows;
      MulAssoc(w.pb, b.dstStrides[0], b.elementSize);
      MulAssoc(w.pe - w.pb, b.dstStrides[0], b.elementSize);
    }
  }

  /** Whatever planChunks returns, for a destination of `total` elements that is large
      enough for the plan. */
  lemma ScheduleStageable(b: BoundPlan, nBuffers: int, override_: nat, s: ChunkSchedule, srcLen: int, total: int)
    requires Schedulable(b) && IsScheduleOf(s, b, nBuffers, override_)
    requires 0 <= total && Fits(AllMoves(b), srcLen, total)
    requires !s.serialized ==> b.Padded()[0] * b.dstStrides[0] <= total
    ensures Stageable(b, srcLen, total, WindowsOf(s.chunks), s.serialized)
    ensures !s.serialized || b.totalBytes == total * b.elementSize ==>
              forall c :: 0 <= c < |s.chunks| ==>
                && s.chunks[c].byteOffset == DeviceAt(b, s.chunks[c].rows, 0) * b.elementSize
                && s.chunks[c].bytes == CopyCount(b, total, s.chunks[c].rows, s.serialized) * b.elementSize
  {
    if !s.serialized || b.totalBytes == total * b.elementSize {
      ScheduleBytes(b, nBuffers, override_, s, total);
    }
    if s.serialized {
      hide AllMoves;
      hide Fits;
      assert s.chunks[0].rows == AllRows(b);
      assert WindowsOf(s.chunks) == [AllRows(b)];
    } else {
      FitsReads(b, srcLen, total);
      hide Stageable;
      hide RowsPerChunk;
      hide ChunkAt;
      hide AllMoves;
      CutStageable(b, RowsPerChunk(b, nBuffers, override_), s.chunks, srcLen, total);
    }
  }
}
