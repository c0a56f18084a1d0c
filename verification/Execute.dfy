/** Whole-plan execution: H2D, threaded H2D and the D2H inverse. */
module Execute {
  import opened Common
  import opened MixedRadix
  import opened Relocation
  import opened Plan
  import opened Executor
  import opened Gather
  import opened Scatter
  import opened Interleaving

  // ---- every access of a canonical plan is in bounds --------------------------

  lemma WindowFits(b: BoundPlan, w: Rows, srcLen: int, dstLen: int)
    requires b.Canonical() && b.ReadsWithin(srcLen) && RowsOf(b, w) && Elements(b, w) <= dstLen
    requires w.vb < w.ve
    ensures Fits(StageMoves(b, w), srcLen, dstLen)
  {
    WindowIsBlock(b, w);
    BlockShape(b, w);
    var ext, lo, pad, ss := BoxOf(b, w), OriginOf(b, w), BlockOf(b, w), b.srcStrides;
    var ms := StageMoves(b, w);
    forall k | 0 <= k < |ms| ensures 0 <= ms[k].from < srcLen && 0 <= ms[k].to < dstLen {
      var idx := BlockMoveTarget(ext, lo, pad, ss, w.vb * ss[0], k);
      WholeIndex(b, w, idx);
    }
  }

  /** Row i of the window is row vb + i of the plan. */
  lemma WholeIndex(b: BoundPlan, w: Rows, idx: seq<int>)
    requires b.WellFormed() && 0 <= w.vb < w.ve <= b.extents[0] && InRange(idx, BoxOf(b, w))
    ensures var whole := [w.vb + idx[0]] + idx[1..];
            && InRange(whole, b.extents)
            && Dot(whole, b.srcStrides) == w.vb * b.srcStrides[0] + Dot(idx, b.srcStrides)
  {
    var box, whole := BoxOf(b, w), [w.vb + idx[0]] + idx[1..];
    assert whole[1..] == idx[1..];
    MulDistributes(w.vb, idx[0], b.srcStrides[0]);
    forall i | 0 <= i < |whole| ensures 0 <= whole[i] < b.extents[i] {
      assert i > 0 ==> box[i] == b.extents[i] && whole[i] == idx[i];
    }
  }

  /** All physical rows. */
  function AllRows(b: BoundPlan): Rows
    requires b.extents != []
  {
    Rows(0, b.Padded()[0], 0, b.extents[0])
  }

  lemma AllRowsOf(b: BoundPlan)
    requires b.Canonical()
    ensures RowsOf(b, AllRows(b)) && Elements(b, AllRows(b)) == Product(b.Padded())
    ensures StageMoves(b, AllRows(b)) == ChunkMoves(b, 0, 0, b.extents[0])
  {
    BoxInPadded(b);
    assert b.Lo()[0] + b.extents[0] <= b.Padded()[0];
    assert 0 <= b.Lo()[0];
    assert -0 * b.dstStrides[0] == 0;
  }

  /** fillDst, then all moves of the plan, give the image the plan denotes. */
  lemma WholeImage(b: BoundPlan, src: seq<int>, before: seq<int>, after: seq<int>)
    requires b.Canonical() && b.ReadsWithin(|src|) && |before| == Product(b.Padded())
    requires b.padRegions != [] ==> forall o :: 0 <= o < |before| ==> before[o] == b.Fill()
    ensures Fits(ChunkMoves(b, 0, 0, b.extents[0]), |src|, |before|)
    ensures after == Apply(ChunkMoves(b, 0, 0, b.extents[0]), src, before) ==> after == Image(b, src)
  {
    var w := AllRows(b);
    AllRowsOf(b);
    WindowFits(b, w, |src|, |before|);
    if after == Apply(ChunkMoves(b, 0, 0, b.extents[0]), src, before) {
      WindowImage(b, src, w, before, after);
      assert w.pb * b.dstStrides[0] == 0;
      WindowSlice(b, w);
      assert after[..|after|] == after;
    }
  }

  // ---- H2D -----------------------------------------------------------------

  /** All moves of a plan, in the walker's order. */
  ghost function AllMoves(b: BoundPlan): seq<Move>
    requires Shaped(b)
  {
    ChunkMoves(b, 0, 0, b.extents[0])
  }

  /** The plan may run on buffers of these sizes: every access is in bounds. */
  ghost predicate Executable(b: BoundPlan, srcLen: int, dstLen: int) {
    && b.WellFormed() && Fits(AllMoves(b), srcLen, dstLen)
    && (b.padRegions != [] ==> Product(b.Padded()) <= dstLen)
  }

  /** The destination after fillDst. */
  ghost function Prefilled(b: BoundPlan, dst: seq<int>): (r: seq<int>)
    ensures |r| == |dst|
    ensures b.padRegions == [] ==> r == dst
    ensures b.padRegions != [] ==>
              forall o :: 0 <= o < |dst| ==> r[o] == if o < Product(b.Padded()) then b.Fill() else dst[o]
  {
    if b.padRegions == [] then dst else
      seq(|dst|, o requires 0 <= o < |dst| => if o < Product(b.Padded()) then b.Fill() else dst[o])
  }

  /** What executeH2D makes of a destination, whatever the plan's strides. */
  ghost function Executed(b: BoundPlan, src: seq<int>, dst: seq<int>): (r: seq<int>)
    requires Executable(b, |src|, |dst|)
    ensures |r| == |dst|
  {
    Apply(AllMoves(b), src, Prefilled(b, dst))
  }

  /** Each destination element holds the source element of the last cell, in row-major
      order, that maps to it; where no cell maps, the fill pattern or its old value. */
  lemma ExecutedAt(b: BoundPlan, src: seq<int>, dst: seq<int>, o: int)
    requires Executable(b, |src|, |dst|) && 0 <= o < |dst|
    ensures (exists k :: 0 <= k < |AllMoves(b)| && AllMoves(b)[k].to == o) ==>
              exists k :: && 0 <= k < |AllMoves(b)| && AllMoves(b)[k].to == o
                          && (forall l :: k < l < |AllMoves(b)| ==> AllMoves(b)[l].to != o)
                          && 0 <= AllMoves(b)[k].from < |src|
                          && Executed(b, src, dst)[o] == src[AllMoves(b)[k].from]
    ensures (forall k :: 0 <= k < |AllMoves(b)| ==> AllMoves(b)[k].to != o) ==>
              Executed(b, src, dst)[o] ==
              if b.padRegions != [] && o < Product(b.Padded())
              then b.padRegions[0].fillBits % Power(256, b.elementSize) else dst[o]
  {
    var ms := AllMoves(b);
    hide AllMoves;
    hide Apply;
    LastWriteIs(ms, o);
    ApplyIsLastWrite(ms, src, Prefilled(b, dst), o);
  }

  /** A physical cell that no move writes is filled exactly if it lies among the first
      Product(Padded()) elements, or already holds the pattern. */
  lemma PadCell(b: BoundPlan, src: seq<int>, dst: seq<int>, idx: seq<int>)
    requires Executable(b, |src|, |dst|) && b.padRegions != [] && InRange(idx, b.Padded())
    requires 0 <= Dot(idx, b.dstStrides) < |dst|
    requires forall k :: 0 <= k < |AllMoves(b)| ==> AllMoves(b)[k].to != Dot(idx, b.dstStrides)
    ensures var o := Dot(idx, b.dstStrides);
            Executed(b, src, dst)[o] == b.Fill() <==> o < Product(b.Padded()) || dst[o] == b.Fill()
  {
    ExecutedAt(b, src, dst, Dot(idx, b.dstStrides));
  }

  /** The moves of two cells. */
  lemma TwoCells(ss: int, ds: int, from: int, to: int)
    ensures Moves([2], [ss], [ds], from, to) == [Move(from, to), Move(from + ss, to + ds)]
  {
    assert [2][1..] == [] && [ss][1..] == [] && [ds][1..] == [];
    assert RowMoves([2], [ss], [ds], 1, 2, from, to) == [Move(from + ss, to + ds)];
  }

  /** The moves of row i of two rows of two cells. */
  lemma TwoByTwo(b: BoundPlan, i: int)
    requires b.extents == [2, 2] && |b.srcStrides| == |b.dstStrides| == 2
    ensures var from, to := i * b.srcStrides[0], Dot(b.Lo(), b.dstStrides) + i * b.dstStrides[0];
            ChunkMoves(b, 0, i, i + 1) == [Move(from, to), Move(from + b.srcStrides[1], to + b.dstStrides[1])]
  {
    var from, to := i * b.srcStrides[0], Dot(b.Lo(), b.dstStrides) + i * b.dstStrides[0];
    var ext, ss, ds := b.extents, b.srcStrides, b.dstStrides;
    assert ext[1..] == [2] && ss[1..] == [ss[1]] && ds[1..] == [ds[1]];
    TwoCells(ss[1], ds[1], from, to);
    assert RowMoves(ext, ss, ds, i + 1, i + 1, 0, Dot(b.Lo(), ds)) == [];
  }

  lemma TwoRows(b: BoundPlan)
    requires b.extents == [2, 2] && |b.srcStrides| == |b.dstStrides| == 2
    ensures AllMoves(b) == ChunkMoves(b, 0, 0, 1) + ChunkMoves(b, 0, 1, 2)
  {
    RowMovesConcat(b.extents, b.srcStrides, b.dstStrides, 0, 1, 2, 0, Dot(b.Lo(), b.dstStrides));
  }

  /** One row of two elements, two apart, and a trailing pad cell. */
  function Trailing(): BoundPlan {
    BoundPlan([2], [1], [2], [PadRegion(0, 0, 1, 7)], 4, 20, false)
  }

  lemma TrailingMoves()
    ensures Trailing().WellFormed() && Trailing().Padded() == [3] && Product([3]) == 3
    ensures AllMoves(Trailing()) == [Move(0, 0), Move(1, 2)]
    ensures Dot([2], Trailing().dstStrides) == 4
  {
    var b := Trailing();
    assert b.Padded() == [3] && b.Lo() == [0] && [3][1..] == [] && [2][1..] == [];
    assert Moves([], [], [], 0, 0) == [Move(0, 0)] && Moves([], [], [], 1, 2) == [Move(1, 2)];
  }

  /** The pad cell lies beyond the first three elements and keeps its old value. */
  lemma GappedPadKept(src: seq<int>, dst: seq<int>)
    requires |src| == 2 && |dst| == 5
    ensures var b := Trailing();
            && Executable(b, 2, 5) && InRange([2], b.Padded()) && Dot([2], b.dstStrides) == 4
            && Executed(b, src, dst)[4] == dst[4]
  {
    TrailingMoves();
    hide AllMoves;
    assert Executable(Trailing(), 2, 5);
    ExecutedAt(Trailing(), src, dst, 4);
  }

  lemma FitsReads(b: BoundPlan, srcLen: int, dstLen: int)
    requires b.WellFormed() && Fits(AllMoves(b), srcLen, dstLen)
    ensures b.ReadsWithin(srcLen)
  {
    var to := Dot(b.Lo(), b.dstStrides);
    var ms := AllMoves(b);
    forall idx | InRange(idx, b.extents) ensures 0 <= Dot(idx, b.srcStrides) < srcLen {
      BoxIsVisited(b.extents, b.srcStrides, b.dstStrides, 0, to, idx);
      assert ms[Dot(idx, PackedStrides(b.extents))].from == Dot(idx, b.srcStrides);
    }
  }

  lemma WholePlanFits(b: BoundPlan, srcLen: nat)
    requires b.Canonical() && b.ReadsWithin(srcLen)
    ensures Fits(AllMoves(b), srcLen, Product(b.Padded())) && Executable(b, srcLen, Product(b.Padded()))
  {
    AllRowsOf(b);
    WindowFits(b, AllRows(b), srcLen, Product(b.Padded()));
  }

  /** On a row-major packed destination the result is the image the plan denotes. */
  lemma ExecutedIsImage(b: BoundPlan, src: seq<int>, dst: seq<int>)
    requires b.Canonical() && |dst| == Product(b.Padded()) && Executable(b, |src|, |dst|)
    ensures b.ReadsWithin(|src|) && Executed(b, src, dst) == Image(b, src)
  {
    FitsReads(b, |src|, |dst|);
    WholeImage(b, src, Prefilled(b, dst), Executed(b, src, dst));
  }

  ghost function InitialFill(b: BoundPlan): (dst: seq<int>)
    requires b.Canonical()
    ensures |dst| == Product(b.Padded())
    ensures b.padRegions != [] ==> forall o :: 0 <= o < |dst| ==> dst[o] == b.Fill()
  {
    PaddedPositive(b);
    ProductPositive(b.Padded());
    seq(Product(b.Padded()), i => if b.padRegions != [] then b.Fill() else 0)
  }

  /** fillDst: the element count is the product of the padded extents. */
  method PhysicalCount(b: BoundPlan) returns (count: int)
    requires b.WellFormed()
    ensures count == Product(b.Padded()) >= 1
  {
    var padded := b.extents;
    var i := 0;
    while i < |b.padRegions|
      invariant 0 <= i <= |b.padRegions| && |padded| == |b.extents|
      invariant forall k :: 0 <= k < |padded| ==> padded[k] == b.extents[k] + PadWidth(b.padRegions[..i], k)
    {
      var p := b.padRegions[i];
      assert b.padRegions[..i + 1][..i] == b.padRegions[..i];
      padded := padded[p.axis := padded[p.axis] + (p.lo + p.hi)];
      i := i + 1;
    }
    assert b.padRegions[..i] == b.padRegions;
    assert padded == b.Padded();
    count := 1;
    i := 0;
    while i < |padded|
      invariant 0 <= i <= |padded| && count == Product(padded[..i])
    {
      assert padded[..i + 1] == padded[..i] + [padded[i]];
      ProductConcat(padded[..i], [padded[i]]);
      assert Product([padded[i]]) == padded[i] by { assert [padded[i]][1..] == []; }
      count := count * padded[i];
      i := i + 1;
    }
    assert padded[..i] == padded;
    PaddedPositive(b);
    ProductPositive(padded);
  }

  /** fillDst: splat the single pad pattern over the physical destination. */
  method FillDst(b: BoundPlan, dst: array<int>)
    requires b.WellFormed() && (b.padRegions != [] ==> Product(b.Padded()) <= dst.Length)
    modifies dst
    ensures dst[..] == Prefilled(b, old(dst[..]))
    ensures b.padRegions != [] ==> forall o :: 0 <= o < Product(b.Padded()) ==>
              dst[o] == b.padRegions[0].fillBits % Power(256, b.elementSize)
  {
    if b.padRegions == [] {
      return;
    }
    var bits := LowBytes(b.padRegions[0].fillBits, b.elementSize);
    LowBytesIs(b.padRegions[0].fillBits, b.elementSize);
    var count := PhysicalCount(b);
    var e := 0;
    while e < count
      invariant 0 <= e <= count <= dst.Length
      invariant forall o :: 0 <= o < e ==> dst[o] == bits
      invariant forall o :: e <= o < dst.Length ==> dst[o] == old(dst[o])
    {
      dst[e] := bits;
      e := e + 1;
    }
  }

  /** A pattern that fits the element size is in every pad element that is filled. */
  lemma PadsHoldPattern(b: BoundPlan, src: seq<int>, dst: seq<int>)
    requires Executable(b, |src|, |dst|)
    ensures b.padRegions != [] && b.padRegions[0].fillBits < Power(256, b.elementSize) ==>
              forall o :: 0 <= o < |dst| && o < Product(b.Padded()) && LastWrite(AllMoves(b), o).None? ==>
                Executed(b, src, dst)[o] == b.padRegions[0].fillBits
  {
    hide AllMoves;
    hide Executed;
    hide Product;
    if b.padRegions != [] && b.padRegions[0].fillBits < Power(256, b.elementSize) {
      forall o | 0 <= o < |dst| && o < Product(b.Padded()) && LastWrite(AllMoves(b), o).None?
        ensures Executed(b, src, dst)[o] == b.padRegions[0].fillBits
      {
        LastWriteIs(AllMoves(b), o);
        ExecutedAt(b, src, dst, o);
        LowBytesIs(b.padRegions[0].fillBits, b.elementSize);
      }
    }
  }

  method ExecuteH2D(b: BoundPlan, src: seq<int>, dst: array<int>)
    requires !b.typed && Executable(b, |src|, dst.Length)
    modifies dst
    ensures dst[..] == Executed(b, src, old(dst[..]))
    ensures b.padRegions != [] && b.padRegions[0].fillBits < Power(256, b.elementSize) ==>
              forall o :: 0 <= o < dst.Length && o < Product(b.Padded()) && LastWrite(AllMoves(b), o).None? ==>
                dst[o] == b.padRegions[0].fillBits
    ensures b.Canonical() && dst.Length == Product(b.Padded()) ==>
              b.ReadsWithin(|src|) && dst[..] == Image(b, src)
  {
    FillDst(b, dst);
    GatherChunk(b, src, dst, 0, 0, b.extents[0]);
    PadsHoldPattern(b, src, old(dst[..]));
    if b.Canonical() && dst.Length == Product(b.Padded()) {
      ExecutedIsImage(b, src, old(dst[..]));
    }
  }

  // ---- D2H ------------------------------------------------------------------

  /** executeD2H walks with the roles of the two stride vectors swapped. */
  function ScatterMoves(b: BoundPlan): seq<Move>
    requires Shaped(b)
  {
    RowMoves(b.extents, b.dstStrides, b.srcStrides, 0, b.extents[0], Dot(b.Lo(), b.dstStrides), 0)
  }

  lemma {:induction false} SwappedMoves(ext: seq<int>, ss: seq<int>, ds: seq<int>, from: int, to: int)
    requires |ext| == |ss| == |ds|
    ensures Moves(ext, ds, ss, to, from) == Reversed(Moves(ext, ss, ds, from, to))
    decreases |ext|, 1, 0
  {
    if ext != [] {
      SwappedRows(ext, ss, ds, 0, ext[0], from, to);
    }
  }

  lemma {:induction false} SwappedRows(ext: seq<int>, ss: seq<int>, ds: seq<int>, lo: int, hi: int, from: int, to: int)
    requires |ext| == |ss| == |ds| > 0
    ensures RowMoves(ext, ds, ss, lo, hi, to, from) == Reversed(RowMoves(ext, ss, ds, lo, hi, from, to))
    decreases |ext|, 0, hi - lo
  {
    if lo < hi {
      SwappedMoves(ext[1..], ss[1..], ds[1..], from + lo * ss[0], to + lo * ds[0]);
      SwappedRows(ext, ss, ds, lo + 1, hi, from, to);
    }
  }

  /** executeD2H performs exactly the swapped walk. */
  method ExecuteD2H(b: BoundPlan, dst: seq<int>, src: array<int>)
    requires !b.typed && b.WellFormed() && Fits(ScatterMoves(b), |dst|, src.Length)
    modifies src
    ensures src[..] == Apply(ScatterMoves(b), dst, old(src[..]))
  {
    ScatterIsReversed(b);
    ScatterChunk(b, dst, 0, src, 0, b.extents[0]);
  }

  lemma ScatterIsReversed(b: BoundPlan)
    requires Shaped(b)
    ensures ScatterMoves(b) == Reversed(AllMoves(b))
  {
    SwappedRows(b.extents, b.srcStrides, b.dstStrides, 0, b.extents[0], 0, Dot(b.Lo(), b.dstStrides));
  }
}
