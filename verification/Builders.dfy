/** The hand-authored workload plans of bench/rtrack/plans.h, for every n. */
module Builders {
  import opened MixedRadix
  import opened Relocation
  import opened Plan
  import opened Strides
  import opened Executor
  import opened Gather
  import opened Execute
  import opened Inverse
  import opened Int64
  import C = Coalesce

  function Dense(ext: seq<int>, ss: seq<int>, ds: seq<int>, n: int): BoundPlan {
    BoundPlan(ext, ss, ds, [], 4, n * n * 4, false)
  }

  function IdentityPlan(n: int): BoundPlan {
    Dense([n, n], [n, 1], [n, 1], n)
  }

  function TransposePlan(n: int): BoundPlan {
    Dense([n, n], [1, n], [n, 1], n)
  }

  function BlockedTransposePlan(n: int): BoundPlan
    requires n % 64 == 0
  {
    var m := n / 64;
    Dense([64, m, n], [n, 64 * n, 1], [n * m, n, 1], n)
  }

  function NchwToNhwcPlan(n: int): BoundPlan
    requires n % 64 == 0
  {
    var C, H, W := 64, 64, n / 64;
    Dense([n / 64, H, W, C], [C * H * W, W, 1, H * W], [H * W * C, W * C, C, 1], n)
  }

  // ---- low ranks unrolled -------------------------------------------------------------

  lemma Rank2(a: int, b: int)
    ensures Product([a, b]) == a * b && PackedStrides([a, b]) == [b, 1]
  {
    assert [a, b][1..] == [b] && [b][1..] == [];
    assert Product([b]) == b * Product([]);
    assert PackedStrides([b]) == [Product([])] + PackedStrides([]);
  }

  lemma Rank3(a: int, b: int, c: int)
    ensures Product([a, b, c]) == a * (b * c) && PackedStrides([a, b, c]) == [b * c, c, 1]
  {
    assert [a, b, c][1..] == [b, c];
    Rank2(b, c);
  }

  lemma Rank4(a: int, b: int, c: int, d: int)
    ensures Product([a, b, c, d]) == a * (b * (c * d)) && PackedStrides([a, b, c, d]) == [b * (c * d), c * d, d, 1]
  {
    assert [a, b, c, d][1..] == [b, c, d];
    Rank3(b, c, d);
  }

  lemma Dot3(a: int, b: int, c: int, x: int, y: int, z: int)
    ensures Dot([a, b, c], [x, y, z]) == a * x + b * y + c * z
  {
    assert [a, b, c][1..] == [b, c] && [x, y, z][1..] == [y, z];
    DotTwo([b, c], [y, z]);
  }

  lemma Dot4(a: int, b: int, c: int, d: int, x: int, y: int, z: int, w: int)
    ensures Dot([a, b, c, d], [x, y, z, w]) == a * x + b * y + c * z + d * w
  {
    assert [a, b, c, d][1..] == [b, c, d] && [x, y, z, w][1..] == [y, z, w];
    Dot3(b, c, d, y, z, w);
  }

  // ---- every builder: canonical destination, bijective source ----------------------------

  /** A builder's promise: packed destination, every one of the n * n source and
      destination elements used exactly once, and buffer sizing by maxSrcOffset. */
  ghost predicate Admissible(b: BoundPlan, n: int) {
    && b.Canonical() && b.padRegions == [] && b.elementSize == 4
    && Product(b.extents) == n * n
    && Bijective(b.extents, b.dstStrides, n * n)
    && Bijective(b.extents, b.srcStrides, n * n)
    && MaxOffset(b.extents, b.srcStrides) == n * n - 1
  }

  /** Largest reachable source element: the offset of the last cell, and with
      non-negative strides no cell reads beyond it. */
  method MaxSrcOffset(b: BoundPlan) returns (off: int)
    requires |b.extents| == |b.srcStrides| && Positive(b.extents)
    ensures off == MaxOffset(b.extents, b.srcStrides)
    ensures Hit(b.extents, b.srcStrides, off)
    ensures (forall k :: 0 <= k < |b.srcStrides| ==> b.srcStrides[k] >= 0) ==>
              forall idx :: InRange(idx, b.extents) ==> Dot(idx, b.srcStrides) <= off
  {
    ghost var last := LastIndex(b.extents);
    off := 0;
    var k := 0;
    while k < |b.extents|
      invariant 0 <= k <= |b.extents|
      invariant off == Dot(last[..k], b.srcStrides[..k])
    {
      DotSnoc(last, b.srcStrides, k);
      off := off + (b.extents[k] - 1) * b.srcStrides[k];
      k := k + 1;
    }
    assert last[..k] == last && b.srcStrides[..k] == b.srcStrides;
    assert InRange(last, b.extents);
    if forall k :: 0 <= k < |b.srcStrides| ==> b.srcStrides[k] >= 0 {
      forall idx | InRange(idx, b.extents) ensures Dot(idx, b.srcStrides) <= off {
        DotMonotone(idx, last, b.srcStrides);
      }
    }
  }

  /** A packed destination and source strides packed in axis order p: nothing else is needed. */
  lemma PermutedPlanAdmissible(b: BoundPlan, n: int, p: seq<int>)
    requires |b.extents| == |b.srcStrides| == |b.dstStrides| >= 1 && Positive(b.extents)
    requires b.padRegions == [] && b.elementSize == 4 && b.totalBytes == n * n * 4
    requires b.dstStrides == PackedStrides(b.extents) && Product(b.extents) == n * n
    requires IsPermutation(p, |b.extents|) && forall i :: 0 <= i < |p| ==> 0 <= p[i] < |b.extents|
    requires Permute(b.srcStrides, p) == PackedStrides(Permute(b.extents, p)) && Product(Permute(b.extents, p)) == n * n
    ensures Admissible(b, n)
  {
    NoPads(b);
    PackedBijective(b.extents);
    PermutedPackedIsBijective(b.extents, b.srcStrides, p);
    DotPermutes(LastIndex(b.extents), b.srcStrides, p);
    assert Permute(LastIndex(b.extents), p) == LastIndex(Permute(b.extents, p));
    LastPackedOffset(Permute(b.extents, p));
  }

  lemma IdentityAdmissible(n: int)
    requires n >= 1
    ensures Admissible(IdentityPlan(n), n)
  {
    var b, p := IdentityPlan(n), [0, 1];
    Rank2(n, n);
    assert UpTo(2) == p;
    assert Permute(b.extents, p) == [n, n] && Permute(b.srcStrides, p) == [n, 1];
    PermutedPlanAdmissible(b, n, p);
  }

  lemma TransposeAdmissible(n: int)
    requires n >= 1
    ensures Admissible(TransposePlan(n), n)
  {
    var b, p := TransposePlan(n), [1, 0];
    Rank2(n, n);
    assert UpTo(2) == [0, 1];
    assert Permute(b.extents, p) == [n, n] && Permute(b.srcStrides, p) == [n, 1];
    PermutedPlanAdmissible(b, n, p);
  }

  lemma BlockedSizes(n: int, m: int)
    requires n == 64 * m
    ensures 64 * (m * n) == n * n && m * (64 * n) == n * n && m * n == n * m
  {
    MulAssoc(64, m, n);
    MulAssoc(m, 64, n);
  }

  lemma BlockedDestination(n: int)
    requires n >= 64 && n % 64 == 0
    ensures var b := BlockedTransposePlan(n); b.dstStrides == PackedStrides(b.extents) && Product(b.extents) == n * n
  {
    BlockedSizes(n, n / 64);
    Rank3(64, n / 64, n);
  }

  lemma BlockedSource(n: int)
    requires n >= 64 && n % 64 == 0
    ensures var b, p := BlockedTransposePlan(n), [1, 0, 2];
            && Permute(b.srcStrides, p) == PackedStrides(Permute(b.extents, p))
            && Product(Permute(b.extents, p)) == n * n
  {
    var b, p, m := BlockedTransposePlan(n), [1, 0, 2], n / 64;
    BlockedSizes(n, m);
    Rank3(m, 64, n);
    assert Permute(b.extents, p) == [m, 64, n] && Permute(b.srcStrides, p) == [64 * n, n, 1];
  }

  lemma BlockedAdmissible(n: int)
    requires n >= 64 && n % 64 == 0
    ensures Admissible(BlockedTransposePlan(n), n)
  {
    BlockedDestination(n);
    BlockedSource(n);
    assert UpTo(3) == [0, 1, 2];
    hide PackedStrides;
    hide Product;
    PermutedPlanAdmissible(BlockedTransposePlan(n), n, [1, 0, 2]);
  }

  lemma NchwSizes(n: int, m: int)
    requires n == 64 * m
    ensures m * (64 * (m * 64)) == n * n && m * (64 * (64 * m)) == n * n
  {
    assert n * n == 64 * m * (64 * m) == 4096 * (m * m);
  }

  lemma NchwDestination(n: int)
    requires n >= 64 && n % 64 == 0
    ensures var b := NchwToNhwcPlan(n); b.dstStrides == PackedStrides(b.extents) && Product(b.extents) == n * n
  {
    var m := n / 64;
    NchwSizes(n, m);
    Rank4(m, 64, m, 64);
  }

  lemma NchwSource(n: int)
    requires n >= 64 && n % 64 == 0
    ensures var b, p := NchwToNhwcPlan(n), [0, 3, 1, 2];
            && Permute(b.srcStrides, p) == PackedStrides(Permute(b.extents, p))
            && Product(Permute(b.extents, p)) == n * n
  {
    var b, p, m := NchwToNhwcPlan(n), [0, 3, 1, 2], n / 64;
    NchwSizes(n, m);
    Rank4(m, 64, 64, m);
    assert Permute(b.extents, p) == [m, 64, 64, m];
    assert Permute(b.srcStrides, p) == [64 * 64 * m, 64 * m, m, 1];
  }

  lemma NchwAdmissible(n: int)
    requires n >= 64 && n % 64 == 0
    ensures Admissible(NchwToNhwcPlan(n), n)
  {
    NchwDestination(n);
    NchwSource(n);
    assert UpTo(4) == [0, 1, 2, 3];
    hide PackedStrides;
    hide Product;
    PermutedPlanAdmissible(NchwToNhwcPlan(n), n, [0, 3, 1, 2]);
  }

  // ---- the independent index-math oracles --------------------------------------------------

  lemma TransposeOracle(n: int, i: int, j: int)
    ensures Dot([i, j], TransposePlan(n).dstStrides) == i * n + j
    ensures Dot([i, j], TransposePlan(n).srcStrides) == j * n + i
  {
    DotTwo([i, j], [n, 1]);
    DotTwo([i, j], [1, n]);
  }

  /** Destination (a, bq, j) of the blocked plan reads view element (bq, a, j / m, j % m). */
  lemma BlockedOracle(n: int, a: int, bq: int, j: int)
    requires n >= 64 && n % 64 == 0
    ensures var m := n / 64;
            Dot([a, bq, j], BlockedTransposePlan(n).srcStrides) == bq * 64 * n + a * n + (j / m) * m + j % m
  {
    var m := n / 64;
    Dot3(a, bq, j, n, 64 * n, 1);
    MulAssoc(bq, 64, n);
  }

  lemma NchwOracle(n: int, bb: int, h: int, w: int, c: int)
    requires n % 64 == 0
    ensures var C, H, W := 64, 64, n / 64;
            && Dot([bb, h, w, c], NchwToNhwcPlan(n).dstStrides) == ((bb * H + h) * W + w) * C + c
            && Dot([bb, h, w, c], NchwToNhwcPlan(n).srcStrides) == ((bb * C + c) * H + h) * W + w
  {
    var W := n / 64;
    Dot4(bb, h, w, c, 64 * W * 64, W * 64, 64, 1);
    Dot4(bb, h, w, c, 64 * 64 * W, W, 1, 64 * W);
    MulDistributes(bb * 64, h, W);
    MulDistributes((bb * 64 + c) * 64, h, W);
    assert bb * (64 * W * 64) == 4096 * (bb * W) && bb * (64 * 64 * W) == 4096 * (bb * W);
    assert h * (W * 64) == 64 * (h * W) && c * (64 * W) == 64 * (c * W);
    assert (bb * 64 + c) * 64 * W == 4096 * (bb * W) + 64 * (c * W);
    assert bb * 64 * W == 64 * (bb * W);
  }

  // ---- what the plans do ---------------------------------------------------------------------

  lemma AdmissibleReads(b: BoundPlan, n: int)
    requires Admissible(b, n)
    ensures b.ReadsWithin(n * n) && Product(b.Padded()) == n * n
  {
    NoPads(b);
  }

  /** Relocating and scattering back restores the whole source. */
  lemma BuilderRoundTrip(b: BoundPlan, n: int, src: seq<int>, out: seq<int>)
    requires Admissible(b, n) && |src| == |out| == n * n
    ensures b.ReadsWithin(|src|) && Fits(ScatterMoves(b), Product(b.Padded()), |out|)
    ensures Apply(ScatterMoves(b), Image(b, src), out) == src
  {
    AdmissibleReads(b, n);
    ImageRoundTrip(b, src, out);
    forall o | 0 <= o < |src| ensures Apply(ScatterMoves(b), Image(b, src), out)[o] == src[o] {
      assert Hit(b.extents, b.srcStrides, o);
    }
  }

  /** Element i * n + j of the transposed image is source element j * n + i. */
  lemma TransposeImageAt(n: int, src: seq<int>, i: int, j: int)
    requires n >= 1 && |src| == n * n && 0 <= i < n && 0 <= j < n
    ensures TransposePlan(n).Canonical() && TransposePlan(n).ReadsWithin(|src|)
    ensures 0 <= i * n + j < n * n && 0 <= j * n + i < n * n
    ensures |Image(TransposePlan(n), src)| == n * n
    ensures Image(TransposePlan(n), src)[i * n + j] == src[j * n + i]
  {
    var b := TransposePlan(n);
    TransposeAdmissible(n);
    AdmissibleReads(b, n);
    NoPads(b);
    DigitBounds(i, n, n, j);
    DigitBounds(j, n, n, i);
    SquareUnrank(n, i, j);
    TransposeOracle(n, i, j);
    assert Inside([i, j], b.Lo(), b.extents);
    assert Minus([i, j], b.Lo()) == [i, j];
    hide Unrank;
    hide Dot;
    hide Product;
    assert b.Padded() == [n, n];
    assert ImageAt(b, src, i * n + j) == src[j * n + i];
  }

  lemma SquareUnrank(n: int, i: int, j: int)
    requires 0 <= i < n && 0 <= j < n
    ensures Positive([n, n]) && 0 <= i * n + j < Product([n, n])
    ensures Unrank(i * n + j, [n, n]) == [i, j]
  {
    DigitBounds(i, n, n, j);
    DivModUnique(i, j, n);
    RankTwoUnrank(i * n + j, n, n);
  }

  /** Transposing twice is the identity. */
  lemma TransposeTwice(n: int, src: seq<int>)
    requires n >= 1 && |src| == n * n
    ensures TransposePlan(n).Canonical() && TransposePlan(n).ReadsWithin(n * n)
    ensures |Image(TransposePlan(n), src)| == n * n
    ensures Image(TransposePlan(n), Image(TransposePlan(n), src)) == src
  {
    hide ImageAt;
    hide Image;
    hide TransposePlan;
    hide PackedStrides;
    hide Dot;
    TransposeImageAt(n, src, 0, 0);
    var once := Image(TransposePlan(n), src);
    TransposeImageAt(n, once, 0, 0);
    var twice := Image(TransposePlan(n), once);
    forall o | 0 <= o < n * n ensures twice[o] == src[o] {
      HeadDigit(o, n, n);
      TransposeImageAt(n, once, o / n, o % n);
      TransposeImageAt(n, src, o % n, o / n);
    }
    assert twice == src;
  }

  // ---- the blocked plan is the coalesced view transpose -----------------------------------------

  /** x.view(n/64, 64, 64, n/64).transpose(0, 1): rank 4, destination order (a, bq, c, d). */
  function ViewTransposeAxes(n: int): seq<C.Axis> {
    var m := n / 64;
    [C.Axis(64, n, m * (64 * m), false, 0, 0),
     C.Axis(m, 64 * n, 64 * m, false, 0, 0),
     C.Axis(64, m, m, false, 0, 0),
     C.Axis(m, 1, 1, false, 0, 0)]
  }

  function AxesOf(b: BoundPlan): seq<C.Axis>
    requires |b.extents| == |b.srcStrides| == |b.dstStrides|
  {
    seq(|b.extents|, k requires 0 <= k < |b.extents| =>
      C.Axis(b.extents[k], b.srcStrides[k], b.dstStrides[k], false, 0, 0))
  }

  /** bind() reduces the rank-4 view transpose to exactly the authored rank-3 plan:
      one merge, of (c, d), after which no pair can merge; every move is kept. */
  lemma BlockedIsCoalescedView(n: int)
    requires n >= 64 && n % 64 == 0 && InInt64(n)
    ensures C.DstStrides(ViewTransposeAxes(n)) == PackedStrides(C.Extents(ViewTransposeAxes(n)))
    ensures forall k :: 0 <= k < 3 ==>
              (C.Mergeable(ViewTransposeAxes(n)[k], ViewTransposeAxes(n)[k + 1]) <==> k == 2)
    ensures C.MergeAt(ViewTransposeAxes(n), 2) == AxesOf(BlockedTransposePlan(n))
    ensures forall k :: 0 <= k < 2 ==>
              !C.Mergeable(AxesOf(BlockedTransposePlan(n))[k], AxesOf(BlockedTransposePlan(n))[k + 1])
    ensures C.AxisMoves(ViewTransposeAxes(n)) == C.AxisMoves(AxesOf(BlockedTransposePlan(n)))
  {
    var m, axes := n / 64, ViewTransposeAxes(n);
    Rank4(64, m, 64, m);
    assert C.Extents(axes) == [64, m, 64, m];
    assert C.DstStrides(axes) == [m * (64 * m), 64 * m, m, 1];
    OuterAxesApart(n, m);
    MergedIsBlocked(n);
    C.MergePreservesMeaning(axes, 2);
  }

  /** The outer axes of the view transpose are not contiguous in the source. */
  lemma OuterAxesApart(n: int, m: int)
    requires n == 64 * m && m >= 1
    ensures 64 * n * m != n && 64 * n != m * 64 && 64 * n != 1 * n
  {
    MulAtLeast(m, 1, 64 * n);
  }

  lemma MergedIsBlocked(n: int)
    requires n >= 64 && n % 64 == 0
    ensures C.MergeAt(ViewTransposeAxes(n), 2) == AxesOf(BlockedTransposePlan(n))
  {
    var m, merged, rank3 := n / 64, C.MergeAt(ViewTransposeAxes(n), 2), AxesOf(BlockedTransposePlan(n));
    BlockedSizes(n, m);
    assert |merged| == 3 && |rank3| == 3;
    assert merged[0] == C.Axis(64, n, m * n, false, 0, 0) == rank3[0];
    assert merged[1] == rank3[1] && merged[2] == rank3[2];
  }
}
