/** bind()'s axis coalescing: merging adjacent axes that are contiguous on both
    sides changes the plan's shape but not one move it makes, nor their order.
 */
module Coalesce {
  import opened MixedRadix
  import opened Relocation
  import opened Int64

  datatype Axis = Axis(extent: int, srcStride: int, dstStride: int, padded: bool, lo: int, hi: int)

  function Extents(axes: seq<Axis>): (s: seq<int>)
    ensures |s| == |axes|
  {
    seq(|axes|, k requires 0 <= k < |axes| => axes[k].extent)
  }

  function SrcStrides(axes: seq<Axis>): (s: seq<int>)
    ensures |s| == |axes|
  {
    seq(|axes|, k requires 0 <= k < |axes| => axes[k].srcStride)
  }

  function DstStrides(axes: seq<Axis>): (s: seq<int>)
    ensures |s| == |axes|
  {
    seq(|axes|, k requires 0 <= k < |axes| => axes[k].dstStride)
  }

  function Leading(axes: seq<Axis>): (s: seq<int>)
    ensures |s| == |axes|
  {
    seq(|axes|, k requires 0 <= k < |axes| => if axes[k].padded then axes[k].lo else 0)
  }

  /** All moves of the axes, in the walker's order, leading pads included. */
  ghost function AxisMoves(axes: seq<Axis>): seq<Move> {
    Moves(Extents(axes), SrcStrides(axes), DstStrides(axes), 0, Dot(Leading(axes), DstStrides(axes)))
  }

  ghost predicate Extended(axes: seq<Axis>) {
    forall k :: 0 <= k < |axes| ==> axes[k].extent >= 1
  }

  /** The guard of the merge: neither axis padded, all products representable,
      and the outer strides continue the inner ones. */
  predicate Mergeable(o: Axis, i: Axis) {
    && !o.padded && !i.padded
    && InInt64(i.srcStride * i.extent) && InInt64(i.dstStride * i.extent) && InInt64(o.extent * i.extent)
    && o.srcStride == i.srcStride * i.extent && o.dstStride == i.dstStride * i.extent
  }

  function Merge(o: Axis, i: Axis): Axis {
    Axis(o.extent * i.extent, i.srcStride, i.dstStride, false, 0, 0)
  }

  function MergeAt(axes: seq<Axis>, k: nat): seq<Axis>
    requires k + 1 < |axes|
  {
    axes[..k] + [Merge(axes[k], axes[k + 1])] + axes[k + 2..]
  }

  // ---- one merge -----------------------------------------------------------------

  /** The rows of a merged axis, `count` outer steps from outer step c on. */
  lemma {:induction false} MergedRows(oe: int, ie: int, ext: seq<int>, s: int, d: int, ss: seq<int>, ds: seq<int>,
                                      c: int, from: int, to: int)
    requires |ext| == |ss| == |ds| && ie >= 1 && 0 <= c <= oe
    ensures RowMoves([oe * ie] + ext, [s] + ss, [d] + ds, c * ie, oe * ie, from, to)
         == RowMoves([oe, ie] + ext, [s * ie, s] + ss, [d * ie, d] + ds, c, oe, from, to)
    decreases oe - c
  {
    var mext, mss, mds := [oe * ie] + ext, [s] + ss, [d] + ds;
    var ext', ss', ds' := [oe, ie] + ext, [s * ie, s] + ss, [d * ie, d] + ds;
    if c < oe {
      MulDistributes(c, 1, ie);
      MulDistributes(oe - c - 1, c + 1, ie);
      MulAtLeast(oe - c - 1, 0, ie);
      RowMovesConcat(mext, mss, mds, c * ie, c * ie + ie, oe * ie, from, to);
      MergedRows(oe, ie, ext, s, d, ss, ds, c + 1, from, to);
      // The inner axis of outer step c is the merged axis over [c * ie, c * ie + ie).
      var iext, iss, ids := ext'[1..], ss'[1..], ds'[1..];
      assert iext == [ie] + ext && iss == [s] + ss && ids == [d] + ds;
      RowMovesShift(iext, iss, ids, 0, ie, c * ie, from, to);
      OuterStep(c, s, ie);
      OuterStep(c, d, ie);
      assert mext[1..] == iext[1..];
      RowMovesInner(iext, mext, iss, ids, c * ie, c * ie + ie, from, to);
    }
  }

  lemma OuterStep(c: int, s: int, ie: int)
    ensures c * (s * ie) == (c * ie) * s
  {
    MulAssoc(c, ie, s);
  }

  /** Merging the two outermost axes keeps every move. */
  lemma MergeHead(o: Axis, i: Axis, ext: seq<int>, ss: seq<int>, ds: seq<int>, from: int, to: int)
    requires Mergeable(o, i) && o.extent >= 1 && i.extent >= 1 && |ext| == |ss| == |ds|
    ensures Moves([o.extent, i.extent] + ext, [o.srcStride, i.srcStride] + ss, [o.dstStride, i.dstStride] + ds, from, to)
         == Moves([o.extent * i.extent] + ext, [i.srcStride] + ss, [i.dstStride] + ds, from, to)
  {
    MergedRows(o.extent, i.extent, ext, i.srcStride, i.dstStride, ss, ds, 0, from, to);
    assert 0 * i.extent == 0;
  }

  lemma {:induction false} MergeKeepsMovesAt(axes: seq<Axis>, k: nat, from: int, to: int)
    requires Extended(axes) && k + 1 < |axes| && Mergeable(axes[k], axes[k + 1])
    ensures var m := MergeAt(axes, k);
            Moves(Extents(m), SrcStrides(m), DstStrides(m), from, to) ==
            Moves(Extents(axes), SrcStrides(axes), DstStrides(axes), from, to)
    decreases k, 1, 0
  {
    var m := MergeAt(axes, k);
    if k == 0 {
      var rest := axes[2..];
      MergeHead(axes[0], axes[1], Extents(rest), SrcStrides(rest), DstStrides(rest), from, to);
      assert Extents(axes) == [axes[0].extent, axes[1].extent] + Extents(rest);
      assert SrcStrides(axes) == [axes[0].srcStride, axes[1].srcStride] + SrcStrides(rest);
      assert DstStrides(axes) == [axes[0].dstStride, axes[1].dstStride] + DstStrides(rest);
      assert Extents(m) == [axes[0].extent * axes[1].extent] + Extents(rest);
      assert SrcStrides(m) == [axes[1].srcStride] + SrcStrides(rest);
      assert DstStrides(m) == [axes[1].dstStride] + DstStrides(rest);
    } else {
      MergeKeepsRows(axes, k, 0, axes[0].extent, from, to);
    }
  }

  lemma {:induction false} MergeKeepsRows(axes: seq<Axis>, k: nat, lo: int, hi: int, from: int, to: int)
    requires Extended(axes) && 1 <= k && k + 1 < |axes| && Mergeable(axes[k], axes[k + 1])
    ensures var m := MergeAt(axes, k);
            RowMoves(Extents(m), SrcStrides(m), DstStrides(m), lo, hi, from, to) ==
            RowMoves(Extents(axes), SrcStrides(axes), DstStrides(axes), lo, hi, from, to)
    decreases k, 0, hi - lo
  {
    if lo < hi {
      var m := MergeAt(axes, k);
      TailOf(axes);
      TailOf(m);
      assert m[0] == axes[0];
      assert m[1..] == MergeAt(axes[1..], k - 1);
      MergeKeepsMovesAt(axes[1..], k - 1, from + lo * axes[0].srcStride, to + lo * axes[0].dstStride);
      MergeKeepsRows(axes, k, lo + 1, hi, from, to);
    }
  }

  lemma TailOf(axes: seq<Axis>)
    requires axes != []
    ensures Extents(axes)[1..] == Extents(axes[1..]) && SrcStrides(axes)[1..] == SrcStrides(axes[1..])
    ensures DstStrides(axes)[1..] == DstStrides(axes[1..]) && Leading(axes)[1..] == Leading(axes[1..])
  {
  }

  lemma {:induction false} MergeKeepsOrigin(axes: seq<Axis>, k: nat)
    requires k + 1 < |axes| && Mergeable(axes[k], axes[k + 1])
    ensures var m := MergeAt(axes, k);
            Dot(Leading(m), DstStrides(m)) == Dot(Leading(axes), DstStrides(axes))
  {
    var m := MergeAt(axes, k);
    TailOf(axes);
    TailOf(m);
    if k == 0 {
      TailOf(axes[1..]);
      assert m[1..] == axes[1..][1..];
    } else {
      assert m[1..] == MergeAt(axes[1..], k - 1);
      MergeKeepsOrigin(axes[1..], k - 1);
    }
  }

  /** Merging axes k and k + 1 preserves what the plan does. */
  lemma MergePreservesMeaning(axes: seq<Axis>, k: nat)
    requires Extended(axes) && k + 1 < |axes| && Mergeable(axes[k], axes[k + 1])
    ensures AxisMoves(MergeAt(axes, k)) == AxisMoves(axes) && Extended(MergeAt(axes, k))
  {
    MergeKeepsOrigin(axes, k);
    MergeKeepsMovesAt(axes, k, 0, Dot(Leading(axes), DstStrides(axes)));
    MulAtLeast(axes[k].extent, 1, axes[k + 1].extent);
  }

  // ---- packed destinations stay packed --------------------------------------------------

  /** Physical extents: pads included. */
  function PaddedExtents(axes: seq<Axis>): (s: seq<int>)
    ensures |s| == |axes|
  {
    seq(|axes|, k requires 0 <= k < |axes| => axes[k].extent + if axes[k].padded then axes[k].lo + axes[k].hi else 0)
  }

  /** The destination is row-major packed over `total` elements. */
  ghost predicate Packed(axes: seq<Axis>, total: int) {
    DstStrides(axes) == PackedStrides(PaddedExtents(axes)) && Product(PaddedExtents(axes)) == total
  }

  lemma PackedTail(axes: seq<Axis>)
    requires axes != []
    ensures PaddedExtents(axes)[1..] == PaddedExtents(axes[1..])
    ensures forall total :: Packed(axes, total) <==>
              && Packed(axes[1..], axes[0].dstStride)
              && PaddedExtents(axes)[0] * axes[0].dstStride == total
  {
    TailOf(axes);
    var pe := PaddedExtents(axes);
    assert pe[1..] == PaddedExtents(axes[1..]);
    assert DstStrides(axes) == [axes[0].dstStride] + DstStrides(axes[1..]);
    assert PackedStrides(pe) == [Product(pe[1..])] + PackedStrides(pe[1..]);
    if DstStrides(axes) == PackedStrides(pe) {
      assert DstStrides(axes)[0] == PackedStrides(pe)[0] && DstStrides(axes)[1..] == PackedStrides(pe)[1..];
    }
  }

  lemma {:induction false} MergeKeepsPacked(axes: seq<Axis>, k: nat, total: int)
    requires k + 1 < |axes| && Mergeable(axes[k], axes[k + 1]) && Packed(axes, total)
    ensures Packed(MergeAt(axes, k), total)
  {
    var m := MergeAt(axes, k);
    PackedTail(axes);
    PackedTail(m);
    if k == 0 {
      PackedTail(axes[1..]);
      assert m[1..] == axes[1..][1..];
      MulAssoc(axes[0].extent, axes[1].extent, axes[1].dstStride);
    } else {
      assert m[1..] == MergeAt(axes[1..], k - 1);
      MergeKeepsPacked(axes[1..], k - 1, axes[0].dstStride);
    }
  }

  ghost predicate PadsNonNegative(axes: seq<Axis>) {
    forall k :: 0 <= k < |axes| && axes[k].padded ==> axes[k].lo >= 0 && axes[k].hi >= 0
  }

  ghost predicate SomePadded(axes: seq<Axis>) {
    exists k :: 0 <= k < |axes| && axes[k].padded
  }

  lemma MergeKeepsPads(axes: seq<Axis>, k: nat)
    requires k + 1 < |axes| && Mergeable(axes[k], axes[k + 1])
    ensures SomePadded(MergeAt(axes, k)) == SomePadded(axes)
    ensures PadsNonNegative(axes) ==> PadsNonNegative(MergeAt(axes, k))
  {
    var m := MergeAt(axes, k);
    assert forall j :: 0 <= j < k ==> m[j] == axes[j];
    assert forall j :: k + 2 <= j < |axes| ==> axes[j] == m[j - 1];
    assert forall j :: k < j < |m| ==> m[j] == axes[j + 1];
  }

  /** As many physical elements as before. */
  lemma MergeKeepsCount(axes: seq<Axis>, k: nat)
    requires k + 1 < |axes| && Mergeable(axes[k], axes[k + 1])
    ensures Product(PaddedExtents(MergeAt(axes, k))) == Product(PaddedExtents(axes))
  {
    var pe, me := PaddedExtents(axes), PaddedExtents(MergeAt(axes, k));
    assert pe == pe[..k] + [pe[k], pe[k + 1]] + pe[k + 2..];
    assert me == pe[..k] + [pe[k] * pe[k + 1]] + pe[k + 2..];
    JoinTwo(pe[..k], pe[k], pe[k + 1], pe[k + 2..]);
  }

  lemma JoinTwo(before: seq<int>, a: int, b: int, after: seq<int>)
    ensures Product(before + [a, b] + after) == Product(before + [a * b] + after)
  {
    ProductConcat(before + [a, b], after);
    ProductConcat(before, [a, b]);
    ProductConcat(before + [a * b], after);
    ProductConcat(before, [a * b]);
    assert [a, b][1..] == [b] && [b][1..] == [] && [a * b][1..] == [];
    assert Product([a, b]) == a * Product([b]) && Product([b]) == b * Product([]) && Product([a * b]) == (a * b) * Product([]);
  }

  // ---- the fixpoint loop ------------------------------------------------------------

  function Total(counts: seq<nat>): nat {
    if counts == [] then 0 else counts[0] + Total(counts[1..])
  }

  /** absorbed[c] consecutive original axes became axis c: its extent is their product
      and its strides are those of the innermost of them. */
  ghost predicate Absorbs(axes: seq<Axis>, original: seq<Axis>, absorbed: seq<nat>)
    decreases |axes|
  {
    && |absorbed| == |axes|
    && if axes == [] then original == [] else
         && HeadAbsorbs(axes[0], original, absorbed[0])
         && Absorbs(axes[1..], original[absorbed[0]..], absorbed[1..])
  }

  /** axis stands for the first n original axes. */
  ghost predicate HeadAbsorbs(axis: Axis, original: seq<Axis>, n: nat) {
    && 1 <= n <= |original|
    && axis.extent == Product(Extents(original[..n]))
    && axis.srcStride == original[n - 1].srcStride
    && axis.dstStride == original[n - 1].dstStride
    && (axis.padded ==> n == 1 && axis == original[0])
  }

  lemma AbsorbsUncons(axes: seq<Axis>, original: seq<Axis>, absorbed: seq<nat>)
    requires |absorbed| == |axes| > 0
    ensures Absorbs(axes, original, absorbed) <==>
              && HeadAbsorbs(axes[0], original, absorbed[0]) && absorbed[0] <= |original|
              && Absorbs(axes[1..], original[absorbed[0]..], absorbed[1..])
  {
  }

  lemma {:induction false} AbsorbsSelf(axes: seq<Axis>)
    ensures Absorbs(axes, axes, seq(|axes|, k => 1))
  {
    if axes != [] {
      assert Extents(axes[..1]) == [axes[0].extent];
      assert Product([axes[0].extent]) == axes[0].extent * Product([]) by { assert [axes[0].extent][1..] == []; }
      assert seq(|axes|, k => 1)[1..] == seq(|axes[1..]|, k => 1);
      AbsorbsSelf(axes[1..]);
    }
  }

  lemma AbsorbsMergeHead(axes: seq<Axis>, original: seq<Axis>, absorbed: seq<nat>)
    requires Absorbs(axes, original, absorbed) && 1 < |axes| && Mergeable(axes[0], axes[1])
    ensures Absorbs(MergeAt(axes, 0), original, [absorbed[0] + absorbed[1]] + absorbed[2..])
  {
    var m, counts := MergeAt(axes, 0), [absorbed[0] + absorbed[1]] + absorbed[2..];
    var a, b := absorbed[0], absorbed[1];
    assert axes[1..][1..] == m[1..] && absorbed[1..][1..] == counts[1..];
    assert original[a..][b..] == original[a + b..];
    JoinExtents(original, a, b);
    assert original[a..][b - 1] == original[a + b - 1];
  }

  lemma JoinExtents(original: seq<Axis>, a: nat, b: nat)
    requires a + b <= |original|
    ensures Product(Extents(original[..a + b])) ==
            Product(Extents(original[..a])) * Product(Extents(original[a..][..b]))
  {
    assert original[..a + b] == original[..a] + original[a..][..b];
    assert Extents(original[..a + b]) == Extents(original[..a]) + Extents(original[a..][..b]);
    ProductConcat(Extents(original[..a]), Extents(original[a..][..b]));
  }

  /** absorbed[k] += absorbed[k + 1]; erase(k + 1). */
  function JoinCounts(absorbed: seq<nat>, k: nat): (counts: seq<nat>)
    requires k + 1 < |absorbed|
    ensures |counts| == |absorbed| - 1
  {
    absorbed[..k] + [absorbed[k] + absorbed[k + 1]] + absorbed[k + 2..]
  }

  lemma MergeTail(axes: seq<Axis>, absorbed: seq<nat>, k: nat)
    requires 0 < k && k + 1 < |axes| == |absorbed|
    ensures MergeAt(axes, k)[0] == axes[0] && MergeAt(axes, k)[1..] == MergeAt(axes[1..], k - 1)
    ensures JoinCounts(absorbed, k)[0] == absorbed[0]
    ensures JoinCounts(absorbed, k)[1..] == JoinCounts(absorbed[1..], k - 1)
    ensures |MergeAt(axes, k)| == |axes| - 1
  {
  }

  lemma {:induction false} AbsorbsMerge(axes: seq<Axis>, original: seq<Axis>, absorbed: seq<nat>, k: nat)
    requires |absorbed| == |axes| && Absorbs(axes, original, absorbed)
    requires k + 1 < |axes| && Mergeable(axes[k], axes[k + 1])
    ensures Absorbs(MergeAt(axes, k), original, JoinCounts(absorbed, k))
  {
    if k == 0 {
      AbsorbsMergeHead(axes, original, absorbed);
      assert JoinCounts(absorbed, 0) == [absorbed[0] + absorbed[1]] + absorbed[2..];
    } else {
      hide *;
      MergeTail(axes, absorbed, k);
      AbsorbsUncons(axes, original, absorbed);
      AbsorbsUncons(MergeAt(axes, k), original, JoinCounts(absorbed, k));
      assert Mergeable(axes[1..][k - 1], axes[1..][k]);
      AbsorbsMerge(axes[1..], original[absorbed[0]..], absorbed[1..], k - 1);
    }
  }

  /** What assembling the plan needs to know beside the moves. */
  ghost predicate SameShape(original: seq<Axis>, axes: seq<Axis>) {
    && (original != [] ==> axes != [])
    && SomePadded(axes) == SomePadded(original)
    && (PadsNonNegative(original) ==> PadsNonNegative(axes))
    && (Representable(original) ==> Representable(axes))
    && Product(PaddedExtents(axes)) == Product(PaddedExtents(original))
    && forall total :: Packed(original, total) ==> Packed(axes, total)
  }

  /** Extents and pads are 64-bit integers. */
  ghost predicate Representable(axes: seq<Axis>) {
    forall k :: 0 <= k < |axes| ==> InInt64(axes[k].extent) && InInt64(axes[k].lo) && InInt64(axes[k].hi)
  }

  lemma MergeKeepsShape(original: seq<Axis>, axes: seq<Axis>, k: nat)
    requires SameShape(original, axes) && k + 1 < |axes| && Mergeable(axes[k], axes[k + 1])
    ensures SameShape(original, MergeAt(axes, k))
  {
    hide Packed;
    MergeKeepsPads(axes, k);
    MergeKeepsCount(axes, k);
    hide SomePadded;
    hide PadsNonNegative;
    forall total | Packed(original, total) ensures Packed(MergeAt(axes, k), total) {
      MergeKeepsPacked(axes, k, total);
    }
  }

  /** The whole loop: the moves are untouched, the result has no mergeable pair
      left, and absorbed says which original axes each surviving axis covers. */
  method CoalesceAxes(original: seq<Axis>) returns (axes: seq<Axis>, absorbed: seq<nat>)
    requires Extended(original)
    ensures AxisMoves(axes) == AxisMoves(original)
    ensures forall k :: 0 <= k < |axes| - 1 ==>
              var o, i := axes[k], axes[k + 1];
              !(!o.padded && !i.padded && o.srcStride == i.extent * i.srcStride && o.dstStride == i.extent * i.dstStride
                && InInt64(i.extent * i.srcStride) && InInt64(i.extent * i.dstStride) && InInt64(i.extent * o.extent))
    ensures Absorbs(axes, original, absorbed)
    ensures original != [] ==> axes != []
    ensures Extended(axes) && SomePadded(axes) == SomePadded(original)
    ensures PadsNonNegative(original) ==> PadsNonNegative(axes)
    ensures forall total :: Packed(original, total) ==> Packed(axes, total)
    ensures Representable(original) ==> Representable(axes)
    ensures Product(PaddedExtents(axes)) == Product(PaddedExtents(original))
  {
    hide AxisMoves;
    hide Packed;
    hide SomePadded;
    hide PadsNonNegative;
    hide Absorbs;
    axes := original;
    absorbed := seq(|axes|, k => 1);
    AbsorbsSelf(axes);
    var changed := true;
    while changed
      invariant Extended(axes) && AxisMoves(axes) == AxisMoves(original)
      invariant Absorbs(axes, original, absorbed) && |absorbed| == |axes|
      invariant SameShape(original, axes)
      invariant !changed ==> forall k :: 0 <= k < |axes| - 1 ==> !Mergeable(axes[k], axes[k + 1])
      decreases |axes|, changed
    {
      changed := false;
      ghost var atEntry := |axes|;
      var k := 0;
      while k + 1 < |axes|
        invariant 0 <= k && |axes| == atEntry && !changed
        invariant Extended(axes) && AxisMoves(axes) == AxisMoves(original)
        invariant Absorbs(axes, original, absorbed) && |absorbed| == |axes|
        invariant SameShape(original, axes)
        invariant forall q :: 0 <= q < k && q + 1 < |axes| ==> !Mergeable(axes[q], axes[q + 1])
      {
        if Mergeable(axes[k], axes[k + 1]) {
          MergePreservesMeaning(axes, k);
          AbsorbsMerge(axes, original, absorbed, k);
          MergeKeepsShape(original, axes, k);
          absorbed := JoinCounts(absorbed, k);
          axes := MergeAt(axes, k);
          changed := true;
          break;
        }
        k := k + 1;
      }
    }
  }

  /** The original-axis to coalesced-axis map covers every original axis once. */
  lemma {:induction false} AbsorbedTotal(axes: seq<Axis>, original: seq<Axis>, absorbed: seq<nat>)
    requires Absorbs(axes, original, absorbed)
    ensures Total(absorbed) == |original|
    decreases |axes|
  {
    if axes != [] {
      AbsorbedTotal(axes[1..], original[absorbed[0]..], absorbed[1..]);
    }
  }
}
