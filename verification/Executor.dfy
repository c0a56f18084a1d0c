/** The CPU executors: the recursive stride walker, the tiled transpose kernel
    that replaces it on dense rank-2 transposes, and their D2H mirror.

    Buffers are indexed from the element the caller passes as `base`: base is
    where destination element 0 would land, and is negative for a staging window
    that starts at a later row.
 */
module Executor {
  import opened MixedRadix
  import opened Relocation
  import opened Plan

  // ---- the specification of gatherChunk ------------------------------------

  ghost predicate Shaped(b: BoundPlan) {
    |b.extents| == |b.srcStrides| == |b.dstStrides| >= 1
  }

  /** The moves of outer rows [begin, end), in the walker's order. */
  ghost function ChunkMoves(b: BoundPlan, base: int, begin: int, end: int): seq<Move>
    requires Shaped(b)
  {
    RowMoves(b.extents, b.srcStrides, b.dstStrides, begin, end, 0, base + Dot(b.Lo(), b.dstStrides))
  }

  /** n moves in arithmetic progression: one strided run. */
  function Run(from: int, s: int, to: int, d: int, n: nat): (ms: seq<Move>)
    ensures |ms| == n
  {
    seq(n, k => Move(from + k * s, to + k * d))
  }

  lemma {:induction false} RowOfRank1(e: int, s: int, d: int, lo: int, hi: int, from: int, to: int)
    requires lo <= hi
    ensures RowMoves([e], [s], [d], lo, hi, from, to) == Run(from + lo * s, s, to + lo * d, d, hi - lo)
    decreases hi - lo
  {
    if lo < hi {
      RowOfRank1(e, s, d, lo + 1, hi, from, to);
      MulDistributes(lo, 1, s);
      MulDistributes(lo, 1, d);
      assert Moves([e][1..], [s][1..], [d][1..], from + lo * s, to + lo * d) == [Move(from + lo * s, to + lo * d)];
      RunHead(from + lo * s, s, to + lo * d, d, hi - lo);
    }
  }

  lemma RunHead(from: int, s: int, to: int, d: int, n: nat)
    requires n > 0
    ensures Run(from, s, to, d, n) == [Move(from, to)] + Run(from + s, s, to + d, d, n - 1)
  {
    forall k | 0 < k < n ensures from + k * s == from + s + (k - 1) * s && to + k * d == to + d + (k - 1) * d {
      MulDistributes(k - 1, 1, s);
      MulDistributes(k - 1, 1, d);
    }
  }

  lemma ApplyOne(ms: seq<Move>, m: Move, src: seq<int>, dst: seq<int>)
    requires Fits(ms, |src|, |dst|) && 0 <= m.from < |src| && 0 <= m.to < |dst|
    ensures Fits(ms + [m], |src|, |dst|)
    ensures Apply(ms + [m], src, dst) == Apply(ms, src, dst)[m.to := src[m.from]]
  {
    ApplyConcat(ms, [m], src, dst);
  }

  lemma FitsPart(a: seq<Move>, b: seq<Move>, srcLen: int, dstLen: int)
    requires Fits(a + b, srcLen, dstLen)
    ensures Fits(a, srcLen, dstLen) && Fits(b, srcLen, dstLen)
  {
    forall k | 0 <= k < |a| ensures 0 <= a[k].from < srcLen && 0 <= a[k].to < dstLen {
      assert (a + b)[k] == a[k];
    }
    forall k | 0 <= k < |b| ensures 0 <= b[k].from < srcLen && 0 <= b[k].to < dstLen {
      assert (a + b)[|a| + k] == b[k];
    }
  }

  // ---- the innermost run -----------------------------------------------------

  /** copyRun: n contiguous elements. */
  method CopyRun(dst: array<int>, dstOff: int, src: seq<int>, srcOff: int, n: nat)
    requires Fits(Run(srcOff, 1, dstOff, 1, n), |src|, dst.Length)
    modifies dst
    ensures dst[..] == Apply(Run(srcOff, 1, dstOff, 1, n), src, old(dst[..]))
  {
    StridedRun(dst, dstOff, 1, src, srcOff, 1, n);
  }

  /** The scalar loop of copyRun1D over an axis that is not contiguous. */
  method StridedRun(dst: array<int>, dstOff: int, dstStride: int, src: seq<int>, srcOff: int, srcStride: int, n: nat)
    requires Fits(Run(srcOff, srcStride, dstOff, dstStride, n), |src|, dst.Length)
    modifies dst
    ensures dst[..] == Apply(Run(srcOff, srcStride, dstOff, dstStride, n), src, old(dst[..]))
  {
    ghost var all := Run(srcOff, srcStride, dstOff, dstStride, n);
    var i := 0;
    while i < n
      invariant 0 <= i <= n
      invariant Fits(all[..i], |src|, dst.Length)
      invariant dst[..] == Apply(all[..i], src, old(dst[..]))
    {
      assert all[i] == Move(srcOff + i * srcStride, dstOff + i * dstStride);
      ApplyOne(all[..i], all[i], src, old(dst[..]));
      assert all[..i + 1] == all[..i] + [all[i]];
      dst[dstOff + i * dstStride] := src[srcOff + i * srcStride];
      i := i + 1;
    }
    assert all[..n] == all;
  }

  method CopyRun1D(b: BoundPlan, src: seq<int>, dst: array<int>, innerLo: int, srcOff: int, dstOff: int,
                   iBegin: int, iEnd: int)
    requires Shaped(b) && iBegin <= iEnd
    requires var d := |b.extents| - 1; var s, t := b.srcStrides[d], b.dstStrides[d];
             Fits(Run(srcOff + iBegin * s, s, dstOff + (iBegin + innerLo) * t, t, iEnd - iBegin), |src|, dst.Length)
    modifies dst
    ensures var d := |b.extents| - 1; var s, t := b.srcStrides[d], b.dstStrides[d];
            dst[..] == Apply(Run(srcOff + iBegin * s, s, dstOff + (iBegin + innerLo) * t, t, iEnd - iBegin),
                             src, old(dst[..]))
  {
    var d := |b.extents| - 1;
    if b.srcStrides[d] == 1 && b.dstStrides[d] == 1 {
      CopyRun(dst, dstOff + iBegin + innerLo, src, srcOff + iBegin, iEnd - iBegin);
    } else {
      StridedRun(dst, dstOff + (iBegin + innerLo) * b.dstStrides[d], b.dstStrides[d],
                 src, srcOff + iBegin * b.srcStrides[d], b.srcStrides[d], iEnd - iBegin);
    }
  }

  // ---- the walker ------------------------------------------------------------

  /** What walk moves: the axes from `depth` on, each destination index shifted by its pad. */
  ghost function WalkMoves(b: BoundPlan, lo: seq<int>, depth: nat, iBegin: int, iEnd: int, srcOff: int, dstOff: int)
    : seq<Move>
    requires Shaped(b) && |lo| == |b.extents| && depth < |b.extents|
  {
    RowMoves(b.extents[depth..], b.srcStrides[depth..], b.dstStrides[depth..], iBegin, iEnd,
             srcOff, dstOff + Dot(lo[depth..], b.dstStrides[depth..]))
  }

  lemma WalkInnermost(b: BoundPlan, lo: seq<int>, iBegin: int, iEnd: int, srcOff: int, dstOff: int)
    requires Shaped(b) && |lo| == |b.extents| && iBegin <= iEnd
    ensures var d := |b.extents| - 1; var s, t := b.srcStrides[d], b.dstStrides[d];
            WalkMoves(b, lo, d, iBegin, iEnd, srcOff, dstOff) ==
            Run(srcOff + iBegin * s, s, dstOff + (iBegin + lo[d]) * t, t, iEnd - iBegin)
  {
    var d := |b.extents| - 1;
    var s, t := b.srcStrides[d], b.dstStrides[d];
    assert b.extents[d..] == [b.extents[d]] && b.srcStrides[d..] == [s] && b.dstStrides[d..] == [t];
    assert lo[d..] == [lo[d]];
    assert Dot(lo[d..], b.dstStrides[d..]) == lo[d] * t + Dot(lo[d..][1..], b.dstStrides[d..][1..]);
    RowOfRank1(b.extents[d], s, t, iBegin, iEnd, srcOff, dstOff + lo[d] * t);
    MulDistributes(iBegin, lo[d], t);
  }

  lemma WalkOneRow(b: BoundPlan, lo: seq<int>, depth: nat, iBegin: int, i: int, srcOff: int, dstOff: int)
    requires Shaped(b) && |lo| == |b.extents| && depth + 1 < |b.extents| && iBegin <= i
    ensures WalkMoves(b, lo, depth, iBegin, i + 1, srcOff, dstOff)
         == WalkMoves(b, lo, depth, iBegin, i, srcOff, dstOff)
            + WalkMoves(b, lo, depth + 1, 0, b.extents[depth + 1], srcOff + i * b.srcStrides[depth],
                        dstOff + (i + lo[depth]) * b.dstStrides[depth])
  {
    var ext, ss, ds := b.extents[depth..], b.srcStrides[depth..], b.dstStrides[depth..];
    var to := dstOff + Dot(lo[depth..], ds);
    assert ext[1..] == b.extents[depth + 1..] && ss[1..] == b.srcStrides[depth + 1..];
    assert ds[1..] == b.dstStrides[depth + 1..] && lo[depth..][1..] == lo[depth + 1..];
    MulDistributes(i, lo[depth], ds[0]);
    RowMovesConcat(ext, ss, ds, iBegin, i, i + 1, srcOff, to);
    assert RowMoves(ext, ss, ds, i + 1, i + 1, srcOff, to) == [];
    assert RowMoves(ext, ss, ds, i, i + 1, srcOff, to)
        == Moves(ext[1..], ss[1..], ds[1..], srcOff + i * ss[0], to + i * ds[0]);
  }

  lemma WalkSplits(b: BoundPlan, lo: seq<int>, depth: nat, iBegin: int, i: int, iEnd: int, srcOff: int, dstOff: int)
    requires Shaped(b) && |lo| == |b.extents| && depth < |b.extents| && iBegin <= i <= iEnd
    ensures WalkMoves(b, lo, depth, iBegin, iEnd, srcOff, dstOff)
         == WalkMoves(b, lo, depth, iBegin, i, srcOff, dstOff) + WalkMoves(b, lo, depth, i, iEnd, srcOff, dstOff)
  {
    RowMovesConcat(b.extents[depth..], b.srcStrides[depth..], b.dstStrides[depth..], iBegin, i, iEnd,
                   srcOff, dstOff + Dot(lo[depth..], b.dstStrides[depth..]));
  }

  lemma WalkNothing(b: BoundPlan, lo: seq<int>, depth: nat, i: int, srcOff: int, dstOff: int,
                    src: seq<int>, dst: seq<int>)
    requires Shaped(b) && |lo| == |b.extents| && depth < |b.extents|
    ensures var none := WalkMoves(b, lo, depth, i, i, srcOff, dstOff);
            Fits(none, |src|, |dst|) && Apply(none, src, dst) == dst
  {
    assert WalkMoves(b, lo, depth, i, i, srcOff, dstOff) == [];
  }

  /** Row i of axis `depth` is one deeper walk, applied after the rows before it. */
  lemma WalkExtends(b: BoundPlan, lo: seq<int>, depth: nat, iBegin: int, i: int, iEnd: int, srcOff: int, dstOff: int,
                    src: seq<int>, dst: seq<int>)
    requires Shaped(b) && |lo| == |b.extents| && depth + 1 < |b.extents| && iBegin <= i < iEnd
    requires Fits(WalkMoves(b, lo, depth, iBegin, iEnd, srcOff, dstOff), |src|, |dst|)
    ensures var done := WalkMoves(b, lo, depth, iBegin, i, srcOff, dstOff);
            var more := WalkMoves(b, lo, depth, iBegin, i + 1, srcOff, dstOff);
            var row := WalkMoves(b, lo, depth + 1, 0, b.extents[depth + 1], srcOff + i * b.srcStrides[depth],
                                 dstOff + (i + lo[depth]) * b.dstStrides[depth]);
            && Fits(done, |src|, |dst|) && Fits(row, |src|, |dst|) && Fits(more, |src|, |dst|)
            && |Apply(done, src, dst)| == |dst|
            && Apply(more, src, dst) == Apply(row, src, Apply(done, src, dst))
  {
    var done := WalkMoves(b, lo, depth, iBegin, i, srcOff, dstOff);
    var row := WalkMoves(b, lo, depth + 1, 0, b.extents[depth + 1], srcOff + i * b.srcStrides[depth],
                         dstOff + (i + lo[depth]) * b.dstStrides[depth]);
    hide WalkMoves;
    hide Apply;
    WalkOneRow(b, lo, depth, iBegin, i, srcOff, dstOff);
    WalkSplits(b, lo, depth, iBegin, i + 1, iEnd, srcOff, dstOff);
    FitsPart(done + row, WalkMoves(b, lo, depth, i + 1, iEnd, srcOff, dstOff), |src|, |dst|);
    FitsPart(done, row, |src|, |dst|);
    ApplyConcat(done, row, src, dst);
  }

  /** walk: axis `depth` over [iBegin, iEnd), deeper axes over their full extent. */
  method Walk(b: BoundPlan, src: seq<int>, dst: array<int>, lo: seq<int>, depth: nat, iBegin: int, iEnd: int,
              srcOff: int, dstOff: int)
    requires Shaped(b) && Positive(b.extents) && |lo| == |b.extents| && depth < |b.extents| && iBegin <= iEnd
    requires Fits(WalkMoves(b, lo, depth, iBegin, iEnd, srcOff, dstOff), |src|, dst.Length)
    modifies dst
    ensures dst[..] == Apply(WalkMoves(b, lo, depth, iBegin, iEnd, srcOff, dstOff), src, old(dst[..]))
    decreases |b.extents| - depth
  {
    hide WalkMoves;
    hide Fits;
    hide Apply;
    var r := |b.extents|;
    if depth == r - 1 {
      WalkInnermost(b, lo, iBegin, iEnd, srcOff, dstOff);
      CopyRun1D(b, src, dst, lo[depth], srcOff, dstOff, iBegin, iEnd);
      return;
    }
    WalkNothing(b, lo, depth, iBegin, srcOff, dstOff, src, dst[..]);
    var i := iBegin;
    while i < iEnd
      invariant iBegin <= i <= iEnd
      invariant Fits(WalkMoves(b, lo, depth, iBegin, i, srcOff, dstOff), |src|, dst.Length)
      invariant dst[..] == Apply(WalkMoves(b, lo, depth, iBegin, i, srcOff, dstOff), src, old(dst[..]))
    {
      WalkExtends(b, lo, depth, iBegin, i, iEnd, srcOff, dstOff, src, old(dst[..]));
      Walk(b, src, dst, lo, depth + 1, 0, b.extents[depth + 1],
           srcOff + i * b.srcStrides[depth], dstOff + (i + lo[depth]) * b.dstStrides[depth]);
      i := i + 1;
    }
  }

  /** The lo vector both chunk executors build: each region sets its axis. */
  method LeadingPads(b: BoundPlan) returns (lo: seq<int>)
    ensures lo == b.Lo()
  {
    lo := seq(|b.extents|, k => 0);
    var i := 0;
    while i < |b.padRegions|
      invariant 0 <= i <= |b.padRegions|
      invariant |lo| == |b.extents|
      invariant forall k :: 0 <= k < |lo| ==> lo[k] == PadLo(b.padRegions[..i], k)
    {
      var p := b.padRegions[i];
      assert b.padRegions[..i + 1][..i] == b.padRegions[..i];
      if p.axis < |lo| {
        lo := lo[p.axis := p.lo];
      }
      i := i + 1;
    }
    assert b.padRegions[..i] == b.padRegions;
  }

  lemma WalkFromTop(b: BoundPlan, base: int, begin: int, end: int)
    requires Shaped(b)
    ensures WalkMoves(b, b.Lo(), 0, begin, end, 0, base) == ChunkMoves(b, base, begin, end)
  {
    assert b.extents[0..] == b.extents && b.srcStrides[0..] == b.srcStrides;
    assert b.dstStrides[0..] == b.dstStrides && b.Lo()[0..] == b.Lo();
  }
}
