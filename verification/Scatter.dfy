/** The D2H executors: the mirror of the stride walker, reading the destination
    image and writing the source.
 */
module Scatter {
  import opened MixedRadix
  import opened Relocation
  import opened Plan
  import opened Executor

  lemma ReversedConcat(a: seq<Move>, b: seq<Move>)
    ensures Reversed(a + b) == Reversed(a) + Reversed(b)
  {
  }

  /** A run walked backwards is a run with the two sides exchanged. */
  lemma ReversedRun(from: int, s: int, to: int, d: int, n: nat)
    ensures Reversed(Run(from, s, to, d, n)) == Run(to, d, from, s, n)
  {
  }

  /** scatterRun1D. */
  method ScatterRun1D(b: BoundPlan, src: array<int>, dst: seq<int>, innerLo: int, srcOff: int, dstOff: int,
                      iBegin: int, iEnd: int)
    requires Shaped(b) && iBegin <= iEnd
    requires var d := |b.extents| - 1; var s, t := b.srcStrides[d], b.dstStrides[d];
             Fits(Run(dstOff + (iBegin + innerLo) * t, t, srcOff + iBegin * s, s, iEnd - iBegin), |dst|, src.Length)
    modifies src
    ensures var d := |b.extents| - 1; var s, t := b.srcStrides[d], b.dstStrides[d];
            src[..] == Apply(Run(dstOff + (iBegin + innerLo) * t, t, srcOff + iBegin * s, s, iEnd - iBegin),
                             dst, old(src[..]))
  {
    var d := |b.extents| - 1;
    if b.srcStrides[d] == 1 && b.dstStrides[d] == 1 {
      CopyRun(src, srcOff + iBegin, dst, dstOff + iBegin + innerLo, iEnd - iBegin);
    } else {
      StridedRun(src, srcOff + iBegin * b.srcStrides[d], b.srcStrides[d],
                 dst, dstOff + (iBegin + innerLo) * b.dstStrides[d], b.dstStrides[d], iEnd - iBegin);
    }
  }

  /** What scatterWalk moves: the walker's moves, backwards. */
  ghost function BackMoves(b: BoundPlan, lo: seq<int>, depth: nat, iBegin: int, iEnd: int, srcOff: int, dstOff: int)
    : seq<Move>
    requires Shaped(b) && |lo| == |b.extents| && depth < |b.extents|
  {
    Reversed(WalkMoves(b, lo, depth, iBegin, iEnd, srcOff, dstOff))
  }

  lemma BackInnermost(b: BoundPlan, lo: seq<int>, iBegin: int, iEnd: int, srcOff: int, dstOff: int)
    requires Shaped(b) && |lo| == |b.extents| && iBegin <= iEnd
    ensures var d := |b.extents| - 1; var s, t := b.srcStrides[d], b.dstStrides[d];
            BackMoves(b, lo, d, iBegin, iEnd, srcOff, dstOff) ==
            Run(dstOff + (iBegin + lo[d]) * t, t, srcOff + iBegin * s, s, iEnd - iBegin)
  {
    var d := |b.extents| - 1;
    var s, t := b.srcStrides[d], b.dstStrides[d];
    WalkInnermost(b, lo, iBegin, iEnd, srcOff, dstOff);
    ReversedRun(srcOff + iBegin * s, s, dstOff + (iBegin + lo[d]) * t, t, iEnd - iBegin);
  }

  lemma BackNothing(b: BoundPlan, lo: seq<int>, depth: nat, i: int, srcOff: int, dstOff: int,
                    dst: seq<int>, src: seq<int>)
    requires Shaped(b) && |lo| == |b.extents| && depth < |b.extents|
    ensures var none := BackMoves(b, lo, depth, i, i, srcOff, dstOff);
            Fits(none, |dst|, |src|) && Apply(none, dst, src) == src
  {
    assert BackMoves(b, lo, depth, i, i, srcOff, dstOff) == [];
  }

  /** Row i of axis `depth` is one deeper walk, applied after the rows before it. */
  lemma BackExtends(b: BoundPlan, lo: seq<int>, depth: nat, iBegin: int, i: int, iEnd: int, srcOff: int, dstOff: int,
                    dst: seq<int>, src: seq<int>)
    requires Shaped(b) && |lo| == |b.extents| && depth + 1 < |b.extents| && iBegin <= i < iEnd
    requires Fits(BackMoves(b, lo, depth, iBegin, iEnd, srcOff, dstOff), |dst|, |src|)
    ensures var done := BackMoves(b, lo, depth, iBegin, i, srcOff, dstOff);
            var more := BackMoves(b, lo, depth, iBegin, i + 1, srcOff, dstOff);
            var row := BackMoves(b, lo, depth + 1, 0, b.extents[depth + 1], srcOff + i * b.srcStrides[depth],
                                 dstOff + (i + lo[depth]) * b.dstStrides[depth]);
            && Fits(done, |dst|, |src|) && Fits(row, |dst|, |src|) && Fits(more, |dst|, |src|)
            && |Apply(done, dst, src)| == |src|
            && Apply(more, dst, src) == Apply(row, dst, Apply(done, dst, src))
  {
    var done := WalkMoves(b, lo, depth, iBegin, i, srcOff, dstOff);
    var row := WalkMoves(b, lo, depth + 1, 0, b.extents[depth + 1], srcOff + i * b.srcStrides[depth],
                         dstOff + (i + lo[depth]) * b.dstStrides[depth]);
    var rest := WalkMoves(b, lo, depth, i + 1, iEnd, srcOff, dstOff);
    hide WalkMoves;
    hide Apply;
    hide Reversed;
    WalkOneRow(b, lo, depth, iBegin, i, srcOff, dstOff);
    WalkSplits(b, lo, depth, iBegin, i + 1, iEnd, srcOff, dstOff);
    ReversedConcat(done, row);
    ReversedConcat(done + row, rest);
    FitsPart(Reversed(done + row), Reversed(rest), |dst|, |src|);
    FitsPart(Reversed(done), Reversed(row), |dst|, |src|);
    ApplyConcat(Reversed(done), Reversed(row), dst, src);
  }

  /** scatterWalk: axis `depth` over [iBegin, iEnd), deeper axes over their full extent. */
  method ScatterWalk(b: BoundPlan, src: array<int>, dst: seq<int>, lo: seq<int>, depth: nat, iBegin: int, iEnd: int,
                     srcOff: int, dstOff: int)
    requires Shaped(b) && Positive(b.extents) && |lo| == |b.extents| && depth < |b.extents| && iBegin <= iEnd
    requires Fits(BackMoves(b, lo, depth, iBegin, iEnd, srcOff, dstOff), |dst|, src.Length)
    modifies src
    ensures src[..] == Apply(BackMoves(b, lo, depth, iBegin, iEnd, srcOff, dstOff), dst, old(src[..]))
    decreases |b.extents| - depth
  {
    hide BackMoves;
    hide Fits;
    hide Apply;
    var r := |b.extents|;
    if depth == r - 1 {
      BackInnermost(b, lo, iBegin, iEnd, srcOff, dstOff);
      ScatterRun1D(b, src, dst, lo[depth], srcOff, dstOff, iBegin, iEnd);
      return;
    }
    BackNothing(b, lo, depth, iBegin, srcOff, dstOff, dst, src[..]);
    var i := iBegin;
    while i < iEnd
      invariant iBegin <= i <= iEnd
      invariant Fits(BackMoves(b, lo, depth, iBegin, i, srcOff, dstOff), |dst|, src.Length)
      invariant src[..] == Apply(BackMoves(b, lo, depth, iBegin, i, srcOff, dstOff), dst, old(src[..]))
    {
      BackExtends(b, lo, depth, iBegin, i, iEnd, srcOff, dstOff, dst, old(src[..]));
      ScatterWalk(b, src, dst, lo, depth + 1, 0, b.extents[depth + 1],
                  srcOff + i * b.srcStrides[depth], dstOff + (i + lo[depth]) * b.dstStrides[depth]);
      i := i + 1;
    }
  }

  /** scatterChunk: rows [begin, end) of the destination, read relative to base. */
  method ScatterChunk(b: BoundPlan, dst: seq<int>, base: int, src: array<int>, begin: int, end: int)
    requires Shaped(b) && Positive(b.extents) && 0 <= begin <= end <= b.extents[0]
    requires Fits(Reversed(ChunkMoves(b, base, begin, end)), |dst|, src.Length)
    modifies src
    ensures src[..] == Apply(Reversed(ChunkMoves(b, base, begin, end)), dst, old(src[..]))
  {
    var lo := LeadingPads(b);
    WalkFromTop(b, base, begin, end);
    ScatterWalk(b, src, dst, lo, 0, begin, end, 0, base);
  }
}
