/** The cache-blocked transpose kernel.

    Destination element (r, c) of a rows x columns window is read from source
    element c * srcStride + r.  The kernel visits the window block by block; the
    specification below says only which cells have been written so far.
 */
module Transpose {
  import opened MixedRadix

  const BLOCK := 32

  /** The window, its source and where both begin. */
  datatype Window = Window(src: seq<int>, s0: int, d0: int, rows: int, columns: int, srcStride: int)
  {
    ghost predicate Valid(dstLen: int) {
      && rows >= 0 && columns >= 1 && 0 <= d0 && d0 + rows * columns <= dstLen
      && forall r, c :: 0 <= r < rows && 0 <= c < columns ==> 0 <= ReadAt(r, c) < |src|
    }

    function ReadAt(r: int, c: int): int {
      s0 + c * srcStride + r
    }
  }

  /** The part of the window the four nested loops have completed. */
  datatype Progress = Progress(rb: int, re: int, cb: int, ce: int, r: int, c: int)
  {
    predicate Done(i: int, j: int) {
      i < rb || (i < re && (j < cb || (j < ce && (i < r || (i == r && j < c)))))
    }
  }

  /** dst is old with the completed cells of the window transposed into it. */
  ghost predicate Painted(w: Window, p: Progress, dst: seq<int>, old_: seq<int>)
    requires w.Valid(|old_|) && |dst| == |old_|
  {
    && (forall o :: 0 <= o < |dst| && !(w.d0 <= o < w.d0 + w.rows * w.columns) ==> dst[o] == old_[o])
    && forall k :: 0 <= k < w.rows * w.columns ==> PaintedAt(w, p, dst, old_, k)
  }

  ghost predicate PaintedAt(w: Window, p: Progress, dst: seq<int>, old_: seq<int>, k: int)
    requires w.Valid(|old_|) && |dst| == |old_| && 0 <= k < w.rows * w.columns
  {
    HeadDigit(k, w.rows, w.columns);
    var i, j := k / w.columns, k % w.columns;
    dst[w.d0 + k] == if p.Done(i, j) then w.src[w.ReadAt(i, j)] else old_[w.d0 + k]
  }

  /** Two loop states that completed the same cells describe the same buffer. */
  lemma SameProgress(w: Window, p: Progress, q: Progress, dst: seq<int>, old_: seq<int>)
    requires w.Valid(|old_|) && |dst| == |old_|
    requires Painted(w, p, dst, old_)
    requires forall i, j {:trigger p.Done(i, j)} {:trigger q.Done(i, j)} ::
               0 <= i < w.rows && 0 <= j < w.columns ==> p.Done(i, j) == q.Done(i, j)
    ensures Painted(w, q, dst, old_)
  {
    forall k | 0 <= k < w.rows * w.columns ensures PaintedAt(w, q, dst, old_, k) {
      HeadDigit(k, w.rows, w.columns);
      assert PaintedAt(w, p, dst, old_, k);
      assert p.Done(k / w.columns, k % w.columns) == q.Done(k / w.columns, k % w.columns);
    }
  }

  /** Writing cell (p.r, p.c) completes exactly that cell. */
  lemma PaintCell(w: Window, p: Progress, dst: seq<int>, old_: seq<int>)
    requires w.Valid(|old_|) && |dst| == |old_|
    requires Painted(w, p, dst, old_)
    requires 0 <= p.rb <= p.r < p.re <= w.rows && 0 <= p.cb <= p.c < p.ce <= w.columns
    ensures 0 <= p.r * w.columns + p.c < w.rows * w.columns
    ensures Painted(w, p.(c := p.c + 1),
                    dst[w.d0 + (p.r * w.columns + p.c) := w.src[w.ReadAt(p.r, p.c)]], old_)
  {
    var at := p.r * w.columns + p.c;
    DigitBounds(p.r, w.rows, w.columns, p.c);
    DivModUnique(p.r, p.c, w.columns);
    var q := p.(c := p.c + 1);
    var dst' := dst[w.d0 + at := w.src[w.ReadAt(p.r, p.c)]];
    forall k | 0 <= k < w.rows * w.columns ensures PaintedAt(w, q, dst', old_, k) {
      HeadDigit(k, w.rows, w.columns);
      assert PaintedAt(w, p, dst, old_, k);
      var i, j := k / w.columns, k % w.columns;
      if k != at {
        assert !(i == p.r && j == p.c);
      }
    }
  }

  /** Every cell of the window is transposed, nothing else is touched. */
  ghost predicate Transposed(w: Window, dst: seq<int>, old_: seq<int>)
    requires w.Valid(|old_|) && |dst| == |old_|
  {
    Painted(w, Progress(w.rows, w.rows, 0, 0, 0, 0), dst, old_)
  }

  lemma TransposedAt(w: Window, dst: seq<int>, old_: seq<int>, r: int, c: int)
    requires w.Valid(|old_|) && |dst| == |old_| && Transposed(w, dst, old_)
    requires 0 <= r < w.rows && 0 <= c < w.columns
    ensures 0 <= r * w.columns + c < w.rows * w.columns
    ensures 0 <= w.ReadAt(r, c) < |w.src|
    ensures dst[w.d0 + (r * w.columns + c)] == w.src[w.ReadAt(r, c)]
  {
    DigitBounds(r, w.rows, w.columns, c);
    DivModUnique(r, c, w.columns);
    assert PaintedAt(w, Progress(w.rows, w.rows, 0, 0, 0, 0), dst, old_, r * w.columns + c);
  }

  /** The two inner loops: one block. */
  method TransposeBlock(w: Window, dst: array<int>, rb: int, re: int, cb: int, ce: int, ghost before: seq<int>)
    requires |before| == dst.Length && w.Valid(|before|)
    requires 0 <= rb <= re <= w.rows && 0 <= cb <= ce <= w.columns
    requires Painted(w, Progress(rb, re, cb, cb, 0, 0), dst[..], before)
    modifies dst
    ensures Painted(w, Progress(rb, re, ce, ce, 0, 0), dst[..], before)
  {
    var r := rb;
    SameProgress(w, Progress(rb, re, cb, cb, 0, 0), Progress(rb, re, cb, ce, rb, cb), dst[..], before);
    while r < re
      invariant rb <= r <= re
      invariant Painted(w, Progress(rb, re, cb, ce, r, cb), dst[..], before)
    {
      var c := cb;
      while c < ce
        invariant cb <= c <= ce
        invariant Painted(w, Progress(rb, re, cb, ce, r, c), dst[..], before)
      {
        PaintCell(w, Progress(rb, re, cb, ce, r, c), dst[..], before);
        dst[w.d0 + (r * w.columns + c)] := w.src[w.ReadAt(r, c)];
        c := c + 1;
      }
      SameProgress(w, Progress(rb, re, cb, ce, r, ce), Progress(rb, re, cb, ce, r + 1, cb), dst[..], before);
      r := r + 1;
    }
    SameProgress(w, Progress(rb, re, cb, ce, re, cb), Progress(rb, re, ce, ce, 0, 0), dst[..], before);
  }

  method Transpose32Scalar(w: Window, dst: array<int>)
    requires w.Valid(dst.Length)
    modifies dst
    ensures Transposed(w, dst[..], old(dst[..]))
  {
    ghost var before := dst[..];
    var rb := 0;
    assert Painted(w, Progress(0, 0, 0, 0, 0, 0), dst[..], before);
    hide Painted;
    while rb < w.rows
      invariant 0 <= rb <= w.rows
      invariant Painted(w, Progress(rb, rb, 0, 0, 0, 0), dst[..], before)
    {
      var re := rb + if BLOCK < w.rows - rb then BLOCK else w.rows - rb;
      var cb := 0;
      SameProgress(w, Progress(rb, rb, 0, 0, 0, 0), Progress(rb, re, 0, 0, 0, 0), dst[..], before);
      while cb < w.columns
        invariant 0 <= cb <= w.columns
        invariant Painted(w, Progress(rb, re, cb, cb, 0, 0), dst[..], before)
      {
        var ce := cb + if BLOCK < w.columns - cb then BLOCK else w.columns - cb;
        TransposeBlock(w, dst, rb, re, cb, ce, before);
        cb := ce;
      }
      SameProgress(w, Progress(rb, re, w.columns, w.columns, 0, 0), Progress(re, re, 0, 0, 0, 0), dst[..], before);
      rb := re;
    }
  }
}
