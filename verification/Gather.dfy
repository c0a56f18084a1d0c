/** gatherChunk and executeH2D: the fast transpose path and the generic walker
    compute the same bytes, and both compute the image the plan denotes.
 */
module Gather {
  import opened Common
  import opened MixedRadix
  import opened Relocation
  import opened Plan
  import opened Executor
  import opened Transpose

  // ---- the transpose path ----------------------------------------------------

  /** The shape tryGatherTranspose32 recognises. */
  predicate IsDenseTranspose(b: BoundPlan) {
    && !b.typed && b.elementSize == 4 && b.padRegions == []
    && |b.extents| == 2 && |b.srcStrides| == 2 && |b.dstStrides| == 2
    && b.extents[0] > 0 && b.extents[1] > 0
    && b.srcStrides == [1, b.extents[0]] && b.dstStrides == [b.extents[1], 1]
  }

  /** The k-th move of a dense transpose's rows. */
  lemma TransposeMove(b: BoundPlan, base: int, begin: int, end: int, k: int)
    requires IsDenseTranspose(b) && begin <= end && 0 <= k < (end - begin) * b.extents[1]
    ensures var ms, columns := ChunkMoves(b, base, begin, end), b.extents[1];
            && |ms| == (end - begin) * columns
            && 0 <= k / columns < end - begin && 0 <= k % columns < columns
            && ms[k] == Move(begin + (k % columns) * b.extents[0] + k / columns, base + begin * columns + k)
  {
    var ext, ss, ds := b.extents, b.srcStrides, b.dstStrides;
    var rows, columns := end - begin, ext[1];
    var ext' := [rows] + ext[1..];
    assert ext' == [rows, columns];
    assert b.Lo() == [0, 0];
    DotTwo(b.Lo(), ds);
    RowMovesAsMoves(ext, ss, ds, begin, end, 0, base + Dot(b.Lo(), ds));
    RankTwoProduct(rows, columns);
    HeadDigit(k, rows, columns);
    MovesByRank(ext', ss, ds, begin, base + begin * columns, k);
    RankTwoUnrank(k, rows, columns);
    DotTwo([k / columns, k % columns], ss);
    DotTwo([k / columns, k % columns], ds);
  }

  lemma RankTwoProduct(rows: int, columns: int)
    ensures Product([rows, columns]) == rows * columns && Product([rows, columns][1..]) == columns
  {
    assert [rows, columns][1..] == [columns] && [columns][1..] == [];
    assert Product([columns]) == columns * Product([]);
  }

  lemma RankTwoUnrank(k: int, rows: int, columns: int)
    requires rows >= 1 && columns >= 1 && 0 <= k < rows * columns
    ensures 0 <= k < Product([rows, columns]) && Positive([rows, columns])
    ensures Unrank(k, [rows, columns]) == [k / columns, k % columns]
  {
    RankTwoProduct(rows, columns);
    HeadDigit(k, rows, columns);
    var rest := [rows, columns][1..];
    assert rest == [columns] && Product(rest[1..]) == 1;
    assert Unrank(k % columns, rest) == [k % columns / 1] + Unrank(k % columns % 1, rest[1..]);
  }

  lemma DotTwo(idx: seq<int>, strides: seq<int>)
    requires |idx| == |strides| == 2
    ensures Dot(idx, strides) == idx[0] * strides[0] + idx[1] * strides[1]
  {
    assert Dot(idx[1..], strides[1..]) == idx[1] * strides[1] + Dot(idx[1..][1..], strides[1..][1..]);
  }

  /** The rows of a dense transpose fill the window from its first element on. */
  lemma TransposeMoves(b: BoundPlan, base: int, begin: int, end: int)
    requires IsDenseTranspose(b) && begin < end
    ensures var ms, n := ChunkMoves(b, base, begin, end), (end - begin) * b.extents[1];
            && n >= 1 && |ms| == n && Distinct(ms)
            && forall k {:trigger ms[k]} :: 0 <= k < n ==> ms[k].to == base + begin * b.extents[1] + k
  {
    var ms, n := ChunkMoves(b, base, begin, end), (end - begin) * b.extents[1];
    MulAtLeast(end - begin, 1, b.extents[1]);
    TransposeMove(b, base, begin, end, 0);
    forall k | 0 <= k < n ensures ms[k].to == base + begin * b.extents[1] + k {
      TransposeMove(b, base, begin, end, k);
    }
  }

  /** A transposed window is what the moves of its rows write. */
  lemma TransposedIsApply(b: BoundPlan, base: int, begin: int, end: int, w: Window, dst: seq<int>, r: seq<int>)
    requires IsDenseTranspose(b) && begin < end
    requires w == Window(w.src, begin, base + begin * b.extents[1], end - begin, b.extents[1], b.extents[0])
    requires |r| == |dst| && w.Valid(|dst|) && Transposed(w, r, dst)
    requires Fits(ChunkMoves(b, base, begin, end), |w.src|, |dst|)
    ensures r == Apply(ChunkMoves(b, base, begin, end), w.src, dst)
  {
    var ms := ChunkMoves(b, base, begin, end);
    TransposeMoves(b, base, begin, end);
    TransposedElsewhere(w, r, dst);
    assert |ms| == w.rows * w.columns;
    assert forall k {:trigger ms[k]} :: 0 <= k < |ms| ==> ms[k].to == w.d0 + k;
    hide *;
    forall k | 0 <= k < |ms|
      ensures 0 <= ms[k].from < |w.src| && 0 <= ms[k].to < |dst| && r[ms[k].to] == w.src[ms[k].from]
    {
      TransposedCell(b, base, begin, end, w, dst, r, k);
    }
    ContiguousWrites(ms, w.d0, w.src, dst, r);
  }

  /** Moves to consecutive offsets, and what they leave. */
  lemma ContiguousWrites(ms: seq<Move>, d0: int, src: seq<int>, dst: seq<int>, r: seq<int>)
    requires Fits(ms, |src|, |dst|) && |r| == |dst|
    requires forall k {:trigger ms[k]} :: 0 <= k < |ms| ==> ms[k].to == d0 + k && r[ms[k].to] == src[ms[k].from]
    requires forall o :: 0 <= o < |dst| && !(d0 <= o < d0 + |ms|) ==> r[o] == dst[o]
    ensures r == Apply(ms, src, dst)
  {
    hide Apply;
    forall o | 0 <= o < |dst| ensures r[o] == Apply(ms, src, dst)[o] {
      if d0 <= o < d0 + |ms| {
        assert ms[o - d0].to == o;
        ApplyLands(ms, src, dst, o - d0);
      } else {
        ApplyUntouched(ms, src, dst, o);
      }
    }
  }

  lemma TransposedElsewhere(w: Window, r: seq<int>, dst: seq<int>)
    requires |r| == |dst| && w.Valid(|dst|) && Transposed(w, r, dst)
    ensures forall o :: 0 <= o < |dst| && !(w.d0 <= o < w.d0 + w.rows * w.columns) ==> r[o] == dst[o]
  {
  }

  lemma TransposedCell(b: BoundPlan, base: int, begin: int, end: int, w: Window, dst: seq<int>, r: seq<int>, k: int)
    requires IsDenseTranspose(b) && begin < end
    requires w == Window(w.src, begin, base + begin * b.extents[1], end - begin, b.extents[1], b.extents[0])
    requires |r| == |dst| && w.Valid(|dst|) && Transposed(w, r, dst)
    requires 0 <= k < w.rows * w.columns
    ensures |ChunkMoves(b, base, begin, end)| == w.rows * w.columns
    ensures var m := ChunkMoves(b, base, begin, end)[k];
            0 <= m.from < |w.src| && 0 <= m.to < |dst| && r[m.to] == w.src[m.from]
  {
    TransposeMove(b, base, begin, end, k);
    HeadDigit(k, w.rows, w.columns);
    TransposedAt(w, r, dst, k / w.columns, k % w.columns);
  }

  /** The addresses the kernel touches are those of the moves. */
  lemma TransposeWindowValid(b: BoundPlan, base: int, begin: int, end: int, src: seq<int>, dstLen: int)
    requires IsDenseTranspose(b) && begin < end
    requires Fits(ChunkMoves(b, base, begin, end), |src|, dstLen)
    ensures Window(src, begin, base + begin * b.extents[1], end - begin, b.extents[1], b.extents[0]).Valid(dstLen)
  {
    var rows, columns := end - begin, b.extents[1];
    var w := Window(src, begin, base + begin * columns, rows, columns, b.extents[0]);
    MulAtLeast(rows, 1, columns);
    TransposeMove(b, base, begin, end, 0);
    TransposeMove(b, base, begin, end, rows * columns - 1);
    forall r, c | 0 <= r < rows && 0 <= c < columns ensures 0 <= w.ReadAt(r, c) < |src| {
      DigitBounds(r, rows, columns, c);
      DivModUnique(r, c, columns);
      TransposeMove(b, base, begin, end, r * columns + c);
    }
  }

  /** A transpose with a singleton dimension is one contiguous run. */
  lemma SingletonTranspose(b: BoundPlan, base: int, begin: int, end: int)
    requires IsDenseTranspose(b) && 0 <= begin < end <= b.extents[0]
    requires b.extents[0] == 1 || b.extents[1] == 1
    ensures var n := (end - begin) * b.extents[1];
            n >= 0 && ChunkMoves(b, base, begin, end) == Run(begin, 1, base + begin * b.extents[1], 1, n)
  {
    var ms, columns := ChunkMoves(b, base, begin, end), b.extents[1];
    var n := (end - begin) * columns;
    MulAtLeast(end - begin, 1, columns);
    TransposeMove(b, base, begin, end, 0);
    var run := Run(begin, 1, base + begin * columns, 1, n);
    forall k | 0 <= k < n ensures ms[k] == run[k] {
      TransposeMove(b, base, begin, end, k);
      if b.extents[0] == 1 {
        DivModUnique(0, k, columns);
      }
    }
  }

  /** tryGatherTranspose32: false without touching the buffer, or the rows' moves. */
  method TryGatherTranspose32(b: BoundPlan, src: seq<int>, dst: array<int>, base: int, begin: int, end: int)
    returns (handled: bool)
    requires Shaped(b) && 0 <= begin <= end <= b.extents[0]
    requires Fits(ChunkMoves(b, base, begin, end), |src|, dst.Length)
    modifies dst
    ensures handled == IsDenseTranspose(b)
    ensures handled <==>
              && !b.typed && b.elementSize == 4 && b.padRegions == [] && |b.extents| == 2
              && b.extents[0] > 0 && b.extents[1] > 0
              && b.srcStrides == [1, b.extents[0]] && b.dstStrides == [b.extents[1], 1]
    ensures dst[..] == if handled then Apply(ChunkMoves(b, base, begin, end), src, old(dst[..])) else old(dst[..])
  {
    if !IsDenseTranspose(b) {
      return false;
    }
    if begin >= end {
      return true;
    }
    var rows, columns := end - begin, b.extents[1];
    if b.extents[0] == 1 || columns == 1 {
      SingletonTranspose(b, base, begin, end);
      CopyRun(dst, base + begin * columns, src, begin, rows * columns);
      return true;
    }
    TransposeWindowValid(b, base, begin, end, src, dst.Length);
    var w := Window(src, begin, base + begin * columns, rows, columns, b.srcStrides[1]);
    Transpose32Scalar(w, dst);
    TransposedIsApply(b, base, begin, end, w, old(dst[..]), dst[..]);
    return true;
  }

  // ---- gatherChunk -------------------------------------------------------------

  method GatherChunk(b: BoundPlan, src: seq<int>, dst: array<int>, base: int, begin: int, end: int)
    requires Shaped(b) && Positive(b.extents) && 0 <= begin <= end <= b.extents[0]
    requires Fits(ChunkMoves(b, base, begin, end), |src|, dst.Length)
    modifies dst
    ensures dst[..] == Apply(ChunkMoves(b, base, begin, end), src, old(dst[..]))
  {
    var handled := TryGatherTranspose32(b, src, dst, base, begin, end);
    if handled {
      return;
    }
    var lo := LeadingPads(b);
    WalkFromTop(b, base, begin, end);
    Walk(b, src, dst, lo, 0, begin, end, 0, base);
  }

  // ---- a window of outer rows ---------------------------------------------------

  /** Physical rows [pb, pe) of a plan and the valid rows [vb, ve) among them. */
  datatype Rows = Rows(pb: int, pe: int, vb: int, ve: int)

  /** w is a nonempty run of physical rows with the valid rows it contains. */
  ghost predicate RowsOf(b: BoundPlan, w: Rows)
    requires b.extents != []
  {
    var lo0, e0 := b.Lo()[0], b.extents[0];
    && 0 <= w.pb < w.pe <= b.Padded()[0]
    && w.vb == Min(Max(w.pb - lo0, 0), e0)
    && w.ve == Max(w.vb, Min(w.pe - lo0, e0))
  }

  function Elements(b: BoundPlan, w: Rows): int
    requires b.dstStrides != []
  {
    (w.pe - w.pb) * b.dstStrides[0]
  }

  /** The moves that stage a window at element 0 of the staging area. */
  ghost function StageMoves(b: BoundPlan, w: Rows): seq<Move>
    requires Shaped(b)
  {
    ChunkMoves(b, -w.pb * b.dstStrides[0], w.vb, w.ve)
  }

  // The window seen as a plan of its own: a smaller box in a smaller block.

  function BoxOf(b: BoundPlan, w: Rows): seq<int>
    requires b.extents != []
  {
    [w.ve - w.vb] + b.extents[1..]
  }

  function OriginOf(b: BoundPlan, w: Rows): seq<int>
    requires b.extents != []
  {
    [w.vb + b.Lo()[0] - w.pb] + b.Lo()[1..]
  }

  function BlockOf(b: BoundPlan, w: Rows): seq<int>
    requires b.extents != []
  {
    [w.pe - w.pb] + b.Padded()[1..]
  }

  lemma BlockShape(b: BoundPlan, w: Rows)
    requires b.Canonical() && w.pb < w.pe
    ensures PackedStrides(BlockOf(b, w)) == b.dstStrides
    ensures Product(BlockOf(b, w)) == Elements(b, w)
    ensures Positive(BlockOf(b, w)) && Positive(b.Padded())
  {
    PaddedPositive(b);
    assert BlockOf(b, w)[1..] == b.Padded()[1..];
    forall k | 0 <= k < |BlockOf(b, w)| ensures BlockOf(b, w)[k] >= 1 {
      if k > 0 { assert BlockOf(b, w)[k] == b.Padded()[k]; }
    }
  }

  lemma WindowPlaced(b: BoundPlan, w: Rows)
    requires b.Canonical() && RowsOf(b, w) && w.vb < w.ve
    ensures Placed(BoxOf(b, w), OriginOf(b, w), BlockOf(b, w))
  {
    BoxInPadded(b);
    BlockShape(b, w);
    var ext, lo, pad := BoxOf(b, w), OriginOf(b, w), BlockOf(b, w);
    forall k | 0 <= k < |ext| ensures 0 <= lo[k] && lo[k] + ext[k] <= pad[k] && ext[k] >= 0 {
      if k > 0 {
        assert ext[k] == b.extents[k] && lo[k] == b.Lo()[k] && pad[k] == b.Padded()[k];
      }
    }
  }

  lemma WindowIsBlock(b: BoundPlan, w: Rows)
    requires b.Canonical() && RowsOf(b, w) && w.vb < w.ve
    ensures Placed(BoxOf(b, w), OriginOf(b, w), BlockOf(b, w))
    ensures StageMoves(b, w)
         == BlockMoves(BoxOf(b, w), OriginOf(b, w), BlockOf(b, w), b.srcStrides, w.vb * b.srcStrides[0])
  {
    WindowPlaced(b, w);
    BlockShape(b, w);
    var ds := b.dstStrides;
    RowMovesAsMoves(b.extents, b.srcStrides, ds, w.vb, w.ve, 0, -w.pb * ds[0] + Dot(b.Lo(), ds));
    WindowOrigin(b.Lo()[0], w.vb, w.pb, ds[0]);
    assert OriginOf(b, w)[1..] == b.Lo()[1..];
  }

  lemma WindowOrigin(lo0: int, vb: int, pb: int, p: int)
    ensures (vb + lo0 - pb) * p == -pb * p + lo0 * p + vb * p
  {
    MulDistributes(vb + lo0, -pb, p);
    MulDistributes(vb, lo0, p);
  }

  /** Rank o of a window is rank pb * rowLength + o of the whole destination. */
  lemma WindowRank(b: BoundPlan, w: Rows, o: int)
    requires b.Canonical() && 0 <= w.pb < w.pe <= b.Padded()[0]
    requires 0 <= o < Elements(b, w)
    ensures Positive(BlockOf(b, w)) && 0 <= o < Product(BlockOf(b, w))
    ensures Positive(b.Padded()) && 0 <= w.pb * b.dstStrides[0] + o < Product(b.Padded())
    ensures var j := Unrank(o, BlockOf(b, w));
            && Unrank(w.pb * b.dstStrides[0] + o, b.Padded()) == [w.pb + j[0]] + j[1..]
            && 0 <= j[0] < w.pe - w.pb
  {
    var p := b.dstStrides[0];
    BlockShape(b, w);
    ProductPositive(b.Padded()[1..]);
    assert BlockOf(b, w)[1..] == b.Padded()[1..] && p == Product(b.Padded()[1..]);
    HeadDigit(o, w.pe - w.pb, p);
    var q, r := o / p, o % p;
    MulDistributes(w.pb, q, p);
    DigitBounds(w.pb + q, b.Padded()[0], p, r);
    DivModUnique(w.pb + q, r, p);
  }

  /** The window's box and the plan's box agree on which cells are valid. */
  lemma SameValidity(b: BoundPlan, w: Rows, j: seq<int>, j': seq<int>)
    requires b.WellFormed() && RowsOf(b, w) && w.vb < w.ve
    requires |j| == |j'| == |b.extents| && j[0] == w.pb + j'[0] && j[1..] == j'[1..] && w.pb <= j[0] < w.pe
    ensures Inside(j', OriginOf(b, w), BoxOf(b, w)) <==> Inside(j, b.Lo(), b.extents)
  {
    var lo, ext := OriginOf(b, w), BoxOf(b, w);
    assert lo[0] <= j'[0] < lo[0] + ext[0] <==> b.Lo()[0] <= j[0] < b.Lo()[0] + b.extents[0];
    forall k | 0 < k < |j| ensures j[k] == j'[k] && ext[k] == b.extents[k] && lo[k] == b.Lo()[k] {
      assert j[k] == j[1..][k - 1] && j'[k] == j'[1..][k - 1];
    }
    if Inside(j', lo, ext) {
      forall k | 0 <= k < |j| ensures b.Lo()[k] <= j[k] < b.Lo()[k] + b.extents[k] {
        assert lo[k] <= j'[k] < lo[k] + ext[k];
      }
    }
    if Inside(j, b.Lo(), b.extents) {
      forall k | 0 <= k < |j| ensures lo[k] <= j'[k] < lo[k] + ext[k] {
        assert b.Lo()[k] <= j[k] < b.Lo()[k] + b.extents[k];
      }
    }
  }

  /** ... and on the source element they read. */
  lemma SameSource(b: BoundPlan, w: Rows, j: seq<int>, j': seq<int>)
    requires b.WellFormed() && |j| == |j'| == |b.extents| && j[0] == w.pb + j'[0] && j[1..] == j'[1..]
    ensures w.vb * b.srcStrides[0] + Dot(Minus(j', OriginOf(b, w)), b.srcStrides) == Dot(Minus(j, b.Lo()), b.srcStrides)
  {
    var m, m' := Minus(j, b.Lo()), Minus(j', OriginOf(b, w));
    assert m'[1..] == m[1..] by {
      forall k | 0 < k < |j| ensures m[k] == m'[k] {
        assert j[k] == j[1..][k - 1] && j'[k] == j'[1..][k - 1];
      }
    }
    MulDistributes(w.vb, m'[0], b.srcStrides[0]);
  }

  ghost predicate Staged(b: BoundPlan, src: seq<int>, w: Rows, before: seq<int>, after: seq<int>)
    requires Shaped(b)
  {
    if w.vb < w.ve then
      Fits(StageMoves(b, w), |src|, |before|) && after == Apply(StageMoves(b, w), src, before)
    else after == before
  }

  /** One element of a staged window. */
  lemma WindowCell(b: BoundPlan, src: seq<int>, w: Rows, before: seq<int>, after: seq<int>, o: int)
    requires b.Canonical() && b.ReadsWithin(|src|) && RowsOf(b, w)
    requires Staged(b, src, w, before, after)
    requires 0 <= o < Elements(b, w) <= |before|
    requires b.padRegions != [] ==> before[o] == b.Fill()
    ensures 0 <= w.pb * b.dstStrides[0] + o < Product(b.Padded())
    ensures after[o] == ImageAt(b, src, w.pb * b.dstStrides[0] + o)
  {
    hide Dot;
    hide Unrank;
    hide Product;
    hide PackedStrides;
    hide Apply;
    hide BlockMoves;
    WindowRank(b, w, o);
    var g := w.pb * b.dstStrides[0] + o;
    var j, j' := Unrank(g, b.Padded()), Unrank(o, BlockOf(b, w));
    OffsetOfUnrank(g, b.Padded());
    assert j[0] == w.pb + j'[0] && j[1..] == j'[1..];
    if w.vb < w.ve {
      WindowIsBlock(b, w);
      BlockShape(b, w);
      GatherAt(BoxOf(b, w), OriginOf(b, w), BlockOf(b, w), b.srcStrides, w.vb * b.srcStrides[0], src, before, o);
      SameValidity(b, w, j, j');
      SameSource(b, w, j, j');
    }
    if !Inside(j, b.Lo(), b.extents) {
      OutsideIsPadded(b, j);
    }
  }

  /** Staging a window: whatever the staging area held before, after the fill
      and the gather its first elements are the window's slice of the image. */
  lemma WindowImage(b: BoundPlan, src: seq<int>, w: Rows, before: seq<int>, after: seq<int>)
    requires b.Canonical() && b.ReadsWithin(|src|) && RowsOf(b, w)
    requires Staged(b, src, w, before, after)
    requires Elements(b, w) <= |before| == |after|
    requires b.padRegions != [] ==> forall o :: 0 <= o < Elements(b, w) ==> before[o] == b.Fill()
    ensures 0 <= w.pb * b.dstStrides[0] <= w.pe * b.dstStrides[0] <= Product(b.Padded())
    ensures 0 <= Elements(b, w)
    ensures after[..Elements(b, w)] == Image(b, src)[w.pb * b.dstStrides[0]..w.pe * b.dstStrides[0]]
  {
    WindowSlice(b, w);
    var n, lo, image := Elements(b, w), w.pb * b.dstStrides[0], Image(b, src);
    hide *;
    forall o | 0 <= o < n ensures after[o] == image[lo + o] {
      WindowCellImage(b, src, w, before, after, o);
    }
    SameSlice(after, image, lo, n);
  }

  lemma WindowCellImage(b: BoundPlan, src: seq<int>, w: Rows, before: seq<int>, after: seq<int>, o: int)
    requires b.Canonical() && b.ReadsWithin(|src|) && RowsOf(b, w)
    requires Staged(b, src, w, before, after)
    requires 0 <= o < Elements(b, w) <= |before| == |after|
    requires b.padRegions != [] ==> before[o] == b.Fill()
    ensures 0 <= w.pb * b.dstStrides[0] + o < Product(b.Padded())
    ensures after[o] == Image(b, src)[w.pb * b.dstStrides[0] + o]
  {
    hide ImageAt;
    hide Staged;
    WindowCell(b, src, w, before, after, o);
  }

  lemma SameSlice(a: seq<int>, b: seq<int>, lo: int, n: int)
    requires 0 <= lo && 0 <= n <= |a| && lo + n <= |b| && forall o :: 0 <= o < n ==> a[o] == b[lo + o]
    ensures a[..n] == b[lo..lo + n]
  {
  }

  lemma WindowSlice(b: BoundPlan, w: Rows)
    requires b.Canonical() && 0 <= w.pb <= w.pe <= b.Padded()[0]
    ensures 0 <= w.pb * b.dstStrides[0] <= w.pe * b.dstStrides[0] <= Product(b.Padded())
    ensures w.pe * b.dstStrides[0] == w.pb * b.dstStrides[0] + Elements(b, w)
    ensures Elements(b, w) >= 0
  {
    var p := b.dstStrides[0];
    PaddedPositive(b);
    ProductPositive(b.Padded()[1..]);
    MulDistributes(w.pe - w.pb, w.pb, p);
    MulAtLeast(w.pb, 0, p);
    MulAtLeast(w.pe - w.pb, 0, p);
    MulAtLeast(b.Padded()[0] - w.pe, 0, p);
    MulDistributes(b.Padded()[0] - w.pe, w.pe, p);
  }
}
