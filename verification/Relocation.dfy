/** What a strided relocation plan means.

    A plan's cells are visited in row-major order; each visit is a Move that
    copies one opaque element from a source offset to a destination offset.
    Apply performs a list of moves on a destination.  The lemmas say what any
    such list does when no destination is written twice, and what the moves of a
    plan are in terms of multi-indices.
 */
module Relocation {
  import opened MixedRadix

  datatype Move = Move(from: int, to: int)

  /** The moves of a plan: extents, source and destination strides, and the two
      offsets at which cell (0, ..., 0) is read and written. */
  function Moves(ext: seq<int>, ss: seq<int>, ds: seq<int>, from: int, to: int): seq<Move>
    requires |ext| == |ss| == |ds|
    decreases |ext|, 1, 0
  {
    if ext == [] then [Move(from, to)] else RowMoves(ext, ss, ds, 0, ext[0], from, to)
  }

  /** The moves of the outer indices lo, ..., hi - 1 only. */
  function RowMoves(ext: seq<int>, ss: seq<int>, ds: seq<int>, lo: int, hi: int, from: int, to: int): seq<Move>
    requires |ext| == |ss| == |ds| > 0
    decreases |ext|, 0, hi - lo
  {
    if lo >= hi then [] else
      Moves(ext[1..], ss[1..], ds[1..], from + lo * ss[0], to + lo * ds[0])
      + RowMoves(ext, ss, ds, lo + 1, hi, from, to)
  }

  ghost predicate Fits(ms: seq<Move>, srcLen: int, dstLen: int) {
    forall k :: 0 <= k < |ms| ==> 0 <= ms[k].from < srcLen && 0 <= ms[k].to < dstLen
  }

  /** Perform the moves one after another. */
  function Apply<T>(ms: seq<Move>, src: seq<T>, dst: seq<T>): (r: seq<T>)
    requires Fits(ms, |src|, |dst|)
    ensures |r| == |dst|
  {
    if ms == [] then dst else Apply(ms[1..], src, dst[ms[0].to := src[ms[0].from]])
  }

  /** No destination offset is written twice. */
  ghost predicate Distinct(ms: seq<Move>) {
    forall j, k :: 0 <= j < k < |ms| ==> ms[j].to != ms[k].to
  }

  /** Some move reads source offset o. */
  ghost predicate ReadBy(ms: seq<Move>, o: int) {
    exists k :: 0 <= k < |ms| && ms[k].from == o
  }

  /** The moves of the inverse relocation. */
  function Reversed(ms: seq<Move>): (r: seq<Move>)
    ensures |r| == |ms| && forall k :: 0 <= k < |ms| ==> r[k] == Move(ms[k].to, ms[k].from)
  {
    seq(|ms|, k requires 0 <= k < |ms| => Move(ms[k].to, ms[k].from))
  }

  // ---- what Apply does ---------------------------------------------------

  lemma {:induction false} ApplyConcat<T>(a: seq<Move>, b: seq<Move>, src: seq<T>, dst: seq<T>)
    requires Fits(a, |src|, |dst|) && Fits(b, |src|, |dst|)
    ensures Fits(a + b, |src|, |dst|)
    ensures Apply(a + b, src, dst) == Apply(b, src, Apply(a, src, dst))
  {
    assert Fits(a + b, |src|, |dst|);
    if a == [] {
      assert a + b == b;
    } else {
      assert (a + b)[1..] == a[1..] + b;
      ApplyConcat(a[1..], b, src, dst[a[0].to := src[a[0].from]]);
    }
  }

  lemma {:induction false} ApplyUntouched<T>(ms: seq<Move>, src: seq<T>, dst: seq<T>, o: int)
    requires Fits(ms, |src|, |dst|) && 0 <= o < |dst|
    requires forall k :: 0 <= k < |ms| ==> ms[k].to != o
    ensures Apply(ms, src, dst)[o] == dst[o]
  {
    if ms != [] {
      ApplyUntouched(ms[1..], src, dst[ms[0].to := src[ms[0].from]], o);
    }
  }

  /** With distinct destinations every move's element is where it was put. */
  lemma {:induction false} ApplyLands<T>(ms: seq<Move>, src: seq<T>, dst: seq<T>, k: nat)
    requires Fits(ms, |src|, |dst|) && Distinct(ms) && k < |ms|
    ensures Apply(ms, src, dst)[ms[k].to] == src[ms[k].from]
  {
    var dst' := dst[ms[0].to := src[ms[0].from]];
    if k == 0 {
      ApplyUntouched(ms[1..], src, dst', ms[0].to);
    } else {
      ApplyLands(ms[1..], src, dst', k - 1);
    }
  }

  /** The order of the moves does not matter when destinations are distinct: any
      interleaving of workers that perform the same moves writes the same image. */
  lemma ApplyAnyOrder<T>(a: seq<Move>, b: seq<Move>, src: seq<T>, dst: seq<T>)
    requires Fits(a, |src|, |dst|) && Distinct(a)
    requires multiset(a) == multiset(b)
    ensures Fits(b, |src|, |dst|) && Apply(b, src, dst) == Apply(a, src, dst)
  {
    PermutationKeeps(a, b, |src|, |dst|);
    forall o | 0 <= o < |dst| ensures Apply(b, src, dst)[o] == Apply(a, src, dst)[o] {
      if exists k :: 0 <= k < |a| && a[k].to == o {
        var k :| 0 <= k < |a| && a[k].to == o;
        assert a[k] in multiset(b);
        var j :| 0 <= j < |b| && b[j] == a[k];
        ApplyLands(a, src, dst, k);
        ApplyLands(b, src, dst, j);
      } else {
        forall j | 0 <= j < |b| ensures b[j].to != o {
          assert b[j] in multiset(a);
        }
        ApplyUntouched(a, src, dst, o);
        ApplyUntouched(b, src, dst, o);
      }
    }
  }

  lemma PermutationKeeps(a: seq<Move>, b: seq<Move>, srcLen: int, dstLen: int)
    requires Fits(a, srcLen, dstLen) && Distinct(a)
    requires multiset(a) == multiset(b)
    ensures Fits(b, srcLen, dstLen) && Distinct(b)
  {
    forall j | 0 <= j < |b| ensures 0 <= b[j].from < srcLen && 0 <= b[j].to < dstLen {
      assert b[j] in multiset(a);
    }
    forall i, j | 0 <= i < j < |b| ensures b[i].to != b[j].to {
      if b[i].to == b[j].to {
        var x, y := b[i], b[j];
        assert x in multiset(a) && y in multiset(a);
        var p :| 0 <= p < |a| && a[p] == x;
        var q :| 0 <= q < |a| && a[q] == y;
        assert p == q;
        OccursTwice(b, i, j);
        OccursOnce(a, p);
        assert false;
      }
    }
  }

  lemma OccursTwice<T>(s: seq<T>, i: nat, j: nat)
    requires i < j < |s| && s[i] == s[j]
    ensures multiset(s)[s[i]] >= 2
  {
    assert s == s[..j] + s[j..];
    assert s[i] in s[..j] && s[j] in s[j..];
  }

  lemma OccursOnce(s: seq<Move>, p: nat)
    requires p < |s| && Distinct(s)
    ensures multiset(s)[s[p]] == 1
  {
    assert s == s[..p] + [s[p]] + s[p + 1..];
    assert s[p] !in s[..p] && s[p] !in s[p + 1..];
  }

  // ---- the moves of a plan, by rank ----------------------------------------

  ghost predicate Box(ext: seq<int>) {
    forall k :: 0 <= k < |ext| ==> ext[k] >= 0
  }

  lemma {:induction false} RowMovesConcat(ext: seq<int>, ss: seq<int>, ds: seq<int>, lo: int, mid: int, hi: int,
                                          from: int, to: int)
    requires |ext| == |ss| == |ds| > 0 && lo <= mid <= hi
    ensures RowMoves(ext, ss, ds, lo, hi, from, to)
         == RowMoves(ext, ss, ds, lo, mid, from, to) + RowMoves(ext, ss, ds, mid, hi, from, to)
    decreases mid - lo
  {
    if lo < mid {
      RowMovesConcat(ext, ss, ds, lo + 1, mid, hi, from, to);
    }
  }

  /** Moving the origin by c outer steps is the same as shifting the outer range by c. */
  lemma {:induction false} RowMovesShift(ext: seq<int>, ss: seq<int>, ds: seq<int>, lo: int, hi: int, c: int,
                                         from: int, to: int)
    requires |ext| == |ss| == |ds| > 0
    ensures RowMoves(ext, ss, ds, lo, hi, from + c * ss[0], to + c * ds[0])
         == RowMoves(ext, ss, ds, lo + c, hi + c, from, to)
    decreases hi - lo
  {
    if lo < hi {
      MulDistributes(lo, c, ss[0]);
      MulDistributes(lo, c, ds[0]);
      assert lo + c + 1 == lo + 1 + c;
      RowMovesShift(ext, ss, ds, lo + 1, hi, c, from, to);
    }
  }

  /** A range of outer rows is itself a plan with a smaller outer extent. */
  lemma {:induction false} RowMovesAsMoves(ext: seq<int>, ss: seq<int>, ds: seq<int>, lo: int, hi: int,
                                           from: int, to: int)
    requires |ext| == |ss| == |ds| > 0 && lo <= hi
    ensures RowMoves(ext, ss, ds, lo, hi, from, to)
         == Moves([hi - lo] + ext[1..], ss, ds, from + lo * ss[0], to + lo * ds[0])
  {
    var ext' := [hi - lo] + ext[1..];
    RowMovesShift(ext', ss, ds, 0, hi - lo, lo, from, to);
    RowMovesInner(ext, ext', ss, ds, lo, hi, from, to);
    assert 0 + lo == lo && hi - lo + lo == hi;
  }

  lemma {:induction false} RowMovesInner(ext: seq<int>, ext': seq<int>, ss: seq<int>, ds: seq<int>, lo: int, hi: int,
                                         from: int, to: int)
    requires |ext| == |ext'| == |ss| == |ds| > 0 && ext[1..] == ext'[1..]
    ensures RowMoves(ext, ss, ds, lo, hi, from, to) == RowMoves(ext', ss, ds, lo, hi, from, to)
    decreases hi - lo
  {
    if lo < hi {
      RowMovesInner(ext, ext', ss, ds, lo + 1, hi, from, to);
    }
  }

  /** What is moved for multi-index idx. */
  function MoveOf(idx: seq<int>, ss: seq<int>, ds: seq<int>, from: int, to: int): Move
    requires |idx| == |ss| == |ds|
  {
    Move(from + Dot(idx, ss), to + Dot(idx, ds))
  }

  lemma {:induction false} MovesLength(ext: seq<int>, ss: seq<int>, ds: seq<int>, from: int, to: int)
    requires Box(ext) && |ext| == |ss| == |ds|
    ensures |Moves(ext, ss, ds, from, to)| == Product(ext)
    decreases |ext|, 1, 0
  {
    if ext != [] {
      RowMovesLength(ext, ss, ds, 0, ext[0], from, to);
    }
  }

  lemma {:induction false} RowMovesLength(ext: seq<int>, ss: seq<int>, ds: seq<int>, lo: int, hi: int,
                                          from: int, to: int)
    requires |ext| == |ss| == |ds| > 0 && Box(ext[1..]) && lo <= hi
    ensures |RowMoves(ext, ss, ds, lo, hi, from, to)| == (hi - lo) * Product(ext[1..])
    decreases |ext|, 0, hi - lo
  {
    if lo < hi {
      MovesLength(ext[1..], ss[1..], ds[1..], from + lo * ss[0], to + lo * ds[0]);
      RowMovesLength(ext, ss, ds, lo + 1, hi, from, to);
      MulDistributes(hi - (lo + 1), 1, Product(ext[1..]));
    }
  }

  /** Cell r of row q comes after q whole rows. */
  lemma RowAt(ext: seq<int>, ss: seq<int>, ds: seq<int>, from: int, to: int, q: int, r: int)
    requires Positive(ext) && |ext| == |ss| == |ds| > 0 && 0 <= q < ext[0] && 0 <= r < Product(ext[1..])
    ensures |Moves(ext[1..], ss[1..], ds[1..], from + q * ss[0], to + q * ds[0])| == Product(ext[1..])
    ensures 0 <= q * Product(ext[1..]) + r < |Moves(ext, ss, ds, from, to)|
    ensures Moves(ext, ss, ds, from, to)[q * Product(ext[1..]) + r] ==
            Moves(ext[1..], ss[1..], ds[1..], from + q * ss[0], to + q * ds[0])[r]
  {
    var before := RowMoves(ext, ss, ds, 0, q, from, to);
    var row := Moves(ext[1..], ss[1..], ds[1..], from + q * ss[0], to + q * ds[0]);
    var after := RowMoves(ext, ss, ds, q + 1, ext[0], from, to);
    RowFirst(ext, ss, ds, q, from, to);
    hide Moves;
    hide RowMoves;
    hide Product;
    RowMovesConcat(ext, ss, ds, 0, q, ext[0], from, to);
    RowMovesLength(ext, ss, ds, 0, q, from, to);
    MovesLength(ext[1..], ss[1..], ds[1..], from + q * ss[0], to + q * ds[0]);
    MulAtLeast(q, 0, Product(ext[1..]));
    assert (before + (row + after))[|before| + r] == row[r];
  }

  lemma RowFirst(ext: seq<int>, ss: seq<int>, ds: seq<int>, q: int, from: int, to: int)
    requires |ext| == |ss| == |ds| > 0 && q < ext[0]
    ensures Moves(ext, ss, ds, from, to) == RowMoves(ext, ss, ds, 0, ext[0], from, to)
    ensures RowMoves(ext, ss, ds, q, ext[0], from, to) ==
            Moves(ext[1..], ss[1..], ds[1..], from + q * ss[0], to + q * ds[0])
            + RowMoves(ext, ss, ds, q + 1, ext[0], from, to)
  {
  }

  /** The k-th visited cell is the cell of rank k. */
  lemma {:induction false} MovesByRank(ext: seq<int>, ss: seq<int>, ds: seq<int>, from: int, to: int, k: int)
    requires Positive(ext) && |ext| == |ss| == |ds| && 0 <= k < Product(ext)
    ensures |Moves(ext, ss, ds, from, to)| == Product(ext)
    ensures Moves(ext, ss, ds, from, to)[k] == MoveOf(Unrank(k, ext), ss, ds, from, to)
  {
    MovesLength(ext, ss, ds, from, to);
    if ext != [] {
      var p := Product(ext[1..]);
      ProductPositive(ext[1..]);
      HeadDigit(k, ext[0], p);
      var q, r := k / p, k % p;
      var idx := Unrank(k, ext);
      assert idx[0] == q && idx[1..] == Unrank(r, ext[1..]);
      hide Moves;
      hide Unrank;
      hide Product;
      RowAt(ext, ss, ds, from, to, q, r);
      MovesByRank(ext[1..], ss[1..], ds[1..], from + q * ss[0], to + q * ds[0], r);
    }
  }

  /** Every multi-index of the box is visited, at its rank. */
  lemma BoxIsVisited(ext: seq<int>, ss: seq<int>, ds: seq<int>, from: int, to: int, idx: seq<int>)
    requires |ext| == |ss| == |ds| && InRange(idx, ext)
    ensures var k := Dot(idx, PackedStrides(ext));
            var ms := Moves(ext, ss, ds, from, to);
            0 <= k < |ms| && ms[k] == MoveOf(idx, ss, ds, from, to)
  {
    UnrankOfOffset(idx, ext);
    MovesByRank(ext, ss, ds, from, to, Dot(idx, PackedStrides(ext)));
  }

  /** Every visited cell is the cell of some multi-index of the box. */
  lemma VisitedIsInBox(ext: seq<int>, ss: seq<int>, ds: seq<int>, from: int, to: int, k: nat) returns (idx: seq<int>)
    requires Box(ext) && |ext| == |ss| == |ds| && k < |Moves(ext, ss, ds, from, to)|
    ensures InRange(idx, ext) && Dot(idx, PackedStrides(ext)) == k
    ensures Moves(ext, ss, ds, from, to)[k] == MoveOf(idx, ss, ds, from, to)
  {
    MovesLength(ext, ss, ds, from, to);
    if !Positive(ext) {
      var j :| 0 <= j < |ext| && ext[j] < 1;
      ProductZero(ext, j);
      assert false;
    }
    MovesByRank(ext, ss, ds, from, to, k);
    OffsetOfUnrank(k, ext);
    idx := Unrank(k, ext);
  }

  lemma {:induction false} ProductZero(ext: seq<int>, j: nat)
    requires j < |ext| && ext[j] == 0
    ensures Product(ext) == 0
  {
    if j > 0 {
      ProductZero(ext[1..], j - 1);
    }
  }
}
