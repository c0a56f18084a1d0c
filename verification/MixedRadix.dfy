/** Mixed-radix positional numbers: the arithmetic behind every strided plan.

    A multi-index over extents e_0, ..., e_(r-1) is a number whose digit k has
    radix e_k, most significant digit first.  The packed (row-major) strides are
    the place values, so "offset under packed strides" and "rank of the index in
    lexicographic order" are the same number.
 */
module MixedRadix {

  function Product(ext: seq<int>): int {
    if ext == [] then 1 else ext[0] * Product(ext[1..])
  }

  function Dot(idx: seq<int>, strides: seq<int>): int
    requires |idx| == |strides|
  {
    if idx == [] then 0 else idx[0] * strides[0] + Dot(idx[1..], strides[1..])
  }

  ghost predicate Positive(ext: seq<int>) {
    forall k :: 0 <= k < |ext| ==> ext[k] >= 1
  }

  /** idx is a multi-index of the box described by ext. */
  ghost predicate InRange(idx: seq<int>, ext: seq<int>) {
    && |idx| == |ext|
    && forall k :: 0 <= k < |ext| ==> 0 <= idx[k] < ext[k]
  }

  /** Row-major place values: element k is the product of the extents after k. */
  function PackedStrides(ext: seq<int>): (strides: seq<int>)
    ensures |strides| == |ext|
  {
    if ext == [] then [] else [Product(ext[1..])] + PackedStrides(ext[1..])
  }

  /** The multi-index of rank n. */
  function Unrank(n: int, ext: seq<int>): (idx: seq<int>)
    requires Positive(ext) && 0 <= n < Product(ext)
    ensures |idx| == |ext|
  {
    if ext == [] then [] else
      ProductPositive(ext[1..]);
      HeadDigit(n, ext[0], Product(ext[1..]));
      [n / Product(ext[1..])] + Unrank(n % Product(ext[1..]), ext[1..])
  }

  /** The lexicographic order on multi-indices of equal length. */
  ghost predicate LexLess(a: seq<int>, b: seq<int>)
    requires |a| == |b|
  {
    a != [] && (a[0] < b[0] || (a[0] == b[0] && LexLess(a[1..], b[1..])))
  }

  // ---- products -----------------------------------------------------------

  lemma {:induction false} ProductPositive(ext: seq<int>)
    requires Positive(ext)
    ensures Product(ext) >= 1
  {
    if ext != [] {
      ProductPositive(ext[1..]);
      MulAtLeast(ext[0], 1, Product(ext[1..]));
    }
  }

  lemma {:induction false} ProductConcat(a: seq<int>, b: seq<int>)
    ensures Product(a + b) == Product(a) * Product(b)
  {
    if a == [] {
      assert a + b == b;
    } else {
      assert (a + b)[1..] == a[1..] + b;
      ProductConcat(a[1..], b);
      MulAssoc(a[0], Product(a[1..]), Product(b));
    }
  }

  lemma {:induction false} PackedStridesAt(ext: seq<int>, k: nat)
    requires k < |ext|
    ensures PackedStrides(ext)[k] == Product(ext[k + 1..])
  {
    if k > 0 {
      PackedStridesAt(ext[1..], k - 1);
      assert ext[1..][k..] == ext[k + 1..];
    }
  }

  // ---- the bijection between multi-indices and ranks ------------------------

  lemma {:induction false} PackedOffsetBounds(idx: seq<int>, ext: seq<int>)
    requires InRange(idx, ext)
    ensures 0 <= Dot(idx, PackedStrides(ext)) < Product(ext)
  {
    if ext != [] {
      assert InRange(idx[1..], ext[1..]);
      PackedOffsetBounds(idx[1..], ext[1..]);
      DigitBounds(idx[0], ext[0], Product(ext[1..]), Dot(idx[1..], PackedStrides(ext[1..])));
    }
  }

  /** Unrank is a left inverse of the packed offset: the offset is injective. */
  lemma {:induction false} UnrankOfOffset(idx: seq<int>, ext: seq<int>)
    requires Positive(ext) && InRange(idx, ext)
    ensures 0 <= Dot(idx, PackedStrides(ext)) < Product(ext)
    ensures Unrank(Dot(idx, PackedStrides(ext)), ext) == idx
  {
    PackedOffsetBounds(idx, ext);
    if ext != [] {
      assert InRange(idx[1..], ext[1..]);
      var p, rest := Product(ext[1..]), Dot(idx[1..], PackedStrides(ext[1..]));
      PackedOffsetBounds(idx[1..], ext[1..]);
      UnrankOfOffset(idx[1..], ext[1..]);
      DivModUnique(idx[0], rest, p);
    }
  }

  /** Unrank is a right inverse of the packed offset: the offset is onto. */
  lemma {:induction false} OffsetOfUnrank(n: int, ext: seq<int>)
    requires Positive(ext) && 0 <= n < Product(ext)
    ensures InRange(Unrank(n, ext), ext)
    ensures Dot(Unrank(n, ext), PackedStrides(ext)) == n
  {
    if ext != [] {
      var p := Product(ext[1..]);
      ProductPositive(ext[1..]);
      HeadDigit(n, ext[0], p);
      OffsetOfUnrank(n % p, ext[1..]);
      var idx := Unrank(n, ext);
      assert idx[1..] == Unrank(n % p, ext[1..]);
      forall k | 0 <= k < |ext| ensures 0 <= idx[k] < ext[k] {
        if k > 0 {
          assert idx[k] == idx[1..][k - 1] && ext[k] == ext[1..][k - 1];
        }
      }
    }
  }

  /** Offsets under packed strides order multi-indices lexicographically. */
  lemma {:induction false} PackedOffsetIsLexicographic(a: seq<int>, b: seq<int>, ext: seq<int>)
    requires InRange(a, ext) && InRange(b, ext)
    ensures LexLess(a, b) <==> Dot(a, PackedStrides(ext)) < Dot(b, PackedStrides(ext))
  {
    if ext != [] {
      assert InRange(a[1..], ext[1..]) && InRange(b[1..], ext[1..]);
      PackedOffsetIsLexicographic(a[1..], b[1..], ext[1..]);
      PackedOffsetBounds(a[1..], ext[1..]);
      PackedOffsetBounds(b[1..], ext[1..]);
      var p := Product(ext[1..]);
      var ra, rb := Dot(a[1..], PackedStrides(ext[1..])), Dot(b[1..], PackedStrides(ext[1..]));
      DigitOrder(a[0], ra, b[0], rb, p);
      DigitOrder(b[0], rb, a[0], ra, p);
    }
  }

  // ---- linearity of the offset -----------------------------------------------

  function Add(a: seq<int>, b: seq<int>): (c: seq<int>)
    requires |a| == |b|
    ensures |c| == |a| && forall k :: 0 <= k < |a| ==> c[k] == a[k] + b[k]
  {
    seq(|a|, k requires 0 <= k < |a| => a[k] + b[k])
  }

  lemma {:induction false} DotAdd(a: seq<int>, b: seq<int>, strides: seq<int>)
    requires |a| == |b| == |strides|
    ensures Dot(Add(a, b), strides) == Dot(a, strides) + Dot(b, strides)
  {
    if a != [] {
      assert Add(a, b)[1..] == Add(a[1..], b[1..]);
      DotAdd(a[1..], b[1..], strides[1..]);
      MulDistributes(a[0], b[0], strides[0]);
    }
  }

  // ---- bounds on offsets ------------------------------------------------------

  ghost predicate NonNegative(strides: seq<int>) {
    forall k :: 0 <= k < |strides| ==> strides[k] >= 0
  }

  lemma {:induction false} DotNonNegative(idx: seq<int>, strides: seq<int>)
    requires |idx| == |strides| && NonNegative(idx) && NonNegative(strides)
    ensures Dot(idx, strides) >= 0
  {
    if idx != [] {
      MulAtLeast(idx[0], 0, strides[0]);
      DotNonNegative(idx[1..], strides[1..]);
    }
  }

  lemma {:induction false} DotZero(idx: seq<int>, strides: seq<int>)
    requires |idx| == |strides| && forall k :: 0 <= k < |idx| ==> idx[k] == 0
    ensures Dot(idx, strides) == 0
  {
    if idx != [] {
      DotZero(idx[1..], strides[1..]);
    }
  }

  lemma {:induction false} DotUnit(idx: seq<int>, strides: seq<int>, k: nat)
    requires |idx| == |strides| && k < |idx| && idx[k] == 1
    requires forall i :: 0 <= i < |idx| && i != k ==> idx[i] == 0
    ensures Dot(idx, strides) == strides[k]
  {
    if k == 0 {
      DotZero(idx[1..], strides[1..]);
    } else {
      DotUnit(idx[1..], strides[1..], k - 1);
    }
  }

  /** No axis of more than one cell has a negative stride. */
  ghost predicate Ascending(ext: seq<int>, strides: seq<int>)
    requires |ext| == |strides|
  {
    forall k :: 0 <= k < |ext| && ext[k] > 1 ==> strides[k] >= 0
  }

  /** Then the offsets of a box run from 0 to that of its last cell. */
  lemma OffsetWithin(idx: seq<int>, ext: seq<int>, strides: seq<int>)
    requires InRange(idx, ext) && |idx| == |strides| && Ascending(ext, strides)
    ensures 0 <= Dot(idx, strides) <= MaxOffset(ext, strides)
  {
    var zero := seq(|idx|, _ => 0);
    DotZero(zero, strides);
    DotMonotone(zero, idx, strides);
    DotMonotone(idx, LastIndex(ext), strides);
  }

  // ---- the last cell ----------------------------------------------------------

  /** The multi-index of the last cell. */
  function LastIndex(ext: seq<int>): (idx: seq<int>)
    ensures |idx| == |ext| && forall k :: 0 <= k < |ext| ==> idx[k] == ext[k] - 1
  {
    seq(|ext|, k requires 0 <= k < |ext| => ext[k] - 1)
  }

  /** Largest offset of the box under non-negative strides. */
  function MaxOffset(ext: seq<int>, strides: seq<int>): int
    requires |ext| == |strides|
  {
    Dot(LastIndex(ext), strides)
  }

  lemma {:induction false} LastPackedOffset(ext: seq<int>)
    ensures Dot(LastIndex(ext), PackedStrides(ext)) == Product(ext) - 1
  {
    if ext != [] {
      assert LastIndex(ext)[1..] == LastIndex(ext[1..]);
      LastPackedOffset(ext[1..]);
      MulDistributes(ext[0] - 1, 1, Product(ext[1..]));
    }
  }

  lemma {:induction false} DotSnoc(a: seq<int>, b: seq<int>, k: nat)
    requires |a| == |b| && k < |a|
    ensures Dot(a[..k + 1], b[..k + 1]) == Dot(a[..k], b[..k]) + a[k] * b[k]
  {
    if k == 0 {
      assert a[..1][1..] == [] && b[..1][1..] == [];
    } else {
      DotSnoc(a[1..], b[1..], k - 1);
      assert a[..k + 1][1..] == a[1..][..k] && b[..k + 1][1..] == b[1..][..k];
      assert a[..k][1..] == a[1..][..k - 1] && b[..k][1..] == b[1..][..k - 1];
    }
  }

  lemma {:induction false} DotMonotone(a: seq<int>, b: seq<int>, strides: seq<int>)
    requires |a| == |b| == |strides|
    requires forall k :: 0 <= k < |a| ==> a[k] == b[k] || (a[k] < b[k] && strides[k] >= 0)
    ensures Dot(a, strides) <= Dot(b, strides)
  {
    if a != [] {
      if a[0] < b[0] {
        MulAtLeast(b[0] - a[0], 0, strides[0]);
        MulDistributes(b[0] - a[0], a[0], strides[0]);
      }
      DotMonotone(a[1..], b[1..], strides[1..]);
    }
  }

  // ---- arithmetic used above ------------------------------------------------

  lemma MulAtLeast(a: int, lo: int, b: int)
    requires a >= lo >= 0 && b >= 0
    ensures a * b >= lo * b
  {
  }

  lemma MulAssoc(a: int, b: int, c: int)
    ensures a * b * c == a * (b * c)
  {
  }

  lemma MulDistributes(a: int, b: int, c: int)
    ensures (a + b) * c == a * c + b * c
  {
  }

  lemma MulStrictlyMonotone(a: int, b: int, p: int)
    requires a < b && p >= 1
    ensures a * p + p <= b * p
  {
    MulAtLeast(b - a, 1, p);
    MulDistributes(b - a, a, p);
  }

  lemma DigitBounds(d: int, radix: int, place: int, rest: int)
    requires 0 <= d < radix && 0 <= rest < place
    ensures 0 <= d * place + rest < radix * place
  {
    MulStrictlyMonotone(d, radix, place);
    MulAtLeast(d, 0, place);
  }

  lemma DigitOrder(d: int, rest: int, d': int, rest': int, place: int)
    requires 0 <= rest < place && 0 <= rest' < place
    ensures d < d' ==> d * place + rest < d' * place + rest'
  {
    if d < d' {
      MulStrictlyMonotone(d, d', place);
    }
  }

  lemma HeadDigit(n: int, radix: int, place: int)
    requires place >= 1 && 0 <= n < radix * place
    ensures 0 <= n / place < radix && 0 <= n % place < place
    ensures n == (n / place) * place + n % place
  {
    var q := n / place;
    assert n == q * place + n % place;
    if q < 0 {
      MulStrictlyMonotone(q, 0, place);
    } else if q >= radix {
      MulAtLeast(q, radix, place);
    }
  }

  lemma DivModUnique(q: int, r: int, place: int)
    requires 0 <= r < place
    ensures (q * place + r) / place == q && (q * place + r) % place == r
  {
    var n := q * place + r;
    var q', r' := n / place, n % place;
    assert n == q' * place + r';
    DigitOrder(q, r, q', r', place);
    DigitOrder(q', r', q, r, place);
  }
}
