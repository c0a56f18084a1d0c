/** When does a stride vector address every element exactly once?

    Axis order does not matter to an offset, so strides that are packed in SOME
    axis order are a bijection, and strides whose sorted spans never overlap are
    injective.
 */
module Strides {
  import opened MixedRadix
  import Relocation

  /** The offsets of the box are exactly 0, ..., total - 1, each hit once. */
  ghost predicate Bijective(ext: seq<int>, strides: seq<int>, total: int)
    requires |ext| == |strides|
  {
    && (forall idx :: InRange(idx, ext) ==> 0 <= Dot(idx, strides) < total)
    && Injective(ext, strides)
    && (forall o :: 0 <= o < total ==> Hit(ext, strides, o))
  }

  ghost predicate Injective(ext: seq<int>, strides: seq<int>)
    requires |ext| == |strides|
  {
    forall a, b :: InRange(a, ext) && InRange(b, ext) && Dot(a, strides) == Dot(b, strides) ==> a == b
  }

  ghost predicate Hit(ext: seq<int>, strides: seq<int>, o: int)
    requires |ext| == |strides|
  {
    exists idx :: InRange(idx, ext) && Dot(idx, strides) == o
  }

  // ---- offsets do not depend on the axis order -----------------------------------

  /** The offset contributed by the axes listed in p. */
  function PickDot(a: seq<int>, b: seq<int>, p: seq<int>): int
    requires |a| == |b| && forall i :: 0 <= i < |p| ==> 0 <= p[i] < |a|
  {
    if p == [] then 0 else a[p[0]] * b[p[0]] + PickDot(a, b, p[1..])
  }

  function UpTo(n: nat): (s: seq<int>)
    ensures |s| == n && forall i :: 0 <= i < n ==> s[i] == i
  {
    seq(n, i => i)
  }

  lemma {:induction false} PickDotConcat(a: seq<int>, b: seq<int>, p: seq<int>, q: seq<int>)
    requires |a| == |b| && forall i :: 0 <= i < |p| ==> 0 <= p[i] < |a|
    requires forall i :: 0 <= i < |q| ==> 0 <= q[i] < |a|
    ensures PickDot(a, b, p + q) == PickDot(a, b, p) + PickDot(a, b, q)
  {
    if p == [] {
      assert p + q == q;
    } else {
      assert (p + q)[1..] == p[1..] + q;
      PickDotConcat(a, b, p[1..], q);
    }
  }

  lemma {:induction false} PickDotPermutes(a: seq<int>, b: seq<int>, p: seq<int>, q: seq<int>)
    requires |a| == |b| && forall i :: 0 <= i < |p| ==> 0 <= p[i] < |a|
    requires forall i :: 0 <= i < |q| ==> 0 <= q[i] < |a|
    requires multiset(p) == multiset(q)
    ensures PickDot(a, b, p) == PickDot(a, b, q)
  {
    if p == [] {
      assert |multiset(q)| == 0;
    } else {
      assert p[0] in multiset(q);
      var j :| 0 <= j < |q| && q[j] == p[0];
      var rest := q[..j] + q[j + 1..];
      WithoutOne(p, q, j);
      PickDotPermutes(a, b, p[1..], rest);
      PickDotWithout(a, b, q, j);
    }
  }

  lemma WithoutOne(p: seq<int>, q: seq<int>, j: nat)
    requires multiset(p) == multiset(q) && p != [] && j < |q| && q[j] == p[0]
    ensures multiset(p[1..]) == multiset(q[..j] + q[j + 1..])
  {
    assert p == [p[0]] + p[1..];
    assert q == q[..j] + [q[j]] + q[j + 1..];
    assert multiset(p[1..]) == multiset(p) - multiset{p[0]};
    assert multiset(q[..j] + q[j + 1..]) == multiset(q) - multiset{p[0]};
  }

  lemma PickDotWithout(a: seq<int>, b: seq<int>, q: seq<int>, j: nat)
    requires |a| == |b| && j < |q| && forall i :: 0 <= i < |q| ==> 0 <= q[i] < |a|
    ensures PickDot(a, b, q) == a[q[j]] * b[q[j]] + PickDot(a, b, q[..j] + q[j + 1..])
  {
    assert q == q[..j] + q[j..];
    PickDotConcat(a, b, q[..j], q[j..]);
    PickDotConcat(a, b, q[..j], q[j + 1..]);
    assert q[j..][1..] == q[j + 1..];
  }

  lemma {:induction false} PickDotSuffix(a: seq<int>, b: seq<int>, k: nat)
    requires |a| == |b| && k <= |a|
    ensures PickDot(a, b, UpTo(|a|)[k..]) == Dot(a[k..], b[k..])
    decreases |a| - k
  {
    if k < |a| {
      PickDotSuffix(a, b, k + 1);
      assert UpTo(|a|)[k..][1..] == UpTo(|a|)[k + 1..];
      assert a[k..][1..] == a[k + 1..] && b[k..][1..] == b[k + 1..];
    }
  }

  function Permute(s: seq<int>, p: seq<int>): (r: seq<int>)
    requires forall i :: 0 <= i < |p| ==> 0 <= p[i] < |s|
    ensures |r| == |p| && forall i :: 0 <= i < |p| ==> r[i] == s[p[i]]
  {
    seq(|p|, i requires 0 <= i < |p| => s[p[i]])
  }

  lemma {:induction false} PickDotIsPermuted(a: seq<int>, b: seq<int>, p: seq<int>)
    requires |a| == |b| && forall i :: 0 <= i < |p| ==> 0 <= p[i] < |a|
    ensures PickDot(a, b, p) == Dot(Permute(a, p), Permute(b, p))
  {
    if p != [] {
      assert Permute(a, p)[1..] == Permute(a, p[1..]) && Permute(b, p)[1..] == Permute(b, p[1..]);
      PickDotIsPermuted(a, b, p[1..]);
    }
  }

  ghost predicate IsPermutation(p: seq<int>, n: nat) {
    multiset(p) == multiset(UpTo(n))
  }

  lemma PermutationRange(p: seq<int>, n: nat)
    requires IsPermutation(p, n)
    ensures |p| == n
    ensures forall i :: 0 <= i < |p| ==> 0 <= p[i] < n
    ensures forall k :: 0 <= k < n ==> k in p
  {
    assert |multiset(p)| == |multiset(UpTo(n))|;
    forall i | 0 <= i < |p| ensures 0 <= p[i] < n {
      assert p[i] in multiset(UpTo(n));
    }
    forall k | 0 <= k < n ensures k in p {
      assert UpTo(n)[k] == k && k in multiset(p);
    }
  }

  /** The offset of an index is the offset of the permuted index under permuted strides. */
  lemma DotPermutes(idx: seq<int>, strides: seq<int>, p: seq<int>)
    requires |idx| == |strides| && IsPermutation(p, |idx|)
    ensures forall i :: 0 <= i < |p| ==> 0 <= p[i] < |idx|
    ensures Dot(idx, strides) == Dot(Permute(idx, p), Permute(strides, p))
  {
    PermutationRange(p, |idx|);
    PickDotPermutes(idx, strides, p, UpTo(|idx|));
    PickDotIsPermuted(idx, strides, p);
    PickDotSuffix(idx, strides, 0);
    assert UpTo(|idx|)[0..] == UpTo(|idx|) && idx[0..] == idx && strides[0..] == strides;
  }

  /** Strides that are packed in some axis order hit every offset exactly once. */
  lemma PermutedPackedIsBijective(ext: seq<int>, strides: seq<int>, p: seq<int>)
    requires |ext| == |strides| && Positive(ext) && IsPermutation(p, |ext|)
    requires (forall i :: 0 <= i < |p| ==> 0 <= p[i] < |ext|) && Permute(strides, p) == PackedStrides(Permute(ext, p))
    ensures Bijective(ext, strides, Product(Permute(ext, p)))
  {
    PermutationRange(p, |ext|);
    var pext := Permute(ext, p);
    forall idx | InRange(idx, ext)
      ensures 0 <= Dot(idx, strides) < Product(pext) && Unrank(Dot(idx, strides), pext) == Permute(idx, p)
    {
      DotPermutes(idx, strides, p);
      UnrankOfOffset(Permute(idx, p), pext);
    }
    forall a, b | InRange(a, ext) && InRange(b, ext) && Dot(a, strides) == Dot(b, strides) ensures a == b {
      assert Permute(a, p) == Permute(b, p);
      PermuteInjective(a, b, p);
    }
    forall o | 0 <= o < Product(pext) ensures Hit(ext, strides, o) {
      OffsetOfUnrank(o, pext);
      var idx := Unpermute(Unrank(o, pext), ext, p);
      DotPermutes(idx, strides, p);
      assert InRange(idx, ext) && Dot(idx, strides) == o;
    }
  }

  lemma PackedBijective(ext: seq<int>)
    requires Positive(ext)
    ensures Bijective(ext, PackedStrides(ext), Product(ext))
  {
    var p := UpTo(|ext|);
    assert Permute(ext, p) == ext && Permute(PackedStrides(ext), p) == PackedStrides(ext);
    PermutedPackedIsBijective(ext, PackedStrides(ext), p);
  }

  lemma PermuteInjective(a: seq<int>, b: seq<int>, p: seq<int>)
    requires |a| == |b| && IsPermutation(p, |a|) && forall i :: 0 <= i < |p| ==> 0 <= p[i] < |a|
    requires Permute(a, p) == Permute(b, p)
    ensures a == b
  {
    PermutationRange(p, |a|);
    forall k | 0 <= k < |a| ensures a[k] == b[k] {
      assert k in p;
      var i :| 0 <= i < |p| && p[i] == k;
      assert Permute(a, p)[i] == Permute(b, p)[i];
    }
  }

  /** The multi-index whose permutation is v. */
  lemma Unpermute(v: seq<int>, ext: seq<int>, p: seq<int>) returns (idx: seq<int>)
    requires IsPermutation(p, |ext|) && forall i :: 0 <= i < |p| ==> 0 <= p[i] < |ext|
    requires InRange(v, Permute(ext, p))
    ensures InRange(idx, ext) && Permute(idx, p) == v
  {
    PermutationRange(p, |ext|);
    idx := [];
    while |idx| < |ext|
      invariant |idx| <= |ext|
      invariant forall k :: 0 <= k < |idx| ==> 0 <= idx[k] < ext[k]
      invariant forall i :: 0 <= i < |p| && p[i] < |idx| ==> idx[p[i]] == v[i]
    {
      var k := |idx|;
      assert k in p;
      var i :| 0 <= i < |p| && p[i] == k;
      PermutationDistinct(p, |ext|);
      idx := idx + [v[i]];
    }
  }

  lemma PermutationDistinct(p: seq<int>, n: nat)
    requires IsPermutation(p, n)
    ensures forall i, j :: 0 <= i < j < |p| ==> p[i] != p[j]
  {
    PermutationRange(p, n);
    forall i, j | 0 <= i < j < |p| ensures p[i] != p[j] {
      CountInUpTo(n, p[i]);
      if p[i] == p[j] {
        Relocation.OccursTwice(p, i, j);
      }
    }
  }

  lemma CountInUpTo(n: nat, x: nat)
    requires x < n
    ensures multiset(UpTo(n))[x] == 1
  {
    var u := UpTo(n);
    assert u == u[..x] + [u[x]] + u[x + 1..];
    assert x !in u[..x] && x !in u[x + 1..];
  }

  // ---- the sorted-span test of the parallel scatter -------------------------------

  /** The scan of srcRowsWriteDisjoint over axes listed in p, smallest stride first. */
  function SpanOf(ext: seq<int>, strides: seq<int>, p: seq<int>): int
    requires |ext| == |strides| && forall i :: 0 <= i < |p| ==> 0 <= p[i] < |ext|
  {
    if p == [] then 0 else
      var last := p[|p| - 1];
      SpanOf(ext, strides, p[..|p| - 1]) + (ext[last] - 1) * strides[last]
  }

  predicate NeverOverlaps(ext: seq<int>, strides: seq<int>, p: seq<int>)
    requires |ext| == |strides| && forall i :: 0 <= i < |p| ==> 0 <= p[i] < |ext|
  {
    p == [] || (
      var last := p[|p| - 1];
      && NeverOverlaps(ext, strides, p[..|p| - 1])
      && strides[last] > SpanOf(ext, strides, p[..|p| - 1]))
  }

  lemma {:induction false} PickWithinSpan(ext: seq<int>, strides: seq<int>, p: seq<int>, idx: seq<int>)
    requires |ext| == |strides| && (forall i :: 0 <= i < |p| ==> 0 <= p[i] < |ext| && strides[p[i]] >= 0)
    requires InRange(idx, ext)
    ensures 0 <= PickDot(idx, strides, p) <= SpanOf(ext, strides, p)
  {
    if p != [] {
      var init, last := p[..|p| - 1], p[|p| - 1];
      PickWithinSpan(ext, strides, init, idx);
      assert p == init + [last];
      PickDotConcat(idx, strides, init, [last]);
      assert PickDot(idx, strides, [last]) == idx[last] * strides[last];
      MulAtLeast(idx[last], 0, strides[last]);
      MulAtLeast(ext[last] - 1 - idx[last], 0, strides[last]);
      MulDistributes(ext[last] - 1 - idx[last], idx[last], strides[last]);
    }
  }

  /** If no stride lies within the span of the smaller ones, the listed digits can be read off the offset. */
  lemma {:induction false} DigitsDetermined(ext: seq<int>, strides: seq<int>, p: seq<int>, a: seq<int>, b: seq<int>)
    requires |ext| == |strides| && (forall i :: 0 <= i < |p| ==> 0 <= p[i] < |ext| && strides[p[i]] >= 0)
    requires InRange(a, ext) && InRange(b, ext)
    requires NeverOverlaps(ext, strides, p) && PickDot(a, strides, p) == PickDot(b, strides, p)
    ensures forall i :: 0 <= i < |p| ==> a[p[i]] == b[p[i]]
  {
    if p != [] {
      var init, last := p[..|p| - 1], p[|p| - 1];
      assert p == init + [last];
      PickDotConcat(a, strides, init, [last]);
      PickDotConcat(b, strides, init, [last]);
      assert PickDot(a, strides, [last]) == a[last] * strides[last];
      assert PickDot(b, strides, [last]) == b[last] * strides[last];
      PickWithinSpan(ext, strides, init, a);
      PickWithinSpan(ext, strides, init, b);
      var ra, rb := PickDot(a, strides, init), PickDot(b, strides, init);
      DigitOrder(a[last], ra, b[last], rb, strides[last]);
      DigitOrder(b[last], rb, a[last], ra, strides[last]);
      DigitsDetermined(ext, strides, init, a, b);
    }
  }

  /** p lists the axes of extent above one, and they pass the scan. */
  ghost predicate PassesScan(ext: seq<int>, strides: seq<int>, p: seq<int>)
    requires |ext| == |strides|
  {
    && (forall i :: 0 <= i < |p| ==> 0 <= p[i] < |ext| && strides[p[i]] > 0)
    && (exists unit: seq<int> :: IsPermutation(p + unit, |ext|) && UnitAxes(ext, unit))
    && NeverOverlaps(ext, strides, p)
  }

  ghost predicate UnitAxes(ext: seq<int>, unit: seq<int>) {
    forall i :: 0 <= i < |unit| ==> 0 <= unit[i] < |ext| && ext[unit[i]] <= 1
  }

  /** The promise behind parallel scatter: distinct cells have distinct source offsets. */
  lemma ScanImpliesInjective(ext: seq<int>, strides: seq<int>, p: seq<int>)
    requires |ext| == |strides| && PassesScan(ext, strides, p)
    ensures Injective(ext, strides)
  {
    var unit: seq<int> :| IsPermutation(p + unit, |ext|) && UnitAxes(ext, unit);
    PermutationRange(p + unit, |ext|);
    forall a, b | InRange(a, ext) && InRange(b, ext) && Dot(a, strides) == Dot(b, strides) ensures a == b {
      SplitOffset(ext, strides, p, unit, a);
      SplitOffset(ext, strides, p, unit, b);
      DigitsDetermined(ext, strides, p, a, b);
      forall k | 0 <= k < |ext| ensures a[k] == b[k] {
        assert k in p + unit;
        var i :| 0 <= i < |p + unit| && (p + unit)[i] == k;
        if i < |p| {
          assert p[i] == k;
        } else {
          assert unit[i - |p|] == k;
        }
      }
    }
  }

  lemma SplitOffset(ext: seq<int>, strides: seq<int>, p: seq<int>, unit: seq<int>, idx: seq<int>)
    requires |ext| == |strides| && IsPermutation(p + unit, |ext|) && UnitAxes(ext, unit) && InRange(idx, ext)
    requires forall i :: 0 <= i < |p| ==> 0 <= p[i] < |ext|
    ensures Dot(idx, strides) == PickDot(idx, strides, p)
  {
    PickDotPermutes(idx, strides, p + unit, UpTo(|idx|)) by { PermutationRange(p + unit, |ext|); }
    PickDotSuffix(idx, strides, 0);
    assert UpTo(|idx|)[0..] == UpTo(|idx|) && idx[0..] == idx && strides[0..] == strides;
    PickDotConcat(idx, strides, p, unit);
    UnitAxesAddNothing(ext, strides, unit, idx);
  }

  lemma {:induction false} UnitAxesAddNothing(ext: seq<int>, strides: seq<int>, unit: seq<int>, idx: seq<int>)
    requires |ext| == |strides| && UnitAxes(ext, unit) && InRange(idx, ext)
    ensures PickDot(idx, strides, unit) == 0
  {
    if unit != [] {
      assert idx[unit[0]] == 0;
      UnitAxesAddNothing(ext, strides, unit[1..], idx);
    }
  }

  /** std::sort order on (stride, extent). */
  predicate AxisBefore(ext: seq<int>, strides: seq<int>, a: int, b: int)
    requires |ext| == |strides| && 0 <= a < |ext| && 0 <= b < |ext|
  {
    strides[a] < strides[b] || (strides[a] == strides[b] && ext[a] <= ext[b])
  }

  function InsertAxis(ext: seq<int>, strides: seq<int>, p: seq<int>, k: int): (r: seq<int>)
    requires |ext| == |strides| && 0 <= k < |ext| && forall i :: 0 <= i < |p| ==> 0 <= p[i] < |ext|
    ensures forall i :: 0 <= i < |r| ==> 0 <= r[i] < |ext|
  {
    if p == [] then [k]
    else if AxisBefore(ext, strides, k, p[0]) then [k] + p
    else [p[0]] + InsertAxis(ext, strides, p[1..], k)
  }

  lemma {:induction false} InsertAxisMultiset(ext: seq<int>, strides: seq<int>, p: seq<int>, k: int)
    requires |ext| == |strides| && 0 <= k < |ext| && forall i :: 0 <= i < |p| ==> 0 <= p[i] < |ext|
    ensures multiset(InsertAxis(ext, strides, p, k)) == multiset(p) + multiset{k}
  {
    if p != [] {
      assert p == [p[0]] + p[1..];
      if !AxisBefore(ext, strides, k, p[0]) {
        InsertAxisMultiset(ext, strides, p[1..], k);
      }
    }
  }

  /** Listed by stride, and by extent where strides are equal. */
  ghost predicate InAxisOrder(ext: seq<int>, strides: seq<int>, p: seq<int>)
    requires |ext| == |strides| && forall i :: 0 <= i < |p| ==> 0 <= p[i] < |ext|
  {
    forall i, j :: 0 <= i < j < |p| ==>
      strides[p[i]] < strides[p[j]] || (strides[p[i]] == strides[p[j]] && ext[p[i]] <= ext[p[j]])
  }

  lemma {:induction false} InsertAxisOrder(ext: seq<int>, strides: seq<int>, p: seq<int>, k: int)
    requires |ext| == |strides| && 0 <= k < |ext| && forall i :: 0 <= i < |p| ==> 0 <= p[i] < |ext|
    requires InAxisOrder(ext, strides, p)
    ensures InAxisOrder(ext, strides, InsertAxis(ext, strides, p, k))
  {
    if p != [] && !AxisBefore(ext, strides, k, p[0]) {
      var rest := InsertAxis(ext, strides, p[1..], k);
      InsertAxisOrder(ext, strides, p[1..], k);
      InsertAxisMultiset(ext, strides, p[1..], k);
      forall j | 0 <= j < |rest|
        ensures strides[p[0]] < strides[rest[j]] || (strides[p[0]] == strides[rest[j]] && ext[p[0]] <= ext[rest[j]])
      {
        assert rest[j] in multiset(rest);
        assert rest[j] == k || rest[j] in p[1..];
      }
    }
  }

  /** The axes of extent above one among the first n, smallest stride first. */
  function SortedAxes(ext: seq<int>, strides: seq<int>, n: nat): (p: seq<int>)
    requires |ext| == |strides| && n <= |ext|
    ensures forall i :: 0 <= i < |p| ==> 0 <= p[i] < |ext|
  {
    if n == 0 then []
    else if ext[n - 1] <= 1 then SortedAxes(ext, strides, n - 1)
    else InsertAxis(ext, strides, SortedAxes(ext, strides, n - 1), n - 1)
  }

  function UnitAxesUpTo(ext: seq<int>, n: nat): (unit: seq<int>)
    requires n <= |ext|
    ensures UnitAxes(ext, unit)
  {
    if n == 0 then []
    else if ext[n - 1] <= 1 then UnitAxesUpTo(ext, n - 1) + [n - 1]
    else UnitAxesUpTo(ext, n - 1)
  }

  lemma PartitionLast(p: seq<int>, unit: seq<int>, k: nat)
    requires IsPermutation(p + unit, k)
    ensures IsPermutation(p + (unit + [k]), k + 1)
  {
    UpToLast(k + 1);
    assert p + (unit + [k]) == (p + unit) + [k];
  }

  lemma PartitionInserted(p: seq<int>, unit: seq<int>, q: seq<int>, k: nat)
    requires IsPermutation(p + unit, k) && multiset(q) == multiset(p) + multiset{k}
    ensures IsPermutation(q + unit, k + 1)
  {
    UpToLast(k + 1);
    assert multiset(q + unit) == multiset(q) + multiset(unit);
    assert multiset(p + unit) == multiset(p) + multiset(unit);
  }

  lemma UpToLast(n: nat)
    requires n > 0
    ensures UpTo(n) == UpTo(n - 1) + [n - 1]
  {
  }

  /** How axis n - 1 joins the kept axes or the unit ones. */
  lemma AxesStep(ext: seq<int>, strides: seq<int>, n: nat)
    requires |ext| == |strides| && 0 < n <= |ext|
    ensures ext[n - 1] <= 1 ==>
              && SortedAxes(ext, strides, n) == SortedAxes(ext, strides, n - 1)
              && UnitAxesUpTo(ext, n) == UnitAxesUpTo(ext, n - 1) + [n - 1]
    ensures ext[n - 1] > 1 ==>
              && SortedAxes(ext, strides, n) == InsertAxis(ext, strides, SortedAxes(ext, strides, n - 1), n - 1)
              && UnitAxesUpTo(ext, n) == UnitAxesUpTo(ext, n - 1)
  {
  }

  lemma NoAxes(ext: seq<int>, strides: seq<int>)
    requires |ext| == |strides|
    ensures IsPermutation(SortedAxes(ext, strides, 0) + UnitAxesUpTo(ext, 0), 0)
  {
    assert SortedAxes(ext, strides, 0) + UnitAxesUpTo(ext, 0) == UpTo(0);
  }

  lemma {:induction false} SortedAxesOrder(ext: seq<int>, strides: seq<int>, n: nat)
    requires |ext| == |strides| && n <= |ext|
    ensures InAxisOrder(ext, strides, SortedAxes(ext, strides, n))
  {
    if n > 0 {
      SortedAxesOrder(ext, strides, n - 1);
      if ext[n - 1] > 1 {
        InsertAxisOrder(ext, strides, SortedAxes(ext, strides, n - 1), n - 1);
      }
    }
  }

  lemma {:induction false} AxesPartition(ext: seq<int>, strides: seq<int>, n: nat)
    requires |ext| == |strides| && n <= |ext|
    ensures IsPermutation(SortedAxes(ext, strides, n) + UnitAxesUpTo(ext, n), n)
  {
    hide *;
    if n == 0 {
      NoAxes(ext, strides);
    } else {
      AxesPartition(ext, strides, n - 1);
      var p, unit := SortedAxes(ext, strides, n - 1), UnitAxesUpTo(ext, n - 1);
      AxesStep(ext, strides, n);
      if ext[n - 1] <= 1 {
        PartitionLast(p, unit, n - 1);
      } else {
        InsertAxisMultiset(ext, strides, p, n - 1);
        PartitionInserted(p, unit, InsertAxis(ext, strides, p, n - 1), n - 1);
      }
    }
  }

  /** The list is exactly the axes of extent above one, in order. */
  lemma SortedAxesAre(ext: seq<int>, strides: seq<int>)
    requires |ext| == |strides|
    ensures AllAboveOne(ext, SortedAxes(ext, strides, |ext|)) && InAxisOrder(ext, strides, SortedAxes(ext, strides, |ext|))
    ensures IsPermutation(SortedAxes(ext, strides, |ext|) + UnitAxesUpTo(ext, |ext|), |ext|)
  {
    AxesPartition(ext, strides, |ext|);
    SortedAxesNonUnit(ext, strides, |ext|);
    SortedAxesOrder(ext, strides, |ext|);
  }

  /** The gathering loop of srcRowsWriteDisjoint. */
  method CollectAxes(ext: seq<int>, strides: seq<int>) returns (ok: bool, ax: seq<int>)
    requires |ext| == |strides|
    ensures ok <==> forall k :: 0 <= k < |ext| && ext[k] > 1 ==> strides[k] > 0
    ensures ok ==> ax == SortedAxes(ext, strides, |ext|)
    ensures ok ==> AllAboveOne(ext, ax) && InAxisOrder(ext, strides, ax)
    ensures ok ==> IsPermutation(ax + UnitAxesUpTo(ext, |ext|), |ext|)
  {
    ax := [];
    var k := 0;
    assert ax == SortedAxes(ext, strides, 0);
    hide AllAboveOne;
    hide InAxisOrder;
    hide IsPermutation;
    while k < |ext|
      invariant 0 <= k <= |ext| && ax == SortedAxes(ext, strides, k)
      invariant forall i :: 0 <= i < k && ext[i] > 1 ==> strides[i] > 0
    {
      if ext[k] > 1 {
        if strides[k] <= 0 {
          return false, ax;
        }
        ax := InsertAxis(ext, strides, ax, k);
      }
      k := k + 1;
    }
    SortedAxesAre(ext, strides);
    ok := true;
  }

  /** The scanning loop of srcRowsWriteDisjoint. */
  method ScanAxes(ext: seq<int>, strides: seq<int>, ax: seq<int>) returns (ok: bool)
    requires |ext| == |strides| && forall i :: 0 <= i < |ax| ==> 0 <= ax[i] < |ext|
    ensures ok <==> NeverOverlaps(ext, strides, ax)
  {
    var span, i := 0, 0;
    assert ax[..0] == [];
    while i < |ax|
      invariant 0 <= i <= |ax|
      invariant span == SpanOf(ext, strides, ax[..i]) && NeverOverlaps(ext, strides, ax[..i])
    {
      assert ax[..i + 1][..i] == ax[..i];
      if strides[ax[i]] <= span {
        OverlapPersists(ext, strides, ax, i);
        return false;
      }
      span := span + (ext[ax[i]] - 1) * strides[ax[i]];
      i := i + 1;
    }
    assert ax[..i] == ax;
    ok := true;
  }

  /** srcRowsWriteDisjoint: true only if distinct cells have distinct source offsets. */
  method SrcRowsWriteDisjoint(ext: seq<int>, strides: seq<int>) returns (ok: bool)
    requires |ext| == |strides|
    ensures ok <==> && (forall k :: 0 <= k < |ext| && ext[k] > 1 ==> strides[k] > 0)
                    && NeverOverlaps(ext, strides, SortedAxes(ext, strides, |ext|))
    ensures ok ==> Injective(ext, strides)
  {
    var positive, ax := CollectAxes(ext, strides);
    if !positive {
      return false;
    }
    ok := ScanAxes(ext, strides, ax);
    if ok {
      ScanImpliesInjective(ext, strides, ax);
    }
  }

  lemma {:induction false} OverlapPersists(ext: seq<int>, strides: seq<int>, p: seq<int>, i: nat)
    requires |ext| == |strides| && (forall j :: 0 <= j < |p| ==> 0 <= p[j] < |ext|) && i < |p|
    requires strides[p[i]] <= SpanOf(ext, strides, p[..i])
    ensures !NeverOverlaps(ext, strides, p)
  {
    if i < |p| - 1 {
      var init := p[..|p| - 1];
      assert init[..i] == p[..i];
      OverlapPersists(ext, strides, init, i);
    }
  }

  ghost predicate AllAboveOne(ext: seq<int>, p: seq<int>) {
    forall i :: 0 <= i < |p| ==> 0 <= p[i] < |ext| && ext[p[i]] > 1
  }

  lemma {:induction false} InsertKeepsNonUnit(ext: seq<int>, strides: seq<int>, p: seq<int>, k: int)
    requires |ext| == |strides| && AllAboveOne(ext, p) && 0 <= k < |ext| && ext[k] > 1
    ensures AllAboveOne(ext, InsertAxis(ext, strides, p, k))
  {
    if p != [] && !AxisBefore(ext, strides, k, p[0]) {
      InsertKeepsNonUnit(ext, strides, p[1..], k);
    }
  }

  lemma {:induction false} SortedAxesNonUnit(ext: seq<int>, strides: seq<int>, n: nat)
    requires |ext| == |strides| && n <= |ext|
    ensures AllAboveOne(ext, SortedAxes(ext, strides, n))
  {
    if n > 0 {
      SortedAxesNonUnit(ext, strides, n - 1);
      if ext[n - 1] > 1 {
        InsertKeepsNonUnit(ext, strides, SortedAxes(ext, strides, n - 1), n - 1);
      }
    }
  }
}
