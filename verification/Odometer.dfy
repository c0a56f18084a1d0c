/** forEachCell: the carry odometer that walks a plan in place. */
module Odometer {
  import opened MixedRadix
  import opened Strides
  import opened Builders
  import opened Plan
  import opened Relocation
  import opened Sorting

  datatype Visit = Visit(idx: seq<int>, dstOff: int, srcOff: int)

  /** The suffix of idx from k on is at its last value / at zero. */
  ghost predicate MaxedFrom(idx: seq<int>, ext: seq<int>, k: nat)
    requires |idx| == |ext|
  {
    forall i :: k <= i < |ext| ==> idx[i] == ext[i] - 1
  }

  ghost predicate ZeroFrom(idx: seq<int>, k: nat) {
    forall i :: k <= i < |idx| ==> idx[i] == 0
  }

  lemma {:induction false} ZeroOffset(idx: seq<int>, strides: seq<int>)
    requires |idx| == |strides| && ZeroFrom(idx, 0)
    ensures Dot(idx, strides) == 0
  {
    if idx != [] {
      ZeroOffset(idx[1..], strides[1..]);
    }
  }

  /** A carry into digit k-1 after a run of exhausted digits adds one to the rank. */
  lemma {:induction false} CarryAddsOne(before: seq<int>, after: seq<int>, ext: seq<int>, k: nat)
    requires |before| == |after| == |ext| && k < |ext|
    requires before[..k] == after[..k] && after[k] == before[k] + 1
    requires MaxedFrom(before, ext, k + 1) && ZeroFrom(after, k + 1)
    ensures Dot(after, PackedStrides(ext)) == Dot(before, PackedStrides(ext)) + 1
  {
    var p := Product(ext[1..]);
    if k == 0 {
      assert before[1..] == LastIndex(ext[1..]);
      LastPackedOffset(ext[1..]);
      ZeroOffset(after[1..], PackedStrides(ext[1..]));
      MulDistributes(before[0], 1, p);
    } else {
      assert before[0] == before[..k][0] == after[0];
      assert before[1..][..k - 1] == before[..k][1..] && after[1..][..k - 1] == after[..k][1..];
      CarryAddsOne(before[1..], after[1..], ext[1..], k - 1);
    }
  }

  /** The visit of rank k. */
  ghost function VisitOf(b: BoundPlan, k: int): Visit
    requires |b.extents| == |b.srcStrides| == |b.dstStrides| && Positive(b.extents) && 0 <= k < Product(b.extents)
  {
    var idx := Unrank(k, b.extents);
    Visit(idx, Dot(idx, b.dstStrides), Dot(idx, b.srcStrides))
  }

  /** Visits every cell exactly once, the k-th visit being the cell of rank k. */
  method ForEachCell(b: BoundPlan) returns (visits: seq<Visit>)
    requires |b.extents| == |b.srcStrides| == |b.dstStrides| && Positive(b.extents)
    ensures |visits| == Product(b.extents)
    ensures forall k :: 0 <= k < |visits| ==> visits[k] == VisitOf(b, k)
  {
    var r := |b.extents|;
    var idx := new int[r](_ => 0);
    visits := [];
    ProductPositive(b.extents);
    ZeroOffset(idx[..], PackedStrides(b.extents));
    hide Product;
    hide PackedStrides;
    hide Dot;
    while true
      invariant idx.Length == r && InRange(idx[..], b.extents)
      invariant |visits| == Dot(idx[..], PackedStrides(b.extents)) < Product(b.extents)
      invariant forall k :: 0 <= k < |visits| ==> visits[k] == VisitOf(b, k)
      decreases Product(b.extents) - |visits|
    {
      var so, dso := CellOffsets(b, idx);
      UnrankOfOffset(idx[..], b.extents);
      visits := visits + [Visit(idx[..], dso, so)];
      var exhausted := Advance(idx, b.extents);
      if exhausted {
        LastPackedOffset(b.extents);
        return;
      }
    }
  }

  /** The carry loop: step to the next index, or report that every digit wrapped. */
  method Advance(idx: array<int>, ext: seq<int>) returns (exhausted: bool)
    requires idx.Length == |ext| && InRange(idx[..], ext)
    modifies idx
    ensures exhausted ==> old(idx[..]) == LastIndex(ext)
    ensures !exhausted ==> InRange(idx[..], ext)
    ensures !exhausted ==>
              Dot(idx[..], PackedStrides(ext)) == Dot(old(idx[..]), PackedStrides(ext)) + 1 < Product(ext)
  {
    ghost var before := idx[..];
    var k := idx.Length;
    while true
      invariant 0 <= k <= |ext|
      invariant idx[..k] == before[..k] && ZeroFrom(idx[..], k) && MaxedFrom(before, ext, k)
      decreases k
    {
      if k == 0 {
        return true;
      }
      k := k - 1;
      assert idx[k] == idx[..k + 1][k] == before[k];
      idx[k] := idx[k] + 1;
      assert idx[..k] == before[..k];
      if idx[k] < ext[k] {
        break;
      }
      idx[k] := 0;
    }
    CarryAddsOne(before, idx[..], ext, k);
    forall i | 0 <= i < |ext| ensures 0 <= idx[i] < ext[i] {
      if i < k {
        assert idx[i] == idx[..k][i] == before[i];
      }
    }
    PackedOffsetBounds(idx[..], ext);
    exhausted := false;
  }

  /** The offset loop of one visit. */
  method CellOffsets(b: BoundPlan, idx: array<int>) returns (so: int, dso: int)
    requires |b.extents| == |b.srcStrides| == |b.dstStrides| == idx.Length
    ensures so == Dot(idx[..], b.srcStrides) && dso == Dot(idx[..], b.dstStrides)
  {
    so, dso := 0, 0;
    var k := 0;
    while k < idx.Length
      invariant 0 <= k <= idx.Length
      invariant so == Dot(idx[..][..k], b.srcStrides[..k]) && dso == Dot(idx[..][..k], b.dstStrides[..k])
    {
      DotSnoc(idx[..], b.srcStrides, k);
      DotSnoc(idx[..], b.dstStrides, k);
      so := so + idx[k] * b.srcStrides[k];
      dso := dso + idx[k] * b.dstStrides[k];
      k := k + 1;
    }
    assert idx[..][..k] == idx[..] && b.srcStrides[..k] == b.srcStrides && b.dstStrides[..k] == b.dstStrides;
  }

  /** Visits come in lexicographic order of their indices; on a packed
      destination the offset is the visit number. */
  lemma VisitOrder(b: BoundPlan, j: int, k: int)
    requires |b.extents| == |b.srcStrides| == |b.dstStrides| && Positive(b.extents)
    requires 0 <= j < k < Product(b.extents)
    ensures LexLess(VisitOf(b, j).idx, VisitOf(b, k).idx)
    ensures b.dstStrides == PackedStrides(b.extents) ==> VisitOf(b, j).dstOff == j && VisitOf(b, k).dstOff == k
  {
    OffsetOfUnrank(j, b.extents);
    OffsetOfUnrank(k, b.extents);
    PackedOffsetIsLexicographic(VisitOf(b, j).idx, VisitOf(b, k).idx, b.extents);
  }

  /** The odometer and the recursive executors make the same moves in the same order. */
  lemma VisitIsMove(b: BoundPlan, k: int)
    requires |b.extents| == |b.srcStrides| == |b.dstStrides| && Positive(b.extents) && 0 <= k < Product(b.extents)
    ensures |Moves(b.extents, b.srcStrides, b.dstStrides, 0, 0)| == Product(b.extents)
    ensures Moves(b.extents, b.srcStrides, b.dstStrides, 0, 0)[k] == Move(VisitOf(b, k).srcOff, VisitOf(b, k).dstOff)
  {
    MovesByRank(b.extents, b.srcStrides, b.dstStrides, 0, 0, k);
  }

  /** Every multi-index is visited, at its rank. */
  lemma EveryCellVisited(b: BoundPlan, idx: seq<int>)
    requires |b.extents| == |b.srcStrides| == |b.dstStrides| && InRange(idx, b.extents)
    ensures Positive(b.extents) && 0 <= Dot(idx, PackedStrides(b.extents)) < Product(b.extents)
    ensures VisitOf(b, Dot(idx, PackedStrides(b.extents))).idx == idx
  {
    UnrankOfOffset(idx, b.extents);
  }

  // ---- expectBijective ------------------------------------------------------------------

  /** The source offsets in visiting order. */
  ghost function SourceOffsets(b: BoundPlan): (offs: seq<int>)
    requires |b.extents| == |b.srcStrides| == |b.dstStrides| && Positive(b.extents)
    ensures |offs| == Product(b.extents)
  {
    ProductPositive(b.extents);
    seq(Product(b.extents), k requires 0 <= k < Product(b.extents) => VisitOf(b, k).srcOff)
  }

  predicate AtMost(x: int, y: int) { x <= y }

  /** Sorted, a list is 0, 1, ..., total - 1 exactly when it permutes that range. */
  lemma SortsToRange(offs: seq<int>, total: nat)
    ensures Sort(offs, AtMost) == UpTo(total) <==> IsPermutation(offs, total)
  {
    SortMultiset(offs, AtMost);
    if IsPermutation(offs, total) {
      SortSorts(offs, AtMost);
      SortedUnique(Sort(offs, AtMost), UpTo(total), AtMost);
    }
  }

  /** The callback of expectBijective collects the source offsets. */
  method CollectOffsets(b: BoundPlan) returns (offs: seq<int>)
    requires |b.extents| == |b.srcStrides| == |b.dstStrides| && Positive(b.extents)
    ensures offs == SourceOffsets(b)
  {
    var visits := ForEachCell(b);
    offs := [];
    var i := 0;
    while i < |visits|
      invariant 0 <= i <= |visits| && |offs| == i
      invariant forall k :: 0 <= k < i ==> offs[k] == visits[k].srcOff
    {
      offs := offs + [visits[i].srcOff];
      i := i + 1;
    }
  }

  /** The comparison loop. */
  method CountsUp(s: seq<int>) returns (ok: bool)
    ensures ok <==> s == UpTo(|s|)
  {
    var i := 0;
    while i < |s|
      invariant 0 <= i <= |s|
      invariant forall k :: 0 <= k < i ==> s[k] == k
    {
      if s[i] != i {
        assert UpTo(|s|)[i] == i;
        return false;
      }
      i := i + 1;
    }
    ok := true;
  }

  /** expectBijective: collect the source offsets, sort them, compare with 0, 1, ..., total - 1.
      It passes if and only if the source addressing is a bijection onto that range. */
  method ExpectBijective(b: BoundPlan, total: nat) returns (ok: bool)
    requires |b.extents| == |b.srcStrides| == |b.dstStrides| && Positive(b.extents)
    ensures ok <==> Bijective(b.extents, b.srcStrides, total)
  {
    var offs := CollectOffsets(b);
    PermutedExactly(b, total);
    SortsToRange(offs, total);
    SortMultiset(offs, AtMost);
    hide *;
    if |offs| != total {
      return false;
    }
    ok := CountsUp(Sort(offs, AtMost));
  }

  lemma PermutedExactly(b: BoundPlan, total: nat)
    requires |b.extents| == |b.srcStrides| == |b.dstStrides| && Positive(b.extents)
    ensures IsPermutation(SourceOffsets(b), total) <==> Bijective(b.extents, b.srcStrides, total)
    ensures IsPermutation(SourceOffsets(b), total) ==> |SourceOffsets(b)| == total
  {
    if IsPermutation(SourceOffsets(b), total) {
      PermutationRange(SourceOffsets(b), total);
      PassedIsBijective(b, total);
    }
    if Bijective(b.extents, b.srcStrides, total) {
      BijectivePasses(b, total);
    }
  }

  lemma PassedIsBijective(b: BoundPlan, total: nat)
    requires |b.extents| == |b.srcStrides| == |b.dstStrides| && Positive(b.extents)
    requires IsPermutation(SourceOffsets(b), total)
    ensures Bijective(b.extents, b.srcStrides, total)
  {
    var offs := SourceOffsets(b);
    PermutationRange(offs, total);
    PermutationDistinct(offs, total);
    forall idx | InRange(idx, b.extents)
      ensures var k := Dot(idx, PackedStrides(b.extents));
              0 <= k < |offs| && offs[k] == Dot(idx, b.srcStrides) && Unrank(k, b.extents) == idx
    {
      EveryCellVisited(b, idx);
    }
    forall o | 0 <= o < total ensures Hit(b.extents, b.srcStrides, o) {
      assert o in offs;
      var k :| 0 <= k < |offs| && offs[k] == o;
      OffsetOfUnrank(k, b.extents);
      assert InRange(Unrank(k, b.extents), b.extents);
    }
  }

  lemma BijectivePasses(b: BoundPlan, total: nat)
    requires |b.extents| == |b.srcStrides| == |b.dstStrides| && Positive(b.extents)
    requires Bijective(b.extents, b.srcStrides, total)
    ensures IsPermutation(SourceOffsets(b), total)
  {
    var offs := SourceOffsets(b);
    forall k | 0 <= k < |offs| ensures 0 <= offs[k] < total {
      OffsetOfUnrank(k, b.extents);
    }
    forall j, k | 0 <= j < k < |offs| ensures offs[j] != offs[k] {
      OffsetOfUnrank(j, b.extents);
      OffsetOfUnrank(k, b.extents);
      assert Unrank(j, b.extents) != Unrank(k, b.extents);
    }
    forall o | 0 <= o < total ensures o in offs {
      assert Hit(b.extents, b.srcStrides, o);
      var idx :| InRange(idx, b.extents) && Dot(idx, b.srcStrides) == o;
      EveryCellVisited(b, idx);
      assert offs[Dot(idx, PackedStrides(b.extents))] == o;
    }
    DistinctCoverIsPermutation(offs, total);
  }

  lemma DistinctCoverIsPermutation(s: seq<int>, n: nat)
    requires forall k :: 0 <= k < |s| ==> 0 <= s[k] < n
    requires forall j, k :: 0 <= j < k < |s| ==> s[j] != s[k]
    requires forall o :: 0 <= o < n ==> o in s
    ensures IsPermutation(s, n)
  {
    forall x ensures multiset(s)[x] == multiset(UpTo(n))[x] {
      if 0 <= x < n {
        CountInUpTo(n, x);
        assert x in s;
        var k :| 0 <= k < |s| && s[k] == x;
        assert s == s[..k] + [s[k]] + s[k + 1..];
        assert x !in s[..k] && x !in s[k + 1..];
      } else {
        assert x !in s && x !in UpTo(n);
      }
    }
  }
}
