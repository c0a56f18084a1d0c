/** The concrete plan the executors run, and the one image it denotes.

    Elements are opaque: a buffer is a sequence of element bit patterns.
 */
module Plan {
  import opened MixedRadix
  import opened Relocation

  datatype PadRegion = PadRegion(axis: nat, lo: int, hi: int, fillBits: nat)

  datatype BoundPlan = BoundPlan(
    extents: seq<int>,
    srcStrides: seq<int>,
    dstStrides: seq<int>,
    padRegions: seq<PadRegion>,
    elementSize: int,
    totalBytes: int,
    typed: bool)
  {
    ghost predicate WellFormed() {
      && |extents| == |srcStrides| == |dstStrides| >= 1
      && Positive(extents)
      && elementSize >= 1
      && (forall i :: 0 <= i < |padRegions| ==>
            padRegions[i].axis < |extents| && padRegions[i].lo >= 0 && padRegions[i].hi >= 0)
      && (forall i, j :: 0 <= i < j < |padRegions| ==> padRegions[i].axis < padRegions[j].axis)
    }

    /** Leading pad of every axis. */
    function Lo(): (lo: seq<int>)
      ensures |lo| == |extents|
    {
      seq(|extents|, k => PadLo(padRegions, k))
    }

    /** Physical extents: pads included. */
    function Padded(): (pad: seq<int>)
      ensures |pad| == |extents|
    {
      seq(|extents|, k requires 0 <= k < |extents| => extents[k] + PadWidth(padRegions, k))
    }

    /** What bind() produces for a row-major destination. */
    ghost predicate Canonical() {
      && WellFormed()
      && dstStrides == PackedStrides(Padded())
      && totalBytes == Product(Padded()) * elementSize
    }

    /** Every cell reads inside a source of n elements. */
    ghost predicate ReadsWithin(n: int)
      requires |extents| == |srcStrides|
    {
      forall idx :: InRange(idx, extents) ==> 0 <= Dot(idx, srcStrides) < n
    }

    /** Some cell reads source element o. */
    ghost predicate Reads(o: int)
      requires |extents| == |srcStrides|
    {
      exists idx :: InRange(idx, extents) && Dot(idx, srcStrides) == o
    }

    /** What a pad element holds: the fill pattern modulo 256^elementSize. */
    function Fill(): int
      requires padRegions != []
    {
      padRegions[0].fillBits % Power(256, elementSize)
    }
  }

  function PadLo(regions: seq<PadRegion>, axis: int): int {
    if regions == [] then 0
    else if regions[|regions| - 1].axis == axis then regions[|regions| - 1].lo
    else PadLo(regions[..|regions| - 1], axis)
  }

  function PadHi(regions: seq<PadRegion>, axis: int): int {
    if regions == [] then 0
    else if regions[|regions| - 1].axis == axis then regions[|regions| - 1].hi
    else PadHi(regions[..|regions| - 1], axis)
  }

  function PadWidth(regions: seq<PadRegion>, axis: int): int {
    if regions == [] then 0 else
      var last := regions[|regions| - 1];
      PadWidth(regions[..|regions| - 1], axis) + if last.axis == axis then last.lo + last.hi else 0
  }

  function Power(base: int, n: int): (p: int)
    ensures base >= 1 ==> p >= 1
  {
    if n <= 0 then 1 else
      var rest := Power(base, n - 1);
      base * rest
  }

  /** The low n bytes of a 64-bit fill pattern, as the executors copy them. */
  function LowBytes(bits: nat, n: int): nat {
    if n <= 0 then 0 else bits % 256 + 256 * LowBytes(bits / 256, n - 1)
  }

  /** One more byte. */
  lemma NextByte(bits: nat, p: int)
    requires p >= 1
    ensures bits % 256 + 256 * ((bits / 256) % p) == bits % (256 * p)
  {
    var hi, r := bits / 256 / p, (bits / 256) % p;
    assert bits / 256 == hi * p + r;
    MulAssoc(hi, p, 256);
    DivModUnique(hi, 256 * r + bits % 256, 256 * p);
  }

  /** The byte loop keeps the pattern modulo 256^n, so a pattern that fits is kept whole. */
  lemma {:induction false} LowBytesIs(bits: nat, n: int)
    ensures LowBytes(bits, n) == bits % Power(256, n)
    ensures bits < Power(256, n) ==> LowBytes(bits, n) == bits
  {
    if n > 0 {
      LowBytesIs(bits / 256, n - 1);
      NextByte(bits, Power(256, n - 1));
    }
    if bits < Power(256, n) {
      DivModUnique(0, bits, Power(256, n));
    }
  }

  /** idx lies in the box of extents ext placed at origin lo. */
  predicate Inside(idx: seq<int>, lo: seq<int>, ext: seq<int>)
    requires |idx| == |lo| == |ext|
  {
    forall k :: 0 <= k < |ext| ==> lo[k] <= idx[k] < lo[k] + ext[k]
  }

  function Minus(a: seq<int>, b: seq<int>): (c: seq<int>)
    requires |a| == |b|
    ensures |c| == |a| && forall k :: 0 <= k < |a| ==> c[k] == a[k] - b[k]
  {
    seq(|a|, k requires 0 <= k < |a| => a[k] - b[k])
  }

  /** Destination element o of the plan, straight from the index arithmetic. */
  ghost function ImageAt(b: BoundPlan, src: seq<int>, o: int): int
    requires b.WellFormed() && b.ReadsWithin(|src|) && 0 <= o < Product(b.Padded())
  {
    PaddedPositive(b);
    OffsetOfUnrank(o, b.Padded());
    var j := Unrank(o, b.Padded());
    if Inside(j, b.Lo(), b.extents) then
      assert InRange(Minus(j, b.Lo()), b.extents);
      src[Dot(Minus(j, b.Lo()), b.srcStrides)]
    else
      OutsideIsPadded(b, j);
      b.Fill()
  }

  /** The whole destination image. */
  ghost function Image(b: BoundPlan, src: seq<int>): (image: seq<int>)
    requires b.WellFormed() && b.ReadsWithin(|src|)
    ensures |image| == Product(b.Padded())
  {
    PaddedPositive(b);
    ProductPositive(b.Padded());
    seq(Product(b.Padded()), o requires 0 <= o < Product(b.Padded()) => ImageAt(b, src, o))
  }

  // ---- pads ----------------------------------------------------------------

  lemma {:induction false} PadBounds(regions: seq<PadRegion>, axis: int)
    requires forall i :: 0 <= i < |regions| ==> regions[i].lo >= 0 && regions[i].hi >= 0
    ensures 0 <= PadLo(regions, axis) <= PadWidth(regions, axis) && PadHi(regions, axis) >= 0
  {
    if regions != [] {
      PadBounds(regions[..|regions| - 1], axis);
    }
  }

  /** When every axis carries at most one region, the width is lo + hi. */
  lemma {:induction false} PadWidthSplits(regions: seq<PadRegion>, axis: int)
    requires forall i, j :: 0 <= i < j < |regions| ==> regions[i].axis < regions[j].axis
    ensures PadWidth(regions, axis) == PadLo(regions, axis) + PadHi(regions, axis)
    ensures (forall i :: 0 <= i < |regions| ==> regions[i].axis != axis) ==> PadWidth(regions, axis) == 0
  {
    if regions != [] {
      var init, last := regions[..|regions| - 1], regions[|regions| - 1];
      PadWidthSplits(init, axis);
      if last.axis == axis {
        assert forall i :: 0 <= i < |init| ==> init[i].axis != axis;
      }
    }
  }

  lemma NoPads(b: BoundPlan)
    requires b.padRegions == []
    ensures b.Padded() == b.extents && b.Lo() == seq(|b.extents|, k => 0)
  {
  }

  lemma BoxInPadded(b: BoundPlan)
    requires b.WellFormed()
    ensures forall k :: 0 <= k < |b.extents| ==>
              0 <= b.Lo()[k] && b.Lo()[k] + b.extents[k] <= b.Padded()[k]
  {
    forall k | 0 <= k < |b.extents| ensures 0 <= b.Lo()[k] && b.Lo()[k] + b.extents[k] <= b.Padded()[k] {
      PadBounds(b.padRegions, k);
    }
  }

  lemma PaddedPositive(b: BoundPlan)
    requires b.WellFormed()
    ensures Positive(b.Padded())
  {
    BoxInPadded(b);
  }

  lemma OutsideIsPadded(b: BoundPlan, j: seq<int>)
    requires b.WellFormed() && |j| == |b.extents| && !Inside(j, b.Lo(), b.extents)
    requires forall k :: 0 <= k < |j| ==> 0 <= j[k] < b.Padded()[k]
    ensures b.padRegions != []
  {
    if b.padRegions == [] {
      NoPads(b);
    }
  }

  // ---- gathering a box into a packed destination ------------------------------

  ghost predicate Placed(ext: seq<int>, lo: seq<int>, pad: seq<int>) {
    && |ext| == |lo| == |pad|
    && Box(ext) && Positive(pad)
    && forall k :: 0 <= k < |ext| ==> 0 <= lo[k] && lo[k] + ext[k] <= pad[k]
  }

  /** The moves that put a box of extents ext at origin lo of a packed block. */
  ghost function BlockMoves(ext: seq<int>, lo: seq<int>, pad: seq<int>, ss: seq<int>, from: int): seq<Move>
    requires Placed(ext, lo, pad) && |ss| == |ext|
  {
    Moves(ext, ss, PackedStrides(pad), from, Dot(lo, PackedStrides(pad)))
  }

  lemma BlockMoveTarget(ext: seq<int>, lo: seq<int>, pad: seq<int>, ss: seq<int>, from: int, k: nat)
    returns (idx: seq<int>)
    requires Placed(ext, lo, pad) && |ss| == |ext| && k < |BlockMoves(ext, lo, pad, ss, from)|
    ensures InRange(idx, ext) && Dot(idx, PackedStrides(ext)) == k
    ensures InRange(Add(idx, lo), pad)
    ensures BlockMoves(ext, lo, pad, ss, from)[k]
         == Move(from + Dot(idx, ss), Dot(Add(idx, lo), PackedStrides(pad)))
    ensures 0 <= BlockMoves(ext, lo, pad, ss, from)[k].to < Product(pad)
  {
    idx := VisitedIsInBox(ext, ss, PackedStrides(pad), from, Dot(lo, PackedStrides(pad)), k);
    DotAdd(idx, lo, PackedStrides(pad));
    assert InRange(Add(idx, lo), pad);
    PackedOffsetBounds(Add(idx, lo), pad);
  }

  /** Two cells never share a destination. */
  lemma BlockMovesDistinct(ext: seq<int>, lo: seq<int>, pad: seq<int>, ss: seq<int>, from: int)
    requires Placed(ext, lo, pad) && |ss| == |ext|
    ensures Distinct(BlockMoves(ext, lo, pad, ss, from))
  {
    var ms := BlockMoves(ext, lo, pad, ss, from);
    forall j, k | 0 <= j < k < |ms| ensures ms[j].to != ms[k].to {
      var a := BlockMoveTarget(ext, lo, pad, ss, from, j);
      var b := BlockMoveTarget(ext, lo, pad, ss, from, k);
      UnrankOfOffset(Add(a, lo), pad);
      UnrankOfOffset(Add(b, lo), pad);
      if ms[j].to == ms[k].to {
        assert Add(a, lo) == Add(b, lo);
        SameShift(a, b, lo);
        assert false;
      }
    }
  }

  lemma SameShift(a: seq<int>, b: seq<int>, lo: seq<int>)
    requires |a| == |b| == |lo| && Add(a, lo) == Add(b, lo)
    ensures a == b
  {
    forall k | 0 <= k < |a| ensures a[k] == b[k] {
      assert Add(a, lo)[k] == Add(b, lo)[k];
    }
  }

  /** What gathering a box writes: inside the box the source cell, outside nothing. */
  lemma GatherAt(ext: seq<int>, lo: seq<int>, pad: seq<int>, ss: seq<int>, from: int,
                 src: seq<int>, dst: seq<int>, o: int)
    requires Placed(ext, lo, pad) && |ss| == |ext|
    requires Fits(BlockMoves(ext, lo, pad, ss, from), |src|, |dst|)
    requires 0 <= o < |dst|
    ensures o < Product(pad) && Inside(Unrank(o, pad), lo, ext) ==>
              var c := from + Dot(Minus(Unrank(o, pad), lo), ss);
              0 <= c < |src| && Apply(BlockMoves(ext, lo, pad, ss, from), src, dst)[o] == src[c]
    ensures !(o < Product(pad) && Inside(Unrank(o, pad), lo, ext)) ==>
              Apply(BlockMoves(ext, lo, pad, ss, from), src, dst)[o] == dst[o]
  {
    var ms := BlockMoves(ext, lo, pad, ss, from);
    if o < Product(pad) && Inside(Unrank(o, pad), lo, ext) {
      var idx := Minus(Unrank(o, pad), lo);
      OffsetOfUnrank(o, pad);
      assert InRange(idx, ext);
      assert Add(idx, lo) == Unrank(o, pad);
      DotAdd(idx, lo, PackedStrides(pad));
      BoxIsVisited(ext, ss, PackedStrides(pad), from, Dot(lo, PackedStrides(pad)), idx);
      var k := Dot(idx, PackedStrides(ext));
      BlockMovesDistinct(ext, lo, pad, ss, from);
      ApplyLands(ms, src, dst, k);
    } else {
      forall k | 0 <= k < |ms| ensures ms[k].to != o {
        var idx := BlockMoveTarget(ext, lo, pad, ss, from, k);
        UnrankOfOffset(Add(idx, lo), pad);
        assert Inside(Add(idx, lo), lo, ext);
      }
      ApplyUntouched(ms, src, dst, o);
    }
  }
}
