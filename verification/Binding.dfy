/** The last part of bind(): from concrete axes to the plan the executors run. */
module Binding {
  import opened Common
  import opened MixedRadix
  import opened Relocation
  import opened Plan
  import opened Executor
  import opened Execute
  import opened Int64
  import opened Coalesce

  datatype Error = PaddedExtentOverflows | CountOverflows | BytesOverflow

  /** The pad regions of the first n axes. */
  function Regions(axes: seq<Axis>, n: nat, fillBits: nat): seq<PadRegion>
    requires n <= |axes|
  {
    if n == 0 then []
    else Regions(axes, n - 1, fillBits)
         + if axes[n - 1].padded then [PadRegion(n - 1, axes[n - 1].lo, axes[n - 1].hi, fillBits)] else []
  }

  /** The plan these axes assemble to. */
  function Assembled(axes: seq<Axis>, elementSize: int, fillBits: nat): BoundPlan {
    BoundPlan(Extents(axes), SrcStrides(axes), DstStrides(axes), Regions(axes, |axes|, fillBits), elementSize,
              Product(PaddedExtents(axes)) * elementSize, false)
  }

  lemma PrefixProduct(axes: seq<Axis>, k: nat)
    requires k < |axes|
    ensures Product(PaddedExtents(axes)[..k + 1]) == Product(PaddedExtents(axes)[..k]) * PaddedExtents(axes)[k]
  {
    var pe := PaddedExtents(axes);
    assert pe[..k + 1] == pe[..k] + [pe[k]];
    ProductConcat(pe[..k], [pe[k]]);
    assert Product([pe[k]]) == pe[k] by { assert [pe[k]][1..] == []; }
  }

  /** Every prefix of the padded extents has a product between 1 and the whole product. */
  lemma PrefixBelow(axes: seq<Axis>, k: nat)
    requires Extended(axes) && PadsNonNegative(axes) && k <= |axes|
    ensures 1 <= Product(PaddedExtents(axes)[..k]) <= Product(PaddedExtents(axes))
  {
    var pe := PaddedExtents(axes);
    assert pe == pe[..k] + pe[k..];
    ProductConcat(pe[..k], pe[k..]);
    ProductPositive(pe[..k]);
    ProductPositive(pe[k..]);
    MulAtLeast(Product(pe[k..]), 1, Product(pe[..k]));
  }

  lemma ExtentBelow(axes: seq<Axis>, k: nat)
    requires Extended(axes) && PadsNonNegative(axes) && k < |axes|
    ensures 1 <= PaddedExtents(axes)[k] <= Product(PaddedExtents(axes)[..k + 1])
  {
    PrefixBelow(axes, k);
    PrefixProduct(axes, k);
    MulAtLeast(Product(PaddedExtents(axes)[..k]), 1, PaddedExtents(axes)[k]);
  }

  /** Step 5 of bind: fails exactly when the byte count is not a 64-bit integer. */
  method Assemble(axes: seq<Axis>, elementSize: int, fillBits: nat) returns (r: Result<BoundPlan, Error>)
    requires Extended(axes) && PadsNonNegative(axes) && elementSize >= 1
    requires Representable(axes)
    ensures r.Ok? <==> InInt64(Product(PaddedExtents(axes)) * elementSize)
    ensures r.Ok? ==> r.value == Assembled(axes, elementSize, fillBits)
    ensures r == Err(BytesOverflow) <==>
              InInt64(Product(PaddedExtents(axes))) && !InInt64(Product(PaddedExtents(axes)) * elementSize)
    ensures r == Err(PaddedExtentOverflows) ==> exists k :: 0 <= k < |axes| && !InInt64(PaddedExtents(axes)[k])
    ensures r == Err(CountOverflows) ==>
              exists k :: 0 <= k < |axes| && InInt64(PaddedExtents(axes)[k]) && !InInt64(Product(PaddedExtents(axes)[..k + 1]))
  {
    var extents: seq<int>, srcStrides: seq<int>, dstStrides: seq<int> := [], [], [];
    var regions: seq<PadRegion> := [];
    var total := 1;
    var k := 0;
    PrefixBelow(axes, |axes|);
    ghost var pe := PaddedExtents(axes);
    assert pe[..|axes|] == pe;
    MulAtLeast(elementSize, 1, Product(pe));
    while k < |axes|
      invariant 0 <= k <= |axes|
      invariant extents == Extents(axes)[..k] && srcStrides == SrcStrides(axes)[..k]
      invariant dstStrides == DstStrides(axes)[..k] && regions == Regions(axes, k, fillBits)
      invariant total == Product(pe[..k]) && InInt64(total)
    {
      PrefixBelow(axes, k + 1);
      ExtentBelow(axes, k);
      PrefixProduct(axes, k);
      var axis := axes[k];
      extents := extents + [axis.extent];
      srcStrides := srcStrides + [axis.srcStride];
      dstStrides := dstStrides + [axis.dstStride];
      var padded := axis.extent;
      if axis.padded {
        regions := regions + [PadRegion(k, axis.lo, axis.hi, fillBits)];
        var (ok, sum) := AddOk(padded, axis.lo);
        if !ok {
          return Err(PaddedExtentOverflows);
        }
        var (ok', sum') := AddOk(sum, axis.hi);
        if !ok' {
          return Err(PaddedExtentOverflows);
        }
        padded := sum';
      }
      var (ok, product) := MulOk(total, padded);
      if !ok {
        return Err(CountOverflows);
      }
      total := product;
      k := k + 1;
    }
    var (ok, bytes) := MulOk(total, elementSize);
    if !ok {
      return Err(BytesOverflow);
    }
    assert Extents(axes)[..k] == Extents(axes) && SrcStrides(axes)[..k] == SrcStrides(axes);
    assert DstStrides(axes)[..k] == DstStrides(axes);
    r := Ok(BoundPlan(extents, srcStrides, dstStrides, regions, elementSize, bytes, false));
  }

  // ---- what the assembled plan means ----------------------------------------------------------

  /** Region p pads its axis as the axis asks. */
  ghost predicate PadsAxis(axes: seq<Axis>, p: PadRegion, n: nat)
    requires n <= |axes|
  {
    p.axis < n && axes[p.axis].padded && p.lo == axes[p.axis].lo && p.hi == axes[p.axis].hi
  }

  ghost predicate RegionsFor(axes: seq<Axis>, regions: seq<PadRegion>, n: nat, fillBits: nat)
    requires n <= |axes|
  {
    && (forall i :: 0 <= i < |regions| ==> PadsAxis(axes, regions[i], n) && regions[i].fillBits == fillBits)
    && (forall i, j :: 0 <= i < j < |regions| ==> regions[i].axis < regions[j].axis)
    && (regions == [] <==> NonePadded(axes, n))
  }

  ghost predicate NonePadded(axes: seq<Axis>, n: nat)
    requires n <= |axes|
  {
    forall k :: 0 <= k < n ==> !axes[k].padded
  }

  lemma {:induction false} RegionsAre(axes: seq<Axis>, n: nat, fillBits: nat)
    requires n <= |axes|
    ensures RegionsFor(axes, Regions(axes, n, fillBits), n, fillBits)
  {
    if n > 0 {
      RegionsAre(axes, n - 1, fillBits);
      RegionsNext(axes, Regions(axes, n - 1, fillBits), n, fillBits);
    }
  }

  lemma NonePaddedNext(axes: seq<Axis>, n: nat)
    requires 0 < n <= |axes|
    ensures NonePadded(axes, n) <==> NonePadded(axes, n - 1) && !axes[n - 1].padded
  {
  }

  lemma PadsAxisLater(axes: seq<Axis>, p: PadRegion, n: nat)
    requires 0 < n <= |axes| && PadsAxis(axes, p, n - 1)
    ensures PadsAxis(axes, p, n) && p.axis < n - 1
  {
  }

  lemma RegionsNext(axes: seq<Axis>, regions: seq<PadRegion>, n: nat, fillBits: nat)
    requires 0 < n <= |axes| && RegionsFor(axes, regions, n - 1, fillBits)
    ensures var x := axes[n - 1];
            var next := if x.padded then [PadRegion(n - 1, x.lo, x.hi, fillBits)] else [];
            RegionsFor(axes, regions + next, n, fillBits)
  {
    var x := axes[n - 1];
    var last := PadRegion(n - 1, x.lo, x.hi, fillBits);
    var all := regions + if x.padded then [last] else [];
    NonePaddedNext(axes, n);
    assert x.padded ==> PadsAxis(axes, last, n);
    hide NonePadded;
    hide PadsAxis;
    forall i | 0 <= i < |all| ensures PadsAxis(axes, all[i], n) && all[i].fillBits == fillBits {
      if i < |regions| {
        PadsAxisLater(axes, regions[i], n);
      }
    }
    forall i, j | 0 <= i < j < |all| ensures all[i].axis < all[j].axis {
      PadsAxisLater(axes, regions[i], n);
    }
  }

  lemma {:induction false} RegionPads(axes: seq<Axis>, n: nat, fillBits: nat, k: nat)
    requires n <= |axes| && k < |axes|
    ensures PadLo(Regions(axes, n, fillBits), k) == if k < n && axes[k].padded then axes[k].lo else 0
    ensures PadWidth(Regions(axes, n, fillBits), k) ==
            if k < n && axes[k].padded then axes[k].lo + axes[k].hi else 0
  {
    if n > 0 {
      RegionPads(axes, n - 1, fillBits, k);
      var init := Regions(axes, n - 1, fillBits);
      if axes[n - 1].padded {
        var p := PadRegion(n - 1, axes[n - 1].lo, axes[n - 1].hi, fillBits);
        PadsOfSnoc(init, p, k);
        assert Regions(axes, n, fillBits) == init + [p];
      } else {
        assert Regions(axes, n, fillBits) == init;
      }
    }
  }

  lemma PadsOfSnoc(regions: seq<PadRegion>, p: PadRegion, axis: int)
    ensures PadLo(regions + [p], axis) == if p.axis == axis then p.lo else PadLo(regions, axis)
    ensures PadWidth(regions + [p], axis) == PadWidth(regions, axis) + if p.axis == axis then p.lo + p.hi else 0
  {
    assert (regions + [p])[..|regions|] == regions;
  }

  /** The assembled plan pads where the axes do and makes exactly their moves. */
  lemma AssembledMeans(axes: seq<Axis>, elementSize: int, fillBits: nat)
    requires Extended(axes) && PadsNonNegative(axes) && axes != [] && elementSize >= 1
    ensures var b := Assembled(axes, elementSize, fillBits);
            && b.elementSize == elementSize && b.totalBytes == Product(PaddedExtents(axes)) * elementSize
            && b.extents == Extents(axes) && b.srcStrides == SrcStrides(axes) && b.dstStrides == DstStrides(axes)
            && b.WellFormed() && b.Lo() == Leading(axes) && b.Padded() == PaddedExtents(axes)
            && AllMoves(b) == AxisMoves(axes)
            && (b.padRegions != [] <==> SomePadded(axes))
            && (b.padRegions != [] ==> b.padRegions[0].fillBits == fillBits && b.elementSize == elementSize)
  {
    var b := Assembled(axes, elementSize, fillBits);
    RegionsAre(axes, |axes|, fillBits);
    forall k | 0 <= k < |axes|
      ensures b.Lo()[k] == Leading(axes)[k] && b.Padded()[k] == PaddedExtents(axes)[k]
    {
      RegionPads(axes, |axes|, fillBits, k);
    }
    assert b.Lo() == Leading(axes) && b.Padded() == PaddedExtents(axes);
  }

  /** Axes with a packed destination assemble to a canonical plan. */
  lemma PackedIsCanonical(axes: seq<Axis>, elementSize: int, fillBits: nat, total: int)
    requires Extended(axes) && PadsNonNegative(axes) && axes != [] && elementSize >= 1 && Packed(axes, total)
    ensures Assembled(axes, elementSize, fillBits).Canonical()
    ensures Product(Assembled(axes, elementSize, fillBits).Padded()) == total
  {
    AssembledMeans(axes, elementSize, fillBits);
  }

  /** Plans that make the same moves over equally many elements, with the same fill,
      denote the same image. */
  lemma SameImage(a: BoundPlan, b: BoundPlan, src: seq<int>)
    requires a.Canonical() && b.Canonical() && AllMoves(a) == AllMoves(b)
    requires Product(a.Padded()) == Product(b.Padded()) && (a.padRegions == [] <==> b.padRegions == [])
    requires a.padRegions != [] ==> a.Fill() == b.Fill()
    requires a.ReadsWithin(|src|)
    ensures b.ReadsWithin(|src|) && Image(a, src) == Image(b, src)
  {
    var dst := InitialFill(a);
    WholePlanFits(a, |src|);
    FitsReads(b, |src|, |dst|);
    WholePlanFits(b, |src|);
    ExecutedIsImage(a, src, dst);
    ExecutedIsImage(b, src, dst);
    assert Prefilled(a, dst) == Prefilled(b, dst);
  }

  /** Coalescing and assembling: a packed row-major destination gives a canonical plan with
      the image of the uncoalesced one. */
  method BindAxes(original: seq<Axis>, elementSize: int, fillBits: nat)
    returns (r: Result<BoundPlan, Error>, axes: seq<Axis>)
    requires original != [] && Extended(original) && PadsNonNegative(original) && elementSize >= 1
    requires Representable(original)
    ensures Assembled(original, elementSize, fillBits).WellFormed()
    ensures r.Ok? <==> InInt64(Product(PaddedExtents(original)) * elementSize)
    ensures r.Ok? ==>
              && r.value.WellFormed() && AllMoves(r.value) == AxisMoves(original)
              && r.value.totalBytes == Product(PaddedExtents(original)) * elementSize
    ensures forall total :: r.Ok? && Packed(original, total) ==>
              && r.value.Canonical() && Product(r.value.Padded()) == total
              && Assembled(original, elementSize, fillBits).Canonical()
    ensures forall total, src :: r.Ok? && Packed(original, total) && r.value.ReadsWithin(|src|) ==>
              && Assembled(original, elementSize, fillBits).ReadsWithin(|src|)
              && Image(r.value, src) == Image(Assembled(original, elementSize, fillBits), src)
  {
    var absorbed;
    axes, absorbed := CoalesceAxes(original);
    r := Assemble(axes, elementSize, fillBits);
    AssembledMeans(original, elementSize, fillBits);
    AssembledMeans(axes, elementSize, fillBits);
    if r.Ok? {
      forall total | Packed(original, total)
        ensures r.value.Canonical() && Product(r.value.Padded()) == total
        ensures Assembled(original, elementSize, fillBits).Canonical()
        ensures forall src :: r.value.ReadsWithin(|src|) ==>
                  && Assembled(original, elementSize, fillBits).ReadsWithin(|src|)
                  && Image(r.value, src) == Image(Assembled(original, elementSize, fillBits), src)
      {
        PackedIsCanonical(original, elementSize, fillBits, total);
        PackedIsCanonical(axes, elementSize, fillBits, total);
        forall src | r.value.ReadsWithin(|src|)
          ensures Assembled(original, elementSize, fillBits).ReadsWithin(|src|)
          ensures Image(r.value, src) == Image(Assembled(original, elementSize, fillBits), src)
        {
          SameImage(r.value, Assembled(original, elementSize, fillBits), src);
        }
      }
    }
  }
}
