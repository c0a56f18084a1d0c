/** The admission checks of prefold_s8, and what an admitted plan may be trusted with. */
module Prefold {
  import opened Common
  import opened MixedRadix
  import opened Plan
  import opened Strides
  import opened Builders
  import opened Int64

  datatype OutputSpec = S8QuantPack | S8GatherQuant

  datatype Float32 = NaN | Infinite(negative: bool) | Finite(value: real)

  /** `x > 0.0f && isfinite(x)`. */
  predicate PositiveFinite(x: Float32) {
    x.Finite? && x.value > 0.0
  }

  datatype Error =
    | BadSpec | NegativeThreads | NullPointer | NotFloat32 | RankBelowTwo | Padded | InconsistentAxes
    | BadExtent | NotPacked | CountOverflows | BytesDisagree | NotIdentity
    | NegativeStride | ReachOverflows | FootprintOverflows | SourceTooSmall
    | ScaleCountOverflows | WrongScaleCount | BadScale(channel: int)

  /** The call's arguments: raw addresses and byte counts of caller memory. */
  datatype Request = Request(
    bound: BoundPlan, srcPtr: nat, srcBytes: nat, scalesPtr: nat, scales: seq<Float32>, scalesBytes: nat,
    outputSpec: string, gatherThreads: int)
  {
    /** What the C++ types guarantee, and that the scales pointer covers scalesBytes. */
    ghost predicate Typed() {
      && (forall k :: 0 <= k < |bound.extents| ==> InInt64(bound.extents[k]))
      && (forall k :: 0 <= k < |bound.srcStrides| ==> InInt64(bound.srcStrides[k]))
      && (forall k :: 0 <= k < |bound.dstStrides| ==> InInt64(bound.dstStrides[k]))
      && InInt64(bound.totalBytes) && bound.elementSize >= 0
      && |scales| == scalesBytes / 4
    }
  }

  function ParseSpec(spec: string): Result<OutputSpec, Error> {
    if spec == "s8_quant_pack" then Ok(S8QuantPack)
    else if spec == "s8_gather_quant" then Ok(S8GatherQuant)
    else Err(BadSpec)
  }

  // ---- what the checks mean -------------------------------------------------------------

  /** Everything that is checked before the source footprint. */
  ghost predicate ShapeOk(q: Request) {
    var b := q.bound;
    && ParseSpec(q.outputSpec).Ok? && q.gatherThreads >= 0
    && q.srcPtr != 0 && q.scalesPtr != 0
    && b.elementSize == 4 && b.padRegions == []
    && |b.extents| == |b.srcStrides| == |b.dstStrides| >= 2
    && Positive(b.extents)
    && b.dstStrides == PackedStrides(b.extents)
    && InInt64(Product(b.extents))
    && Product(b.extents) == TruncDiv(b.totalBytes, 4)
    && (q.outputSpec == "s8_quant_pack" ==> b.srcStrides == b.dstStrides)
  }

  ghost predicate StridesOk(q: Request) {
    var b := q.bound;
    && |b.extents| == |b.srcStrides|
    && (forall k :: 0 <= k < |b.srcStrides| ==> b.srcStrides[k] >= 0)
    && MaxOffset(b.extents, b.srcStrides) <= INT64_MAX
  }

  ghost predicate ScalesOk(q: Request) {
    && q.bound.extents != []
    && q.bound.extents[0] * 4 == q.scalesBytes && InInt64(q.bound.extents[0] * 4)
    && |q.scales| == q.bound.extents[0]
    && forall c :: 0 <= c < |q.scales| ==> q.scales[c].Finite? && q.scales[c].value > 0.0
  }

  ghost predicate Admissible(q: Request) {
    && ShapeOk(q) && StridesOk(q) && ScalesOk(q)
    && InInt64((MaxOffset(q.bound.extents, q.bound.srcStrides) + 1) * 4)
    && (MaxOffset(q.bound.extents, q.bound.srcStrides) + 1) * 4 <= q.srcBytes
  }

  // ---- what a refusal says --------------------------------------------------------------

  /** The defect of the destination axes that error e reports. */
  ghost predicate PackedDefect(b: BoundPlan, e: Error)
    requires |b.extents| == |b.dstStrides|
  {
    match e
    case BadExtent => !Positive(b.extents)
    case NotPacked => b.dstStrides != PackedStrides(b.extents)
    case CountOverflows => exists k :: 0 <= k < |b.extents| && Product(b.extents[k..]) > INT64_MAX
    case _ => false
  }

  /** Source offset reached by the first k axes alone. */
  ghost function PrefixReach(b: BoundPlan, k: nat): int
    requires k <= |b.extents| == |b.srcStrides|
  {
    Dot(LastIndex(b.extents)[..k], b.srcStrides[..k])
  }

  ghost predicate ReachDefect(b: BoundPlan, e: Error)
    requires |b.extents| == |b.srcStrides|
  {
    match e
    case NegativeStride => exists k :: 0 <= k < |b.srcStrides| && b.srcStrides[k] < 0
    case ReachOverflows => exists k :: 0 < k <= |b.extents| && PrefixReach(b, k) > INT64_MAX
    case _ => false
  }

  ghost predicate ScalesDefect(q: Request, e: Error)
    requires q.bound.extents != []
  {
    match e
    case ScaleCountOverflows => !InInt64(q.bound.extents[0] * 4)
    case WrongScaleCount => q.scalesBytes != q.bound.extents[0] * 4
    case BadScale(c) =>
      && 0 <= c < |q.scales| && !(q.scales[c].Finite? && q.scales[c].value > 0.0)
      && forall i :: 0 <= i < c ==> q.scales[i].Finite? && q.scales[i].value > 0.0
    case _ => false
  }

  /** Some cell's four bytes are not inside the source. */
  ghost predicate ReadsOutside(b: BoundPlan, srcBytes: nat)
    requires |b.extents| == |b.srcStrides|
  {
    exists idx :: InRange(idx, b.extents) && 4 * Dot(idx, b.srcStrides) + 4 > srcBytes
  }

  /** Error e names a defect the request really has. */
  ghost predicate Defect(q: Request, e: Error) {
    var b := q.bound;
    match e
    case BadSpec => q.outputSpec != "s8_quant_pack" && q.outputSpec != "s8_gather_quant"
    case NegativeThreads => q.gatherThreads < 0
    case NullPointer => q.srcPtr == 0 || q.scalesPtr == 0
    case NotFloat32 => b.elementSize != 4
    case RankBelowTwo => |b.extents| < 2
    case Padded => b.padRegions != []
    case InconsistentAxes => !(|b.extents| == |b.srcStrides| == |b.dstStrides|)
    case BytesDisagree => Product(b.extents) != TruncDiv(b.totalBytes, 4)
    case NotIdentity => q.outputSpec == "s8_quant_pack" && b.srcStrides != b.dstStrides
    case FootprintOverflows =>
      |b.extents| == |b.srcStrides| && (MaxOffset(b.extents, b.srcStrides) + 1) * 4 > INT64_MAX
    case SourceTooSmall => |b.extents| == |b.srcStrides| && ReadsOutside(b, q.srcBytes)
    case _ =>
      && |b.extents| == |b.srcStrides| == |b.dstStrides| && b.extents != []
      && (PackedDefect(b, e) || ReachDefect(b, e) || ScalesDefect(q, e))
  }

  // ---- the three checking loops -----------------------------------------------------------

  lemma {:induction false} SuffixProductBounded(ext: seq<int>, k: nat)
    requires Positive(ext) && k <= |ext|
    ensures 1 <= Product(ext[k..]) <= Product(ext)
  {
    ProductPositive(ext[k..]);
    if k > 0 {
      SuffixProductBounded(ext[1..], k - 1);
      assert ext[1..][k - 1..] == ext[k..];
      MulAtLeast(ext[0], 1, Product(ext[1..]));
    }
  }

  /** The element count is representable exactly when no step of the running product overflows. */
  method CheckPacked(b: BoundPlan) returns (r: Result<int, Error>)
    requires |b.extents| == |b.dstStrides|
    ensures r.Ok? <==> && Positive(b.extents) && b.dstStrides == PackedStrides(b.extents)
                       && InInt64(Product(b.extents))
    ensures r.Ok? ==> r.value == Product(b.extents)
    ensures r.Err? ==> PackedDefect(b, r.error)
  {
    var packed := 1;
    var k := |b.extents|;
    assert b.extents[k..] == [];
    while k > 0
      invariant 0 <= k <= |b.extents|
      invariant packed == Product(b.extents[k..]) && InInt64(packed)
      invariant forall i :: k <= i < |b.extents| ==> b.extents[i] >= 1
      invariant forall i :: k <= i < |b.extents| ==> b.dstStrides[i] == Product(b.extents[i + 1..])
    {
      k := k - 1;
      if b.extents[k] < 1 {
        return Err(BadExtent);
      }
      PackedStridesAt(b.extents, k);
      if b.dstStrides[k] != packed {
        return Err(NotPacked);
      }
      assert b.extents[k..][1..] == b.extents[k + 1..];
      assert packed * b.extents[k] == Product(b.extents[k..]);
      var (ok, next) := MulOk(packed, b.extents[k]);
      if !ok {
        ProductPositive(b.extents[k..]);
        if Positive(b.extents) {
          SuffixProductBounded(b.extents, k);
        }
        return Err(CountOverflows);
      }
      packed := next;
    }
    assert b.extents[0..] == b.extents;
    forall i | 0 <= i < |b.extents| ensures b.dstStrides[i] == PackedStrides(b.extents)[i] {
      PackedStridesAt(b.extents, i);
    }
    r := Ok(packed);
  }

  lemma {:induction false} ReachPrefix(ext: seq<int>, ss: seq<int>, k: nat)
    requires |ext| == |ss| && k <= |ext| && Positive(ext)
    requires forall i :: 0 <= i < |ss| ==> ss[i] >= 0
    ensures 0 <= Dot(LastIndex(ext)[..k], ss[..k]) <= MaxOffset(ext, ss)
    decreases |ext| - k
  {
    PrefixNonNegative(LastIndex(ext), ss, k);
    if k < |ext| {
      DotSnoc(LastIndex(ext), ss, k);
      MulAtLeast(LastIndex(ext)[k], 0, ss[k]);
      ReachPrefix(ext, ss, k + 1);
    } else {
      assert LastIndex(ext)[..k] == LastIndex(ext) && ss[..k] == ss;
    }
  }

  lemma {:induction false} PrefixNonNegative(a: seq<int>, ss: seq<int>, k: nat)
    requires |a| == |ss| && k <= |a| && forall i :: 0 <= i < |ss| ==> ss[i] >= 0 && a[i] >= 0
    ensures Dot(a[..k], ss[..k]) >= 0
  {
    if k > 0 {
      DotSnoc(a, ss, k - 1);
      PrefixNonNegative(a, ss, k - 1);
      MulAtLeast(a[k - 1], 0, ss[k - 1]);
    }
  }

  /** The reach is representable exactly when no product and no partial sum overflows. */
  method SourceReach(b: BoundPlan) returns (r: Result<int, Error>)
    requires |b.extents| == |b.srcStrides| && Positive(b.extents)
    ensures r.Ok? <==> && (forall k :: 0 <= k < |b.srcStrides| ==> b.srcStrides[k] >= 0)
                       && MaxOffset(b.extents, b.srcStrides) <= INT64_MAX
    ensures r.Ok? ==> r.value == MaxOffset(b.extents, b.srcStrides) && 0 <= r.value
    ensures r.Err? ==> ReachDefect(b, r.error)
  {
    ghost var last, ss := LastIndex(b.extents), b.srcStrides;
    var maxRead := 0;
    var k := 0;
    while k < |b.extents|
      invariant 0 <= k <= |b.extents|
      invariant maxRead == Dot(last[..k], ss[..k]) && 0 <= maxRead <= INT64_MAX
      invariant forall i :: 0 <= i < k ==> ss[i] >= 0
    {
      if b.srcStrides[k] < 0 {
        return Err(NegativeStride);
      }
      DotSnoc(last, ss, k);
      MulAtLeast(last[k], 0, ss[k]);
      var (mulOk, reach) := MulOk(b.extents[k] - 1, b.srcStrides[k]);
      var (addOk, sum) := AddOk(maxRead, reach);
      if !mulOk || !addOk {
        if forall i :: 0 <= i < |ss| ==> ss[i] >= 0 {
          ReachPrefix(b.extents, ss, k + 1);
        }
        assert PrefixReach(b, k + 1) > INT64_MAX;
        return Err(ReachOverflows);
      }
      maxRead := sum;
      k := k + 1;
    }
    assert last[..k] == last && ss[..k] == ss;
    r := Ok(maxRead);
  }

  method CheckScales(q: Request) returns (r: Result<(), Error>)
    requires q.Typed() && q.bound.extents != [] && q.bound.extents[0] >= 1
    ensures r.Ok? <==> ScalesOk(q)
    ensures r.Err? ==> ScalesDefect(q, r.error)
  {
    var outer := q.bound.extents[0];
    var (ok, scaleBytes) := MulOk(outer, 4);
    if !ok {
      return Err(ScaleCountOverflows);
    }
    if scaleBytes != q.scalesBytes {
      return Err(WrongScaleCount);
    }
    var c := 0;
    while c < outer
      invariant 0 <= c <= outer == |q.scales|
      invariant forall i :: 0 <= i < c ==> PositiveFinite(q.scales[i])
    {
      if !PositiveFinite(q.scales[c]) {
        return Err(BadScale(c));
      }
      c := c + 1;
    }
    r := Ok(());
  }

  // ---- the whole admission -------------------------------------------------------------------

  /** prefoldS8 up to the artifact build.  `overflowed` reports whether the one
      unchecked int64 addition, maxRead + 1, left the representable range; the
      value then is the two's-complement wrap. */
  method PrefoldS8(q: Request) returns (r: Result<OutputSpec, Error>, overflowed: bool)
    requires q.Typed()
    ensures r.Ok? <==> Admissible(q)
    ensures overflowed <==> ShapeOk(q) && StridesOk(q) && MaxOffset(q.bound.extents, q.bound.srcStrides) == INT64_MAX
    ensures r.Ok? ==> !overflowed && Ok(r.value) == ParseSpec(q.outputSpec)
    ensures r == Ok(S8QuantPack) ==> q.outputSpec == "s8_quant_pack"
    ensures r == Ok(S8GatherQuant) ==> q.outputSpec == "s8_gather_quant"
    ensures r == Err(BadSpec) <==> q.outputSpec != "s8_quant_pack" && q.outputSpec != "s8_gather_quant"
    ensures r.Err? ==> Defect(q, r.error)
  {
    overflowed := false;
    var spec := ParseSpec(q.outputSpec);
    if spec.Err? {
      return Err(spec.error), false;
    }
    if q.gatherThreads < 0 {
      return Err(NegativeThreads), false;
    }
    if q.srcPtr == 0 || q.scalesPtr == 0 {
      return Err(NullPointer), false;
    }
    var b := q.bound;
    if b.elementSize != 4 {
      return Err(NotFloat32), false;
    }
    if |b.extents| < 2 {
      return Err(RankBelowTwo), false;
    }
    if b.padRegions != [] {
      return Err(Padded), false;
    }
    if |b.extents| != |b.srcStrides| || |b.extents| != |b.dstStrides| {
      return Err(InconsistentAxes), false;
    }
    var packed := CheckPacked(b);
    if packed.Err? {
      return Err(packed.error), false;
    }
    if packed.value != TruncDiv(b.totalBytes, b.elementSize) {
      return Err(BytesDisagree), false;
    }
    if spec.value == S8QuantPack && b.srcStrides != b.dstStrides {
      return Err(NotIdentity), false;
    }
    var maxRead := SourceReach(b);
    if maxRead.Err? {
      return Err(maxRead.error), false;
    }
    overflowed := maxRead.value == INT64_MAX;
    var (ok, needed) := MulOk(Wrap64(maxRead.value + 1), b.elementSize);
    if !ok {
      return Err(FootprintOverflows), overflowed;
    }
    if needed > q.srcBytes {
      FootprintIsExact(b, q.srcBytes);
      return Err(SourceTooSmall), overflowed;
    }
    var scales := CheckScales(q);
    if scales.Err? {
      return Err(scales.error), overflowed;
    }
    r := Ok(spec.value);
  }

  // ---- what admission buys ---------------------------------------------------------------------

  /** The footprint check is exact: it passes if and only if every cell's four
      bytes lie inside the source. */
  lemma FootprintIsExact(b: BoundPlan, srcBytes: nat)
    requires |b.extents| == |b.srcStrides| && Positive(b.extents)
    requires forall k :: 0 <= k < |b.srcStrides| ==> b.srcStrides[k] >= 0
    ensures (MaxOffset(b.extents, b.srcStrides) + 1) * 4 <= srcBytes
       <==> forall idx :: InRange(idx, b.extents) ==> 4 * Dot(idx, b.srcStrides) + 4 <= srcBytes
  {
    var last := LastIndex(b.extents);
    assert InRange(last, b.extents);
    forall idx | InRange(idx, b.extents) ensures Dot(idx, b.srcStrides) <= Dot(last, b.srcStrides) {
      DotMonotone(idx, last, b.srcStrides);
    }
  }

  /** Every access of an admitted plan: source bytes in bounds, destination
      elements a bijection onto [0, count), one good scale per outer index, and
      every partial offset sum representable. */
  lemma AdmittedIsSafe(q: Request)
    requires q.Typed() && Admissible(q)
    ensures q.gatherThreads >= 0 && q.srcPtr != 0 && q.scalesPtr != 0
    ensures var b := q.bound;
            && b.elementSize == 4 && b.padRegions == [] && |b.extents| >= 2 && 4 * Product(b.extents) <= b.totalBytes
            && Bijective(b.extents, b.dstStrides, Product(b.extents))
            && (forall idx :: InRange(idx, b.extents) ==>
                  0 <= 4 * Dot(idx, b.srcStrides) && 4 * Dot(idx, b.srcStrides) + 4 <= q.srcBytes)
            && (forall idx, k :: InRange(idx, b.extents) && 0 <= k <= |idx| ==>
                  0 <= Dot(idx[..k], b.srcStrides[..k]) <= INT64_MAX)
            && (forall idx :: InRange(idx, b.extents) ==>
                  && 0 <= idx[0] < |q.scales|
                  && q.scales[idx[0]].Finite? && q.scales[idx[0]].value > 0.0)
  {
    var b := q.bound;
    PackedBijective(b.extents);
    FootprintIsExact(b, q.srcBytes);
    forall idx | InRange(idx, b.extents) ensures Dot(idx, b.srcStrides) >= 0 {
      PrefixNonNegative(idx, b.srcStrides, |idx|);
      assert idx[..|idx|] == idx && b.srcStrides[..|idx|] == b.srcStrides;
    }
    forall idx, k | InRange(idx, b.extents) && 0 <= k <= |idx|
      ensures 0 <= Dot(idx[..k], b.srcStrides[..k]) <= INT64_MAX
    {
      PrefixNonNegative(idx, b.srcStrides, k);
      ReachPrefix(b.extents, b.srcStrides, k);
      DotMonotone(idx[..k], LastIndex(b.extents)[..k], b.srcStrides[..k]);
    }
  }

  /** prefoldArtifact's own preconditions. */
  ghost predicate ArtifactAccepts(b: BoundPlan, srcBase: nat, spec: OutputSpec, invScales: nat) {
    && b.elementSize == 4 && b.padRegions == [] && |b.extents| >= 2 && |b.dstStrides| == |b.extents|
    && b.dstStrides[|b.dstStrides| - 1] == 1 && invScales != 0 && srcBase != 0
    && (forall k :: 0 <= k < |b.extents| ==> b.dstStrides[k] == Product(b.extents[k + 1..]))
    && Product(b.extents) == TruncDiv(b.totalBytes, 4)
    && (spec == S8QuantPack ==> b.srcStrides == b.dstStrides)
  }

  /** No unchecked product of the builder leaves the 64-bit range. */
  ghost predicate ProductsFit(b: BoundPlan) {
    forall k :: 0 <= k <= |b.extents| ==> InInt64(Product(b.extents[k..]))
  }

  /** The product of the extents from k on, modulo 2^64. */
  function WrapProduct(ext: seq<int>, k: nat): int
    requires k <= |ext|
  {
    Wrap64(Product(ext[k..]))
  }

  /** The destination strides from axis k on are those products. */
  ghost predicate WrapPacked(b: BoundPlan, k: nat)
    requires |b.extents| == |b.dstStrides|
  {
    forall i :: k <= i < |b.extents| ==> b.dstStrides[i] == WrapProduct(b.extents, i + 1)
  }

  /** What the builder's tests accept: strides and byte count are compared modulo 2^64. */
  ghost predicate WrapAccepts(b: BoundPlan, srcBase: nat, spec: OutputSpec, invScales: nat) {
    && b.elementSize == 4 && b.padRegions == [] && |b.extents| >= 2 && |b.dstStrides| == |b.extents|
    && b.dstStrides[|b.dstStrides| - 1] == 1 && invScales != 0 && srcBase != 0
    && WrapPacked(b, 0) && WrapProduct(b.extents, 0) == TruncDiv(b.totalBytes, 4)
    && (spec == S8QuantPack ==> b.srcStrides == b.dstStrides)
  }

  /** Where no product wraps, those are the builder's preconditions. */
  lemma WrapAcceptsFitting(b: BoundPlan, srcBase: nat, spec: OutputSpec, invScales: nat)
    requires ProductsFit(b)
    ensures WrapAccepts(b, srcBase, spec, invScales) <==> ArtifactAccepts(b, srcBase, spec, invScales)
  {
    assert b.extents[0..] == b.extents;
    assert forall k :: 0 <= k <= |b.extents| ==> WrapProduct(b.extents, k) == Product(b.extents[k..]);
  }

  lemma NextProduct(ext: seq<int>, k: nat)
    requires k < |ext|
    ensures Wrap64(WrapProduct(ext, k + 1) * ext[k]) == WrapProduct(ext, k)
  {
    assert ext[k..][1..] == ext[k + 1..] && ext[k..][0] == ext[k];
    WrapFactor(Product(ext[k + 1..]), ext[k]);
  }

  lemma NextAxis(b: BoundPlan, k: nat)
    requires |b.extents| == |b.dstStrides| && k < |b.extents|
    ensures WrapPacked(b, k) <==> WrapPacked(b, k + 1) && b.dstStrides[k] == WrapProduct(b.extents, k + 1)
    ensures WrapPacked(b, 0) ==> WrapPacked(b, k)
  {
  }

  /** prefoldArtifact up to the kernels: its products wrap, and the staging allocation (`staged`)
      may fail.  Where no product wraps, it builds exactly the plans it should. */
  method PrefoldArtifact(b: BoundPlan, srcBase: nat, spec: OutputSpec, invScales: nat, staged: bool) returns (built: bool)
    requires |b.extents| == |b.dstStrides|
    ensures built <==> WrapAccepts(b, srcBase, spec, invScales) && staged
    ensures ProductsFit(b) ==> (built <==> ArtifactAccepts(b, srcBase, spec, invScales) && staged)
  {
    if ProductsFit(b) {
      WrapAcceptsFitting(b, srcBase, spec, invScales);
    }
    if b.elementSize != 4 || b.padRegions != [] || |b.extents| < 2 || b.dstStrides[|b.dstStrides| - 1] != 1
       || invScales == 0 || srcBase == 0 {
      return false;
    }
    var packedElems := 1;
    var k := |b.extents|;
    assert b.extents[k..] == [] && WrapProduct(b.extents, k) == 1 && WrapPacked(b, k);
    hide WrapPacked;
    hide ProductsFit;
    hide ArtifactAccepts;
    hide WrapProduct;
    hide Wrap64;
    while k > 0
      invariant 0 <= k <= |b.extents|
      invariant packedElems == WrapProduct(b.extents, k)
      invariant WrapPacked(b, k)
    {
      k := k - 1;
      NextAxis(b, k);
      if b.dstStrides[k] != packedElems {
        return false;
      }
      NextProduct(b.extents, k);
      packedElems := Wrap64(packedElems * b.extents[k]);
    }
    if packedElems != TruncDiv(b.totalBytes, b.elementSize) {
      return false;
    }
    if spec == S8QuantPack && b.srcStrides != b.dstStrides {
      return false;
    }
    built := staged;
  }

  /** 2^32 rows of 2^32 elements in no bytes at all: the wrapped product is 0, and the
      builder accepts a plan it should refuse. */
  lemma WrappedProductAccepted(b: BoundPlan, srcBase: nat, invScales: nat)
    requires b == BoundPlan([0x1_0000_0000, 0x1_0000_0000], [1, 0], [0x1_0000_0000, 1], [], 4, 0, false)
    requires srcBase != 0 && invScales != 0
    ensures WrapAccepts(b, srcBase, S8GatherQuant, invScales)
    ensures !ArtifactAccepts(b, srcBase, S8GatherQuant, invScales)
  {
    var n := 0x1_0000_0000;
    assert b.extents[0..] == b.extents && b.extents[1..] == [n] && b.extents[2..] == [] && [n][1..] == [];
    assert Product([n]) == n * Product([]) && Product(b.extents) == n * Product([n]);
  }

  /** An admitted plan never makes the builder refuse, and none of the builder's
      unchecked products overflows. */
  lemma AdmittedArtifactBuilds(q: Request)
    requires q.Typed() && Admissible(q)
    ensures ArtifactAccepts(q.bound, q.srcPtr, ParseSpec(q.outputSpec).value, q.scalesPtr)
    ensures ProductsFit(q.bound)
  {
    var ext := q.bound.extents;
    forall k | 0 <= k < |ext| ensures q.bound.dstStrides[k] == Product(ext[k + 1..]) {
      PackedStridesAt(ext, k);
    }
    assert ext[|ext|..] == [];
    forall k | 0 <= k <= |ext| ensures InInt64(Product(ext[k..])) {
      SuffixProductBounded(ext, k);
    }
  }

  /** The unchecked addition really can overflow: a two-element plan whose outer
      source stride is INT64_MAX passes every check before it. */
  lemma UncheckedAdditionOverflows(q: Request)
    requires q.bound == BoundPlan([2, 1], [INT64_MAX, 0], [1, 1], [], 4, 8, false)
    requires q.outputSpec == "s8_gather_quant" && q.gatherThreads >= 0 && q.srcPtr != 0 && q.scalesPtr != 0
    ensures ShapeOk(q) && StridesOk(q) && !InInt64(MaxOffset(q.bound.extents, q.bound.srcStrides) + 1)
  {
    Rank2(2, 1);
    assert LastIndex([2, 1]) == [1, 0];
    assert Dot([1, 0], [INT64_MAX, 0]) == INT64_MAX by {
      assert [1, 0][1..] == [0] && [INT64_MAX, 0][1..] == [0];
      assert Dot([0], [0]) == 0 * 0 + Dot([0][1..], [0][1..]);
    }
    assert "s8_gather_quant"[3] != "s8_quant_pack"[3];
  }
}
