/** Outer-axis chunk planning: bench/rtrack/chunking.h and the runtime's
    ChunkSchedule.cpp.
 */
module Chunking {
  import opened Common
  import opened MixedRadix
  import opened Plan
  import opened Gather

  function CeilDiv(n: int, k: int): int
    requires k >= 1
  {
    (n + k - 1) / k
  }

  /** ceil(n / k) is the least count of k-sized pieces that covers n. */
  lemma CeilDivBounds(n: int, k: int)
    requires n >= 1 && k >= 1
    ensures CeilDiv(n, k) >= 1
    ensures (CeilDiv(n, k) - 1) * k < n <= CeilDiv(n, k) * k
  {
    var q, r := (n + k - 1) / k, (n + k - 1) % k;
    assert n + k - 1 == q * k + r;
    DigitOrder(q, r, 1, 0, k);
    MulDistributes(q - 1, 1, k);
  }

  // ---- bench/rtrack/chunking.h -----------------------------------------------

  datatype RowChunks = RowChunks(rowsPerChunk: int, nChunks: int, rowBytes: int, stagingBytes: int)

  function PlanRowChunks(rows: int, rowBytes: int, chunkBytes: int): RowChunks
    requires rows >= 1 && rowBytes >= 1 && chunkBytes >= 1
  {
    var rowsPerChunk := Min(rows, Max(1, chunkBytes / rowBytes));
    RowChunks(rowsPerChunk, CeilDiv(rows, rowsPerChunk), rowBytes, rowsPerChunk * rowBytes)
  }

  /** The row range of chunk c, as the benchmark's loop computes it. */
  function ChunkRows(rows: int, rowsPerChunk: int, c: int): Rows {
    var begin := c * rowsPerChunk;
    var end := Min(rows, begin + rowsPerChunk);
    Rows(begin, end, begin, end)
  }

  predicate Contains(w: Rows, i: int) {
    w.pb <= i < w.pe
  }

  /** Every chunk is a nonempty row range, every row is in exactly the chunk
      row / rowsPerChunk, and a chunk fits its staging area. */
  lemma RowChunksCover(rows: int, rowBytes: int, chunkBytes: int)
    requires rows >= 1 && rowBytes >= 1 && chunkBytes >= 1
    ensures var p := PlanRowChunks(rows, rowBytes, chunkBytes);
            && 1 <= p.rowsPerChunk <= rows && p.nChunks >= 1
            && p.stagingBytes <= Max(chunkBytes, rowBytes) && p.stagingBytes == p.rowsPerChunk * rowBytes
            && (p.rowsPerChunk < rows ==> p.stagingBytes + rowBytes > chunkBytes)
            && (forall c :: 0 <= c < p.nChunks ==>
                  var w := ChunkRows(rows, p.rowsPerChunk, c);
                  0 <= w.pb < w.pe <= rows && (w.pe - w.pb) * rowBytes <= p.stagingBytes)
            && (forall i, c :: 0 <= i < rows && 0 <= c < p.nChunks ==>
                  (Contains(ChunkRows(rows, p.rowsPerChunk, c), i) <==> c == i / p.rowsPerChunk))
            && (forall i :: 0 <= i < rows ==> 0 <= i / p.rowsPerChunk < p.nChunks)
  {
    var p := PlanRowChunks(rows, rowBytes, chunkBytes);
    var per := p.rowsPerChunk;
    StagingBound(rowBytes, chunkBytes, per, rows);
    CeilDivBounds(rows, per);
    forall c | 0 <= c < p.nChunks
      ensures var w := ChunkRows(rows, per, c);
              0 <= w.pb < w.pe <= rows && (w.pe - w.pb) * rowBytes <= p.stagingBytes
    {
      var w := ChunkRows(rows, per, c);
      MulAtLeast(p.nChunks - 1 - c, 0, per);
      MulDistributes(p.nChunks - 1 - c, c, per);
      MulAtLeast(c, 0, per);
      MulAtLeast(per - (w.pe - w.pb), 0, rowBytes);
      MulDistributes(per - (w.pe - w.pb), w.pe - w.pb, rowBytes);
    }
    forall i, c | 0 <= i < rows && 0 <= c < p.nChunks
      ensures Contains(ChunkRows(rows, per, c), i) <==> c == i / per
    {
      RowInChunk(i, c, per);
    }
    forall i | 0 <= i < rows ensures 0 <= i / per < p.nChunks {
      HeadDigit(i, p.nChunks, per);
    }
  }

  lemma RowInChunk(i: int, c: int, per: int)
    requires per >= 1
    ensures c * per <= i < c * per + per <==> c == i / per
  {
    var q, r := i / per, i % per;
    assert i == q * per + r;
    if c * per <= i < c * per + per {
      DivModUnique(c, i - c * per, per);
    }
  }

  /** As many rows as fit the target, at least one and at most all. */
  lemma StagingBound(rowBytes: int, target: int, per: int, rows: int)
    requires rowBytes >= 1 && target >= 0 && rows >= 1 && per == Min(rows, Max(1, target / rowBytes))
    ensures 1 <= per <= rows && per * rowBytes <= Max(target, rowBytes)
    ensures per < rows ==> per * rowBytes + rowBytes > target
  {
    var q := target / rowBytes;
    assert target == q * rowBytes + target % rowBytes;
    if per <= q {
      MulAtLeast(q - per, 0, rowBytes);
      MulDistributes(q - per, per, rowBytes);
    }
    if per < rows {
      assert per >= q;
      MulAtLeast(per - q, 0, rowBytes);
      MulDistributes(per - q, q, rowBytes);
    }
  }

  datatype ByteChunks = ByteChunks(bytesPerChunk: int, nChunks: int)

  function PlanByteChunks(totalBytes: int, chunkBytes: int): ByteChunks
    requires totalBytes >= 1 && chunkBytes >= 1
  {
    var bytesPerChunk := Min(totalBytes, chunkBytes);
    ByteChunks(bytesPerChunk, CeilDiv(totalBytes, bytesPerChunk))
  }

  /** Byte range [begin, end) of chunk c; only the last chunk may be short. */
  lemma ByteChunksCover(totalBytes: int, chunkBytes: int, c: int)
    requires totalBytes >= 1 && chunkBytes >= 1 && 0 <= c < PlanByteChunks(totalBytes, chunkBytes).nChunks
    ensures var p := PlanByteChunks(totalBytes, chunkBytes);
            var begin, end := c * p.bytesPerChunk, Min(totalBytes, c * p.bytesPerChunk + p.bytesPerChunk);
            && 0 <= begin < end <= totalBytes && end - begin <= chunkBytes
            && (p.nChunks > 1 ==> p.bytesPerChunk == chunkBytes) && (p.nChunks == 1 ==> p.bytesPerChunk == totalBytes)
            && (c < p.nChunks - 1 ==> end == (c + 1) * p.bytesPerChunk)
            && (c == p.nChunks - 1 ==> end == totalBytes)
  {
    var p := PlanByteChunks(totalBytes, chunkBytes);
    var per := p.bytesPerChunk;
    CeilDivBounds(totalBytes, per);
    MulAtLeast(c, 0, per);
    MulDistributes(c, 1, per);
    MulAtLeast(p.nChunks - 1 - c, 0, per);
    MulDistributes(p.nChunks - 1 - c, c, per);
    if c < p.nChunks - 1 {
      MulAtLeast(p.nChunks - 2 - c, 0, per);
      MulDistributes(p.nChunks - 2 - c, c + 1, per);
    }
  }

  // ---- ChunkSchedule.cpp ---------------------------------------------------------

  const MIN_CHUNK_BYTES := 4 * 1024 * 1024
  const MAX_CHUNK_BYTES := 64 * 1024 * 1024
  const CHUNKS_PER_BUFFER := 8

  datatype Chunk = Chunk(rows: Rows, byteOffset: int, bytes: int)

  datatype ChunkSchedule = ChunkSchedule(
    chunks: seq<Chunk>, maxChunkBytes: int, outerLo: int, rowBytes: int, serialized: bool)

  ghost predicate Schedulable(b: BoundPlan) {
    && b.WellFormed()
    && (forall k :: 0 <= k < |b.dstStrides| ==> b.dstStrides[k] >= 0)
    && b.totalBytes >= 0
  }

  /** Farthest destination element of one physical outer row. */
  function InnerSpan(b: BoundPlan, k: nat): int
    requires |b.extents| == |b.dstStrides| && 1 <= k <= |b.extents|
  {
    if k == 1 then 0 else InnerSpan(b, k - 1) + (b.Padded()[k - 1] - 1) * b.dstStrides[k - 1]
  }

  predicate RowsDisjoint(b: BoundPlan)
    requires |b.extents| == |b.dstStrides| >= 1
  {
    b.dstStrides[0] >= InnerSpan(b, |b.extents|) + 1
  }

  function TargetBytes(b: BoundPlan, nBuffers: int, override_: nat): int {
    var buffers := Max(nBuffers, 1);
    if override_ != 0 then override_
    else Min(Max(b.totalBytes / (CHUNKS_PER_BUFFER * buffers), MIN_CHUNK_BYTES), MAX_CHUNK_BYTES)
  }

  function RowsPerChunk(b: BoundPlan, nBuffers: int, override_: nat): int
    requires |b.extents| >= 1 && b.dstStrides != []
  {
    var rowBytes := b.dstStrides[0] * b.elementSize;
    if rowBytes > 0 then Min(b.Padded()[0], Max(1, TargetBytes(b, nBuffers, override_) / rowBytes))
    else b.Padded()[0]
  }

  /** Chunk c of the schedule: physical rows [c * per, (c + 1) * per) and the
      valid rows among them. */
  function ChunkAt(b: BoundPlan, per: int, c: int): Chunk
    requires |b.extents| >= 1 && b.dstStrides != []
  {
    var rowBytes := b.dstStrides[0] * b.elementSize;
    var pb := c * per;
    var pe := pb + Min(per, b.Padded()[0] - pb);
    var vb := Min(Max(pb - b.Lo()[0], 0), b.extents[0]);
    var ve := Max(vb, Min(pe - b.Lo()[0], b.extents[0]));
    Chunk(Rows(pb, pe, vb, ve), pb * rowBytes, (pe - pb) * rowBytes)
  }

  /** One whole chunk if rows may overlap, else the cut of the padded rows. */
  ghost predicate IsScheduleOf(s: ChunkSchedule, b: BoundPlan, nBuffers: int, override_: nat)
    requires Schedulable(b)
  {
    && s.outerLo == b.Lo()[0] && s.rowBytes == b.dstStrides[0] * b.elementSize
    && s.serialized == !RowsDisjoint(b)
    && (s.serialized ==>
          && s.chunks == [Chunk(Rows(0, b.Padded()[0], 0, b.extents[0]), 0, b.totalBytes)]
          && s.maxChunkBytes == b.totalBytes)
    && (!s.serialized ==>
          var per := RowsPerChunk(b, nBuffers, override_);
          && 1 <= per <= b.Padded()[0]
          && |s.chunks| == CeilDiv(b.Padded()[0], per)
          && (forall c :: 0 <= c < |s.chunks| ==> s.chunks[c] == ChunkAt(b, per, c))
          && s.maxChunkBytes == per * s.rowBytes)
  }

  /** How many bytes a chunk should have: the caller's size, or an eighth of a buffer's share
      of the tensor, rounded down, but from 4 to 64 MiB. */
  ghost predicate IsTarget(target: int, totalBytes: int, nBuffers: int, override_: nat) {
    var parts := 8 * Max(nBuffers, 1);
    if override_ != 0 then target == override_ else
      && 0x40_0000 <= target <= 0x400_0000
      && (target > 0x40_0000 ==> target * parts <= totalBytes)
      && (target < 0x400_0000 ==> totalBytes < (target + 1) * parts)
  }

  /** No chunk is larger than the target, unless it is a single row; every chunk but the last
      is as large as the largest, and one more row would be too much, unless one chunk has all. */
  ghost predicate FillsTarget(s: ChunkSchedule, target: int) {
    && s.rowBytes >= 1 && s.chunks != []
    && s.maxChunkBytes <= Max(target, s.rowBytes)
    && (s.maxChunkBytes + s.rowBytes > target || |s.chunks| == 1)
    && (forall c :: 0 <= c < |s.chunks| - 1 ==> s.chunks[c].bytes == s.maxChunkBytes)
    && s.chunks[|s.chunks| - 1].bytes <= s.maxChunkBytes
  }

  lemma TargetIs(b: BoundPlan, nBuffers: int, override_: nat)
    requires b.totalBytes >= 0
    ensures IsTarget(TargetBytes(b, nBuffers, override_), b.totalBytes, nBuffers, override_)
  {
    var parts := CHUNKS_PER_BUFFER * Max(nBuffers, 1);
    var share := b.totalBytes / parts;
    assert b.totalBytes == share * parts + b.totalBytes % parts;
    MulDistributes(share, 1, parts);
    if override_ == 0 && share >= MAX_CHUNK_BYTES {
      MulAtLeast(share, MAX_CHUNK_BYTES, parts);
    }
    if override_ == 0 && share < MIN_CHUNK_BYTES {
      MulAtLeast(MIN_CHUNK_BYTES, share, parts);
      MulDistributes(MIN_CHUNK_BYTES, 1, parts);
    }
  }

  /** What a caller may rely on, whatever the schedule is computed from. */
  lemma ScheduleFillsTarget(s: ChunkSchedule, b: BoundPlan, nBuffers: int, override_: nat)
    requires Schedulable(b) && IsScheduleOf(s, b, nBuffers, override_) && !s.serialized
    ensures exists target :: IsTarget(target, b.totalBytes, nBuffers, override_) && FillsTarget(s, target)
  {
    var target, per, n := TargetBytes(b, nBuffers, override_), RowsPerChunk(b, nBuffers, override_), b.Padded()[0];
    TargetIs(b, nBuffers, override_);
    PaddedPositive(b);
    SpanNonNegative(b, |b.extents|);
    MulAtLeast(b.dstStrides[0], 1, b.elementSize);
    hide TargetBytes;
    hide IsTarget;
    StagingBound(s.rowBytes, target, per, n);
    CeilDivBounds(n, per);
    forall c | 0 <= c < |s.chunks|
      ensures s.chunks[c].bytes <= s.maxChunkBytes
      ensures c < |s.chunks| - 1 ==> s.chunks[c].bytes == s.maxChunkBytes
    {
      ChunkIsFull(b, per, c, |s.chunks|);
    }
    if per == n {
      CeilDivUnique(n, n, 1);
    }
    assert FillsTarget(s, target);
  }

  lemma ChunkIsFull(b: BoundPlan, per: int, c: int, count: int)
    requires b.WellFormed() && b.dstStrides[0] >= 0 && 1 <= per <= b.Padded()[0] && 0 <= c < count
    requires (count - 1) * per < b.Padded()[0] <= count * per
    ensures ChunkAt(b, per, c).bytes <= per * (b.dstStrides[0] * b.elementSize)
    ensures c < count - 1 ==> ChunkAt(b, per, c).bytes == per * (b.dstStrides[0] * b.elementSize)
  {
    var row, w := b.dstStrides[0] * b.elementSize, ChunkAt(b, per, c).rows;
    MulAtLeast(b.dstStrides[0], 0, b.elementSize);
    MulAtLeast(per - (w.pe - w.pb), 0, row);
    MulDistributes(per - (w.pe - w.pb), w.pe - w.pb, row);
    if c < count - 1 {
      MulAtLeast(count - 1 - (c + 1), 0, per);
      MulDistributes(count - 1 - (c + 1), c + 1, per);
      MulDistributes(c, 1, per);
    }
  }

  lemma {:induction false} SpanNonNegative(b: BoundPlan, k: nat)
    requires Schedulable(b) && 1 <= k <= |b.extents|
    ensures InnerSpan(b, k) >= 0
  {
    if k > 1 {
      PaddedPositive(b);
      SpanNonNegative(b, k - 1);
      MulAtLeast(b.Padded()[k - 1] - 1, 0, b.dstStrides[k - 1]);
    }
  }

  method PlanChunks(b: BoundPlan, nBuffers: int, override_: nat) returns (s: ChunkSchedule)
    requires Schedulable(b)
    ensures IsScheduleOf(s, b, nBuffers, override_)
    ensures !s.serialized ==> exists target :: IsTarget(target, b.totalBytes, nBuffers, override_) && FillsTarget(s, target)
  {
    var pad, outerLo, outerHi := PadSummary(b);
    var rowBytes := b.dstStrides[0] * b.elementSize;
    var validOuter := b.extents[0];
    var paddedOuter := validOuter + outerLo + outerHi;
    var innerSpan, k := 0, 1;
    while k < |b.extents|
      invariant 1 <= k <= |b.extents|
      invariant innerSpan == InnerSpan(b, k)
    {
      innerSpan := innerSpan + (pad[k] - 1) * b.dstStrides[k];
      k := k + 1;
    }
    if !(b.dstStrides[0] >= innerSpan + 1) || paddedOuter <= 0 {
      return ChunkSchedule([Chunk(Rows(0, paddedOuter, 0, validOuter), 0, b.totalBytes)],
                           b.totalBytes, outerLo, rowBytes, true);
    }
    var target := TargetBytes(b, nBuffers, override_);
    var per := if rowBytes > 0 then Min(paddedOuter, Max(1, target / rowBytes)) else paddedOuter;
    var chunks := CutRows(b, per, outerLo, validOuter, paddedOuter, rowBytes);
    s := ChunkSchedule(chunks, per * rowBytes, outerLo, rowBytes, false);
    ScheduleFillsTarget(s, b, nBuffers, override_);
  }

  /** The pad prologue of planChunks. */
  method PadSummary(b: BoundPlan) returns (pad: seq<int>, outerLo: int, outerHi: int)
    requires b.WellFormed()
    ensures pad == b.Padded() && outerLo == b.Lo()[0] && pad[0] == b.extents[0] + outerLo + outerHi
    ensures pad[0] >= 1
  {
    outerLo, outerHi := 0, 0;
    pad := b.extents;
    var i := 0;
    while i < |b.padRegions|
      invariant 0 <= i <= |b.padRegions|
      invariant |pad| == |b.extents|
      invariant outerLo == PadLo(b.padRegions[..i], 0) && outerHi == PadHi(b.padRegions[..i], 0)
      invariant forall k :: 0 <= k < |pad| ==> pad[k] == b.extents[k] + PadWidth(b.padRegions[..i], k)
    {
      var p := b.padRegions[i];
      assert b.padRegions[..i + 1][..i] == b.padRegions[..i];
      pad := pad[p.axis := pad[p.axis] + p.lo + p.hi];
      if p.axis == 0 {
        outerLo, outerHi := p.lo, p.hi;
      }
      i := i + 1;
    }
    assert b.padRegions[..i] == b.padRegions;
    PadWidthSplits(b.padRegions, 0);
    PaddedPositive(b);
  }

  /** The cutting loop of planChunks. */
  method CutRows(b: BoundPlan, per: int, outerLo: int, validOuter: int, paddedOuter: int, rowBytes: int)
    returns (chunks: seq<Chunk>)
    requires |b.extents| >= 1 && b.dstStrides != []
    requires outerLo == b.Lo()[0] && validOuter == b.extents[0] && paddedOuter == b.Padded()[0]
    requires rowBytes == b.dstStrides[0] * b.elementSize && 1 <= per && 1 <= paddedOuter
    ensures |chunks| == CeilDiv(paddedOuter, per)
    ensures forall c :: 0 <= c < |chunks| ==> chunks[c] == ChunkAt(b, per, c)
  {
    chunks := [];
    var pb := 0;
    while pb < paddedOuter
      invariant 0 <= pb <= paddedOuter
      invariant pb == Min(|chunks| * per, paddedOuter)
      invariant chunks != [] ==> (|chunks| - 1) * per < paddedOuter
      invariant forall c :: 0 <= c < |chunks| ==> chunks[c] == ChunkAt(b, per, c)
    {
      var pe := pb + Min(per, paddedOuter - pb);
      var vb := Min(Max(pb - outerLo, 0), validOuter);
      var ve := Min(pe - outerLo, validOuter);
      if ve < vb {
        ve := vb;
      }
      MulDistributes(|chunks|, 1, per);
      chunks := chunks + [Chunk(Rows(pb, pe, vb, ve), pb * rowBytes, (pe - pb) * rowBytes)];
      pb := pe;
    }
    CeilDivUnique(paddedOuter, per, |chunks|);
  }

  lemma CeilDivUnique(n: int, k: int, q: int)
    requires n >= 1 && k >= 1 && (q - 1) * k < n <= q * k
    ensures q == CeilDiv(n, k)
  {
    CeilDivBounds(n, k);
    var c := CeilDiv(n, k);
    DigitOrder(q, 0, c - 1, 0, k);
    DigitOrder(c, 0, q - 1, 0, k);
    if q < c {
      MulAtLeast(c - 1 - q, 0, k);
      MulDistributes(c - 1 - q, q, k);
    } else if c < q {
      MulAtLeast(q - 1 - c, 0, k);
      MulDistributes(q - 1 - c, c, k);
    }
  }

  // ---- what the schedule of a canonical plan guarantees -----------------------------

  /** The chunks are windows of the plan and together contain every physical row. */
  ghost predicate Tiles(b: BoundPlan, windows: seq<Rows>)
    requires b.extents != []
  {
    && (forall c :: 0 <= c < |windows| ==> RowsOf(b, windows[c]))
    && forall i :: 0 <= i < b.Padded()[0] ==> InSomeWindow(windows, i)
  }

  ghost predicate InSomeWindow(windows: seq<Rows>, i: int) {
    exists c :: 0 <= c < |windows| && Contains(windows[c], i)
  }

  /** Canonical rows are disjoint, so a canonical plan is never serialized. */
  lemma CanonicalDisjoint(b: BoundPlan)
    requires b.Canonical()
    ensures RowsDisjoint(b) && Schedulable(b)
  {
    var pad := b.Padded();
    PaddedPositive(b);
    forall k | 0 <= k < |pad| ensures b.dstStrides[k] >= 1 {
      PackedStridesAt(pad, k);
      ProductPositive(pad[k + 1..]);
    }
    SpanOfPacked(b, |pad|);
    assert pad[|pad|..] == [];
    ProductPositive(pad);
    MulAtLeast(Product(pad), 0, b.elementSize);
  }

  lemma {:induction false} SpanOfPacked(b: BoundPlan, k: nat)
    requires b.Canonical() && 1 <= k <= |b.extents|
    ensures InnerSpan(b, k) == b.dstStrides[0] - Product(b.Padded()[k..])
  {
    var pad := b.Padded();
    if k == 1 {
      PackedStridesAt(pad, 0);
    } else {
      SpanOfPacked(b, k - 1);
      PackedStridesAt(pad, k - 1);
      assert pad[k - 1..][0] == pad[k - 1] && pad[k - 1..][1..] == pad[k..];
      MulDistributes(pad[k - 1] - 1, 1, b.dstStrides[k - 1]);
    }
  }

  /** The chunks tile the plan's rows, and every chunk fits the staging buffers. */
  lemma ScheduleTiles(b: BoundPlan, per: int, chunks: seq<Chunk>)
    requires b.WellFormed() && b.dstStrides[0] >= 0 && 1 <= per <= b.Padded()[0]
    requires |chunks| == CeilDiv(b.Padded()[0], per)
    requires forall c :: 0 <= c < |chunks| ==> chunks[c] == ChunkAt(b, per, c)
    ensures Tiles(b, seq(|chunks|, c requires 0 <= c < |chunks| => chunks[c].rows))
    ensures forall c :: 0 <= c < |chunks| ==>
              && chunks[c].bytes == Elements(b, chunks[c].rows) * b.elementSize
              && chunks[c].bytes <= per * (b.dstStrides[0] * b.elementSize)
  {
    var n := b.Padded()[0];
    var windows := seq(|chunks|, c requires 0 <= c < |chunks| => chunks[c].rows);
    var rowBytes := b.dstStrides[0] * b.elementSize;
    CeilDivBounds(n, per);
    PaddedPositive(b);
    MulAtLeast(b.dstStrides[0], 0, b.elementSize);
    forall c | 0 <= c < |chunks|
      ensures RowsOf(b, windows[c])
      ensures chunks[c].bytes == Elements(b, windows[c]) * b.elementSize && chunks[c].bytes <= per * rowBytes
    {
      var w := windows[c];
      MulAtLeast(c, 0, per);
      MulAtLeast(|chunks| - 1 - c, 0, per);
      MulDistributes(|chunks| - 1 - c, c, per);
      MulAssoc(w.pe - w.pb, b.dstStrides[0], b.elementSize);
      MulAtLeast(per - (w.pe - w.pb), 0, rowBytes);
      MulDistributes(per - (w.pe - w.pb), w.pe - w.pb, rowBytes);
    }
    forall i | 0 <= i < n ensures InSomeWindow(windows, i) {
      HeadDigit(i, |chunks|, per);
      var c := i / per;
      RowInChunk(i, c, per);
      assert Contains(windows[c], i);
    }
  }

  /** The benchmark's row chunks tile an unpadded plan. */
  lemma RowChunksTile(b: BoundPlan, chunkBytes: int, windows: seq<Rows>)
    requires b.WellFormed() && b.padRegions == [] && chunkBytes >= 1
    requires b.dstStrides[0] * b.elementSize >= 1
    requires var p := PlanRowChunks(b.extents[0], b.dstStrides[0] * b.elementSize, chunkBytes);
             && |windows| == p.nChunks
             && forall c :: 0 <= c < p.nChunks ==> windows[c] == ChunkRows(b.extents[0], p.rowsPerChunk, c)
    ensures Tiles(b, windows)
  {
    var rows := b.extents[0];
    var p := PlanRowChunks(rows, b.dstStrides[0] * b.elementSize, chunkBytes);
    RowChunksCover(rows, b.dstStrides[0] * b.elementSize, chunkBytes);
    NoPads(b);
    forall i | 0 <= i < b.Padded()[0] ensures InSomeWindow(windows, i) {
      var c := i / p.rowsPerChunk;
      assert 0 <= c < p.nChunks;
      assert Contains(ChunkRows(rows, p.rowsPerChunk, c), i);
      assert Contains(windows[c], i);
    }
  }
}
