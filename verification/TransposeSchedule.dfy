/** transpose_schedule: the Python mirror of the runtime's chunk policy for dense
    fp32 transposes.
 */
module TransposeSchedule {
  import opened Common
  import opened MixedRadix
  import opened Plan
  import opened Gather
  import opened Chunking

  const MIB := 1024 * 1024

  function Target(rows: int, cols: int, buffers: int): int
    requires buffers >= 1
  {
    Min(64 * MIB, Max(4 * MIB, rows * cols * 4 / (8 * buffers)))
  }

  function PerChunk(rows: int, cols: int, buffers: int): int
    requires rows >= 1 && buffers >= 1
  {
    Min(cols, Max(1, Target(rows, cols, buffers) / (rows * 4)))
  }

  /** range(begin, cols, per): the chunk sizes in bytes. */
  function ChunkBytes(begin: int, cols: int, per: int, rowBytes: int): seq<int>
    requires per >= 1
    decreases cols - begin
  {
    if begin >= cols then [] else
      [Min(per, cols - begin) * rowBytes] + ChunkBytes(begin + per, cols, per, rowBytes)
  }

  function Sum(s: seq<int>): int {
    if s == [] then 0 else s[0] + Sum(s[1..])
  }

  lemma {:induction false} ChunkBytesSum(begin: int, cols: int, per: int, rowBytes: int)
    requires per >= 1 && 0 <= begin
    ensures begin <= cols ==> Sum(ChunkBytes(begin, cols, per, rowBytes)) == (cols - begin) * rowBytes
    ensures begin >= cols ==> Sum(ChunkBytes(begin, cols, per, rowBytes)) == 0
    decreases cols - begin
  {
    if begin < cols {
      ChunkBytesSum(begin + per, cols, per, rowBytes);
      var n := Min(per, cols - begin);
      var rest := ChunkBytes(begin + per, cols, per, rowBytes);
      assert ChunkBytes(begin, cols, per, rowBytes) == [n * rowBytes] + rest;
      assert ([n * rowBytes] + rest)[1..] == rest;
      MulDistributes(n, cols - begin - n, rowBytes);
    }
  }

  /** Chunk c covers destination rows [begin + c * per, ...). */
  lemma {:induction false} ChunkBytesAt(begin: int, cols: int, per: int, rowBytes: int, c: nat)
    requires per >= 1
    requires c < |ChunkBytes(begin, cols, per, rowBytes)|
    ensures begin + c * per < cols
    ensures ChunkBytes(begin, cols, per, rowBytes)[c] == Min(per, cols - (begin + c * per)) * rowBytes
    decreases c
  {
    if c > 0 {
      ChunkBytesAt(begin + per, cols, per, rowBytes, c - 1);
      MulDistributes(c - 1, 1, per);
    }
  }

  lemma {:induction false} ChunkBytesCount(begin: int, cols: int, per: int, rowBytes: int)
    requires per >= 1 && begin < cols
    ensures var n := |ChunkBytes(begin, cols, per, rowBytes)|;
            n >= 1 && (n - 1) * per < cols - begin <= n * per
    decreases cols - begin
  {
    if begin + per < cols {
      ChunkBytesCount(begin + per, cols, per, rowBytes);
      var m := |ChunkBytes(begin + per, cols, per, rowBytes)|;
      MulDistributes(m, 1, per);
      MulDistributes(m - 1, 1, per);
    }
  }

  lemma ChunkBytesLength(begin: int, cols: int, per: int, rowBytes: int)
    requires per >= 1 && begin < cols
    ensures |ChunkBytes(begin, cols, per, rowBytes)| == CeilDiv(cols - begin, per)
  {
    ChunkBytesCount(begin, cols, per, rowBytes);
    CeilDivUnique(cols - begin, per, |ChunkBytes(begin, cols, per, rowBytes)|);
  }

  function Schedule(rows: int, cols: int, buffers: int): seq<int>
    requires rows >= 1 && cols >= 1 && buffers >= 1
  {
    ChunkBytes(0, cols, PerChunk(rows, cols, buffers), rows * 4)
  }

  /** The chunks partition the destination's bytes and none exceeds the larger of
      the target and one row. */
  lemma ScheduleConserves(rows: int, cols: int, buffers: int)
    requires rows >= 1 && cols >= 1 && buffers >= 1
    ensures Sum(Schedule(rows, cols, buffers)) == rows * cols * 4
    ensures forall c :: 0 <= c < |Schedule(rows, cols, buffers)| ==>
              0 < Schedule(rows, cols, buffers)[c] <= Max(Target(rows, cols, buffers), rows * 4)
  {
    var per, rowBytes := PerChunk(rows, cols, buffers), rows * 4;
    ChunkBytesSum(0, cols, per, rowBytes);
    MulAssoc(rows, cols, 4);
    assert cols * (rows * 4) == rows * cols * 4;
    PerChunkFits(rowBytes, Target(rows, cols, buffers), per, cols);
    forall c | 0 <= c < |Schedule(rows, cols, buffers)|
      ensures 0 < Schedule(rows, cols, buffers)[c] <= Max(Target(rows, cols, buffers), rowBytes)
    {
      ChunkBytesAt(0, cols, per, rowBytes, c);
      var n := Min(per, cols - c * per);
      MulAtLeast(n, 1, rowBytes);
      MulAtLeast(per - n, 0, rowBytes);
      MulDistributes(per - n, n, rowBytes);
    }
  }

  lemma PerChunkFits(rowBytes: int, target: int, per: int, cols: int)
    requires rowBytes >= 1 && target >= 1 && cols >= 1 && per == Min(cols, Max(1, target / rowBytes))
    ensures 1 <= per <= cols && per * rowBytes <= Max(target, rowBytes)
  {
    StagingBound(rowBytes, target, per, cols);
  }

  /** Large transposes keep every staging buffer busy: at least eight chunks each. */
  lemma EnoughChunks(rows: int, cols: int, buffers: int)
    requires rows >= 1 && cols >= 1 && buffers >= 1
    requires rows * cols * 4 >= 32 * MIB * buffers && rows * 4 <= Target(rows, cols, buffers)
    ensures |Schedule(rows, cols, buffers)| >= 8 * buffers
  {
    var total, rowBytes, target := rows * cols * 4, rows * 4, Target(rows, cols, buffers);
    var per := PerChunk(rows, cols, buffers);
    PerChunkFits(rowBytes, target, per, cols);
    ChunkBytesCount(0, cols, per, rowBytes);
    RowsTimesColumns(rows, cols);
    TargetShare(total, 8 * buffers, target);
    AtLeastShare(total, 8 * buffers, target, |Schedule(rows, cols, buffers)|, per, rowBytes, cols);
  }

  lemma RowsTimesColumns(rows: int, cols: int)
    ensures cols * (rows * 4) == rows * cols * 4
  {
  }

  /** n chunks of at most a k-th of the total that cover the total are at least k. */
  lemma AtLeastShare(total: int, k: int, target: int, n: int, per: int, rowBytes: int, cols: int)
    requires cols * rowBytes == total && k * target <= total && target >= 1
    requires n >= 1 && cols <= n * per && rowBytes >= 1 && per * rowBytes <= target
    ensures n >= k
  {
    ChunksCoverTotal(n, per, rowBytes, cols);
    TargetBounds(n, per * rowBytes, target);
    CancelTarget(k, n, target);
  }

  /** Unclamped from below, the target is at most a k-th of the total. */
  lemma TargetShare(total: int, k: int, target: int)
    requires k >= 1 && total >= 4 * MIB * k && target == Min(64 * MIB, Max(4 * MIB, total / k))
    ensures k * target <= total
  {
    var q := total / k;
    assert total == q * k + total % k;
    DigitOrder(q, total % k, 4 * MIB, 0, k);
    MulAtLeast(q - target, 0, k);
    MulDistributes(q - target, target, k);
  }

  lemma TargetBounds(n: int, chunk: int, target: int)
    requires n >= 0 && chunk <= target
    ensures chunk * n <= n * target
  {
    MulAtLeast(target - chunk, 0, n);
    MulDistributes(target - chunk, chunk, n);
  }

  lemma CancelTarget(k: int, n: int, target: int)
    requires target >= 1 && k * target <= n * target
    ensures k <= n
  {
    DigitOrder(n, 0, k, 0, target);
  }

  lemma ChunksCoverTotal(n: int, per: int, rowBytes: int, cols: int)
    requires cols <= n * per && rowBytes >= 1
    ensures cols * rowBytes <= per * rowBytes * n
  {
    MulAtLeast(n * per - cols, 0, rowBytes);
    MulDistributes(n * per - cols, cols, rowBytes);
    MulAssoc(n, per, rowBytes);
  }

  // ---- the mirror is exact -------------------------------------------------------------

  /** The plan of a dense rows x cols fp32 transpose: destination rows are columns. */
  function DenseTransposePlan(rows: int, cols: int): BoundPlan {
    BoundPlan([cols, rows], [1, cols], [rows, 1], [], 4, rows * cols * 4, false)
  }

  lemma DenseTransposeCanonical(rows: int, cols: int)
    requires rows >= 1 && cols >= 1
    ensures DenseTransposePlan(rows, cols).Canonical() && IsDenseTranspose(DenseTransposePlan(rows, cols))
    ensures DenseTransposePlan(rows, cols).Padded() == [cols, rows]
  {
    var b := DenseTransposePlan(rows, cols);
    NoPads(b);
    RankTwoProduct(cols, rows);
    assert [cols, rows][1..] == [rows] && [rows][1..] == [];
    assert PackedStrides([rows]) == [Product([])] + PackedStrides([]);
    assert Product([rows]) == rows * Product([]);
    MulAssoc(rows, cols, 4);
  }

  /** The Python schedule lists exactly the byte counts of the chunks the runtime plans. */
  lemma MirrorsRuntime(rows: int, cols: int, buffers: int, s: ChunkSchedule)
    requires rows >= 1 && cols >= 1 && buffers >= 1
    requires var b := DenseTransposePlan(rows, cols); var per := RowsPerChunk(b, buffers, 0);
             && per >= 1 && |s.chunks| == CeilDiv(b.Padded()[0], per)
             && forall c :: 0 <= c < |s.chunks| ==> s.chunks[c] == ChunkAt(b, per, c)
    ensures |Schedule(rows, cols, buffers)| == |s.chunks|
    ensures forall c :: 0 <= c < |s.chunks| ==> Schedule(rows, cols, buffers)[c] == s.chunks[c].bytes
  {
    var b := DenseTransposePlan(rows, cols);
    DenseTransposeCanonical(rows, cols);
    var per, rowBytes := PerChunk(rows, cols, buffers), rows * 4;
    assert RowsPerChunk(b, buffers, 0) == per;
    ChunkBytesLength(0, cols, per, rowBytes);
    forall c | 0 <= c < |s.chunks| ensures Schedule(rows, cols, buffers)[c] == s.chunks[c].bytes {
      ChunkBytesAt(0, cols, per, rowBytes, c);
    }
  }

  /** planChunks itself, run on that plan, produces the mirrored schedule. */
  method PlanTranspose(rows: int, cols: int, buffers: int) returns (s: ChunkSchedule)
    requires rows >= 1 && cols >= 1 && buffers >= 1
    ensures |Schedule(rows, cols, buffers)| == |s.chunks| && !s.serialized
    ensures forall c :: 0 <= c < |s.chunks| ==> Schedule(rows, cols, buffers)[c] == s.chunks[c].bytes
  {
    var b := DenseTransposePlan(rows, cols);
    DenseTransposeCanonical(rows, cols);
    CanonicalDisjoint(b);
    s := PlanChunks(b, buffers, 0);
    MirrorsRuntime(rows, cols, buffers, s);
  }
}
