/** Gathering one plan's rows on several threads at once. */
module Threads {
  import opened Common
  import opened MixedRadix
  import opened Relocation
  import opened Plan
  import opened Executor
  import opened Gather
  import opened Execute
  import opened Interleaving

  // ---- when are rows apart? ----------------------------------------------------------

  /** Farthest destination element of one row's valid cells, from its first. */
  function InnerReach(b: BoundPlan): int
    requires Shaped(b)
  {
    MaxOffset(b.extents[1..], b.dstStrides[1..])
  }

  /** The test of executeH2DThreaded. */
  predicate ValidRowsDisjoint(b: BoundPlan)
    requires Shaped(b)
  {
    b.dstStrides[0] >= InnerReach(b) + 1
  }

  /** It passes exactly if every valid cell of a row lies before the next row's first element. */
  lemma ValidRowsDisjointExactly(b: BoundPlan)
    requires b.WellFormed() && Ascending(b.extents, b.dstStrides)
    ensures ValidRowsDisjoint(b) <==>
            forall x :: InRange(x, b.extents[1..]) ==> Dot(x, b.dstStrides[1..]) < b.dstStrides[0]
  {
    var ext, ds := b.extents[1..], b.dstStrides[1..];
    assert forall k :: 0 <= k < |ds| ==> ds[k] == b.dstStrides[k + 1] && ext[k] == b.extents[k + 1];
    assert InRange(LastIndex(ext), ext);
    forall x | InRange(x, ext) ensures Dot(x, ds) <= MaxOffset(ext, ds) {
      OffsetWithin(x, ext, ds);
    }
  }

  /** Where the rows [begin, end) write. */
  lemma RowTargets(b: BoundPlan, base: int, begin: int, end: int, k: int)
    requires b.WellFormed() && Ascending(b.extents, b.dstStrides) && 0 <= begin < end <= b.extents[0]
    requires 0 <= k < |ChunkMoves(b, base, begin, end)|
    ensures var o, d := base + Dot(b.Lo(), b.dstStrides), b.dstStrides[0];
            o + begin * d <= ChunkMoves(b, base, begin, end)[k].to <= o + (end - 1) * d + InnerReach(b)
  {
    var o, ds := base + Dot(b.Lo(), b.dstStrides), b.dstStrides;
    var box := [end - begin] + b.extents[1..];
    assert Positive(box) by {
      assert forall i :: 0 < i < |box| ==> box[i] == b.extents[i];
    }
    RowMovesAsMoves(b.extents, b.srcStrides, ds, begin, end, 0, o);
    var idx := VisitedIsInBox(box, b.srcStrides, ds, begin * b.srcStrides[0], o + begin * ds[0], k);
    OffsetWithin(idx, box, ds);
    assert LastIndex(box)[1..] == LastIndex(b.extents[1..]) && LastIndex(box)[0] == end - begin - 1;
    MulDistributes(end - 1 - begin, begin, ds[0]);
  }

  /** Passing the test keeps any two ranges of rows apart. */
  lemma RangesApart(b: BoundPlan, base: int, lo: int, mid: int, mid': int, hi: int, k: int, l: int)
    requires b.WellFormed() && Ascending(b.extents, b.dstStrides) && ValidRowsDisjoint(b)
    requires 0 <= lo < mid <= mid' < hi <= b.extents[0]
    requires 0 <= k < |ChunkMoves(b, base, lo, mid)| && 0 <= l < |ChunkMoves(b, base, mid', hi)|
    ensures ChunkMoves(b, base, lo, mid)[k].to < ChunkMoves(b, base, mid', hi)[l].to
  {
    RowTargets(b, base, lo, mid, k);
    RowTargets(b, base, mid', hi, l);
    var d := b.dstStrides[0];
    MulDistributes(mid - 1, 1, d);
    MulDistributes(mid' - mid, mid, d);
    MulAtLeast(mid' - mid, 0, d);
  }

  /** A plan without pads that stays within its destination never steps backwards. */
  lemma UnpaddedAscends(b: BoundPlan, srcLen: int, dstLen: int)
    requires b.WellFormed() && b.padRegions == [] && Fits(AllMoves(b), srcLen, dstLen)
    ensures Ascending(b.extents, b.dstStrides)
  {
    NoPads(b);
    DotZero(b.Lo(), b.dstStrides);
    forall k | 0 <= k < |b.extents| && b.extents[k] > 1 ensures b.dstStrides[k] >= 0 {
      var idx := seq(|b.extents|, i => if i == k then 1 else 0);
      DotUnit(idx, b.dstStrides, k);
      BoxIsVisited(b.extents, b.srcStrides, b.dstStrides, 0, Dot(b.Lo(), b.dstStrides), idx);
      assert AllMoves(b)[Dot(idx, PackedStrides(b.extents))].to == b.dstStrides[k];
    }
  }

  // ---- may different rows be written at once? --------------------------------------------

  /** What row r leaves at destination offset o. */
  ghost function LeftBy(b: BoundPlan, base: int, r: int, o: int): Option<int>
    requires Shaped(b)
  {
    LastWrite(ChunkMoves(b, base, r, r + 1), o)
  }

  /** Rows that write the same element leave the same source element there. */
  ghost predicate RowsAgree(b: BoundPlan, base: int)
    requires Shaped(b)
  {
    forall q, r, o :: 0 <= q < r < b.extents[0] && LeftBy(b, base, q, o).Some? && LeftBy(b, base, r, o).Some? ==>
      LeftBy(b, base, q, o) == LeftBy(b, base, r, o)
  }

  /** They do when the test passes and no axis runs backwards, as in every plan of bind(). */
  lemma AscendingAgrees(b: BoundPlan, base: int)
    requires b.WellFormed() && Ascending(b.extents, b.dstStrides) && ValidRowsDisjoint(b)
    ensures RowsAgree(b, base)
  {
    forall q, r, o | 0 <= q < r < b.extents[0] && LeftBy(b, base, q, o).Some?
      ensures LeftBy(b, base, r, o).None?
    {
      var before, after := ChunkMoves(b, base, q, q + 1), ChunkMoves(b, base, r, r + 1);
      var k := LastWriteAt(before, o);
      forall l | 0 <= l < |after| ensures after[l].to != o {
        RangesApart(b, base, q, q + 1, r, r + 1, k, l);
      }
      LastWriteIs(after, o);
    }
  }

  lemma NoRowWrites(b: BoundPlan, base: int, r: int, o: int)
    requires Shaped(b)
    ensures LastWrite(ChunkMoves(b, base, r, r), o).None?
  {
    assert ChunkMoves(b, base, r, r) == [];
  }

  lemma LastRow(b: BoundPlan, base: int, begin: int, end: int, o: int)
    requires Shaped(b) && begin < end
    ensures LastWrite(ChunkMoves(b, base, begin, end), o) ==
            if LeftBy(b, base, end - 1, o).Some? then LeftBy(b, base, end - 1, o)
            else LastWrite(ChunkMoves(b, base, begin, end - 1), o)
  {
    RowMovesConcat(b.extents, b.srcStrides, b.dstStrides, begin, end - 1, end, 0, base + Dot(b.Lo(), b.dstStrides));
    LastWriteConcat(ChunkMoves(b, base, begin, end - 1), ChunkMoves(b, base, end - 1, end), o);
  }

  /** What a range of rows leaves at o, one of its rows left there. */
  lemma {:induction false} RangeLastWrite(b: BoundPlan, base: int, begin: int, end: int, o: int) returns (r: int)
    requires Shaped(b) && begin <= end && LastWrite(ChunkMoves(b, base, begin, end), o).Some?
    ensures begin <= r < end && LeftBy(b, base, r, o) == LastWrite(ChunkMoves(b, base, begin, end), o)
    decreases end - begin
  {
    NoRowWrites(b, base, begin, o);
    LastRow(b, base, begin, end, o);
    hide LastWrite;
    hide ChunkMoves;
    if LeftBy(b, base, end - 1, o).Some? {
      r := end - 1;
    } else {
      r := RangeLastWrite(b, base, begin, end - 1, o);
    }
  }

  // ---- what one worker writes ----------------------------------------------------------

  /** An order in which gatherChunk may write rows [begin, end): the walker's own, or for
      the blocked transpose any order of the same writes. */
  ghost predicate Writes(b: BoundPlan, base: int, begin: int, end: int, ms: seq<Move>)
    requires Shaped(b)
  {
    if begin >= end then ms == []
    else
      || ms == ChunkMoves(b, base, begin, end)
      || (IsDenseTranspose(b) && multiset(ms) == multiset(ChunkMoves(b, base, begin, end)))
  }

  lemma WritesSame(b: BoundPlan, base: int, begin: int, end: int, ms: seq<Move>, src: seq<int>, dst: seq<int>)
    requires b.WellFormed() && Writes(b, base, begin, end, ms)
    requires Fits(ChunkMoves(b, base, begin, end), |src|, |dst|)
    ensures Fits(ms, |src|, |dst|)
    ensures Apply(ms, src, dst) == Apply(ChunkMoves(b, base, begin, end), src, dst)
  {
    if begin >= end {
      assert ChunkMoves(b, base, begin, end) == [];
    } else if ms != ChunkMoves(b, base, begin, end) {
      TransposeMoves(b, base, begin, end);
      ApplyAnyOrder(ChunkMoves(b, base, begin, end), ms, src, dst);
    }
  }

  lemma WritesLast(b: BoundPlan, base: int, begin: int, end: int, ms: seq<Move>, o: int) returns (r: int)
    requires b.WellFormed() && Writes(b, base, begin, end, ms) && LastWrite(ms, o).Some?
    ensures begin <= r < end && LeftBy(b, base, r, o) == LastWrite(ms, o)
  {
    if ms != ChunkMoves(b, base, begin, end) {
      TransposeMoves(b, base, begin, end);
      LastWriteAnyOrder(ChunkMoves(b, base, begin, end), ms, o);
    }
    r := RangeLastWrite(b, base, begin, end, o);
  }

  // ---- several workers -------------------------------------------------------------------

  /** cuts divides [begin, end) into consecutive, possibly empty ranges. */
  ghost predicate Cuts(cuts: seq<int>, begin: int, end: int) {
    && cuts != [] && cuts[0] == begin && cuts[|cuts| - 1] == end
    && forall i, j :: 0 <= i <= j < |cuts| ==> cuts[i] <= cuts[j]
  }

  ghost predicate WorkerWrites(b: BoundPlan, base: int, cuts: seq<int>, parts: seq<seq<Move>>)
    requires Shaped(b)
  {
    && |parts| + 1 == |cuts|
    && forall w :: 0 <= w < |parts| ==> Writes(b, base, cuts[w], cuts[w + 1], parts[w])
  }

  lemma WorkersAgree(b: BoundPlan, base: int, begin: int, end: int, cuts: seq<int>, parts: seq<seq<Move>>)
    requires b.WellFormed() && RowsAgree(b, base)
    requires Cuts(cuts, begin, end) && 0 <= begin && end <= b.extents[0]
    requires WorkerWrites(b, base, cuts, parts)
    ensures Agree(parts)
  {
    hide Writes;
    forall v, w, o | 0 <= v < w < |parts| && LastWrite(parts[v], o).Some? && LastWrite(parts[w], o).Some?
      ensures LastWrite(parts[v], o) == LastWrite(parts[w], o)
    {
      var q := WritesLast(b, base, cuts[v], cuts[v + 1], parts[v], o);
      var r := WritesLast(b, base, cuts[w], cuts[w + 1], parts[w], o);
      assert cuts[v + 1] <= cuts[w];
    }
  }

  /** One worker after another writes what all the rows write. */
  lemma {:induction false} WorkersInTurn(b: BoundPlan, base: int, begin: int, end: int, cuts: seq<int>,
                                         parts: seq<seq<Move>>, src: seq<int>, dst: seq<int>)
    requires b.WellFormed() && Cuts(cuts, begin, end) && WorkerWrites(b, base, cuts, parts)
    requires Fits(ChunkMoves(b, base, begin, end), |src|, |dst|)
    ensures Fits(Concat(parts), |src|, |dst|)
    ensures Apply(Concat(parts), src, dst) == Apply(ChunkMoves(b, base, begin, end), src, dst)
    decreases |parts|
  {
    if parts == [] {
      assert ChunkMoves(b, base, begin, end) == [];
    } else {
      var mid := cuts[1];
      TailWrites(b, base, begin, end, cuts, parts);
      FirstRows(b, base, begin, mid, end, |src|, |dst|);
      var first, rest := ChunkMoves(b, base, begin, mid), ChunkMoves(b, base, mid, end);
      assert Concat(parts) == parts[0] + Concat(parts[1..]);
      hide *;
      WritesSame(b, base, begin, mid, parts[0], src, dst);
      WorkersInTurn(b, base, mid, end, cuts[1..], parts[1..], src, Apply(parts[0], src, dst));
      ApplyConcat(parts[0], Concat(parts[1..]), src, dst);
      ApplyConcat(first, rest, src, dst);
    }
  }

  lemma FirstRows(b: BoundPlan, base: int, begin: int, mid: int, end: int, srcLen: int, dstLen: int)
    requires Shaped(b) && begin <= mid <= end && Fits(ChunkMoves(b, base, begin, end), srcLen, dstLen)
    ensures ChunkMoves(b, base, begin, end) == ChunkMoves(b, base, begin, mid) + ChunkMoves(b, base, mid, end)
    ensures Fits(ChunkMoves(b, base, begin, mid), srcLen, dstLen) && Fits(ChunkMoves(b, base, mid, end), srcLen, dstLen)
  {
    RowMovesConcat(b.extents, b.srcStrides, b.dstStrides, begin, mid, end, 0, base + Dot(b.Lo(), b.dstStrides));
    FitsPart(ChunkMoves(b, base, begin, mid), ChunkMoves(b, base, mid, end), srcLen, dstLen);
  }

  lemma TailWrites(b: BoundPlan, base: int, begin: int, end: int, cuts: seq<int>, parts: seq<seq<Move>>)
    requires Shaped(b) && Cuts(cuts, begin, end) && WorkerWrites(b, base, cuts, parts) && parts != []
    ensures begin <= cuts[1] <= end && Writes(b, base, begin, cuts[1], parts[0])
    ensures Cuts(cuts[1..], cuts[1], end) && WorkerWrites(b, base, cuts[1..], parts[1..])
  {
    hide Writes;
    assert forall w :: 0 <= w < |parts[1..]| ==> parts[1..][w] == parts[w + 1];
    assert forall w :: 0 <= w < |cuts[1..]| ==> cuts[1..][w] == cuts[w + 1];
  }

  /** If rows agree, threads that divide the rows of a chunk may interleave in any way:
      the buffer ends as after one inline gatherChunk. */
  lemma ParallelGather(b: BoundPlan, base: int, begin: int, end: int, cuts: seq<int>, parts: seq<seq<Move>>,
                       interleaving: seq<Move>, src: seq<int>, dst: seq<int>)
    requires b.WellFormed() && RowsAgree(b, base)
    requires Cuts(cuts, begin, end) && 0 <= begin && end <= b.extents[0]
    requires WorkerWrites(b, base, cuts, parts) && IsShuffle(interleaving, parts)
    requires Fits(ChunkMoves(b, base, begin, end), |src|, |dst|)
    ensures Fits(interleaving, |src|, |dst|)
    ensures Apply(interleaving, src, dst) == Apply(ChunkMoves(b, base, begin, end), src, dst)
  {
    WorkersAgree(b, base, begin, end, cuts, parts);
    WorkersInTurn(b, base, begin, end, cuts, parts, src, dst);
    ShuffleSame(interleaving, parts, src, dst);
  }

  // ---- executeH2DThreaded --------------------------------------------------------------------

  function WorkerCount(b: BoundPlan, threads: nat, hardware: nat): int
    requires Shaped(b)
  {
    Min(if threads > 0 then threads else if hardware > 0 then hardware else 1, b.extents[0])
  }

  function PerWorker(b: BoundPlan, workers: int): int
    requires Shaped(b) && workers >= 1
  {
    (b.extents[0] + workers - 1) / workers
  }

  lemma CeilCovers(n: int, k: int)
    requires n >= 1 && k >= 1
    ensures (n + k - 1) / k >= 1 && k * ((n + k - 1) / k) >= n
  {
    var q, r := (n + k - 1) / k, (n + k - 1) % k;
    assert n + k - 1 == q * k + r;
    DigitOrder(q, r, 1, 0, k);
  }

  /** got rows are no more than a worker's share, rounded up. */
  ghost predicate Fair(got: int, workers: int, rows: int) {
    (got - 1) * workers < rows
  }

  lemma FairShare(got: int, per: int, workers: int, rows: int)
    requires rows >= 1 && workers >= 1 && per == (rows + workers - 1) / workers && 0 <= got <= per
    ensures Fair(got, workers, rows)
  {
    assert rows + workers - 1 == per * workers + (rows + workers - 1) % workers;
    MulAtLeast(per - got, 0, workers);
    MulDistributes(per - got, got - 1, workers);
    MulDistributes(per - 1, 1, workers);
  }

  /** writes[w] is the order in which worker w's gatherChunk happens to write. */
  ghost predicate PlannedWrites(b: BoundPlan, workers: int, writes: seq<seq<Move>>)
    requires Shaped(b) && workers >= 1
  {
    var per, outer := PerWorker(b, workers), b.extents[0];
    && |writes| == workers
    && forall w :: 0 <= w < workers ==> Writes(b, 0, Min(w * per, outer), Min(w * per + per, outer), writes[w])
  }

  /** The span loop: its sum is the reach of one row. */
  method SumSpan(b: BoundPlan) returns (innerSpan: int)
    requires Shaped(b)
    ensures innerSpan == InnerReach(b)
  {
    ghost var last, ds := LastIndex(b.extents[1..]), b.dstStrides[1..];
    innerSpan := 0;
    var k := 1;
    while k < |b.dstStrides|
      invariant 1 <= k <= |b.dstStrides|
      invariant innerSpan == Dot(last[..k - 1], ds[..k - 1])
    {
      DotSnoc(last, ds, k - 1);
      innerSpan := innerSpan + (b.extents[k] - 1) * b.dstStrides[k];
      k := k + 1;
    }
    assert last[..k - 1] == last && ds[..k - 1] == ds;
  }

  /** One more worker. */
  lemma AddWorker(b: BoundPlan, cuts: seq<int>, parts: seq<seq<Move>>, end: int, ms: seq<Move>)
    requires Shaped(b) && cuts != [] && Cuts(cuts, cuts[0], cuts[|cuts| - 1]) && WorkerWrites(b, 0, cuts, parts)
    requires cuts[|cuts| - 1] <= end && Writes(b, 0, cuts[|cuts| - 1], end, ms)
    ensures Cuts(cuts + [end], cuts[0], end) && WorkerWrites(b, 0, cuts + [end], parts + [ms])
  {
  }

  lemma PlannedWrite(b: BoundPlan, workers: int, writes: seq<seq<Move>>, w: nat)
    requires Shaped(b) && workers >= 1 && PlannedWrites(b, workers, writes) && w < workers
    ensures w < |writes|
    ensures Writes(b, 0, Min(w * PerWorker(b, workers), b.extents[0]),
                   Min(w * PerWorker(b, workers) + PerWorker(b, workers), b.extents[0]), writes[w])
  {
  }

  /** The dispatch loop: the ranges handed out, up to the first empty one. */
  method Dispatch(b: BoundPlan, workers: int, writes: seq<seq<Move>>) returns (parts: seq<seq<Move>>, ghost cuts: seq<int>)
    requires b.WellFormed() && 1 <= workers <= b.extents[0] && PlannedWrites(b, workers, writes)
    ensures |parts| <= workers && parts == writes[..|parts|]
    ensures Cuts(cuts, 0, b.extents[0]) && WorkerWrites(b, 0, cuts, parts)
    ensures forall w :: 0 <= w < |parts| ==> Fair(cuts[w + 1] - cuts[w], workers, b.extents[0])
  {
    var outer := b.extents[0];
    var per := (outer + workers - 1) / workers;
    CeilCovers(outer, workers);
    parts, cuts := [], [0];
    assert |writes| == workers && WorkerWrites(b, 0, cuts, parts);
    assert Cuts(cuts, 0, 0);
    hide Fair;
    hide Cuts;
    hide Writes;
    hide WorkerWrites;
    hide PlannedWrites;
    var w := 0;
    while w < workers
      invariant 0 <= w <= workers && |parts| == w && |cuts| == w + 1 && cuts[0] == 0
      invariant Cuts(cuts, cuts[0], cuts[w]) && WorkerWrites(b, 0, cuts, parts) && parts == writes[..w]
      invariant cuts[w] == Min(w * per, outer) && 0 <= w * per
      invariant forall v :: 0 <= v < w ==> Fair(cuts[v + 1] - cuts[v], workers, outer)
    {
      MulDistributes(w, 1, per);
      PlannedWrite(b, workers, writes, w);
      var begin := w * per;
      var end := Min(begin + per, outer);
      if begin >= end {
        return;
      }
      AddWorker(b, cuts, parts, end, writes[w]);
      FairShare(end - begin, per, workers, outer);
      parts, cuts := parts + [writes[w]], cuts + [end];
      w := w + 1;
    }
  }

  /** Whatever the threads' scheduling, exactly what executeH2D makes of the destination:
      on several threads when the test passes, inline when it does not. */
  method ExecuteH2DThreaded(b: BoundPlan, src: seq<int>, dst: array<int>, threads: nat, hardware: nat,
                            writes: seq<seq<Move>>)
    requires !b.typed && Executable(b, |src|, dst.Length) && (ValidRowsDisjoint(b) ==> RowsAgree(b, 0))
    requires PlannedWrites(b, WorkerCount(b, threads, hardware), writes)
    modifies dst
    ensures dst[..] == Executed(b, src, old(dst[..]))
  {
    var outer := b.extents[0];
    FillDst(b, dst);
    var count := threads;
    if count == 0 {
      count := hardware;
    }
    if count == 0 {
      count := 1;
    }
    var innerSpan := SumSpan(b);
    var rowsDisjoint := b.dstStrides[0] >= innerSpan + 1;
    var workers := Min(count, outer);
    if !rowsDisjoint || workers <= 1 {
      GatherChunk(b, src, dst, 0, 0, outer);
      return;
    }
    ghost var filled := dst[..];
    var parts, cuts := Dispatch(b, workers, writes);
    WorkersAgree(b, 0, 0, outer, cuts, parts);
    WorkersInTurn(b, 0, 0, outer, cuts, parts, src, filled);
    RunWorkers(parts, src, dst);
  }

  /** What the method asks of rows is met by every plan without pads, and by every plan
      with pads no axis of which runs backwards. */
  lemma UsualPlansAgree(b: BoundPlan, srcLen: int, dstLen: int)
    requires Executable(b, srcLen, dstLen) && ValidRowsDisjoint(b)
    requires b.padRegions == [] || Ascending(b.extents, b.dstStrides)
    ensures RowsAgree(b, 0)
  {
    if b.padRegions == [] {
      UnpaddedAscends(b, srcLen, dstLen);
    }
    AscendingAgrees(b, 0);
  }

  // ---- and nothing less will do ----------------------------------------------------------------

  /** One thread per row. */
  ghost function RowParts(b: BoundPlan): (parts: seq<seq<Move>>)
    requires b.WellFormed()
    ensures |parts| == b.extents[0] && forall r :: 0 <= r < |parts| ==> parts[r] == ChunkMoves(b, 0, r, r + 1)
  {
    seq(b.extents[0], r requires 0 <= r < b.extents[0] => ChunkMoves(b, 0, r, r + 1))
  }

  lemma RowPartsInTurn(b: BoundPlan, src: seq<int>, dst: seq<int>)
    requires Executable(b, |src|, |dst|)
    ensures Fits(Concat(RowParts(b)), |src|, |dst|)
    ensures Apply(Concat(RowParts(b)), src, Prefilled(b, dst)) == Executed(b, src, dst)
    ensures RowsAgree(b, 0) ==> Agree(RowParts(b))
  {
    var n := b.extents[0];
    var cuts := seq(n + 1, r => r);
    assert WorkerWrites(b, 0, cuts, RowParts(b));
    WorkersInTurn(b, 0, 0, n, cuts, RowParts(b), src, Prefilled(b, dst));
    if RowsAgree(b, 0) {
      WorkersAgree(b, 0, 0, n, cuts, RowParts(b));
    }
  }

  /** s ends as executeH2D does. */
  ghost predicate EndsExecuted(b: BoundPlan, src: seq<int>, dst: seq<int>, s: seq<Move>)
    requires Executable(b, |src|, |dst|)
  {
    Fits(s, |src|, |dst|) && Apply(s, src, Prefilled(b, dst)) == Executed(b, src, dst)
  }

  /** With a thread per row and a source of distinct elements, every interleaving ends as
      executeH2D does exactly if rows agree. */
  lemma RowsAgreeExactly(b: BoundPlan, src: seq<int>, dst: seq<int>)
    requires Executable(b, |src|, |dst|) && forall i, j :: 0 <= i < j < |src| ==> src[i] != src[j]
    ensures RowsAgree(b, 0) <==> forall s :: IsShuffle(s, RowParts(b)) ==> EndsExecuted(b, src, dst, s)
  {
    RowPartsInTurn(b, src, dst);
    if RowsAgree(b, 0) {
      forall s | IsShuffle(s, RowParts(b)) ensures EndsExecuted(b, src, dst, s) {
        ShuffleSame(s, RowParts(b), src, Prefilled(b, dst));
      }
    } else {
      var s := SomeInterleavingDiffers(b, src, dst);
    }
  }

  lemma SomeInterleavingDiffers(b: BoundPlan, src: seq<int>, dst: seq<int>) returns (s: seq<Move>)
    requires Executable(b, |src|, |dst|) && forall i, j :: 0 <= i < j < |src| ==> src[i] != src[j]
    requires !RowsAgree(b, 0)
    ensures IsShuffle(s, RowParts(b)) && !EndsExecuted(b, src, dst, s)
  {
    var q, r, o :| 0 <= q < r < b.extents[0] && LeftBy(b, 0, q, o).Some? && LeftBy(b, 0, r, o).Some?
                   && LeftBy(b, 0, q, o) != LeftBy(b, 0, r, o);
    var last := if LeftBy(b, 0, q, o) != LastWrite(AllMoves(b), o) then q else r;
    s := RowLast(b, last, o);
    if EndsExecuted(b, src, dst, s) {
      SomeRowWrites(b, last, o);
      hide *;
      DifferentElements(AllMoves(b), s, src, Prefilled(b, dst), o);
      assert false by { EndsSame(b, src, dst, s); }
    }
  }

  lemma EndsSame(b: BoundPlan, src: seq<int>, dst: seq<int>, s: seq<Move>)
    requires Executable(b, |src|, |dst|) && EndsExecuted(b, src, dst, s)
    ensures Fits(s, |src|, |dst|) && Apply(s, src, Prefilled(b, dst)) == Apply(AllMoves(b), src, Prefilled(b, dst))
  {
  }

  /** Row r may be the last to run. */
  lemma RowLast(b: BoundPlan, r: int, o: int) returns (s: seq<Move>)
    requires b.WellFormed() && 0 <= r < b.extents[0] && LeftBy(b, 0, r, o).Some?
    ensures IsShuffle(s, RowParts(b)) && LastWrite(s, o) == LeftBy(b, 0, r, o)
  {
    var parts := RowParts(b);
    var others: seq<seq<Move>> := parts[r := []];
    ConcatIsShuffle(others);
    ShuffleThen(Concat(others), parts, r);
    s := Concat(others) + parts[r];
    LastWriteConcat(Concat(others), parts[r], o);
  }

  lemma DifferentElements(ms: seq<Move>, s: seq<Move>, src: seq<int>, dst: seq<int>, o: int)
    requires Fits(ms, |src|, |dst|) && Fits(s, |src|, |dst|)
    requires forall i, j :: 0 <= i < j < |src| ==> src[i] != src[j]
    requires LastWrite(s, o).Some? && LastWrite(ms, o).Some? && LastWrite(s, o) != LastWrite(ms, o)
    ensures Apply(s, src, dst) != Apply(ms, src, dst)
  {
    LastWriteIs(s, o);
    ApplyIsLastWrite(s, src, dst, o);
    ApplyIsLastWrite(ms, src, dst, o);
  }

  lemma SomeRowWrites(b: BoundPlan, r: int, o: int)
    requires b.WellFormed() && 0 <= r < b.extents[0] && LeftBy(b, 0, r, o).Some?
    ensures LastWrite(AllMoves(b), o).Some?
  {
    var to, n := Dot(b.Lo(), b.dstStrides), b.extents[0];
    RowMovesConcat(b.extents, b.srcStrides, b.dstStrides, 0, r, n, 0, to);
    RowMovesConcat(b.extents, b.srcStrides, b.dstStrides, r, r + 1, n, 0, to);
    hide LastWrite;
    LastWriteConcat(ChunkMoves(b, 0, r, r + 1), ChunkMoves(b, 0, r + 1, n), o);
    LastWriteConcat(ChunkMoves(b, 0, 0, r), ChunkMoves(b, 0, r, n), o);
  }

  /** Two rows of two cells written backwards, with a leading pad row. */
  function Backwards(): BoundPlan {
    BoundPlan([2, 2], [2, 1], [1, -1], [PadRegion(0, 1, 0, 0)], 4, 24, false)
  }

  lemma BackwardsMoves()
    ensures Backwards().WellFormed() && Product(Backwards().Padded()) == 6
    ensures ChunkMoves(Backwards(), 0, 0, 1) == [Move(0, 1), Move(1, 0)]
    ensures ChunkMoves(Backwards(), 0, 1, 2) == [Move(2, 2), Move(3, 1)]
  {
    var b := Backwards();
    assert b.Padded() == [3, 2] && b.Lo() == [1, 0] && [3, 2][1..] == [2] && [2][1..] == [];
    assert Dot(b.Lo(), b.dstStrides) == 1 by {
      assert [1, 0][1..] == [0] && [1, -1][1..] == [-1] && [0][1..] == [] && [-1][1..] == [];
    }
    TwoByTwo(b, 0);
    TwoByTwo(b, 1);
  }

  lemma BackwardsRows()
    ensures var b := Backwards();
            && Fits(AllMoves(b), 4, 6) && ValidRowsDisjoint(b)
            && LeftBy(b, 0, 0, 1) == Some(0) && LeftBy(b, 0, 1, 1) == Some(3) && LastWrite(AllMoves(b), 1) == Some(3)
  {
    var b := Backwards();
    BackwardsMoves();
    TwoRows(b);
    assert AllMoves(b) == [Move(0, 1), Move(1, 0), Move(2, 2), Move(3, 1)];
  }

  /** With a negative stride the test can pass although two rows write the same element:
      two schedules of their threads end differently. */
  lemma NegativeStridesCollide(src: seq<int>, dst: seq<int>) returns (s: seq<Move>, t: seq<Move>)
    requires |src| == 4 && |dst| == 6 && src[0] != src[3]
    ensures var b := Backwards();
            && Executable(b, |src|, |dst|) && ValidRowsDisjoint(b) && !RowsAgree(b, 0)
            && IsShuffle(s, RowParts(b)) && EndsExecuted(b, src, dst, s)
            && IsShuffle(t, RowParts(b)) && Fits(t, |src|, |dst|)
            && Apply(t, src, Prefilled(b, dst))[1] == src[0] != src[3] == Executed(b, src, dst)[1]
  {
    var b, parts := Backwards(), RowParts(Backwards());
    BackwardsMoves();
    BackwardsRows();
    s := Concat(parts);
    ConcatIsShuffle(parts);
    RowPartsInTurn(b, src, dst);
    t := RowLast(b, 0, 1);
    forall r | 0 <= r < 2 ensures Fits(parts[r], |src|, |dst|) {
      PartFits(parts, r, |src|, |dst|);
    }
    ShuffleFits(t, parts, |src|, |dst|);
    ApplyIsLastWrite(t, src, Prefilled(b, dst), 1);
    ApplyIsLastWrite(AllMoves(b), src, Prefilled(b, dst), 1);
  }
}
