/** The staged D2H pipeline as a state machine.

    Device chunks are copied into a ring of buffers asynchronously, element by
    element and at any time; the host scatters the oldest landed chunk into the
    caller's source.  At most as many chunks are outstanding as there are
    buffers, which is all that keeps a copy from overwriting an unscattered one.
 */
module InversePipeline {
  import opened Common
  import opened MixedRadix
  import opened Relocation
  import opened Plan
  import opened Executor
  import opened Gather
  import opened Execute
  import opened Inverse
  import opened Chunking
  import opened Strides
  import opened Staging

  // ---- one window ------------------------------------------------------------------

  /** Moves that write the same values to the same places have the same effect. */
  lemma {:induction false} ApplySame(a: seq<Move>, b: seq<Move>, srcA: seq<int>, srcB: seq<int>, dst: seq<int>)
    requires Fits(a, |srcA|, |dst|) && Fits(b, |srcB|, |dst|) && |a| == |b|
    requires forall k :: 0 <= k < |a| ==> a[k].to == b[k].to && srcA[a[k].from] == srcB[b[k].from]
    ensures Apply(a, srcA, dst) == Apply(b, srcB, dst)
  {
    if a != [] {
      assert forall k :: 0 <= k < |a[1..]| ==> a[1..][k] == a[k + 1] && b[1..][k] == b[k + 1];
      ApplySame(a[1..], b[1..], srcA, srcB, dst[a[0].to := srcA[a[0].from]]);
    }
  }

  lemma BackFits(ms: seq<Move>, srcLen: int, dstLen: int)
    requires Fits(ms, srcLen, dstLen)
    ensures Fits(Reversed(ms), dstLen, srcLen)
  {
  }

  /** Rows [begin, end) scattered from the whole device image. */
  ghost function RowsBack(b: BoundPlan, begin: int, end: int): seq<Move>
    requires Shaped(b)
  {
    Reversed(ChunkMoves(b, 0, begin, end))
  }

  lemma RowsBackFit(b: BoundPlan, begin: int, end: int, deviceLen: int, outLen: int)
    requires b.WellFormed() && Fits(AllMoves(b), outLen, deviceLen) && 0 <= begin <= end <= b.extents[0]
    ensures Fits(RowsBack(b, begin, end), deviceLen, outLen)
  {
    AllSplit(b, begin, end);
    var before, own := ChunkMoves(b, 0, 0, begin), ChunkMoves(b, 0, begin, end);
    FitsPart(before + own, ChunkMoves(b, 0, end, b.extents[0]), outLen, deviceLen);
    FitsPart(before, own, outLen, deviceLen);
    BackFits(own, outLen, deviceLen);
  }

  /** A staged window's moves and its rows' own moves read and write the same elements. */
  lemma StagedSame(j: Job, c: nat, data: seq<int>, k: int)
    requires j.Valid() && c < |j.windows| && Holds(j, c, data)
    requires 0 <= k < |StageMoves(j.b, j.windows[c])|
    ensures var near, far := StageMoves(j.b, j.windows[c]), ChunkMoves(j.b, 0, j.windows[c].vb, j.windows[c].ve);
            && |near| == |far| && near[k].from == far[k].from
            && 0 <= near[k].to < |data| && 0 <= far[k].to < |j.device|
            && data[near[k].to] == j.device[far[k].to]
  {
    var w := j.windows[c];
    var base := -w.pb * j.b.dstStrides[0];
    WindowInRange(j.b, |j.out|, |j.device|, j.windows, j.serialized, c);
    StageFits(j.b, |j.out|, |j.device|, j.windows, j.serialized, c);
    Rebased(j.b, base, w.vb, w.ve);
    var near, far := ChunkMoves(j.b, base, w.vb, w.ve), ChunkMoves(j.b, 0, w.vb, w.ve);
    assert near == StageMoves(j.b, w);
    assert near[k] == Move(far[k].from, far[k].to + base) && 0 <= near[k].to < j.Count(c);
    hide ChunkMoves;
    hide Stageable;
    hide CopyCount;
    HeldAt(j, c, data, near[k].to);
  }

  lemma StagedCount(j: Job, c: nat)
    requires j.Valid() && c < |j.windows|
    ensures |StageMoves(j.b, j.windows[c])| == |ChunkMoves(j.b, 0, j.windows[c].vb, j.windows[c].ve)|
    ensures 0 <= j.windows[c].vb <= j.windows[c].ve <= j.b.extents[0]
    ensures Fits(StageMoves(j.b, j.windows[c]), |j.out|, j.Count(c)) && Fits(AllMoves(j.b), |j.out|, |j.device|)
  {
    WindowInRange(j.b, |j.out|, |j.device|, j.windows, j.serialized, c);
    StageFits(j.b, |j.out|, |j.device|, j.windows, j.serialized, c);
    AllFit(j.b, |j.out|, |j.device|, j.windows, j.serialized);
    Rebased(j.b, -j.windows[c].pb * j.b.dstStrides[0], j.windows[c].vb, j.windows[c].ve);
  }

  /** Scattering a staged window is scattering its rows from the device image. */
  lemma WindowScatters(j: Job, c: nat, data: seq<int>, out: seq<int>)
    requires j.Valid() && c < |j.windows| && Holds(j, c, data) && |out| == |j.out|
    ensures Fits(Reversed(StageMoves(j.b, j.windows[c])), |data|, |out|)
    ensures Fits(RowsBack(j.b, j.windows[c].vb, j.windows[c].ve), |j.device|, |out|)
    ensures Apply(Reversed(StageMoves(j.b, j.windows[c])), data, out) ==
            Apply(RowsBack(j.b, j.windows[c].vb, j.windows[c].ve), j.device, out)
  {
    var w := j.windows[c];
    var near, far := StageMoves(j.b, w), ChunkMoves(j.b, 0, w.vb, w.ve);
    StagedCount(j, c);
    RowsBackFit(j.b, w.vb, w.ve, |j.device|, |out|);
    BackFits(near, |out|, j.Count(c));
    assert RowsBack(j.b, w.vb, w.ve) == Reversed(far);
    assert j.Count(c) <= |data|;
    FitsShorter(Reversed(near), j.Count(c), |data|, |out|);
    hide *;
    forall k | 0 <= k < |near|
      ensures near[k].from == far[k].from && 0 <= near[k].to < |data| && 0 <= far[k].to < |j.device|
      ensures data[near[k].to] == j.device[far[k].to]
    {
      StagedSame(j, c, data, k);
    }
    ApplySame(Reversed(near), Reversed(far), data, j.device, out);
  }

  lemma FitsShorter(ms: seq<Move>, small: int, large: int, dstLen: int)
    requires Fits(ms, small, dstLen) && small <= large
    ensures Fits(ms, large, dstLen)
  {
  }

  lemma HeldAt(j: Job, c: nat, data: seq<int>, o: int)
    requires j.Valid() && c < |j.windows| && Holds(j, c, data) && 0 <= o < j.Count(c)
    ensures 0 <= o + j.windows[c].pb * j.b.dstStrides[0] < |j.device| && o < |data|
    ensures data[o] == j.device[o + j.windows[c].pb * j.b.dstStrides[0]]
  {
    assert j.At(c, o) == o + j.windows[c].pb * j.b.dstStrides[0];
  }

  lemma RowsBackConcat(b: BoundPlan, mid: int, end: int)
    requires Shaped(b) && 0 <= mid <= end
    ensures RowsBack(b, 0, end) == RowsBack(b, 0, mid) + RowsBack(b, mid, end)
  {
    RowMovesConcat(b.extents, b.srcStrides, b.dstStrides, 0, mid, end, 0, Dot(b.Lo(), b.dstStrides));
  }

  lemma RowsBackExtend(b: BoundPlan, device: seq<int>, mid: int, end: int, out: seq<int>)
    requires b.WellFormed() && Fits(AllMoves(b), |out|, |device|) && 0 <= mid <= end <= b.extents[0]
    ensures Fits(RowsBack(b, 0, mid), |device|, |out|) && Fits(RowsBack(b, mid, end), |device|, |out|)
    ensures Fits(RowsBack(b, 0, end), |device|, |out|)
    ensures Apply(RowsBack(b, 0, end), device, out)
         == Apply(RowsBack(b, mid, end), device, Apply(RowsBack(b, 0, mid), device, out))
  {
    RowsBackFit(b, 0, mid, |device|, |out|);
    RowsBackFit(b, mid, end, |device|, |out|);
    RowsBackConcat(b, mid, end);
    hide Apply;
    hide RowsBack;
    ApplyConcat(RowsBack(b, 0, mid), RowsBack(b, mid, end), device, out);
  }

  // ---- the machine --------------------------------------------------------------------

  /** What a buffer holds: nothing yet, a copy under way, or a landed chunk. */
  datatype Held = Nothing | Landing(chunk: nat, landed: set<int>) | Landed(chunk: nat)

  datatype Slot = Slot(data: seq<int>, held: Held)

  datatype State = State(next: nat, scattered: nat, slots: seq<Slot>, out: seq<int>)

  /** The windows follow one another from the first physical row to the last. */
  ghost predicate Consecutive(b: BoundPlan, windows: seq<Rows>)
    requires b.extents != []
  {
    && windows != [] && windows[0].pb == 0 && windows[|windows| - 1].pe == b.Padded()[0]
    && (forall c :: 0 <= c < |windows| ==> RowsOf(b, windows[c]))
    && (forall c :: 0 <= c < |windows| - 1 ==> windows[c].pe == windows[c + 1].pb)
  }

  /** A transfer back: the plan, the device image, the caller's source as it was. */
  datatype Job = Job(b: BoundPlan, device: seq<int>, windows: seq<Rows>, serialized: bool, first: nat, out: seq<int>)
  {
    ghost predicate Valid() {
      Stageable(b, |out|, |device|, windows, serialized) && Consecutive(b, windows)
    }

    function Count(c: nat): int
      requires c < |windows| && b.dstStrides != []
    {
      CopyCount(b, |device|, windows[c], serialized)
    }

    function At(c: nat, o: int): int
      requires c < |windows| && b.dstStrides != []
    {
      DeviceAt(b, windows[c], o)
    }
  }

  /** data holds window c of the device. */
  ghost predicate Holds(j: Job, c: nat, data: seq<int>)
    requires j.Valid() && c < |j.windows|
  {
    j.Count(c) <= |data| && forall o :: 0 <= o < j.Count(c) ==>
      0 <= j.At(c, o) < |j.device| && data[o] == j.device[j.At(c, o)]
  }

  ghost predicate Init(j: Job, s: State)
    requires j.Valid()
  {
    && s.next == 0 && s.scattered == 0 && s.slots != [] && s.out == j.out
    && forall i :: 0 <= i < |s.slots| ==>
         && s.slots[i].held == Nothing
         && forall c :: 0 <= c < |j.windows| ==> j.Count(c) <= |s.slots[i].data|
  }

  /** acquire() has waited for the buffer's previous copy; a new copy into it begins. */
  ghost predicate SubmitStep(j: Job, s: State, t: State)
    requires j.Valid()
  {
    && s.next < |j.windows| && s.slots != [] && s.next - s.scattered < |s.slots|
    && var i := RingSlot(j.first, |s.slots|, s.next);
       && !s.slots[i].held.Landing?
       && t == s.(next := s.next + 1, slots := s.slots[i := s.slots[i].(held := Landing(s.next, {}))])
  }

  /** Element o of the copy into slot i can still arrive. */
  ghost predicate LandReady(j: Job, s: State, i: int, o: int)
    requires j.Valid()
  {
    && 0 <= i < |s.slots| && s.slots[i].held.Landing?
    && var c := s.slots[i].held.chunk;
       c < |j.windows| && 0 <= o < j.Count(c) <= |s.slots[i].data| && 0 <= j.At(c, o) < |j.device|
  }

  /** One element of a copy has reached its buffer. */
  ghost function AfterLand(j: Job, s: State, i: int, o: int): State
    requires j.Valid() && LandReady(j, s, i, o)
  {
    var Slot(data, Landing(c, landed)) := s.slots[i];
    s.(slots := s.slots[i := Slot(data[o := j.device[j.At(c, o)]], Landing(c, landed + {o}))])
  }

  ghost predicate LandStep(j: Job, s: State, t: State, i: int, o: int)
    requires j.Valid()
  {
    LandReady(j, s, i, o) && t == AfterLand(j, s, i, o)
  }

  ghost predicate CompleteStep(j: Job, s: State, t: State, i: int)
    requires j.Valid()
  {
    && 0 <= i < |s.slots| && s.slots[i].held.Landing?
    && var c := s.slots[i].held.chunk;
       && c < |j.windows| && (forall o :: 0 <= o < j.Count(c) ==> o in s.slots[i].held.landed)
       && t == s.(slots := s.slots[i := s.slots[i].(held := Landed(c))])
  }

  /** scatterOne: the oldest chunk, once its copy has landed. */
  ghost predicate ScatterStep(j: Job, s: State, t: State)
    requires j.Valid()
  {
    && s.scattered < s.next && s.scattered < |j.windows| && s.slots != []
    && var i, w := RingSlot(j.first, |s.slots|, s.scattered), j.windows[s.scattered];
       && s.slots[i].held == Landed(s.scattered)
       && (if w.vb < w.ve then
             && Fits(Reversed(StageMoves(j.b, w)), |s.slots[i].data|, |s.out|)
             && t == s.(scattered := s.scattered + 1,
                        out := Apply(Reversed(StageMoves(j.b, w)), s.slots[i].data, s.out))
           else t == s.(scattered := s.scattered + 1))
  }

  ghost predicate Next(j: Job, s: State, t: State)
    requires j.Valid()
  {
    || SubmitStep(j, s, t) || ScatterStep(j, s, t)
    || (exists i, o :: LandStep(j, s, t, i, o))
    || (exists i :: CompleteStep(j, s, t, i))
  }

  // ---- the invariant --------------------------------------------------------------------

  /** First valid row not yet scattered. */
  function RowsDone(j: Job, scattered: nat): int
    requires scattered <= |j.windows|
  {
    if scattered == 0 then 0 else j.windows[scattered - 1].ve
  }

  ghost predicate SlotRight(j: Job, s: State, i: int)
    requires j.Valid() && 0 <= i < |s.slots|
  {
    && (forall c :: 0 <= c < |j.windows| ==> j.Count(c) <= |s.slots[i].data|)
    && (s.slots[i].held.Landing? ==>
          && s.slots[i].held.chunk < |j.windows|
          && forall o :: o in s.slots[i].held.landed && 0 <= o < j.Count(s.slots[i].held.chunk) ==>
               && 0 <= j.At(s.slots[i].held.chunk, o) < |j.device|
               && s.slots[i].data[o] == j.device[j.At(s.slots[i].held.chunk, o)])
    && (s.slots[i].held.Landed? ==>
          && s.slots[i].held.chunk < |j.windows|
          && Holds(j, s.slots[i].held.chunk, s.slots[i].data))
  }

  /** Chunk c is in its buffer, on its way or landed. */
  ghost predicate Outstanding(j: Job, s: State, c: nat)
    requires s.slots != []
  {
    var held := s.slots[RingSlot(j.first, |s.slots|, c)].held;
    held != Nothing && held.chunk == c
  }

  ghost predicate Inv(j: Job, s: State)
    requires j.Valid()
  {
    && s.slots != [] && s.scattered <= s.next <= |j.windows| && s.next - s.scattered <= |s.slots|
    && (forall i :: 0 <= i < |s.slots| ==> SlotRight(j, s, i))
    && (forall c :: s.scattered <= c < s.next ==> Outstanding(j, s, c))
    && 0 <= RowsDone(j, s.scattered) <= j.b.extents[0]
    && Fits(RowsBack(j.b, 0, RowsDone(j, s.scattered)), |j.device|, |j.out|)
    && s.out == Apply(RowsBack(j.b, 0, RowsDone(j, s.scattered)), j.device, j.out)
  }

  /** Consecutive windows cut the valid rows consecutively too. */
  lemma ValidRowsFollow(j: Job, c: nat)
    requires j.Valid() && c < |j.windows|
    ensures RowsDone(j, c) == j.windows[c].vb && 0 <= j.windows[c].vb <= j.windows[c].ve <= j.b.extents[0]
    ensures c + 1 == |j.windows| ==> j.windows[c].ve == j.b.extents[0]
  {
    BoxInPadded(j.b);
    assert RowsOf(j.b, j.windows[c]);
    if c > 0 {
      assert RowsOf(j.b, j.windows[c - 1]) && j.windows[c - 1].pe == j.windows[(c - 1) + 1].pb;
    }
  }

  lemma InitInv(j: Job, s: State)
    requires j.Valid() && Init(j, s)
    ensures Inv(j, s)
  {
    AllFit(j.b, |j.out|, |j.device|, j.windows, j.serialized);
    RowsBackFit(j.b, 0, 0, |j.device|, |j.out|);
    assert RowsBack(j.b, 0, 0) == [];
  }

  lemma SubmitKeepsInv(j: Job, s: State, t: State)
    requires j.Valid() && Inv(j, s) && SubmitStep(j, s, t)
    ensures Inv(j, t)
  {
    forall i | 0 <= i < |t.slots| ensures SlotRight(j, t, i) {
      assert SlotRight(j, s, i);
    }
    forall c | t.scattered <= c < t.next ensures Outstanding(j, t, c) {
      if c < s.next {
        assert Outstanding(j, s, c);
        ApartInRing(j.first, |s.slots|, c, s.next);
      }
    }
  }

  lemma LandKeepsInv(j: Job, s: State, i: int, o: int)
    requires j.Valid() && Inv(j, s) && LandReady(j, s, i, o)
    ensures Inv(j, AfterLand(j, s, i, o))
  {
    hide Apply;
    var t := AfterLand(j, s, i, o);
    forall k | 0 <= k < |t.slots| ensures SlotRight(j, t, k) {
      assert SlotRight(j, s, k);
    }
    forall c | t.scattered <= c < t.next ensures Outstanding(j, t, c) {
      assert Outstanding(j, s, c);
    }
  }

  lemma CompleteKeepsInv(j: Job, s: State, t: State, i: int)
    requires j.Valid() && Inv(j, s) && CompleteStep(j, s, t, i)
    ensures Inv(j, t)
  {
    hide Apply;
    hide Elements;
    assert SlotRight(j, s, i);
    LandedHolds(j, s, i);
    hide Holds;
    forall k | 0 <= k < |t.slots| ensures SlotRight(j, t, k) {
      assert SlotRight(j, s, k);
    }
    forall c | t.scattered <= c < t.next ensures Outstanding(j, t, c) {
      assert Outstanding(j, s, c);
    }
  }

  lemma LandedHolds(j: Job, s: State, i: int)
    requires j.Valid() && 0 <= i < |s.slots| && SlotRight(j, s, i) && s.slots[i].held.Landing?
    requires forall o :: 0 <= o < j.Count(s.slots[i].held.chunk) ==> o in s.slots[i].held.landed
    ensures Holds(j, s.slots[i].held.chunk, s.slots[i].data)
  {
    var c, data := s.slots[i].held.chunk, s.slots[i].data;
    assert j.b.dstStrides != [];
    hide Stageable;
    hide DeviceAt;
    hide CopyCount;
    assert j.Count(c) <= |data|;
    forall o | 0 <= o < j.Count(c)
      ensures 0 <= j.At(c, o) < |j.device| && data[o] == j.device[j.At(c, o)]
    {
      assert o in s.slots[i].held.landed;
    }
  }

  lemma ScatterKeepsInv(j: Job, s: State, t: State)
    requires j.Valid() && Inv(j, s) && ScatterStep(j, s, t)
    ensures Inv(j, t)
  {
    hide Apply;
    var c := s.scattered;
    var i, w := RingSlot(j.first, |s.slots|, c), j.windows[c];
    assert SlotRight(j, s, i);
    ValidRowsFollow(j, c);
    AllFit(j.b, |j.out|, |j.device|, j.windows, j.serialized);
    if w.vb < w.ve {
      WindowScatters(j, c, s.slots[i].data, s.out);
    }
    RowsBackExtend(j.b, j.device, w.vb, w.ve, j.out);
    assert w.vb == w.ve ==> RowsBack(j.b, 0, w.ve) == RowsBack(j.b, 0, w.vb);
    forall k | 0 <= k < |t.slots| ensures SlotRight(j, t, k) {
      assert SlotRight(j, s, k);
    }
    forall d | t.scattered <= d < t.next ensures Outstanding(j, t, d) {
      assert Outstanding(j, s, d);
    }
  }

  // ---- every run ----------------------------------------------------------------------------

  ghost predicate IsRun(j: Job, run: seq<State>)
    requires j.Valid()
  {
    && run != [] && Init(j, run[0])
    && forall k :: 0 < k < |run| ==> Next(j, run[k - 1], run[k])
  }

  lemma {:induction false} RunKeepsInv(j: Job, run: seq<State>)
    requires j.Valid() && IsRun(j, run)
    ensures Inv(j, run[|run| - 1])
  {
    if |run| == 1 {
      InitInv(j, run[0]);
    } else {
      var prefix := run[..|run| - 1];
      var s, t := run[|run| - 2], run[|run| - 1];
      RunKeepsInv(j, prefix);
      assert Next(j, s, t);
      StepKeepsInv(j, s, t);
    }
  }

  lemma StepKeepsInv(j: Job, s: State, t: State)
    requires j.Valid() && Inv(j, s) && Next(j, s, t)
    ensures Inv(j, t)
  {
    hide Inv;
    if SubmitStep(j, s, t) {
      SubmitKeepsInv(j, s, t);
    } else if ScatterStep(j, s, t) {
      ScatterKeepsInv(j, s, t);
    } else if i, o :| LandStep(j, s, t, i, o) {
      LandKeepsInv(j, s, i, o);
    } else {
      var i :| CompleteStep(j, s, t, i);
      CompleteKeepsInv(j, s, t, i);
    }
  }

  /** However copies and scatters interleave, when every chunk is scattered the
      caller's source is what the synchronous executeD2H would have written. */
  lemma DrainedIsScatter(j: Job, run: seq<State>)
    requires j.Valid() && IsRun(j, run) && run[|run| - 1].scattered == |j.windows|
    ensures Fits(ScatterMoves(j.b), |j.device|, |j.out|)
    ensures run[|run| - 1].out == Apply(ScatterMoves(j.b), j.device, j.out)
  {
    var b := j.b;
    RunKeepsInv(j, run);
    ValidRowsFollow(j, |j.windows| - 1);
    SwappedRows(b.extents, b.srcStrides, b.dstStrides, 0, b.extents[0], 0, Dot(b.Lo(), b.dstStrides));
  }

  /** Both pipelines together: from a device to which every cell was delivered, what was
      sent comes back, whatever the schedules, if the plan's last readers win. */
  lemma SentComesBack(j: Job, run: seq<State>, src: seq<int>)
    requires j.Valid() && IsRun(j, run) && run[|run| - 1].scattered == |j.windows|
    requires |src| == |j.out| && Delivers(AllMoves(j.b), src, j.device) && LastReadersWin(j.b)
    ensures |run[|run| - 1].out| == |src|
    ensures forall o :: 0 <= o < |src| ==>
              run[|run| - 1].out[o] == if j.b.Reads(o) then src[o] else j.out[o]
  {
    DrainedIsScatter(j, run);
    AllFit(j.b, |j.out|, |j.device|, j.windows, j.serialized);
    InvertibleExactly(j.b);
    ComesBack(j.b, src, j.device, j.out);
  }

  // ---- every run ends ----------------------------------------------------------------------

  /** A step that gets something done: no element lands twice. */
  ghost predicate Progress(j: Job, s: State, t: State)
    requires j.Valid()
  {
    || SubmitStep(j, s, t) || ScatterStep(j, s, t)
    || (exists i, o :: LandStep(j, s, t, i, o) && o !in s.slots[i].held.landed)
    || (exists i :: CompleteStep(j, s, t, i))
  }

  /** Steps that a slot's copy still needs. */
  function SlotWork(j: Job, slot: Slot): (n: int)
    requires j.b.dstStrides != []
    ensures n >= 0
  {
    match slot.held
    case Landing(c, landed) => if c < |j.windows| then 1 + Missing(j.Count(c), landed) else 0
    case _ => 0
  }

  function CopyWork(j: Job, slots: seq<Slot>): (work: seq<int>)
    requires j.b.dstStrides != []
    ensures |work| == |slots| && forall i :: 0 <= i < |slots| ==> work[i] == SlotWork(j, slots[i])
  {
    seq(|slots|, i requires 0 <= i < |slots| => SlotWork(j, slots[i]))
  }

  /** What is left to do: a chunk to submit counts for more than any copy of it. */
  function Work(j: Job, s: State): int
    requires j.b.dstStrides != []
  {
    (|j.windows| - s.next) * (|j.device| + 2) + (|j.windows| - s.scattered) + SumOf(CopyWork(j, s.slots))
  }

  lemma WorkIsNatural(j: Job, s: State)
    requires j.b.dstStrides != [] && s.scattered <= s.next <= |j.windows|
    ensures Work(j, s) >= 0
  {
    MulAtLeast(|j.windows| - s.next, 0, |j.device| + 2);
  }

  lemma SlotChanges(j: Job, s: State, t: State, i: int)
    requires j.b.dstStrides != [] && 0 <= i < |s.slots| && |t.slots| == |s.slots|
    requires t.slots == s.slots[i := t.slots[i]]
    ensures Work(j, t) - Work(j, s) ==
            (s.next - t.next) * (|j.device| + 2) + (s.scattered - t.scattered)
            + SlotWork(j, t.slots[i]) - SlotWork(j, s.slots[i])
  {
    assert CopyWork(j, t.slots) == CopyWork(j, s.slots)[i := SlotWork(j, t.slots[i])];
    SumOfUpdate(CopyWork(j, s.slots), i, SlotWork(j, t.slots[i]));
    MulDistributes(|j.windows| - s.next, s.next - t.next, |j.device| + 2);
  }

  lemma SubmitShrinks(j: Job, s: State, t: State)
    requires j.Valid() && SubmitStep(j, s, t)
    ensures Work(j, t) < Work(j, s)
  {
    var i, c := RingSlot(j.first, |s.slots|, s.next), s.next;
    WindowInRange(j.b, |j.out|, |j.device|, j.windows, j.serialized, c);
    assert t.slots[i].held == Landing(c, {}) && !s.slots[i].held.Landing?;
    assert t.next == s.next + 1 && t.slots == s.slots[i := t.slots[i]] && t.scattered == s.scattered;
    assert 0 <= j.Count(c) <= |j.device|;
    assert j.b.dstStrides != [];
    hide *;
    SlotChanges(j, s, t, i);
    LandingWork(j, t.slots[i], s.slots[i], c);
  }

  lemma LandingWork(j: Job, slot: Slot, was: Slot, c: nat)
    requires j.b.dstStrides != [] && slot.held == Landing(c, {}) && c < |j.windows| && 0 <= j.Count(c)
    requires !was.held.Landing?
    ensures SlotWork(j, slot) <= 1 + j.Count(c) && SlotWork(j, was) == 0
  {
  }

  lemma LandShrinks(j: Job, s: State, i: int, o: int)
    requires j.Valid() && LandReady(j, s, i, o) && o !in s.slots[i].held.landed
    ensures Work(j, AfterLand(j, s, i, o)) < Work(j, s)
  {
    assert j.b.dstStrides != [];
    OneLands(j.Count(s.slots[i].held.chunk), s.slots[i].held.landed, o);
    SlotChanges(j, s, AfterLand(j, s, i, o), i);
  }

  lemma CompleteShrinks(j: Job, s: State, t: State, i: int)
    requires j.Valid() && CompleteStep(j, s, t, i)
    ensures Work(j, t) < Work(j, s)
  {
    assert j.b.dstStrides != [];
    var slot := t.slots[i];
    assert SlotWork(j, slot) == 0 < SlotWork(j, s.slots[i]);
    assert t.next == s.next && t.slots == s.slots[i := slot] && t.scattered == s.scattered;
    hide *;
    SlotChanges(j, s, t, i);
  }

  lemma ScatterShrinks(j: Job, s: State, t: State)
    requires j.Valid() && ScatterStep(j, s, t)
    ensures Work(j, t) < Work(j, s)
  {
    assert t.slots == s.slots && t.next == s.next && t.scattered == s.scattered + 1;
  }

  /** Every step that gets something done leaves less to do. */
  lemma ProgressShrinks(j: Job, s: State, t: State)
    requires j.Valid() && Progress(j, s, t)
    ensures Work(j, t) < Work(j, s)
  {
    hide Work;
    if SubmitStep(j, s, t) {
      SubmitShrinks(j, s, t);
    } else if ScatterStep(j, s, t) {
      ScatterShrinks(j, s, t);
    } else if i, o :| LandStep(j, s, t, i, o) && o !in s.slots[i].held.landed {
      LandShrinks(j, s, i, o);
    } else {
      var i :| CompleteStep(j, s, t, i);
      CompleteShrinks(j, s, t, i);
    }
  }

  /** Until everything is scattered something can be done. */
  lemma NoDeadlock(j: Job, s: State) returns (t: State)
    requires j.Valid() && Inv(j, s) && s.scattered < |j.windows|
    ensures Progress(j, s, t) && Next(j, s, t)
  {
    if i :| 0 <= i < |s.slots| && s.slots[i].held.Landing? {
      t := CopyProgress(j, s, i);
    } else if s.scattered < s.next {
      var c := s.scattered;
      var i, w := RingSlot(j.first, |s.slots|, c), j.windows[c];
      assert Outstanding(j, s, c);
      assert SlotRight(j, s, i);
      t := s.(scattered := c + 1);
      if w.vb < w.ve {
        ValidRowsFollow(j, c);
        WindowScatters(j, c, s.slots[i].data, s.out);
        t := t.(out := Apply(Reversed(StageMoves(j.b, w)), s.slots[i].data, s.out));
      }
      assert ScatterStep(j, s, t);
    } else {
      var i := RingSlot(j.first, |s.slots|, s.next);
      t := s.(next := s.next + 1, slots := s.slots[i := s.slots[i].(held := Landing(s.next, {}))]);
      assert SubmitStep(j, s, t);
    }
  }

  lemma CopyProgress(j: Job, s: State, i: int) returns (t: State)
    requires j.Valid() && Inv(j, s) && 0 <= i < |s.slots| && s.slots[i].held.Landing?
    ensures Progress(j, s, t) && Next(j, s, t)
  {
    assert SlotRight(j, s, i);
    var c := s.slots[i].held.chunk;
    if o :| 0 <= o < j.Count(c) && o !in s.slots[i].held.landed {
      WindowInRange(j.b, |j.out|, |j.device|, j.windows, j.serialized, c);
      t := AfterLand(j, s, i, o);
      assert LandStep(j, s, t, i, o);
    } else {
      t := s.(slots := s.slots[i := s.slots[i].(held := Landed(c))]);
      assert CompleteStep(j, s, t, i);
    }
  }

  ghost predicate Stuck(j: Job, s: State)
    requires j.Valid()
  {
    forall t :: !Progress(j, s, t)
  }

  /** A run in which every step gets something done has at most Work(start) steps; if it
      cannot go on, every chunk has been scattered. */
  lemma {:induction false} RunsEnd(j: Job, run: seq<State>)
    requires j.Valid() && IsRun(j, run)
    requires forall k :: 0 < k < |run| ==> Progress(j, run[k - 1], run[k])
    ensures |run| - 1 + Work(j, run[|run| - 1]) <= Work(j, run[0]) && Work(j, run[|run| - 1]) >= 0
    ensures Stuck(j, run[|run| - 1]) ==> run[|run| - 1].scattered == |j.windows|
  {
    var last := run[|run| - 1];
    assert j.b.dstStrides != [];
    RunKeepsInv(j, run);
    WorkIsNatural(j, last);
    if last.scattered < |j.windows| {
      var t := NoDeadlock(j, last);
    }
    if |run| > 1 {
      var prefix := run[..|run| - 1];
      RunsEnd(j, prefix);
      ProgressShrinks(j, prefix[|prefix| - 1], last);
    }
  }

  /** The runtime's own schedule is such a sequence of windows. */
  lemma ScheduleIsConsecutive(b: BoundPlan, per: int, chunks: seq<Chunk>)
    requires b.WellFormed() && b.dstStrides[0] >= 0 && 1 <= per <= b.Padded()[0]
    requires |chunks| == CeilDiv(b.Padded()[0], per)
    requires forall c :: 0 <= c < |chunks| ==> chunks[c] == ChunkAt(b, per, c)
    ensures Consecutive(b, WindowsOf(chunks))
  {
    ScheduleTiles(b, per, chunks);
    CeilDivBounds(b.Padded()[0], per);
    var n := |chunks|;
    forall c | 0 <= c < n - 1 ensures chunks[c].rows.pe == chunks[c + 1].rows.pb {
      MulDistributes(c, 1, per);
      MulDistributes(n - 1 - (c + 1), c + 1, per);
      MulAtLeast(n - 1 - (c + 1), 0, per);
    }
    MulDistributes(n - 1, 1, per);
  }

  /** ... and so is the single chunk of a serialized one. */
  lemma WholeIsConsecutive(b: BoundPlan)
    requires b.WellFormed()
    ensures Consecutive(b, [AllRows(b)])
  {
    BoxInPadded(b);
    PaddedPositive(b);
  }

  // ---- parallel scatter ------------------------------------------------------------------------

  /** When srcRowsWriteDisjoint holds, the workers of one chunk may write in any
      interleaving: the result is the inline scatter's. */
  lemma ParallelScatter(j: Job, c: nat, data: seq<int>, out: seq<int>, interleaving: seq<Move>)
    requires j.Valid() && c < |j.windows| && j.Count(c) <= |data| && |out| == |j.out|
    requires Injective(j.b.extents, j.b.srcStrides)
    requires multiset(interleaving) == multiset(Reversed(StageMoves(j.b, j.windows[c])))
    ensures Fits(Reversed(StageMoves(j.b, j.windows[c])), |data|, |out|) && Fits(interleaving, |data|, |out|)
    ensures Apply(interleaving, data, out) == Apply(Reversed(StageMoves(j.b, j.windows[c])), data, out)
  {
    var w := j.windows[c];
    var ms := StageMoves(j.b, w);
    StageFits(j.b, |out|, |j.device|, j.windows, j.serialized, c);
    BackFits(ms, |out|, j.Count(c));
    WindowInRange(j.b, |out|, |j.device|, j.windows, j.serialized, c);
    forall k, l | 0 <= k < l < |ms| ensures Reversed(ms)[k].to != Reversed(ms)[l].to {
      DifferentSources(j.b, -w.pb * j.b.dstStrides[0], w.vb, w.ve, k, l);
    }
    ApplyAnyOrder(Reversed(ms), interleaving, data, out);
  }

  lemma DifferentSources(b: BoundPlan, base: int, vb: int, ve: int, k: int, l: int)
    requires b.WellFormed() && 0 <= vb <= ve <= b.extents[0] && Injective(b.extents, b.srcStrides)
    requires 0 <= k < l < |ChunkMoves(b, base, vb, ve)|
    ensures ChunkMoves(b, base, vb, ve)[k].from != ChunkMoves(b, base, vb, ve)[l].from
  {
    if vb == ve {
      NoRows(b, base, vb);
    } else {
      var x := RowIndex(b, base, vb, ve, k);
      var y := RowIndex(b, base, vb, ve, l);
      assert x != y ==> Dot(x, b.srcStrides) != Dot(y, b.srcStrides);
    }
  }

  /** The plan index of move k of rows [vb, ve). */
  lemma RowIndex(b: BoundPlan, base: int, vb: int, ve: int, k: int) returns (x: seq<int>)
    requires b.WellFormed() && 0 <= vb < ve <= b.extents[0] && 0 <= k < |ChunkMoves(b, base, vb, ve)|
    ensures InRange(x, b.extents) && Dot(x, b.srcStrides) == ChunkMoves(b, base, vb, ve)[k].from
    ensures Dot([x[0] - vb] + x[1..], PackedStrides([ve - vb] + b.extents[1..])) == k
  {
    var box := [ve - vb] + b.extents[1..];
    RowMoveAt(b, base, vb, ve, k);
    OffsetOfUnrank(k, box);
    var i := Unrank(k, box);
    ShiftFirst(b, vb, ve, i);
    x := [vb + i[0]] + i[1..];
    assert [x[0] - vb] + x[1..] == i;
  }

  /** Row vb + i of the plan is row i of the range. */
  lemma ShiftFirst(b: BoundPlan, vb: int, ve: int, x: seq<int>)
    requires b.WellFormed() && 0 <= vb < ve <= b.extents[0] && InRange(x, [ve - vb] + b.extents[1..])
    ensures var x' := [vb + x[0]] + x[1..];
            InRange(x', b.extents) && Dot(x', b.srcStrides) == vb * b.srcStrides[0] + Dot(x, b.srcStrides)
  {
    var box, x' := [ve - vb] + b.extents[1..], [vb + x[0]] + x[1..];
    assert x'[1..] == x[1..];
    MulDistributes(vb, x[0], b.srcStrides[0]);
    forall i | 0 <= i < |x'| ensures 0 <= x'[i] < b.extents[i] {
      assert i > 0 ==> box[i] == b.extents[i] && x'[i] == x[i];
    }
  }
}
