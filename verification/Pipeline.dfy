/** The staged H2D pipeline as a state machine.

    The host stages chunk after chunk into a ring of buffers; each staged buffer
    is then copied to the device asynchronously, element by element and at any
    time, reading whatever the buffer holds at that moment.  acquire() makes the
    host wait for a buffer's previous copy before it overwrites the buffer.
    Nothing is assumed about what the buffers or the device held at the start, nor
    that the destination is packed: one whole chunk is staged when rows may overlap.
 */
module Pipeline {
  import opened Common
  import opened MixedRadix
  import opened Relocation
  import opened Plan
  import opened Executor
  import opened Gather
  import opened Execute
  import opened Inverse
  import opened Chunking
  import opened Interleaving
  import opened Threads
  import opened Staging

  datatype Pending = Idle | Copying(chunk: nat, landed: set<int>)

  datatype Slot = Slot(data: seq<int>, pending: Pending)

  datatype State = State(next: nat, slots: seq<Slot>, device: seq<int>)

  /** A transfer: the plan, its source, the device as it was, the windows to stage in submission
      order, and the ring position of the first acquire.  Nothing need be known of the staging
      ring; `ring`, if given, says that there is a buffer for each chunk and that every buffer
      element held this value at the start. */
  datatype Job = Job(b: BoundPlan, src: seq<int>, before: seq<int>, windows: seq<Rows>, serialized: bool, first: nat,
                     ring: Option<int>)
  {
    ghost predicate Valid() {
      Stageable(b, |src|, |before|, windows, serialized)
    }

    /** Device offset of element o of window c. */
    function At(c: nat, o: int): int
      requires c < |windows| && b.dstStrides != []
    {
      DeviceAt(b, windows[c], o)
    }

    function Count(c: nat): int
      requires c < |windows| && b.dstStrides != []
    {
      CopyCount(b, |before|, windows[c], serialized)
    }
  }

  /** fillStagingWindow: with pads, the chunk's elements become the fill pattern. */
  ghost function Filled(j: Job, c: nat, data: seq<int>): (r: seq<int>)
    requires j.Valid() && c < |j.windows|
    ensures |r| == |data|
    ensures j.b.padRegions == [] ==> r == data
    ensures j.b.padRegions != [] ==> forall o :: 0 <= o < |data| && o < j.Count(c) ==> r[o] == j.b.Fill()
  {
    if j.b.padRegions == [] then data else
      LowBytesIs(j.b.padRegions[0].fillBits, j.b.elementSize);
      var bits := LowBytes(j.b.padRegions[0].fillBits, j.b.elementSize);
      seq(|data|, i requires 0 <= i < |data| => if i < j.Count(c) then bits else data[i])
  }

  lemma FitsLonger(ms: seq<Move>, srcLen: int, small: int, large: int)
    requires Fits(ms, srcLen, small) && small <= large
    ensures Fits(ms, srcLen, large)
  {
  }

  lemma StageFitsBuffer(j: Job, c: nat, data: seq<int>)
    requires j.Valid() && c < |j.windows| && j.Count(c) <= |data|
    ensures Fits(StageMoves(j.b, j.windows[c]), |j.src|, |data|)
  {
    StageFits(j.b, |j.src|, |j.before|, j.windows, j.serialized, c);
    FitsLonger(StageMoves(j.b, j.windows[c]), |j.src|, j.Count(c), |data|);
  }

  /** fillStagingWindow, then gatherChunk through the rebased pointer. */
  ghost function Stage(j: Job, c: nat, data: seq<int>): (r: seq<int>)
    requires j.Valid() && c < |j.windows| && j.Count(c) <= |data|
    ensures |r| == |data|
  {
    StageFitsBuffer(j, c, data);
    Apply(StageMoves(j.b, j.windows[c]), j.src, Filled(j, c, data))
  }

  /** In an unserialized schedule the rows of a chunk may be gathered by several threads:
      whatever the interleaving, the staged buffer is the same. */
  lemma ParallelStage(j: Job, c: nat, data: seq<int>, cuts: seq<int>, parts: seq<seq<Move>>, interleaving: seq<Move>)
    requires j.Valid() && !j.serialized && c < |j.windows| && j.Count(c) <= |data|
    requires Cuts(cuts, j.windows[c].vb, j.windows[c].ve)
    requires WorkerWrites(j.b, -j.windows[c].pb * j.b.dstStrides[0], cuts, parts) && IsShuffle(interleaving, parts)
    ensures Fits(interleaving, |j.src|, |data|)
    ensures Apply(interleaving, j.src, Filled(j, c, data)) == Stage(j, c, data)
  {
    var w := j.windows[c];
    StageFitsBuffer(j, c, data);
    WindowInRange(j.b, |j.src|, |j.before|, j.windows, j.serialized, c);
    PhysicalImpliesValid(j.b);
    AscendingAgrees(j.b, -w.pb * j.b.dstStrides[0]);
    hide ValidRowsDisjoint;
    hide RowsAgree;
    ParallelGather(j.b, -w.pb * j.b.dstStrides[0], w.vb, w.ve, cuts, parts, interleaving, j.src, Filled(j, c, data));
  }

  /** What `ring` says of the buffers that the chunks still to be staged will get. */
  ghost predicate Fresh(j: Job, s: State)
    requires s.slots != []
  {
    j.ring.Some? ==>
      && |j.windows| <= |s.slots|
      && forall c, o :: s.next <= c < |j.windows| && 0 <= o < |s.slots[RingSlot(j.first, |s.slots|, c)].data| ==>
           s.slots[RingSlot(j.first, |s.slots|, c)].data[o] == j.ring.value
  }

  ghost predicate Init(j: Job, s: State)
    requires j.Valid()
  {
    && s.next == 0 && s.slots != [] && s.device == j.before && Fresh(j, s)
    && forall i :: 0 <= i < |s.slots| ==>
         && s.slots[i].pending == Idle
         && forall c :: 0 <= c < |j.windows| ==> j.Count(c) <= |s.slots[i].data|
  }

  /** The buffer the next acquire returns. */
  function SlotOf(j: Job, s: State): nat
    requires s.slots != []
  {
    RingSlot(j.first, |s.slots|, s.next)
  }

  /** The next chunk's slot has completed its previous copy. */
  ghost predicate HostReady(j: Job, s: State)
    requires j.Valid()
  {
    && s.next < |j.windows| && s.slots != []
    && s.slots[SlotOf(j, s)].pending == Idle
    && j.Count(s.next) <= |s.slots[SlotOf(j, s)].data|
  }

  /** The host has staged the next chunk and submitted its copy. */
  ghost function AfterHost(j: Job, s: State): State
    requires j.Valid() && HostReady(j, s)
  {
    var i := SlotOf(j, s);
    State(s.next + 1, s.slots[i := Slot(Stage(j, s.next, s.slots[i].data), Copying(s.next, {}))], s.device)
  }

  ghost predicate HostStep(j: Job, s: State, t: State)
    requires j.Valid()
  {
    HostReady(j, s) && t == AfterHost(j, s)
  }

  /** Element o of the copy from slot i can still arrive. */
  ghost predicate LandReady(j: Job, s: State, i: int, o: int)
    requires j.Valid()
  {
    && 0 <= i < |s.slots| && s.slots[i].pending.Copying?
    && var c := s.slots[i].pending.chunk;
       c < |j.windows| && 0 <= o < j.Count(c) <= |s.slots[i].data| && 0 <= j.At(c, o) < |s.device|
  }

  /** One element of a pending copy has reached the device. */
  ghost function AfterLand(j: Job, s: State, i: int, o: int): State
    requires j.Valid() && LandReady(j, s, i, o)
  {
    var Slot(data, Copying(c, landed)) := s.slots[i];
    State(s.next, s.slots[i := Slot(data, Copying(c, landed + {o}))], s.device[j.At(c, o) := data[o]])
  }

  ghost predicate LandStep(j: Job, s: State, t: State, i: int, o: int)
    requires j.Valid()
  {
    LandReady(j, s, i, o) && t == AfterLand(j, s, i, o)
  }

  /** A copy whose every element has landed completes its event. */
  ghost predicate CompleteStep(j: Job, s: State, t: State, i: int)
    requires j.Valid()
  {
    && 0 <= i < |s.slots| && s.slots[i].pending.Copying?
    && s.slots[i].pending.chunk < |j.windows|
    && (forall o :: 0 <= o < j.Count(s.slots[i].pending.chunk) ==> o in s.slots[i].pending.landed)
    && t == s.(slots := s.slots[i := s.slots[i].(pending := Idle)])
  }

  ghost predicate Next(j: Job, s: State, t: State)
    requires j.Valid()
  {
    || HostStep(j, s, t)
    || (exists i, o :: LandStep(j, s, t, i, o))
    || (exists i :: CompleteStep(j, s, t, i))
  }

  // ---- the invariant -----------------------------------------------------------

  /** v is a right value for device offset g: what the last cell mapping there reads, or
      with pads the fill pattern; where a plan without pads writes nothing, what the ring held. */
  ghost predicate Right(j: Job, g: int, v: int)
    requires j.Valid()
  {
    match LastWrite(AllMoves(j.b), g)
    case Some(from) => 0 <= from < |j.src| && v == j.src[from]
    case None => if j.b.padRegions != [] then v == j.b.Fill() else j.ring.Some? ==> v == j.ring.value
  }

  /** Device element g holds a right value. */
  ghost predicate RightAt(j: Job, s: State, g: int)
    requires j.Valid()
  {
    0 <= g < |s.device| && Right(j, g, s.device[g])
  }

  /** How much of the device the windows cover. */
  function Covered(j: Job): int
    requires j.b.dstStrides != [] && j.b.extents != []
  {
    if j.serialized then |j.before| else j.b.Padded()[0] * j.b.dstStrides[0]
  }

  ghost predicate AllRight(j: Job, s: State)
    requires j.Valid()
  {
    forall g :: 0 <= g < Covered(j) ==> RightAt(j, s, g)
  }

  /** Slot i's data is right for its pending copy, and so is what already landed. */
  ghost predicate SlotRight(j: Job, s: State, i: int)
    requires j.Valid() && 0 <= i < |s.slots|
  {
    s.slots[i].pending.Copying? ==>
      var c := s.slots[i].pending.chunk;
      && c < s.next && c < |j.windows| && j.Count(c) <= |s.slots[i].data|
      && (forall o :: 0 <= o < j.Count(c) ==>
            0 <= j.At(c, o) < |s.device| && Right(j, j.At(c, o), s.slots[i].data[o]))
      && (forall o :: o in s.slots[i].pending.landed && 0 <= o < j.Count(c) ==>
            0 <= j.At(c, o) < |s.device| && Right(j, j.At(c, o), s.device[j.At(c, o)]))
  }

  ghost predicate InFlight(s: State, c: nat) {
    exists i :: 0 <= i < |s.slots| && s.slots[i].pending.Copying? && s.slots[i].pending.chunk == c
  }

  /** Window c is on the device. */
  ghost predicate Delivered(j: Job, s: State, c: nat)
    requires j.Valid() && c < |j.windows|
  {
    forall o :: 0 <= o < j.Count(c) ==>
      0 <= j.At(c, o) < |s.device| && Right(j, j.At(c, o), s.device[j.At(c, o)])
  }

  /** No window reaches the elements from Covered on. */
  ghost predicate KeptOutside(j: Job, s: State)
    requires j.Valid() && |s.device| == |j.before|
  {
    forall g :: 0 <= g < |j.before| && Covered(j) <= g ==> s.device[g] == j.before[g]
  }

  ghost predicate Inv(j: Job, s: State)
    requires j.Valid()
  {
    && s.next <= |j.windows| && s.slots != [] && |s.device| == |j.before| && Fresh(j, s)
    && KeptOutside(j, s)
    && (forall i, c :: 0 <= i < |s.slots| && 0 <= c < |j.windows| ==> j.Count(c) <= |s.slots[i].data|)
    && (forall i :: 0 <= i < |s.slots| ==> SlotRight(j, s, i))
    && (forall c :: 0 <= c < s.next ==> InFlight(s, c) || Delivered(j, s, c))
  }

  lemma InitInv(j: Job, s: State)
    requires j.Valid() && Init(j, s)
    ensures Inv(j, s)
  {
    hide Stageable;
  }

  /** Staging any chunk over any stale buffer gives right values for its device offsets. */
  lemma StageIsRight(j: Job, c: nat, data: seq<int>)
    requires j.Valid() && c < |j.windows| && j.Count(c) <= |data|
    requires j.ring.Some? ==> forall o :: 0 <= o < |data| ==> data[o] == j.ring.value
    ensures forall o :: 0 <= o < j.Count(c) ==>
              0 <= j.At(c, o) < |j.before| && Right(j, j.At(c, o), Stage(j, c, data)[o])
  {
    var ms := StageMoves(j.b, j.windows[c]);
    WindowInRange(j.b, |j.src|, |j.before|, j.windows, j.serialized, c);
    StageFitsBuffer(j, c, data);
    assert Stage(j, c, data) == Apply(ms, j.src, Filled(j, c, data));
    hide Stage;
    hide StageMoves;
    hide Apply;
    hide Stageable;
    hide AllMoves;
    hide CopyCount;
    forall o | 0 <= o < j.Count(c)
      ensures 0 <= j.At(c, o) < |j.before| && Right(j, j.At(c, o), Stage(j, c, data)[o])
    {
      WindowLastWrite(j.b, |j.src|, |j.before|, j.windows, j.serialized, c, o);
      ApplyIsLastWrite(ms, j.src, Filled(j, c, data), o);
    }
  }

  lemma HostKeepsFresh(j: Job, s: State)
    requires j.Valid() && HostReady(j, s) && Fresh(j, s)
    ensures Fresh(j, AfterHost(j, s))
    ensures j.ring.Some? ==>
              forall o :: 0 <= o < |s.slots[SlotOf(j, s)].data| ==> s.slots[SlotOf(j, s)].data[o] == j.ring.value
  {
    var n, t := |s.slots|, AfterHost(j, s);
    if j.ring.Some? {
      assert t.slots == s.slots[SlotOf(j, s) := t.slots[SlotOf(j, s)]];
      hide *;
      forall c, o | t.next <= c < |j.windows| && 0 <= o < |t.slots[RingSlot(j.first, n, c)].data|
        ensures t.slots[RingSlot(j.first, n, c)].data[o] == j.ring.value
      {
        ApartInRing(j.first, n, s.next, c);
      }
    }
  }

  lemma HostKeepsInv(j: Job, s: State)
    requires j.Valid() && Inv(j, s) && HostReady(j, s)
    ensures Inv(j, AfterHost(j, s))
  {
    assert j.b.dstStrides != [];
    HostKeepsFresh(j, s);
    hide Stageable;
    hide Right;
    hide DeviceAt;
    hide CopyCount;
    hide Fresh;
    var i, c, t := SlotOf(j, s), s.next, AfterHost(j, s);
    StageIsRight(j, c, s.slots[i].data);
    hide Stage;
    forall k | 0 <= k < |t.slots| ensures SlotRight(j, t, k) {
      assert SlotRight(j, s, k);
    }
    forall d | 0 <= d < t.next ensures InFlight(t, d) || Delivered(j, t, d) {
      if d == c {
        assert t.slots[i].pending.chunk == c;
      } else if InFlight(s, d) {
        var k :| 0 <= k < |s.slots| && s.slots[k].pending.Copying? && s.slots[k].pending.chunk == d;
        assert t.slots[k] == s.slots[k];
      } else {
        assert Delivered(j, s, d);
      }
    }
  }

  /** Windows stay within what they cover. */
  lemma LandsCovered(j: Job, c: nat, o: int)
    requires j.Valid() && c < |j.windows| && 0 <= o < j.Count(c)
    ensures j.At(c, o) < Covered(j)
  {
    if !j.serialized {
      var w, d := j.windows[c], j.b.dstStrides[0];
      assert RowsOf(j.b, w);
      MulDistributes(w.pe - w.pb, w.pb, d);
      MulDistributes(j.b.Padded()[0] - w.pe, w.pe, d);
      MulAtLeast(j.b.Padded()[0] - w.pe, 0, d);
    }
  }

  lemma SameData(j: Job, s: State, t: State)
    requires s.slots != [] && Fresh(j, s) && t.next == s.next && |t.slots| == |s.slots|
    requires forall i :: 0 <= i < |s.slots| ==> t.slots[i].data == s.slots[i].data
    ensures Fresh(j, t)
  {
  }

  lemma LandKeepsInv(j: Job, s: State, i: int, o: int)
    requires j.Valid() && Inv(j, s) && LandReady(j, s, i, o)
    ensures Inv(j, AfterLand(j, s, i, o))
  {
    assert j.b.dstStrides != [];
    var c, t := s.slots[i].pending.chunk, AfterLand(j, s, i, o);
    LandsCovered(j, c, o);
    hide Stageable;
    hide Right;
    hide DeviceAt;
    hide CopyCount;
    SameData(j, s, t);
    hide Fresh;
    assert SlotRight(j, s, i);
    assert Right(j, j.At(c, o), s.slots[i].data[o]);
    forall k | 0 <= k < |t.slots| ensures SlotRight(j, t, k) {
      assert SlotRight(j, s, k);
    }
    forall d | 0 <= d < t.next ensures InFlight(t, d) || Delivered(j, t, d) {
      if InFlight(s, d) {
        var k :| 0 <= k < |s.slots| && s.slots[k].pending.Copying? && s.slots[k].pending.chunk == d;
        assert t.slots[k].pending.Copying? && t.slots[k].pending.chunk == d;
      } else {
        assert Delivered(j, s, d);
      }
    }
  }

  lemma CompleteKeepsInv(j: Job, s: State, t: State, i: int)
    requires j.Valid() && Inv(j, s) && CompleteStep(j, s, t, i)
    ensures Inv(j, t)
  {
    assert j.b.dstStrides != [];
    hide Stageable;
    hide Right;
    hide DeviceAt;
    hide CopyCount;
    var c := s.slots[i].pending.chunk;
    SameData(j, s, t);
    hide Fresh;
    assert SlotRight(j, s, i);
    forall k | 0 <= k < |t.slots| ensures SlotRight(j, t, k) {
      assert SlotRight(j, s, k);
    }
    forall d | 0 <= d < t.next ensures InFlight(t, d) || Delivered(j, t, d) {
      if d == c {
        assert Delivered(j, t, d);
      } else if InFlight(s, d) {
        var k :| 0 <= k < |s.slots| && s.slots[k].pending.Copying? && s.slots[k].pending.chunk == d;
        assert t.slots[k] == s.slots[k];
      } else {
        assert Delivered(j, s, d);
      }
    }
  }

  // ---- every run ---------------------------------------------------------------

  ghost predicate IsRun(j: Job, run: seq<State>)
    requires j.Valid()
  {
    && run != [] && Init(j, run[0])
    && forall k :: 0 < k < |run| ==> Next(j, run[k - 1], run[k])
  }

  lemma {:induction false} RunKeepsInv(j: Job, run: seq<State>)
    requires j.Valid() && IsRun(j, run)
    ensures Inv(j, run[|run| - 1])
  {
    if |run| == 1 {
      InitInv(j, run[0]);
    } else {
      var prefix := run[..|run| - 1];
      RunKeepsInv(j, prefix);
      assert Next(j, run[|run| - 2], run[|run| - 1]);
      StepKeepsInv(j, run[|run| - 2], run[|run| - 1]);
    }
  }

  lemma StepKeepsInv(j: Job, s: State, t: State)
    requires j.Valid() && Inv(j, s) && Next(j, s, t)
    ensures Inv(j, t)
  {
    hide Inv;
    hide Stageable;
    if HostStep(j, s, t) {
      HostKeepsInv(j, s);
    } else if i, o :| LandStep(j, s, t, i, o) {
      LandKeepsInv(j, s, i, o);
    } else {
      var i :| CompleteStep(j, s, t, i);
      CompleteKeepsInv(j, s, t, i);
    }
  }

  ghost predicate Drained(j: Job, s: State) {
    s.next == |j.windows| && forall i :: 0 <= i < |s.slots| ==> s.slots[i].pending == Idle
  }

  /** However host and copies interleave, whatever stale bytes the staging ring and the
      device held, a drained pipeline has delivered every cell, with pads the fill pattern
      to every other element of the windows, and nothing to the elements outside them. */
  lemma DrainedDelivers(j: Job, run: seq<State>)
    requires j.Valid() && IsRun(j, run) && Drained(j, run[|run| - 1])
    ensures |run[|run| - 1].device| == |j.before|
    ensures Fits(AllMoves(j.b), |j.src|, |j.before|)
    ensures Delivers(AllMoves(j.b), j.src, run[|run| - 1].device)
    ensures AllRight(j, run[|run| - 1]) && KeptOutside(j, run[|run| - 1])
    ensures forall g :: 0 <= g < |j.before| && Covered(j) <= g ==> run[|run| - 1].device[g] == j.before[g]
    ensures forall g :: 0 <= g < Covered(j) && LastWrite(AllMoves(j.b), g).None? && j.b.padRegions != [] ==>
              && g < |j.before|
              && run[|run| - 1].device[g] == j.b.padRegions[0].fillBits % Power(256, j.b.elementSize)
  {
    var s := run[|run| - 1];
    RunKeepsInv(j, run);
    AllFit(j.b, |j.src|, |j.before|, j.windows, j.serialized);
    assert j.serialized ==> AllRows(j.b).pb == 0;
    forall g | LastWrite(AllMoves(j.b), g).Some? ensures RightAt(j, s, g) {
      var c := WrittenIsCopied(j.b, |j.src|, |j.before|, j.windows, j.serialized, g);
      DeliveredAt(j, s, c, g);
    }
    forall g | 0 <= g < Covered(j) ensures RightAt(j, s, g) {
      var c := WrittenIsCopied(j.b, |j.src|, |j.before|, j.windows, j.serialized, g);
      DeliveredAt(j, s, c, g);
    }
    forall g | 0 <= g < Covered(j) && LastWrite(AllMoves(j.b), g).None? && j.b.padRegions != []
      ensures g < |j.before| && s.device[g] == j.b.padRegions[0].fillBits % Power(256, j.b.elementSize)
    {
      assert RightAt(j, s, g);
    }
  }

  lemma DeliveredAt(j: Job, s: State, c: nat, g: int)
    requires j.Valid() && Inv(j, s) && Drained(j, s) && c < |j.windows|
    requires 0 <= g - j.windows[c].pb * j.b.dstStrides[0] < j.Count(c)
    ensures RightAt(j, s, g)
  {
    assert j.b.dstStrides != [];
    hide Stageable;
    hide Right;
    hide CopyCount;
    assert !InFlight(s, c);
    assert Delivered(j, s, c);
    assert j.At(c, g - j.windows[c].pb * j.b.dstStrides[0]) == g;
  }

  /** Submission order is irrelevant to coverage. */
  lemma TilesAnyOrder(b: BoundPlan, windows: seq<Rows>, order: seq<Rows>)
    requires b.extents != [] && Tiles(b, windows) && multiset(order) == multiset(windows)
    ensures Tiles(b, order)
  {
    forall c | 0 <= c < |order| ensures RowsOf(b, order[c]) {
      assert order[c] in multiset(windows);
    }
    forall i | 0 <= i < b.Padded()[0] ensures InSomeWindow(order, i) {
      assert InSomeWindow(windows, i);
      var c :| 0 <= c < |windows| && Contains(windows[c], i);
      assert windows[c] in multiset(order);
    }
  }

  /** order lists the benchmark's row chunks, in any order. */
  ghost predicate IsRowChunks(b: BoundPlan, chunkBytes: int, order: seq<Rows>)
    requires |b.extents| >= 1 && b.dstStrides != []
    requires b.extents[0] >= 1 && b.dstStrides[0] * b.elementSize >= 1 && chunkBytes >= 1
  {
    var p := PlanRowChunks(b.extents[0], b.dstStrides[0] * b.elementSize, chunkBytes);
    p.nChunks >= 0 && multiset(order) == multiset(seq(p.nChunks, c => ChunkRows(b.extents[0], p.rowsPerChunk, c)))
  }

  /** The benchmark's double-buffered row chunks, submitted in any order, are a valid transfer. */
  lemma RowChunksValid(b: BoundPlan, src: seq<int>, before: seq<int>, chunkBytes: int, order: seq<Rows>, first: nat)
    requires b.Canonical() && b.padRegions == [] && b.ReadsWithin(|src|) && chunkBytes >= 1
    requires b.dstStrides[0] * b.elementSize >= 1 && IsRowChunks(b, chunkBytes, order) && |before| == Product(b.Padded())
    ensures Job(b, src, before, order, false, first, None).Valid()
  {
    var p := PlanRowChunks(b.extents[0], b.dstStrides[0] * b.elementSize, chunkBytes);
    var windows := seq(p.nChunks, c => ChunkRows(b.extents[0], p.rowsPerChunk, c));
    RowChunksTile(b, chunkBytes, windows);
    TilesAnyOrder(b, windows, order);
    CanonicalStageable(b, |src|, order);
  }

  /** Chunked staging through rebased buffers delivers what one whole walk over a filled
      destination writes: everywhere with pads, and without pads wherever it writes. */
  lemma StagedEqualsWalk(j: Job, run: seq<State>, whole: seq<int>)
    requires j.Valid() && IsRun(j, run) && Drained(j, run[|run| - 1]) && |whole| == |j.before|
    requires j.b.padRegions != [] ==> forall o :: 0 <= o < |whole| ==> whole[o] == j.b.Fill()
    ensures Fits(AllMoves(j.b), |j.src|, |whole|)
    ensures forall g :: 0 <= g < |whole| && (LastWrite(AllMoves(j.b), g).Some? || (j.b.padRegions != [] && g < Covered(j))) ==>
              g < |run[|run| - 1].device| && run[|run| - 1].device[g] == Apply(AllMoves(j.b), j.src, whole)[g]
  {
    var s := run[|run| - 1];
    DrainedDelivers(j, run);
    hide Apply;
    hide AllMoves;
    hide Stageable;
    forall g | 0 <= g < |whole| && (LastWrite(AllMoves(j.b), g).Some? || (j.b.padRegions != [] && g < Covered(j)))
      ensures g < |s.device| && s.device[g] == Apply(AllMoves(j.b), j.src, whole)[g]
    {
      ApplyIsLastWrite(AllMoves(j.b), j.src, whole, g);
      if LastWrite(AllMoves(j.b), g).None? {
        assert RightAt(j, s, g);
      }
    }
  }

  // ---- every run ends ------------------------------------------------------------

  /** A step that gets something done: no element lands twice. */
  ghost predicate Progress(j: Job, s: State, t: State)
    requires j.Valid()
  {
    || HostStep(j, s, t)
    || (exists i, o :: LandStep(j, s, t, i, o) && o !in s.slots[i].pending.landed)
    || (exists i :: CompleteStep(j, s, t, i))
  }

  /** Steps that a slot's pending copy still needs. */
  function SlotWork(j: Job, slot: Slot): (n: int)
    requires j.b.dstStrides != []
    ensures n >= 0
  {
    match slot.pending
    case Idle => 0
    case Copying(c, landed) => if c < |j.windows| then 1 + Missing(j.Count(c), landed) else 0
  }

  function PendingWork(j: Job, slots: seq<Slot>): (work: seq<int>)
    requires j.b.dstStrides != []
    ensures |work| == |slots| && forall i :: 0 <= i < |slots| ==> work[i] == SlotWork(j, slots[i])
  {
    seq(|slots|, i requires 0 <= i < |slots| => SlotWork(j, slots[i]))
  }

  /** What is left to do: a chunk to stage counts for more than any copy of it. */
  function Work(j: Job, s: State): int
    requires j.b.dstStrides != []
  {
    (|j.windows| - s.next) * (|j.before| + 2) + SumOf(PendingWork(j, s.slots))
  }

  lemma SlotChanges(j: Job, s: State, t: State, i: int)
    requires j.b.dstStrides != [] && 0 <= i < |s.slots| && |t.slots| == |s.slots|
    requires t.slots == s.slots[i := t.slots[i]]
    ensures Work(j, t) - Work(j, s) ==
            (s.next - t.next) * (|j.before| + 2) + SlotWork(j, t.slots[i]) - SlotWork(j, s.slots[i])
  {
    assert PendingWork(j, t.slots) == PendingWork(j, s.slots)[i := SlotWork(j, t.slots[i])];
    SumOfUpdate(PendingWork(j, s.slots), i, SlotWork(j, t.slots[i]));
    MulDistributes(|j.windows| - s.next, s.next - t.next, |j.before| + 2);
  }

  lemma HostChanges(j: Job, s: State)
    requires j.Valid() && HostReady(j, s)
    ensures var i, t := SlotOf(j, s), AfterHost(j, s);
            && t.next == s.next + 1 && |t.slots| == |s.slots| && t.slots == s.slots[i := t.slots[i]]
            && t.slots[i].pending == Copying(s.next, {}) && s.slots[i].pending == Idle
  {
    hide Stage;
    hide Stageable;
    hide CopyCount;
  }

  lemma HostShrinks(j: Job, s: State)
    requires j.Valid() && HostReady(j, s)
    ensures Work(j, AfterHost(j, s)) < Work(j, s)
  {
    var i, c, t := SlotOf(j, s), s.next, AfterHost(j, s);
    WindowInRange(j.b, |j.src|, |j.before|, j.windows, j.serialized, c);
    assert 0 <= j.Count(c) <= |j.before|;
    assert j.b.dstStrides != [];
    HostChanges(j, s);
    hide *;
    SlotChanges(j, s, t, i);
    CopyingWork(j, t.slots[i], c);
    IdleWork(j, s.slots[i]);
  }

  lemma IdleWork(j: Job, slot: Slot)
    requires j.b.dstStrides != [] && slot.pending == Idle
    ensures SlotWork(j, slot) == 0
  {
  }

  lemma CopyingWork(j: Job, slot: Slot, c: nat)
    requires j.b.dstStrides != [] && slot.pending == Copying(c, {}) && c < |j.windows| && 0 <= j.Count(c)
    ensures SlotWork(j, slot) <= 1 + j.Count(c)
  {
  }

  lemma LandShrinks(j: Job, s: State, i: int, o: int)
    requires j.Valid() && LandReady(j, s, i, o) && o !in s.slots[i].pending.landed
    ensures Work(j, AfterLand(j, s, i, o)) < Work(j, s)
  {
    assert j.b.dstStrides != [];
    OneLands(j.Count(s.slots[i].pending.chunk), s.slots[i].pending.landed, o);
    SlotChanges(j, s, AfterLand(j, s, i, o), i);
  }

  lemma CompleteShrinks(j: Job, s: State, t: State, i: int)
    requires j.Valid() && CompleteStep(j, s, t, i)
    ensures Work(j, t) < Work(j, s)
  {
    assert j.b.dstStrides != [];
    var slot := t.slots[i];
    assert SlotWork(j, slot) == 0 < SlotWork(j, s.slots[i]);
    assert t.next == s.next && t.slots == s.slots[i := slot];
    hide *;
    SlotChanges(j, s, t, i);
  }

  /** Every step that gets something done leaves less to do. */
  lemma ProgressShrinks(j: Job, s: State, t: State)
    requires j.Valid() && Progress(j, s, t)
    ensures Work(j, t) < Work(j, s)
  {
    if HostStep(j, s, t) {
      HostShrinks(j, s);
    } else if i, o :| LandStep(j, s, t, i, o) && o !in s.slots[i].pending.landed {
      LandShrinks(j, s, i, o);
    } else {
      var i :| CompleteStep(j, s, t, i);
      CompleteShrinks(j, s, t, i);
    }
  }

  lemma WorkIsNatural(j: Job, s: State)
    requires j.b.dstStrides != [] && s.next <= |j.windows|
    ensures Work(j, s) >= 0
  {
    MulAtLeast(|j.windows| - s.next, 0, |j.before| + 2);
  }

  /** The pipeline never gets stuck: until it is drained something can be done. */
  lemma NoDeadlock(j: Job, s: State) returns (t: State)
    requires j.Valid() && Inv(j, s) && !Drained(j, s)
    ensures Progress(j, s, t) && Next(j, s, t)
  {
    assert j.b.dstStrides != [];
    hide Stageable;
    hide Right;
    hide DeviceAt;
    hide CopyCount;
    if i :| 0 <= i < |s.slots| && s.slots[i].pending.Copying? {
      assert SlotRight(j, s, i);
      var c := s.slots[i].pending.chunk;
      if o :| 0 <= o < j.Count(c) && o !in s.slots[i].pending.landed {
        t := AfterLand(j, s, i, o);
        assert LandStep(j, s, t, i, o);
      } else {
        t := s.(slots := s.slots[i := s.slots[i].(pending := Idle)]);
        assert CompleteStep(j, s, t, i);
      }
    } else {
      t := AfterHost(j, s);
      assert HostStep(j, s, t);
    }
  }

  ghost predicate Stuck(j: Job, s: State)
    requires j.Valid()
  {
    forall t :: !Progress(j, s, t)
  }

  /** A run in which every step gets something done has at most Work(start) steps; if it
      cannot go on, the pipeline is drained. */
  lemma {:induction false} RunsEnd(j: Job, run: seq<State>)
    requires j.Valid() && IsRun(j, run)
    requires forall k :: 0 < k < |run| ==> Progress(j, run[k - 1], run[k])
    ensures |run| - 1 + Work(j, run[|run| - 1]) <= Work(j, run[0]) && Work(j, run[|run| - 1]) >= 0
    ensures Stuck(j, run[|run| - 1]) ==> Drained(j, run[|run| - 1])
  {
    var last := run[|run| - 1];
    assert j.b.dstStrides != [];
    RunKeepsInv(j, run);
    WorkIsNatural(j, last);
    if !Drained(j, last) {
      var t := NoDeadlock(j, last);
    }
    if |run| > 1 {
      var prefix := run[..|run| - 1];
      RunsEnd(j, prefix);
      ProgressShrinks(j, prefix[|prefix| - 1], last);
    }
  }

  lemma OneMore(j: Job, run: seq<State>, t: State)
    requires j.Valid() && IsRun(j, run) && Next(j, run[|run| - 1], t)
    ensures IsRun(j, run + [t])
  {
    var more := run + [t];
    hide Next;
    hide Init;
    forall k | 0 < k < |more| ensures Next(j, more[k - 1], more[k]) {
      assert k < |run| ==> more[k] == run[k];
    }
  }

  /** Every run can be continued until the pipeline is drained. */
  lemma {:induction false} RunToEnd(j: Job, run: seq<State>) returns (all: seq<State>)
    requires j.Valid() && IsRun(j, run)
    ensures IsRun(j, all) && run <= all && Drained(j, all[|all| - 1])
    decreases Work(j, run[|run| - 1])
  {
    var last := run[|run| - 1];
    RunKeepsInv(j, run);
    if Drained(j, last) {
      all := run;
    } else {
      var t := NoDeadlock(j, last);
      StepKeepsInv(j, last, t);
      assert j.b.dstStrides != [] && last.next <= |j.windows| && t.next <= |j.windows|;
      hide *;
      ProgressShrinks(j, last, t);
      WorkIsNatural(j, last);
      WorkIsNatural(j, t);
      OneMore(j, run, t);
      assert (run + [t])[|run + [t]| - 1] == t;
      all := RunToEnd(j, run + [t]);
    }
  }
}
