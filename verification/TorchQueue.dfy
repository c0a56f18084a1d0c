/** The two-slot Torch queue: byte budgets, event waits and idempotent closing. */
module TorchQueue {
  import opened Common

  const OUTPUT_LIMIT := 128 * 1024 * 1024
  const SCRATCH_LIMIT := 64 * 1024 * 1024

  /** One weight: element counts of the quantised tensor and of its scales. */
  datatype Weight = Weight(q: nat, s: nat)

  function GroupBytes(group: seq<Weight>): nat {
    if group == [] then 0 else group[0].q * 4 + GroupBytes(group[1..])
  }

  /** Elements of the quantised tensors of a group. */
  function Elements(group: seq<Weight>): nat {
    if group == [] then 0 else Elements(group[..|group| - 1]) + group[|group| - 1].q
  }

  /** Every member counts, once. */
  lemma {:induction false} ElementsConcat(a: seq<Weight>, b: seq<Weight>)
    ensures Elements(a + b) == Elements(a) + Elements(b)
    ensures |a| == 1 ==> Elements(a) == a[0].q
  {
    if b == [] {
      assert a + b == a;
    } else {
      assert (a + b)[..|a + b| - 1] == a + b[..|b| - 1];
      ElementsConcat(a, b[..|b| - 1]);
    }
    if |a| == 1 {
      assert a[..0] == [];
    }
  }

  /** The accounted bytes of a group: four for every element. */
  lemma {:induction false} GroupBytesIs(group: seq<Weight>)
    ensures GroupBytes(group) == 4 * Elements(group)
  {
    if group != [] {
      GroupBytesIs(group[1..]);
      ElementsConcat(group[..1], group[1..]);
      assert group[..1] + group[1..] == group;
    }
  }

  /** So the bytes of two groups add up, and those of one member are its own. */
  lemma GroupBytesAdd(a: seq<Weight>, b: seq<Weight>)
    ensures GroupBytes(a + b) == GroupBytes(a) + GroupBytes(b)
    ensures |a| == 1 ==> GroupBytes(a) == 4 * a[0].q
  {
    GroupBytesIs(a);
    GroupBytesIs(b);
    GroupBytesIs(a + b);
    ElementsConcat(a, b);
  }

  /** Largest scratch of one member; Python's max() of an empty group raises. */
  function Scratch(group: seq<Weight>): (r: nat)
    requires group != []
    ensures exists i :: 0 <= i < |group| && r == group[i].q * 9 + group[i].s * 4
    ensures forall i :: 0 <= i < |group| ==> group[i].q * 9 + group[i].s * 4 <= r
  {
    var own := group[0].q * 9 + group[0].s * 4;
    if |group| == 1 then own else
      assert group[0].q * 9 + group[0].s * 4 == own;
      assert forall i :: 0 < i < |group| ==> group[i] == group[1..][i - 1];
      var rest := Scratch(group[1..]);
      if own < rest then rest else own
  }

  lemma ScratchExceeds(group: seq<Weight>, limit: int)
    requires group != []
    ensures Scratch(group) > limit <==> exists i :: 0 <= i < |group| && 9 * group[i].q + 4 * group[i].s > limit
  {
  }

  datatype Error = EmptyGroup | BudgetExceeded | DeviceFailure

  datatype Event = NotRecorded | Recorded | Completed

  // ---- running maxima -------------------------------------------------------------------

  /** One state of the queue: bytes held and handles held. */
  datatype Level = Level(bytes: int, handles: int)

  function PeakBytes(history: seq<Level>): int {
    if history == [] then 0 else
      var last, before := history[|history| - 1].bytes, PeakBytes(history[..|history| - 1]);
      if before < last then last else before
  }

  function PeakHandles(history: seq<Level>): int {
    if history == [] then 0 else
      var last, before := history[|history| - 1].handles, PeakHandles(history[..|history| - 1]);
      if before < last then last else before
  }

  /** The peaks bound every state, and unless they are zero some state attained them. */
  lemma {:induction false} PeaksAreMaxima(history: seq<Level>)
    ensures forall i :: 0 <= i < |history| ==>
              history[i].bytes <= PeakBytes(history) && history[i].handles <= PeakHandles(history)
    ensures PeakBytes(history) != 0 ==> exists i :: 0 <= i < |history| && history[i].bytes == PeakBytes(history)
    ensures PeakHandles(history) != 0 ==> exists i :: 0 <= i < |history| && history[i].handles == PeakHandles(history)
  {
    if history != [] {
      var init, last := history[..|history| - 1], |history| - 1;
      PeaksAreMaxima(init);
      if PeakBytes(history) != 0 && PeakBytes(history) != history[last].bytes {
        var i :| 0 <= i < |init| && init[i].bytes == PeakBytes(init);
        assert history[i] == init[i];
      }
      if PeakHandles(history) != 0 && PeakHandles(history) != history[last].handles {
        var i :| 0 <= i < |init| && init[i].handles == PeakHandles(init);
        assert history[i] == init[i];
      }
      assert forall i :: 0 <= i < last ==> history[i] == init[i];
    }
  }

  lemma PeaksSnoc(history: seq<Level>, x: Level)
    ensures PeakBytes(history + [x]) == if PeakBytes(history) < x.bytes then x.bytes else PeakBytes(history)
    ensures PeakHandles(history + [x]) == if PeakHandles(history) < x.handles then x.handles else PeakHandles(history)
  {
    assert (history + [x])[..|history|] == history;
  }

  lemma NothingHeld()
    ensures PeakBytes([Level(0, 0)]) == 0 && PeakHandles([Level(0, 0)]) == 0 && SumSizes({}) == 0
  {
    PeaksSnoc([], Level(0, 0));
    assert [] + [Level(0, 0)] == [Level(0, 0)];
  }

  // ---- sums over sets of handles -----------------------------------------------------

  ghost function SumSizes(hs: set<Handle>): nat {
    if hs == {} then 0 else
      var h :| h in hs;
      h.size + SumSizes(hs - {h})
  }

  lemma {:induction false} SumSizesRemove(hs: set<Handle>, h: Handle)
    requires h in hs
    ensures SumSizes(hs) == h.size + SumSizes(hs - {h})
  {
    var g :| g in hs && SumSizes(hs) == g.size + SumSizes(hs - {g});
    if g != h {
      SumSizesRemove(hs - {g}, h);
      SumSizesRemove(hs - {h}, g);
      assert hs - {g} - {h} == hs - {h} - {g};
    }
  }

  lemma SumSizesAdd(hs: set<Handle>, h: Handle)
    requires h !in hs
    ensures SumSizes(hs + {h}) == SumSizes(hs) + h.size
  {
    SumSizesRemove(hs + {h}, h);
    assert hs + {h} - {h} == hs;
  }

  // ---- handles --------------------------------------------------------------------------

  class Handle {
    const queue: Queue
    const size: nat
    var ready: Event
    var stream: bool
    var retired: Event
    var closed: bool
    var outputs: nat

    /** Producer work is enqueued and its event recorded. */
    constructor (queue: Queue, group: seq<Weight>)
      ensures this.queue == queue && size == GroupBytes(group)
      ensures ready == Recorded && !stream && retired == NotRecorded && !closed && outputs == |group|
    {
      this.queue, size := queue, GroupBytes(group);
      ready, stream, retired, closed, outputs := Recorded, false, NotRecorded, false, |group|;
    }

    /** synchronize(): blocks until the producer has finished. */
    method Wait()
      modifies this`ready
      ensures ready == Completed
    {
      ready := Completed;
    }

    /** The consumer's stream waits on the producer; the outputs are handed over. */
    method WaitStream() returns (n: nat)
      modifies this`stream
      ensures stream && n == outputs
    {
      stream := true;
      n := outputs;
    }

    method Release()
      modifies this`retired
      ensures retired == if old(retired) == NotRecorded && stream then Recorded else old(retired)
    {
      if retired == NotRecorded && stream {
        retired := Recorded;
      }
    }

    /** Idempotent; otherwise waits for producer and consumer and leaves the queue. */
    method Close()
      requires queue.Valid() && this in queue.made
      modifies this, queue
      ensures queue.Valid() && queue.made == old(queue.made) && closed
      ensures queue.held == old(queue.held) - {this}
      ensures queue.outputBytes == old(queue.outputBytes) - (if old(closed) then 0 else size)
      ensures queue.peakBytes == old(queue.peakBytes) && queue.peakHandles == old(queue.peakHandles)
      ensures queue.scratchBound == old(queue.scratchBound)
      ensures old(closed) ==> unchanged(this) && unchanged(queue)
      ensures !old(closed) ==>
                && ready == Completed && outputs == 0
                && (retired == Completed <==> old(stream) || old(retired) != NotRecorded)
    {
      hide SumSizes;
      hide PeakBytes;
      hide PeakHandles;
      if closed {
        return;
      }
      Release();
      Wait();
      if retired != NotRecorded {
        retired := Completed;
      }
      closed := true;
      outputs := 0;
      queue.Drop(this);
    }
  }

  // ---- the queue ---------------------------------------------------------------------------

  class Queue {
    var held: set<Handle>
    var outputBytes: int
    var peakBytes: int
    var peakHandles: int
    var scratchBound: int
    /** Every handle ever made, and every state the queue has been in. */
    ghost var made: set<Handle>
    ghost var history: seq<Level>

    /** The books agree with the held handles. */
    ghost predicate Balanced()
      reads this
    {
      && held <= made && |held| <= 2
      && outputBytes == SumSizes(held) && outputBytes <= OUTPUT_LIMIT
      && scratchBound <= SCRATCH_LIMIT
      && history != [] && history[|history| - 1] == Level(outputBytes, |held|)
      && peakBytes == PeakBytes(history) <= OUTPUT_LIMIT
      && peakHandles == PeakHandles(history) <= 2
    }

    ghost predicate Valid()
      reads this, made
    {
      && Balanced()
      && (forall h :: h in made ==> h.queue == this && (h in held <==> !h.closed))
      && AtMostOneProducer()
    }

    /** At most one held handle's producer may still be running. */
    ghost predicate AtMostOneProducer()
      reads this, held
    {
      forall g, h :: g in held && h in held && g.ready != Completed && h.ready != Completed ==> g == h
    }

    constructor ()
      ensures Valid() && held == {} && made == {} && peakBytes == 0 && peakHandles == 0 && scratchBound == 0
      ensures outputBytes == 0
    {
      held, outputBytes, peakBytes, peakHandles, scratchBound := {}, 0, 0, 0, 0;
      made, history := {}, [Level(0, 0)];
      new;
      hide PeakBytes;
      hide PeakHandles;
      hide SumSizes;
      NothingHeld();
    }

    /** held.remove(handle); output_bytes -= handle.size. */
    method Drop(handle: Handle)
      requires Balanced() && handle in held
      modifies this`held, this`outputBytes, this`history
      ensures Balanced() && held == old(held) - {handle} && outputBytes == old(outputBytes) - handle.size
    {
      SumSizesRemove(held, handle);
      PeaksAreMaxima(history);
      held := held - {handle};
      outputBytes := outputBytes - handle.size;
      PeaksSnoc(history, Level(outputBytes, |held|));
      history := history + [Level(outputBytes, |held|)];
    }

    predicate CanSubmit(group: seq<Weight>)
      reads this
    {
      |held| < 2 && outputBytes + GroupBytes(group) <= OUTPUT_LIMIT
    }

    /** Asynchronously, at any time, a producer's work may finish. */
    method ProducerFinishes(h: Handle)
      requires Valid() && h in made
      modifies h`ready
      ensures Valid() && h.ready == Completed
    {
      h.ready := Completed;
    }

    /** ... and so may a consumer's. */
    method ConsumerFinishes(h: Handle)
      requires Valid() && h in made
      modifies h`retired
      ensures Valid() && h.retired == if old(h.retired) == Recorded then Completed else old(h.retired)
    {
      if h.retired == Recorded {
        h.retired := Completed;
      }
    }

    method WaitPriors()
      requires Valid()
      modifies held
      ensures Valid() && unchanged(this)
      ensures forall h :: h in held ==> h.ready == Completed
      ensures forall h :: h in held ==>
                h.closed == old(h.closed) && h.stream == old(h.stream) && h.retired == old(h.retired)
                && h.outputs == old(h.outputs)
    {
      hide SumSizes;
      hide PeakBytes;
      hide PeakHandles;
      var rest := held;
      while rest != {}
        invariant rest <= held && unchanged(this) && Valid()
        invariant forall h :: h in held - rest ==> h.ready == Completed
        invariant forall h :: h in held ==>
                    h.closed == old(h.closed) && h.stream == old(h.stream) && h.retired == old(h.retired)
                    && h.outputs == old(h.outputs)
        decreases |rest|
      {
        var prior :| prior in rest;
        prior.Wait();
        rest := rest - {prior};
      }
    }

    /** Refused submissions change nothing; an accepted one finds every earlier
        producer finished, so at most one producer owns the scratch budget. */
    method Submit(group: seq<Weight>, deviceFails: bool) returns (r: Result<Handle, Error>)
      requires Valid()
      modifies this, held
      ensures Valid()
      ensures (r == Err(EmptyGroup)) <==> group == []
      ensures (r == Err(BudgetExceeded)) <==>
                && group != []
                && ((exists i :: 0 <= i < |group| && 9 * group[i].q + 4 * group[i].s > 64 * 1024 * 1024)
                    || |old(held)| == 2 || old(outputBytes) + 4 * Elements(group) > 128 * 1024 * 1024)
      ensures r == Err(DeviceFailure) ==> deviceFails && forall h :: h in old(held) ==> h.ready == Completed
      ensures r.Ok? ==> !deviceFails
      ensures r.Err? ==> unchanged(this)
      ensures (r.Err? && r.error != DeviceFailure) ==> forall h :: h in old(held) ==> unchanged(h)
      ensures r.Ok? ==>
                && fresh(r.value) && made == old(made) + {r.value} && held == old(held) + {r.value}
                && r.value.size == 4 * Elements(group) && outputBytes == old(outputBytes) + 4 * Elements(group)
                && r.value.outputs == |group|
                && (forall h :: h in old(held) ==> h.ready == Completed)
                && peakBytes == (if old(peakBytes) < outputBytes then outputBytes else old(peakBytes))
                && peakHandles == (if old(peakHandles) < |held| then |held| else old(peakHandles))
                && scratchBound == (if old(scratchBound) < Scratch(group) then Scratch(group) else old(scratchBound))
      ensures r.Ok? ==> !r.value.closed && r.value.ready == Recorded && !r.value.stream
    {
      hide SumSizes;
      hide PeakBytes;
      hide PeakHandles;
      hide GroupBytes;
      hide Scratch;
      if group == [] {
        return Err(EmptyGroup);
      }
      GroupBytesIs(group);
      ScratchExceeds(group, SCRATCH_LIMIT);
      var scratch := Scratch(group);
      if scratch > SCRATCH_LIMIT || !CanSubmit(group) {
        return Err(BudgetExceeded);
      }
      WaitPriors();
      if deviceFails {
        return Err(DeviceFailure);
      }
      var handle := new Handle(this, group);
      Admit(handle, scratch);
      r := Ok(handle);
    }

    /** The bookkeeping of an accepted submission. */
    method Admit(handle: Handle, scratch: nat)
      requires Balanced() && handle !in made
      requires |held| < 2 && outputBytes + handle.size <= OUTPUT_LIMIT && scratch <= SCRATCH_LIMIT
      modifies this
      ensures Balanced() && made == old(made) + {handle} && held == old(held) + {handle}
      ensures outputBytes == old(outputBytes) + handle.size
      ensures peakBytes == (if old(peakBytes) < outputBytes then outputBytes else old(peakBytes))
      ensures peakHandles == (if old(peakHandles) < |held| then |held| else old(peakHandles))
      ensures scratchBound == (if old(scratchBound) < scratch then scratch else old(scratchBound))
    {
      SumSizesAdd(held, handle);
      made := made + {handle};
      held := held + {handle};
      outputBytes := outputBytes + handle.size;
      peakBytes := if peakBytes < outputBytes then outputBytes else peakBytes;
      peakHandles := if peakHandles < |held| then |held| else peakHandles;
      scratchBound := if scratchBound < scratch then scratch else scratchBound;
      PeaksSnoc(history, Level(outputBytes, |held|));
      history := history + [Level(outputBytes, |held|)];
    }

    /** Closing the queue closes every held handle; handles already closed are not held. */
    method Close()
      requires Valid()
      modifies this, held
      ensures Valid() && held == {} && outputBytes == 0 && made == old(made)
      ensures peakBytes == old(peakBytes) && peakHandles == old(peakHandles)
      ensures forall h :: h in old(held) ==> h.closed && h.ready == Completed
    {
      var rest := held;
      while rest != {}
        invariant Valid() && made == old(made) && held == rest <= old(held)
        invariant peakBytes == old(peakBytes) && peakHandles == old(peakHandles)
        invariant forall h :: h in old(held) - rest ==> h.closed && h.ready == Completed
        decreases |rest|
      {
        var handle :| handle in rest;
        handle.Close();
        rest := rest - {handle};
      }
      assert SumSizes({}) == 0;
    }
  }

  // ---- every interleaving -----------------------------------------------------------------------

  /** What clients and the device may do, handles named by submission number. */
  datatype Op =
    | Submit(group: seq<Weight>, deviceFails: bool)
    | WaitStream(i: nat) | Release(i: nat) | CloseHandle(i: nat) | CloseQueue
    | ProducerFinishes(i: nat) | ConsumerFinishes(i: nat)

  /** The queue and everything that belongs to it. */
  ghost function Footprint(q: Queue): set<object>
    reads q
  {
    {q} + set h: Handle | h in q.made :: h
  }

  ghost predicate Known(q: Queue, handles: seq<Handle>)
    reads q
  {
    forall i :: 0 <= i < |handles| ==> handles[i] in q.made
  }

  method Perform(q: Queue, handles: seq<Handle>, op: Op) returns (handles': seq<Handle>)
    requires q.Valid() && Known(q, handles)
    modifies Footprint(q)
    ensures q.Valid() && Known(q, handles') && fresh(Footprint(q) - old(Footprint(q)))
    ensures op.CloseQueue? ==> q.held == {} && q.outputBytes == 0
    ensures !op.Submit? ==> handles' == handles && q.made == old(q.made)
    ensures op.Submit? && op.deviceFails ==> handles' == handles
    ensures op.Submit? && !op.deviceFails ==>
              if |old(q.held)| < 2 && Deliverable(op.group) && old(q.outputBytes) + 4 * Elements(op.group) <= OUTPUT_LIMIT
              then |handles'| == |handles| + 1 && handles'[..|handles|] == handles
                   && q.held == old(q.held) + {handles'[|handles|]}
              else handles' == handles
  {
    hide SumSizes;
    hide PeakBytes;
    hide PeakHandles;
    handles' := handles;
    match op {
      case Submit(group, deviceFails) =>
        var r := q.Submit(group, deviceFails);
        if r.Ok? {
          handles' := handles + [r.value];
        }
      case WaitStream(i) =>
        if i < |handles| { var n := handles[i].WaitStream(); }
      case Release(i) =>
        if i < |handles| { handles[i].Release(); }
      case CloseHandle(i) =>
        if i < |handles| { handles[i].Close(); }
      case CloseQueue =>
        q.Close();
      case ProducerFinishes(i) =>
        if i < |handles| { q.ProducerFinishes(handles[i]); }
      case ConsumerFinishes(i) =>
        if i < |handles| { q.ConsumerFinishes(handles[i]); }
    }
  }

  /** Any sequence of operations on a new queue keeps the whole invariant. */
  method Run(ops: seq<Op>) returns (q: Queue)
    ensures fresh(q) && q.Valid()
    ensures ops != [] && ops[|ops| - 1].CloseQueue? ==> q.held == {} && q.outputBytes == 0
  {
    q := new Queue();
    var handles: seq<Handle> := [];
    var k := 0;
    while k < |ops|
      invariant 0 <= k <= |ops| && q.Valid() && Known(q, handles) && fresh(Footprint(q))
      invariant k > 0 && ops[k - 1].CloseQueue? ==> q.held == {} && q.outputBytes == 0
    {
      handles := Perform(q, handles, ops[k]);
      k := k + 1;
    }
  }

  /** The group can be delivered by an empty queue. */
  predicate Deliverable(group: seq<Weight>) {
    && group != [] && 4 * Elements(group) <= 128 * 1024 * 1024
    && forall i :: 0 <= i < |group| ==> 9 * group[i].q + 4 * group[i].s <= 64 * 1024 * 1024
  }

  /** One serial delivery: submit, hand over, and close before anything else. */
  method DeliverOne(q: Queue, group: seq<Weight>) returns (ok: bool)
    requires q.Valid() && q.held == {}
    modifies q
    ensures q.Valid() && q.held == {} && ok == Deliverable(group)
    ensures q.peakHandles == if ok && old(q.peakHandles) < 1 then 1 else old(q.peakHandles)
  {
    assert SumSizes({}) == 0;
    var r := q.Submit(group, false);
    if r.Err? {
      return false;
    }
    var handle := r.value;
    var n := handle.WaitStream();
    handle.Close();
    ok := true;
  }

  /** The serial branch of Delivery: the consumer takes `taken` groups and may then
      stop or fail; each handle is closed before the next is submitted. */
  method Serial(q: Queue, groups: seq<seq<Weight>>, taken: nat) returns (delivered: nat)
    requires q.Valid() && q.held == {}
    modifies q
    ensures q.Valid() && q.held == {}
    ensures delivered <= |groups| && delivered <= taken
    ensures forall i :: 0 <= i < delivered ==> Deliverable(groups[i])
    ensures delivered < |groups| && delivered < taken ==> !Deliverable(groups[delivered])
    ensures q.peakHandles == if delivered > 0 && old(q.peakHandles) < 1 then 1 else old(q.peakHandles)
  {
    delivered := 0;
    while delivered < |groups| && delivered < taken
      invariant delivered <= |groups| && delivered <= taken
      invariant q.Valid() && q.held == {}
      invariant forall i :: 0 <= i < delivered ==> Deliverable(groups[i])
      invariant q.peakHandles == if delivered > 0 && old(q.peakHandles) < 1 then 1 else old(q.peakHandles)
    {
      var ok := DeliverOne(q, groups[delivered]);
      if !ok {
        return;
      }
      delivered := delivered + 1;
    }
  }
}
