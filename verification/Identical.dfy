/** When is the staged pipeline's output byte-identical to executeH2D's?

    Both write every cell.  They may differ on elements that no cell writes: the
    pipeline copies whole windows, executeH2D fills the first Product(Padded())
    elements and touches no other.
 */
module Identical {
  import opened Common
  import opened MixedRadix
  import opened Relocation
  import opened Plan
  import opened Executor
  import opened Gather
  import opened Execute
  import opened Inverse
  import opened Chunking
  import opened Interleaving
  import opened Strides
  import opened Staging
  import opened Pipeline

  ghost predicate Unwritten(b: BoundPlan, g: int)
    requires Shaped(b)
  {
    LastWrite(AllMoves(b), g).None?
  }

  /** Pipeline and executor do the same to element g, which no cell writes: both leave it
      alone or both fill it, or filling it changes nothing. */
  ghost predicate TreatedAlike(j: Job, g: int)
    requires j.Valid() && 0 <= g < |j.before|
  {
    if j.b.padRegions == [] then Covered(j) <= g
    else (g < Covered(j) <==> g < Product(j.b.Padded())) || j.before[g] == j.b.Fill()
  }

  /** The transfer may also be run by executeH2D, and nothing is known of the ring. */
  ghost predicate Comparable(j: Job) {
    j.Valid() && j.ring == None && Executable(j.b, |j.src|, |j.before|)
  }

  ghost predicate SameAsExecuted(j: Job, run: seq<State>)
    requires Comparable(j) && IsRun(j, run)
  {
    run[|run| - 1].device == Executed(j.b, j.src, j.before)
  }

  /** What any drained run leaves at element g. */
  lemma DrainedElement(j: Job, run: seq<State>, g: int)
    requires j.Valid() && IsRun(j, run) && Drained(j, run[|run| - 1]) && 0 <= g < |j.before|
    ensures |run[|run| - 1].device| == |j.before|
    ensures Right(j, g, run[|run| - 1].device[g]) || (Unwritten(j.b, g) && Covered(j) <= g)
    ensures Covered(j) <= g ==> run[|run| - 1].device[g] == j.before[g]
  {
    DrainedDelivers(j, run);
    if LastWrite(AllMoves(j.b), g).None? && g < Covered(j) {
      assert RightAt(j, run[|run| - 1], g);
    }
  }

  /** What executeH2D leaves there. */
  lemma ExecutedElement(b: BoundPlan, src: seq<int>, dst: seq<int>, g: int)
    requires Executable(b, |src|, |dst|) && 0 <= g < |dst|
    ensures LastWrite(AllMoves(b), g).Some? ==> 0 <= LastWrite(AllMoves(b), g).value < |src|
    ensures Executed(b, src, dst)[g] ==
            match LastWrite(AllMoves(b), g)
            case Some(from) => src[from]
            case None => if b.padRegions != [] && g < Product(b.Padded()) then b.Fill() else dst[g]
  {
    hide Apply;
    hide AllMoves;
    ApplyIsLastWrite(AllMoves(b), src, Prefilled(b, dst), g);
  }

  /** If every element that no cell writes is treated alike, every drained run ends with
      exactly what executeH2D makes of the same destination. */
  lemma DrainedIsExecuted(j: Job, run: seq<State>)
    requires Comparable(j) && IsRun(j, run) && Drained(j, run[|run| - 1])
    requires forall g :: 0 <= g < |j.before| && Unwritten(j.b, g) ==> TreatedAlike(j, g)
    ensures SameAsExecuted(j, run)
  {
    var device, executed := run[|run| - 1].device, Executed(j.b, j.src, j.before);
    DrainedDelivers(j, run);
    forall g | 0 <= g < |j.before| ensures device[g] == executed[g] {
      DrainedElement(j, run, g);
      ExecutedElement(j.b, j.src, j.before, g);
      assert Unwritten(j.b, g) ==> TreatedAlike(j, g);
    }
  }

  // ---- otherwise some run shows a difference ------------------------------------------

  /** A ring as `ring` describes it, before the first chunk. */
  ghost function Start(j: Job, v: int): State {
    State(0, seq(|j.windows| + 1, i => Slot(seq(|j.before|, o => v), Idle)), j.before)
  }

  lemma StartIsInit(j: Job, v: int)
    requires j.Valid() && j.ring == Some(v)
    ensures Init(j, Start(j, v))
  {
    var s := Start(j, v);
    forall i, c | 0 <= i < |s.slots| && 0 <= c < |j.windows| ensures j.Count(c) <= |s.slots[i].data| {
      WindowInRange(j.b, |j.src|, |j.before|, j.windows, j.serialized, c);
    }
  }

  /** Knowing what the ring held excludes runs and adds none. */
  lemma RunOfAnyRing(j: Job, v: int, run: seq<State>)
    requires j.Valid() && j.ring == None && j.(ring := Some(v)).Valid() && IsRun(j.(ring := Some(v)), run)
    ensures IsRun(j, run)
  {
    var k := j.(ring := Some(v));
    assert forall c :: 0 <= c < |j.windows| ==> k.Count(c) == j.Count(c);
    forall n | 0 < n < |run| ensures Next(j, run[n - 1], run[n]) {
      SameStep(j, v, run[n - 1], run[n]);
    }
  }

  lemma SameStep(j: Job, v: int, s: State, t: State)
    requires j.Valid() && j.(ring := Some(v)).Valid() && Next(j.(ring := Some(v)), s, t)
    ensures Next(j, s, t)
  {
    var k := j.(ring := Some(v));
    if HostStep(k, s, t) {
      assert HostReady(j, s) && AfterHost(j, s) == AfterHost(k, s);
    } else if i, o :| LandStep(k, s, t, i, o) {
      assert LandStep(j, s, t, i, o);
    } else {
      var i :| CompleteStep(k, s, t, i);
      assert CompleteStep(j, s, t, i);
    }
  }

  /** An element that is not treated alike differs from executeH2D's in some drained run. */
  lemma SomeRunDiffers(j: Job, g: int) returns (run: seq<State>)
    requires Comparable(j) && 0 <= g < |j.before| && Unwritten(j.b, g) && !TreatedAlike(j, g)
    ensures IsRun(j, run) && Drained(j, run[|run| - 1]) && |run[|run| - 1].device| == |j.before|
    ensures run[|run| - 1].device[g] != Executed(j.b, j.src, j.before)[g]
  {
    var v := j.before[g] + 1;
    var k := j.(ring := Some(v));
    StartIsInit(k, v);
    run := RunToEnd(k, [Start(k, v)]);
    DrainedElement(k, run, g);
    ExecutedElement(j.b, j.src, j.before, g);
    RunOfAnyRing(j, v, run);
  }

  /** The output is byte-identical to executeH2D's in every run exactly if each element
      that no cell writes is left alone by both, filled by both, or full already. */
  lemma IdenticalExactly(j: Job)
    requires Comparable(j)
    ensures (forall run :: IsRun(j, run) && Drained(j, run[|run| - 1]) ==> SameAsExecuted(j, run))
       <==> (forall g :: 0 <= g < |j.before| && Unwritten(j.b, g) ==> TreatedAlike(j, g))
  {
    if forall g :: 0 <= g < |j.before| && Unwritten(j.b, g) ==> TreatedAlike(j, g) {
      forall run | IsRun(j, run) && Drained(j, run[|run| - 1]) ensures SameAsExecuted(j, run) {
        DrainedIsExecuted(j, run);
      }
    } else {
      var g :| 0 <= g < |j.before| && Unwritten(j.b, g) && !TreatedAlike(j, g);
      var run := SomeRunDiffers(j, g);
      assert IsRun(j, run) && Drained(j, run[|run| - 1]) && !SameAsExecuted(j, run);
    }
  }

  // ---- where the condition holds, and where it fails -------------------------------------

  /** A plan without pads whose destination is dense in some axis order writes every element. */
  lemma DenseIsWritten(b: BoundPlan, total: int, g: int)
    requires b.WellFormed() && b.padRegions == [] && Bijective(b.extents, b.dstStrides, total) && 0 <= g < total
    ensures !Unwritten(b, g)
  {
    assert Hit(b.extents, b.dstStrides, g);
    var idx :| InRange(idx, b.extents) && Dot(idx, b.dstStrides) == g;
    var to := Dot(b.Lo(), b.dstStrides);
    NoPads(b);
    DotZero(b.Lo(), b.dstStrides);
    BoxIsVisited(b.extents, b.srcStrides, b.dstStrides, 0, to, idx);
    assert AllMoves(b)[Dot(idx, PackedStrides(b.extents))].to == g;
    LastWriteIs(AllMoves(b), g);
  }

  /** So the pipeline's output for it, column-major and serialized plans included, is
      always byte-identical to executeH2D's. */
  lemma DenseIsIdentical(j: Job, run: seq<State>)
    requires Comparable(j) && j.b.padRegions == [] && Bijective(j.b.extents, j.b.dstStrides, |j.before|)
    requires IsRun(j, run) && Drained(j, run[|run| - 1])
    ensures SameAsExecuted(j, run)
  {
    forall g | 0 <= g < |j.before| ensures !Unwritten(j.b, g) {
      DenseIsWritten(j.b, |j.before|, g);
    }
    DrainedIsExecuted(j, run);
  }

  /** On a row-major packed destination, pads or not, it is always the plan's image. */
  lemma PackedIsImage(j: Job, run: seq<State>)
    requires j.Valid() && j.ring == None && j.b.Canonical() && |j.before| == Product(j.b.Padded())
    requires IsRun(j, run) && Drained(j, run[|run| - 1])
    ensures j.b.ReadsWithin(|j.src|) && run[|run| - 1].device == Image(j.b, j.src)
  {
    var b := j.b;
    AllFit(b, |j.src|, |j.before|, j.windows, j.serialized);
    PaddedPositive(b);
    CanonicalDisjoint(b);
    assert Covered(j) == |j.before|;
    if b.padRegions == [] {
      NoPads(b);
      PackedBijective(b.extents);
      DenseIsIdentical(j, run);
    } else {
      DrainedIsExecuted(j, run);
    }
    ExecutedIsImage(b, j.src, j.before);
  }

  /** Two rows of two cells that share their destination, and a gap after each. */
  function Gapped(): BoundPlan {
    BoundPlan([2, 2], [2, 1], [2, 0], [], 4, 16, false)
  }

  lemma GappedShape()
    ensures Gapped().WellFormed() && Gapped().Padded() == [2, 2] && Gapped().Lo() == [0, 0]
    ensures Dot(Gapped().Lo(), Gapped().dstStrides) == 0 && RowsDisjoint(Gapped())
  {
    NoPads(Gapped());
    DotZero(Gapped().Lo(), Gapped().dstStrides);
    assert InnerSpan(Gapped(), 2) == 0;
  }

  lemma GappedMoves()
    ensures AllMoves(Gapped()) == [Move(0, 0), Move(1, 0), Move(2, 2), Move(3, 2)]
  {
    var b := Gapped();
    GappedShape();
    TwoByTwo(b, 0);
    TwoByTwo(b, 1);
    var first, second := ChunkMoves(b, 0, 0, 1), ChunkMoves(b, 0, 1, 2);
    assert first == [Move(0, 0), Move(1, 0)] && second == [Move(2, 2), Move(3, 2)];
    hide *;
    assert AllMoves(b) == first + second by { TwoRows(b); }
  }

  /** Element 1 is not written, and every access is in bounds. */
  lemma GappedWrites()
    ensures Fits(AllMoves(Gapped()), 4, 4) && Unwritten(Gapped(), 1)
  {
    GappedMoves();
    hide AllMoves;
    NoWrites(AllMoves(Gapped()), 1);
  }

  /** Whatever planChunks cuts for it, element 1 is staged and never written. */
  lemma GappedDiffers(src: seq<int>, before: seq<int>, nBuffers: int, override_: nat, s: ChunkSchedule, first: nat)
    requires |src| == 4 && |before| == 4 && Schedulable(Gapped()) && IsScheduleOf(s, Gapped(), nBuffers, override_)
    ensures var j := Job(Gapped(), src, before, WindowsOf(s.chunks), s.serialized, first, None);
            Comparable(j) && Unwritten(j.b, 1) && !TreatedAlike(j, 1)
  {
    GappedShape();
    GappedWrites();
    hide AllMoves;
    hide Unwritten;
    hide Fits;
    ScheduleStageable(Gapped(), nBuffers, override_, s, 4, 4);
  }

  /** The condition can fail: with any schedule that planChunks cuts for this plan, some run
      leaves a stale element of the ring where executeH2D leaves the destination alone. */
  lemma StaleElement(src: seq<int>, before: seq<int>, nBuffers: int, override_: nat, s: ChunkSchedule, first: nat)
    returns (run: seq<State>)
    requires |src| == 4 && |before| == 4 && Schedulable(Gapped()) && IsScheduleOf(s, Gapped(), nBuffers, override_)
    ensures var j := Job(Gapped(), src, before, WindowsOf(s.chunks), s.serialized, first, None);
            && Comparable(j) && IsRun(j, run) && Drained(j, run[|run| - 1])
            && |run[|run| - 1].device| == 4
            && run[|run| - 1].device[1] != before[1] == Executed(j.b, src, before)[1]
  {
    var j := Job(Gapped(), src, before, WindowsOf(s.chunks), s.serialized, first, None);
    GappedDiffers(src, before, nBuffers, override_, s, first);
    assert j.b.padRegions == [];
    hide *;
    run := SomeRunDiffers(j, 1);
    ExecutedElement(j.b, src, before, 1);
  }
}
