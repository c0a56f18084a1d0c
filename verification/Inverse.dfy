/** When does D2H undo H2D? */
module Inverse {
  import opened Common
  import opened MixedRadix
  import opened Relocation
  import opened Plan
  import opened Executor
  import opened Gather
  import opened Interleaving
  import opened Execute
  import opened Strides

  /** device holds, wherever some cell maps, what the last such cell reads. */
  ghost predicate Delivers(ms: seq<Move>, src: seq<int>, device: seq<int>) {
    forall t :: LastWrite(ms, t).Some? ==>
      && 0 <= LastWrite(ms, t).value < |src| && 0 <= t < |device|
      && device[t] == src[LastWrite(ms, t).value]
  }

  lemma ApplyDelivers(ms: seq<Move>, src: seq<int>, dst: seq<int>)
    requires Fits(ms, |src|, |dst|)
    ensures Delivers(ms, src, Apply(ms, src, dst))
  {
    hide Apply;
    forall t | LastWrite(ms, t).Some?
      ensures 0 <= LastWrite(ms, t).value < |src| && 0 <= t < |dst|
      ensures Apply(ms, src, dst)[t] == src[LastWrite(ms, t).value]
    {
      LastWriteIs(ms, t);
      ApplyIsLastWrite(ms, src, dst, t);
    }
  }

  /** The source element that ends up back at o: D2H writes o last from the destination
      of the last cell that reads o, which holds what the last cell mapping there reads. */
  function ReadBack(ms: seq<Move>, o: int): Option<int> {
    match LastWrite(Reversed(ms), o)
    case None => None
    case Some(t) => LastWrite(ms, t)
  }

  /** For every source element, the destination of the last cell that reads it keeps that
      element in the end. */
  ghost predicate Invertible(ms: seq<Move>) {
    forall o :: ReadBack(ms, o).Some? ==> ReadBack(ms, o).value == o
  }

  lemma ReadBackIs(b: BoundPlan, o: int)
    requires b.WellFormed()
    ensures ReadBack(AllMoves(b), o).Some? <==> b.Reads(o)
  {
    var ms := AllMoves(b);
    SourcesRead(b, o);
    hide AllMoves;
    LastWriteIs(Reversed(ms), o);
    if LastWrite(Reversed(ms), o).Some? {
      var t := LastWrite(Reversed(ms), o).value;
      var k :| 0 <= k < |ms| && Reversed(ms)[k] == Move(t, o);
      assert ms[k] == Move(o, t);
      LastWriteIs(ms, t);
    }
  }

  /** What D2H writes, element by element. */
  lemma ComesBack(b: BoundPlan, src: seq<int>, device: seq<int>, out: seq<int>)
    requires b.WellFormed() && Fits(AllMoves(b), |src|, |device|) && Delivers(AllMoves(b), src, device) && |out| == |src|
    ensures Fits(ScatterMoves(b), |device|, |out|)
    ensures forall o :: 0 <= o < |src| ==>
              && (ReadBack(AllMoves(b), o).Some? <==> b.Reads(o))
              && (b.Reads(o) ==> 0 <= ReadBack(AllMoves(b), o).value < |src|)
              && Apply(ScatterMoves(b), device, out)[o] ==
                 if b.Reads(o) then src[ReadBack(AllMoves(b), o).value] else out[o]
  {
    var ms := AllMoves(b);
    ScatterIsReversed(b);
    assert Fits(Reversed(ms), |device|, |out|);
    forall o | 0 <= o < |src|
      ensures ReadBack(ms, o).Some? <==> b.Reads(o)
      ensures b.Reads(o) ==> 0 <= ReadBack(ms, o).value < |src|
      ensures Apply(Reversed(ms), device, out)[o] == if b.Reads(o) then src[ReadBack(ms, o).value] else out[o]
    {
      ReadBackIs(b, o);
      hide *;
      ApplyIsLastWrite(Reversed(ms), device, out, o);
      DeliveredBack(ms, src, device, o);
    }
  }

  lemma DeliveredBack(ms: seq<Move>, src: seq<int>, device: seq<int>, o: int)
    requires Delivers(ms, src, device)
    ensures ReadBack(ms, o).Some? ==>
              && 0 <= ReadBack(ms, o).value < |src|
              && LastWrite(Reversed(ms), o).Some? && 0 <= LastWrite(Reversed(ms), o).value < |device|
              && device[LastWrite(Reversed(ms), o).value] == src[ReadBack(ms, o).value]
    ensures ReadBack(ms, o).None? ==> LastWrite(Reversed(ms), o).None?
  {
    LastWriteIs(Reversed(ms), o);
    if LastWrite(Reversed(ms), o).Some? {
      var t := LastWrite(Reversed(ms), o).value;
      var k :| 0 <= k < |ms| && Reversed(ms)[k] == Move(t, o);
      assert ms[k] == Move(o, t);
      LastWriteIs(ms, t);
    }
  }

  /** D2H after H2D restores every source element the plan reads and leaves the others
      of the output alone. */
  ghost predicate Restores(b: BoundPlan, src: seq<int>, dst: seq<int>, out: seq<int>)
    requires Executable(b, |src|, |dst|) && |out| == |src|
  {
    && Fits(ScatterMoves(b), |dst|, |out|)
    && forall o :: 0 <= o < |src| ==>
         Apply(ScatterMoves(b), Executed(b, src, dst), out)[o] == if b.Reads(o) then src[o] else out[o]
  }

  // ---- when does it undo H2D? ----------------------------------------------------------------

  /** Every move that is the last to read its source element is the last to write its
      destination element. */
  ghost predicate LastReadsWin(ms: seq<Move>) {
    forall k :: 0 <= k < |ms| && (forall l :: k < l < |ms| ==> ms[l].from != ms[k].from) ==>
      forall l :: k < l < |ms| ==> ms[l].to != ms[k].to
  }

  lemma LastReadsInvert(ms: seq<Move>)
    requires LastReadsWin(ms)
    ensures Invertible(ms)
  {
    forall o | ReadBack(ms, o).Some? ensures ReadBack(ms, o).value == o {
      LastWriteIs(Reversed(ms), o);
      var t := LastWrite(Reversed(ms), o).value;
      var k :| 0 <= k < |ms| && Reversed(ms)[k] == Move(t, o)
               && forall l :: k < l < |ms| ==> Reversed(ms)[l].to != o;
      assert forall l :: k < l < |ms| ==> ms[l].from == Reversed(ms)[l].to;
      LastWriteIs(ms, t);
      var l :| 0 <= l < |ms| && ms[l] == Move(LastWrite(ms, t).value, t) && forall i :: l < i < |ms| ==> ms[i].to != t;
      assert ms[k].to == t && l == k;
    }
  }

  lemma InvertingReadsWin(ms: seq<Move>)
    requires Invertible(ms)
    ensures LastReadsWin(ms)
  {
    forall k | 0 <= k < |ms| && (forall l :: k < l < |ms| ==> ms[l].from != ms[k].from)
      ensures forall l :: k < l < |ms| ==> ms[l].to != ms[k].to
    {
      var o, t := ms[k].from, ms[k].to;
      LastReadIs(ms, k);
      LastWriteIs(ms, t);
      var l :| 0 <= l < |ms| && ms[l] == Move(LastWrite(ms, t).value, t) && forall i :: l < i < |ms| ==> ms[i].to != t;
      assert ReadBack(ms, o) == Some(ms[l].from);
      assert l >= k;
    }
  }

  /** The last move to read its element is what the reversed list does last to it. */
  lemma LastReadIs(ms: seq<Move>, k: int)
    requires 0 <= k < |ms| && forall l :: k < l < |ms| ==> ms[l].from != ms[k].from
    ensures LastWrite(Reversed(ms), ms[k].from) == Some(ms[k].to)
  {
    var back, o := Reversed(ms), ms[k].from;
    LastWriteIs(back, o);
    assert back[k].to == o;
    var l :| 0 <= l < |back| && back[l] == Move(LastWrite(back, o).value, o) && forall i :: l < i < |back| ==> back[i].to != o;
    assert ms[l].from == o && l == k;
  }

  /** In terms of the plan: the last cell to read a source element is the last to write
      the destination element it maps to. */
  ghost predicate LastReadersWin(b: BoundPlan)
    requires |b.extents| == |b.srcStrides| == |b.dstStrides|
  {
    forall x :: InRange(x, b.extents) && LastOf(b.extents, b.srcStrides, x) ==> LastOf(b.extents, b.dstStrides, x)
  }

  /** No later cell has the same offset. */
  ghost predicate LastOf(ext: seq<int>, strides: seq<int>, x: seq<int>)
    requires InRange(x, ext) && |ext| == |strides|
  {
    forall y :: InRange(y, ext) && LexLess(x, y) ==> Dot(y, strides) != Dot(x, strides)
  }

  /** Move k is the cell of rank k, and later moves are later cells. */
  lemma CellMove(b: BoundPlan, x: seq<int>)
    requires b.WellFormed() && InRange(x, b.extents)
    ensures var k := Dot(x, PackedStrides(b.extents));
            && 0 <= k < |AllMoves(b)| && AllMoves(b)[k].from == Dot(x, b.srcStrides)
            && AllMoves(b)[k].to == Dot(b.Lo(), b.dstStrides) + Dot(x, b.dstStrides)
  {
    BoxIsVisited(b.extents, b.srcStrides, b.dstStrides, 0, Dot(b.Lo(), b.dstStrides), x);
  }

  /** Later keys differ exactly if later cells have other offsets, where the key of a rank
      is the offset of its cell. */
  lemma LaterKeys(ext: seq<int>, strides: seq<int>, keys: seq<int>, c: int, x: seq<int>)
    requires |ext| == |strides| && Positive(ext) && |keys| == Product(ext) && InRange(x, ext)
    requires forall y :: InRange(y, ext) && 0 <= Dot(y, PackedStrides(ext)) < |keys| ==>
               keys[Dot(y, PackedStrides(ext))] == c + Dot(y, strides)
    ensures var k := Dot(x, PackedStrides(ext));
            0 <= k < |keys| && ((forall l :: k < l < |keys| ==> keys[l] != keys[k]) <==> LastOf(ext, strides, x))
  {
    var k := Dot(x, PackedStrides(ext));
    UnrankOfOffset(x, ext);
    if LastOf(ext, strides, x) {
      forall l | k < l < |keys| ensures keys[l] != keys[k] {
        OffsetOfUnrank(l, ext);
        PackedOffsetIsLexicographic(x, Unrank(l, ext), ext);
      }
    }
    if forall l :: k < l < |keys| ==> keys[l] != keys[k] {
      forall y | InRange(y, ext) && LexLess(x, y) ensures Dot(y, strides) != Dot(x, strides) {
        UnrankOfOffset(y, ext);
        PackedOffsetIsLexicographic(x, y, ext);
      }
    }
  }

  /** Move k is cell x; the later moves are the later cells. */
  lemma LaterCells(b: BoundPlan, x: seq<int>, k: int)
    requires b.WellFormed() && InRange(x, b.extents) && k == Dot(x, PackedStrides(b.extents))
    ensures 0 <= k < |AllMoves(b)|
    ensures (forall l :: k < l < |AllMoves(b)| ==> AllMoves(b)[l].from != AllMoves(b)[k].from)
       <==> LastOf(b.extents, b.srcStrides, x)
    ensures (forall l :: k < l < |AllMoves(b)| ==> AllMoves(b)[l].to != AllMoves(b)[k].to)
       <==> LastOf(b.extents, b.dstStrides, x)
  {
    var ms, ext, to := AllMoves(b), b.extents, Dot(b.Lo(), b.dstStrides);
    MovesLength(ext, b.srcStrides, b.dstStrides, 0, to);
    assert |ms| == Product(ext);
    var froms, tos := seq(|ms|, l requires 0 <= l < |ms| => ms[l].from), seq(|ms|, l requires 0 <= l < |ms| => ms[l].to);
    forall y | InRange(y, ext)
      ensures var l := Dot(y, PackedStrides(ext));
              0 <= l < |ms| && froms[l] == 0 + Dot(y, b.srcStrides) && tos[l] == to + Dot(y, b.dstStrides)
    {
      CellMove(b, y);
    }
    hide AllMoves;
    hide LastOf;
    LaterKeys(ext, b.srcStrides, froms, 0, x);
    LaterKeys(ext, b.dstStrides, tos, to, x);
    assert forall l :: 0 <= l < |ms| ==> ms[l].from == froms[l] && ms[l].to == tos[l];
  }

  /** D2H undoes H2D exactly for the plans whose last readers win. */
  lemma InvertibleExactly(b: BoundPlan)
    requires b.WellFormed()
    ensures Invertible(AllMoves(b)) <==> LastReadersWin(b)
  {
    var ms, ext := AllMoves(b), b.extents;
    if Invertible(ms) {
      InvertingReadsWin(ms);
      forall x | InRange(x, ext) && LastOf(ext, b.srcStrides, x) ensures LastOf(ext, b.dstStrides, x) {
        LaterCells(b, x, Dot(x, PackedStrides(ext)));
      }
    }
    if LastReadersWin(b) {
      forall k | 0 <= k < |ms| && (forall l :: k < l < |ms| ==> ms[l].from != ms[k].from)
        ensures forall l :: k < l < |ms| ==> ms[l].to != ms[k].to
      {
        var x := VisitedIsInBox(ext, b.srcStrides, b.dstStrides, 0, Dot(b.Lo(), b.dstStrides), k);
        LaterCells(b, x, k);
      }
      LastReadsInvert(ms);
    }
  }

  /** The plans no two cells of which write the same element are among them; if no two cells
      read the same element, there are no others. */
  lemma InjectiveWriters(b: BoundPlan)
    requires b.WellFormed()
    ensures Injective(b.extents, b.dstStrides) ==> LastReadersWin(b)
    ensures Injective(b.extents, b.srcStrides) ==> (LastReadersWin(b) <==> Injective(b.extents, b.dstStrides))
  {
    var ext := b.extents;
    forall x, y | InRange(x, ext) && InRange(y, ext) && LexLess(x, y) ensures x != y {
      PackedOffsetIsLexicographic(x, y, ext);
    }
    if LastReadersWin(b) && Injective(ext, b.srcStrides) {
      forall x, y | InRange(x, ext) && InRange(y, ext) && Dot(x, b.dstStrides) == Dot(y, b.dstStrides) ensures x == y {
        assert LastOf(ext, b.srcStrides, x) && LastOf(ext, b.srcStrides, y);
        assert LastOf(ext, b.dstStrides, x) && LastOf(ext, b.dstStrides, y);
        UnrankOfOffset(x, ext);
        UnrankOfOffset(y, ext);
        PackedOffsetIsLexicographic(x, y, ext);
        PackedOffsetIsLexicographic(y, x, ext);
      }
    }
  }

  /** Round trip: plans whose last readers win restore every source, whatever the destination
      held; and a source whose elements all differ comes back only from such a plan. */
  lemma RoundTrip(b: BoundPlan, src: seq<int>, dst: seq<int>, out: seq<int>)
    requires Executable(b, |src|, |dst|) && |out| == |src|
    ensures LastReadersWin(b) ==> Restores(b, src, dst, out)
    ensures (forall i, j :: 0 <= i < j < |src| ==> src[i] != src[j]) && Restores(b, src, dst, out) ==> LastReadersWin(b)
  {
    var ms, device := AllMoves(b), Executed(b, src, dst);
    ApplyDelivers(ms, src, Prefilled(b, dst));
    ComesBack(b, src, device, out);
    InvertibleExactly(b);
    if (forall i, j :: 0 <= i < j < |src| ==> src[i] != src[j]) && Restores(b, src, dst, out) {
      forall o | ReadBack(ms, o).Some? ensures ReadBack(ms, o).value == o {
        ReadBackIs(b, o);
        FitsReads(b, |src|, |dst|);
        assert b.Reads(o) && 0 <= o < |src|;
        assert src[ReadBack(ms, o).value] == src[o];
      }
    }
  }

  /** Two cells that read different elements and share their destination. */
  function Collapsed(): BoundPlan {
    BoundPlan([2], [1], [0], [], 4, 4, false)
  }

  lemma CollapsedMoves()
    ensures Collapsed().WellFormed() && AllMoves(Collapsed()) == [Move(0, 0), Move(1, 0)]
    ensures ScatterMoves(Collapsed()) == [Move(0, 0), Move(0, 1)]
    ensures Collapsed().Reads(0)
  {
    var b := Collapsed();
    NoPads(b);
    ScatterIsReversed(b);
    assert InRange([0], b.extents) && Dot([0], b.srcStrides) == 0;
  }

  /** Such a plan may run, and D2H does not undo it. */
  lemma SharedDestination(src: seq<int>, dst: seq<int>, out: seq<int>)
    requires |src| == |out| == 2 && |dst| == 1 && src[0] != src[1]
    ensures var b := Collapsed();
            && Executable(b, 2, 1) && !LastReadersWin(b) && !Restores(b, src, dst, out)
            && Apply(ScatterMoves(b), Executed(b, src, dst), out) == [src[1], src[1]]
  {
    var b := Collapsed();
    CollapsedMoves();
    CollapsedRuns(src, dst);
    TwoMoves(Move(0, 0), Move(0, 1), [src[1]], out);
    hide AllMoves;
    hide ScatterMoves;
    hide Executed;
    hide LastReadersWin;
    hide Apply;
    RoundTrip(b, src, dst, out);
  }

  lemma CollapsedRuns(src: seq<int>, dst: seq<int>)
    requires |src| == 2 && |dst| == 1
    ensures Executable(Collapsed(), 2, 1) && Executed(Collapsed(), src, dst) == [src[1]]
  {
    CollapsedMoves();
    hide AllMoves;
    hide Apply;
    TwoMoves(Move(0, 0), Move(1, 0), src, dst);
  }

  lemma TwoMoves(m: Move, n: Move, src: seq<int>, dst: seq<int>)
    requires 0 <= m.from < |src| && 0 <= n.from < |src| && 0 <= m.to < |dst| && 0 <= n.to < |dst|
    ensures Apply([m, n], src, dst) == dst[m.to := src[m.from]][n.to := src[n.from]]
  {
    var once := dst[m.to := src[m.from]];
    assert [m, n][1..] == [n] && [n][1..] == [];
    assert Apply([n], src, once) == Apply([], src, once[n.to := src[n.from]]);
  }

  /** The round trip through the image of a packed plan. */
  lemma ImageRoundTrip(b: BoundPlan, src: seq<int>, out: seq<int>)
    requires b.Canonical() && b.ReadsWithin(|src|) && |out| == |src|
    ensures Fits(ScatterMoves(b), Product(b.Padded()), |out|)
    ensures forall o :: 0 <= o < |src| ==>
              Apply(ScatterMoves(b), Image(b, src), out)[o] == if b.Reads(o) then src[o] else out[o]
  {
    var dst := InitialFill(b);
    WholePlanFits(b, |src|);
    ExecutedIsImage(b, src, dst);
    WholePlanDistinct(b);
    assert LastReadsWin(AllMoves(b));
    LastReadsInvert(AllMoves(b));
    InvertibleExactly(b);
    RoundTrip(b, src, dst, out);
  }

  lemma WholePlanDistinct(b: BoundPlan)
    requires b.Canonical()
    ensures Distinct(AllMoves(b))
  {
    var w := AllRows(b);
    AllRowsOf(b);
    WindowIsBlock(b, w);
    BlockMovesDistinct(BoxOf(b, w), OriginOf(b, w), BlockOf(b, w), b.srcStrides, w.vb * b.srcStrides[0]);
  }

  lemma SourcesRead(b: BoundPlan, o: int)
    requires b.WellFormed()
    ensures ReadBy(AllMoves(b), o) <==> b.Reads(o)
  {
    var to := Dot(b.Lo(), b.dstStrides);
    var ms := ChunkMoves(b, 0, 0, b.extents[0]);
    assert ms == Moves(b.extents, b.srcStrides, b.dstStrides, 0, to);
    if ReadBy(ms, o) {
      var k :| 0 <= k < |ms| && ms[k].from == o;
      var idx := VisitedIsInBox(b.extents, b.srcStrides, b.dstStrides, 0, to, k);
      assert InRange(idx, b.extents) && Dot(idx, b.srcStrides) == o;
    }
    if b.Reads(o) {
      var idx :| InRange(idx, b.extents) && Dot(idx, b.srcStrides) == o;
      BoxIsVisited(b.extents, b.srcStrides, b.dstStrides, 0, to, idx);
      assert ms[Dot(idx, PackedStrides(b.extents))].from == o;
    }
  }
}
