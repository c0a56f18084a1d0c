/** What a list of moves leaves at one offset, and what remains of it when several
    workers' lists are interleaved.
 */
module Interleaving {
  import opened Common
  import opened Relocation

  // ---- the last write --------------------------------------------------------------

  /** Source offset of the last move to destination offset o. */
  function LastWrite(ms: seq<Move>, o: int): Option<int> {
    if ms == [] then None
    else if ms[|ms| - 1].to == o then Some(ms[|ms| - 1].from)
    else LastWrite(ms[..|ms| - 1], o)
  }

  lemma {:induction false} LastWriteAt(ms: seq<Move>, o: int) returns (k: int)
    ensures LastWrite(ms, o).Some? ==> 0 <= k < |ms| && ms[k] == Move(LastWrite(ms, o).value, o)
    ensures LastWrite(ms, o).None? ==> k == -1
    ensures forall l :: k < l < |ms| ==> ms[l].to != o
  {
    k := -1;
    if ms != [] {
      var last := |ms| - 1;
      if ms[last].to == o {
        k := last;
      } else {
        k := LastWriteAt(ms[..last], o);
        assert forall l :: 0 <= l < last ==> ms[..last][l] == ms[l];
      }
    }
  }

  /** The last write to o is a move to o with no later move to o; there is none exactly
      when no move goes to o. */
  lemma LastWriteIs(ms: seq<Move>, o: int)
    ensures LastWrite(ms, o).Some? ==>
              exists k :: 0 <= k < |ms| && ms[k] == Move(LastWrite(ms, o).value, o)
                          && forall l :: k < l < |ms| ==> ms[l].to != o
    ensures LastWrite(ms, o).None? <==> forall k :: 0 <= k < |ms| ==> ms[k].to != o
  {
    hide LastWrite;
    var k := LastWriteAt(ms, o);
    if LastWrite(ms, o).Some? {
      assert ms[k].to == o;
    }
  }

  /** Applying moves leaves at o what the last write put there, or what was there before. */
  lemma {:induction false} ApplyIsLastWrite(ms: seq<Move>, src: seq<int>, dst: seq<int>, o: int)
    requires Fits(ms, |src|, |dst|) && 0 <= o < |dst|
    ensures LastWrite(ms, o).Some? ==> 0 <= LastWrite(ms, o).value < |src|
    ensures Apply(ms, src, dst)[o] ==
            if LastWrite(ms, o).Some? then src[LastWrite(ms, o).value] else dst[o]
  {
    if ms != [] {
      var init, m := ms[..|ms| - 1], ms[|ms| - 1];
      assert ms == init + [m];
      ApplyIsLastWrite(init, src, dst, o);
      ApplyConcat(init, [m], src, dst);
      assert Apply([m], src, Apply(init, src, dst)) == Apply(init, src, dst)[m.to := src[m.from]] by {
        assert [m][1..] == [];
      }
    }
  }

  lemma {:induction false} LastWriteConcat(a: seq<Move>, b: seq<Move>, o: int)
    ensures LastWrite(a + b, o) == if LastWrite(b, o).Some? then LastWrite(b, o) else LastWrite(a, o)
  {
    if b == [] {
      assert a + b == a;
    } else {
      var init := b[..|b| - 1];
      assert (a + b)[..|a + b| - 1] == a + init;
      LastWriteConcat(a, init, o);
    }
  }

  /** Shifting every destination by d shifts the last writes by d. */
  lemma {:induction false} LastWriteShifted(a: seq<Move>, b: seq<Move>, d: int, o: int)
    requires |a| == |b| && forall k :: 0 <= k < |a| ==> b[k] == Move(a[k].from, a[k].to + d)
    ensures LastWrite(b, o + d) == LastWrite(a, o)
  {
    if a != [] {
      LastWriteShifted(a[..|a| - 1], b[..|b| - 1], d, o);
    }
  }

  /** With distinct destinations the order of the moves does not matter. */
  lemma LastWriteAnyOrder(a: seq<Move>, b: seq<Move>, o: int)
    requires Distinct(a) && multiset(a) == multiset(b)
    ensures LastWrite(b, o) == LastWrite(a, o)
  {
    forall k | 0 <= k < |b| ensures exists i :: 0 <= i < |a| && a[i] == b[k] {
      assert b[k] in multiset(a);
    }
    forall k | 0 <= k < |a| ensures exists i :: 0 <= i < |b| && b[i] == a[k] {
      assert a[k] in multiset(b);
    }
    LastWriteIs(a, o);
    LastWriteIs(b, o);
  }

  // ---- several workers ---------------------------------------------------------------

  /** The workers' lists, one after another. */
  function Concat(parts: seq<seq<Move>>): seq<Move> {
    if parts == [] then [] else parts[0] + Concat(parts[1..])
  }

  /** Workers that write the same element leave the same source element there. */
  ghost predicate Agree(parts: seq<seq<Move>>) {
    forall v, w, o :: 0 <= v < w < |parts| && LastWrite(parts[v], o).Some? && LastWrite(parts[w], o).Some? ==>
      LastWrite(parts[v], o) == LastWrite(parts[w], o)
  }

  /** s interleaves the lists, keeping the order within each. */
  ghost predicate IsShuffle(s: seq<Move>, parts: seq<seq<Move>>)
    decreases |s|
  {
    if s == [] then forall w :: 0 <= w < |parts| ==> parts[w] == []
    else exists w :: 0 <= w < |parts| && parts[w] != [] && parts[w][0] == s[0]
                     && IsShuffle(s[1..], parts[w := parts[w][1..]])
  }

  lemma {:induction false} ConcatAround(parts: seq<seq<Move>>, w: nat)
    requires w < |parts|
    ensures Concat(parts) == Concat(parts[..w]) + parts[w] + Concat(parts[w + 1..])
  {
    if w == 0 {
      assert parts[..0] == [];
    } else {
      ConcatAround(parts[1..], w - 1);
      assert parts[1..][..w - 1] == parts[..w][1..] && parts[1..][w..] == parts[w + 1..];
    }
  }

  lemma ConcatShrinks(parts: seq<seq<Move>>, w: nat)
    requires w < |parts| && parts[w] != []
    ensures |Concat(parts[w := parts[w][1..]])| == |Concat(parts)| - 1
  {
    var rest: seq<seq<Move>> := parts[w := parts[w][1..]];
    ConcatAround(parts, w);
    ConcatAround(rest, w);
    assert rest[..w] == parts[..w] && rest[w + 1..] == parts[w + 1..];
  }

  lemma PartFits(parts: seq<seq<Move>>, w: nat, srcLen: int, dstLen: int)
    requires w < |parts| && Fits(Concat(parts), srcLen, dstLen)
    ensures Fits(parts[w], srcLen, dstLen)
  {
    ConcatAround(parts, w);
    var before, after := Concat(parts[..w]), Concat(parts[w + 1..]);
    hide Concat;
    forall k | 0 <= k < |parts[w]| ensures 0 <= parts[w][k].from < srcLen && 0 <= parts[w][k].to < dstLen {
      assert parts[w][k] == Concat(parts)[|before| + k];
    }
  }

  lemma {:induction false} ConcatFits(parts: seq<seq<Move>>, srcLen: int, dstLen: int)
    requires forall w :: 0 <= w < |parts| ==> Fits(parts[w], srcLen, dstLen)
    ensures Fits(Concat(parts), srcLen, dstLen)
  {
    if parts != [] {
      ConcatFits(parts[1..], srcLen, dstLen);
    }
  }

  /** Taking the first write of worker w first. */
  lemma ShuffleStep(m: Move, s: seq<Move>, parts: seq<seq<Move>>, w: nat)
    requires w < |parts| && parts[w] != [] && parts[w][0] == m && IsShuffle(s, parts[w := parts[w][1..]])
    ensures IsShuffle([m] + s, parts)
  {
    assert ([m] + s)[1..] == s;
  }

  /** An idle worker changes nothing. */
  lemma {:induction false} ShuffleIdle(s: seq<Move>, parts: seq<seq<Move>>)
    requires IsShuffle(s, parts)
    ensures IsShuffle(s, [[]] + parts)
    decreases |s|
  {
    if s != [] {
      var w :| 0 <= w < |parts| && parts[w] != [] && parts[w][0] == s[0]
               && IsShuffle(s[1..], parts[w := parts[w][1..]]);
      ShuffleIdle(s[1..], parts[w := parts[w][1..]]);
      assert ([[]] + parts)[w + 1 := parts[w][1..]] == [[]] + parts[w := parts[w][1..]];
      assert ([[]] + parts)[w + 1] == parts[w];
    }
  }

  /** Running the workers in turn is one interleaving. */
  lemma {:induction false} ConcatIsShuffle(parts: seq<seq<Move>>)
    ensures IsShuffle(Concat(parts), parts)
    decreases |parts|, if parts == [] then 0 else |parts[0]|
  {
    if parts != [] {
      if parts[0] == [] {
        assert Concat(parts) == Concat(parts[1..]);
        ConcatIsShuffle(parts[1..]);
        ShuffleIdle(Concat(parts[1..]), parts[1..]);
        assert [[]] + parts[1..] == parts;
      } else {
        var rest: seq<seq<Move>> := parts[0 := parts[0][1..]];
        ConcatIsShuffle(rest);
        assert rest[1..] == parts[1..];
        assert Concat(parts) == [parts[0][0]] + Concat(rest);
        ShuffleStep(parts[0][0], Concat(rest), parts, 0);
      }
    }
  }

  /** Any worker may be the last to run. */
  lemma {:induction false} ShuffleThen(s: seq<Move>, parts: seq<seq<Move>>, r: nat)
    requires r < |parts| && IsShuffle(s, parts[r := []])
    ensures IsShuffle(s + parts[r], parts)
    decreases |s|, |parts[r]|
  {
    var others: seq<seq<Move>> := parts[r := []];
    if s != [] {
      var w :| 0 <= w < |others| && others[w] != [] && others[w][0] == s[0]
               && IsShuffle(s[1..], others[w := others[w][1..]]);
      assert w != r && others[w := others[w][1..]] == parts[w := parts[w][1..]][r := []];
      ShuffleThen(s[1..], parts[w := parts[w][1..]], r);
      ShuffleStep(s[0], s[1..] + parts[r], parts, w);
      assert [s[0]] + (s[1..] + parts[r]) == s + parts[r];
    } else if parts[r] != [] {
      assert parts[r := parts[r][1..]][r := []] == others;
      ShuffleThen([], parts[r := parts[r][1..]], r);
      assert [] + parts[r][1..] == parts[r][1..];
      ShuffleStep(parts[r][0], parts[r][1..], parts, r);
      assert [parts[r][0]] + parts[r][1..] == [] + parts[r];
    } else {
      assert s + parts[r] == [] && parts == others;
    }
  }

  lemma FirstWrite(s: seq<Move>, o: int)
    requires s != []
    ensures LastWrite(s, o) == if LastWrite(s[1..], o).Some? then LastWrite(s[1..], o)
                               else if s[0].to == o then Some(s[0].from) else None
  {
    LastWriteConcat([s[0]], s[1..], o);
    assert [s[0]] + s[1..] == s && [s[0]][..0] == [];
    assert LastWrite([s[0]], o) == if s[0].to == o then Some(s[0].from) else None;
  }

  /** What an interleaving leaves at o, one of the workers left there; nothing, if none writes o. */
  lemma {:induction false} ShuffleLastWrite(s: seq<Move>, parts: seq<seq<Move>>, o: int) returns (w: int)
    requires IsShuffle(s, parts)
    ensures LastWrite(s, o).Some? ==> 0 <= w < |parts| && LastWrite(parts[w], o) == LastWrite(s, o)
    ensures LastWrite(s, o).None? ==> forall v :: 0 <= v < |parts| ==> LastWrite(parts[v], o).None?
    decreases |s|
  {
    w := 0;
    if s != [] {
      var v :| 0 <= v < |parts| && parts[v] != [] && parts[v][0] == s[0]
               && IsShuffle(s[1..], parts[v := parts[v][1..]]);
      var rest: seq<seq<Move>> := parts[v := parts[v][1..]];
      w := ShuffleLastWrite(s[1..], rest, o);
      FirstWrite(s, o);
      FirstWrite(parts[v], o);
      assert forall u :: 0 <= u < |parts| && u != v ==> rest[u] == parts[u];
      assert rest[v] == parts[v][1..];
      if LastWrite(s[1..], o).None? && s[0].to == o {
        w := v;
      }
    }
  }

  lemma {:induction false} ShuffleFits(s: seq<Move>, parts: seq<seq<Move>>, srcLen: int, dstLen: int)
    requires IsShuffle(s, parts) && forall w :: 0 <= w < |parts| ==> Fits(parts[w], srcLen, dstLen)
    ensures Fits(s, srcLen, dstLen)
    decreases |s|
  {
    if s != [] {
      var w :| 0 <= w < |parts| && parts[w] != [] && parts[w][0] == s[0]
               && IsShuffle(s[1..], parts[w := parts[w][1..]]);
      ShuffleFits(s[1..], parts[w := parts[w][1..]], srcLen, dstLen);
      assert forall k :: 0 < k < |s| ==> s[k] == s[1..][k - 1];
    }
  }

  /** Every interleaving of workers that agree has the effect of running them in turn. */
  lemma ShuffleSame(s: seq<Move>, parts: seq<seq<Move>>, src: seq<int>, dst: seq<int>)
    requires IsShuffle(s, parts) && Agree(parts) && Fits(Concat(parts), |src|, |dst|)
    ensures Fits(s, |src|, |dst|) && Apply(s, src, dst) == Apply(Concat(parts), src, dst)
  {
    forall w | 0 <= w < |parts| ensures Fits(parts[w], |src|, |dst|) {
      PartFits(parts, w, |src|, |dst|);
    }
    ShuffleFits(s, parts, |src|, |dst|);
    ConcatIsShuffle(parts);
    hide Apply;
    hide Concat;
    hide IsShuffle;
    hide LastWrite;
    forall o | 0 <= o < |dst| ensures Apply(s, src, dst)[o] == Apply(Concat(parts), src, dst)[o] {
      var v := ShuffleLastWrite(s, parts, o);
      var w := ShuffleLastWrite(Concat(parts), parts, o);
      ApplyIsLastWrite(s, src, dst, o);
      ApplyIsLastWrite(Concat(parts), src, dst, o);
    }
  }

  // ---- real workers -----------------------------------------------------------------------

  /** However the workers go on from `rest`, `done` and that together interleave `parts`. */
  ghost predicate Continues(done: seq<Move>, rest: seq<seq<Move>>, parts: seq<seq<Move>>) {
    forall s :: IsShuffle(s, rest) ==> IsShuffle(done + s, parts)
  }

  lemma NothingDone(parts: seq<seq<Move>>)
    ensures Continues([], parts, parts)
  {
    forall s | IsShuffle(s, parts) ensures IsShuffle([] + s, parts) {
      assert [] + s == s;
    }
  }

  lemma AllDone(done: seq<Move>, rest: seq<seq<Move>>, parts: seq<seq<Move>>)
    requires Continues(done, rest, parts) && forall w :: 0 <= w < |rest| ==> rest[w] == []
    ensures IsShuffle(done, parts)
  {
    assert IsShuffle([], rest) && done + [] == done;
  }

  /** Worker w performs its next write. */
  lemma WorkerStep(done: seq<Move>, rest: seq<seq<Move>>, parts: seq<seq<Move>>, w: nat)
    requires Continues(done, rest, parts) && w < |rest| && rest[w] != []
    ensures Continues(done + [rest[w][0]], rest[w := rest[w][1..]], parts)
  {
    var m: Move := rest[w][0];
    forall s | IsShuffle(s, rest[w := rest[w][1..]]) ensures IsShuffle(done + [m] + s, parts) {
      ShuffleStep(m, s, rest, w);
      assert done + ([m] + s) == done + [m] + s;
    }
  }

  /** Threads writing one buffer: at each moment any worker that still has writes to do
      performs its next one. */
  method RunWorkers(parts: seq<seq<Move>>, src: seq<int>, dst: array<int>)
    requires Agree(parts) && Fits(Concat(parts), |src|, dst.Length)
    modifies dst
    ensures dst[..] == Apply(Concat(parts), src, old(dst[..]))
  {
    var rest: seq<seq<Move>> := parts;
    var live := set w | 0 <= w < |rest| && rest[w] != [];
    ghost var done: seq<Move> := [];
    NothingDone(parts);
    forall w | 0 <= w < |parts| ensures Fits(parts[w], |src|, dst.Length) {
      PartFits(parts, w, |src|, dst.Length);
    }
    hide Continues;
    hide Apply;
    hide Concat;
    hide Agree;
    while live != {}
      invariant live == set w | 0 <= w < |rest| && rest[w] != []
      invariant forall w :: 0 <= w < |rest| ==> Fits(rest[w], |src|, dst.Length)
      invariant Fits(done, |src|, dst.Length) && dst[..] == Apply(done, src, old(dst[..]))
      invariant Continues(done, rest, parts)
      decreases |Concat(rest)|
    {
      var w :| w in live;
      var m: Move := rest[w][0];
      ConcatShrinks(rest, w);
      Performed(done, m, src, old(dst[..]));
      WorkerStep(done, rest, parts, w);
      dst[m.to] := src[m.from];
      done := done + [m];
      rest := rest[w := rest[w][1..]];
      live := set v | 0 <= v < |rest| && rest[v] != [];
    }
    forall w | 0 <= w < |rest| ensures rest[w] == [] {
      assert w !in live;
    }
    AllDone(done, rest, parts);
    ShuffleSame(done, parts, src, old(dst[..]));
  }

  lemma Performed(done: seq<Move>, m: Move, src: seq<int>, dst: seq<int>)
    requires Fits(done, |src|, |dst|) && 0 <= m.from < |src| && 0 <= m.to < |dst|
    ensures Fits(done + [m], |src|, |dst|)
    ensures Apply(done + [m], src, dst) == Apply(done, src, dst)[m.to := src[m.from]]
  {
    ApplyConcat(done, [m], src, dst);
    assert Apply([m], src, Apply(done, src, dst)) == Apply(done, src, dst)[m.to := src[m.from]] by {
      assert [m][1..] == [];
    }
  }
}
