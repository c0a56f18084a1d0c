/** The exclusive-time profiler: nested wrappers partition host wall time. */
module Phases {

  // ---- Python's Counter, in insertion order ----------------------------------------

  datatype Entry = Entry(key: string, value: int)

  function Get(c: seq<Entry>, key: string): int {
    if c == [] then 0 else if c[0].key == key then c[0].value else Get(c[1..], key)
  }

  function Bump(c: seq<Entry>, key: string, delta: int): seq<Entry> {
    if c == [] then [Entry(key, delta)]
    else if c[0].key == key then [Entry(key, c[0].value + delta)] + c[1..]
    else [c[0]] + Bump(c[1..], key, delta)
  }

  function Total(c: seq<Entry>): int {
    if c == [] then 0 else c[0].value + Total(c[1..])
  }

  lemma {:induction false} BumpTotal(c: seq<Entry>, key: string, delta: int)
    ensures Total(Bump(c, key, delta)) == Total(c) + delta
  {
    if c == [] {
      assert Bump(c, key, delta)[1..] == [];
    } else if c[0].key == key {
      assert Bump(c, key, delta)[1..] == c[1..];
    } else {
      assert Bump(c, key, delta)[1..] == Bump(c[1..], key, delta);
      BumpTotal(c[1..], key, delta);
    }
  }

  lemma {:induction false} BumpGet(c: seq<Entry>, key: string, delta: int, other: string)
    ensures Get(Bump(c, key, delta), other) == Get(c, other) + if other == key then delta else 0
  {
    if c != [] && c[0].key != key {
      assert Bump(c, key, delta)[1..] == Bump(c[1..], key, delta);
      BumpGet(c[1..], key, delta, other);
    }
  }

  // ---- executions ---------------------------------------------------------------------

  /** One wrapped call: the clock readings at entry and exit and what its body does. */
  datatype Frame = Frame(category: string, name: string, enter: int, body: Code, exit: int)

  /** A body calls wrapped functions, catching their exceptions or not, and returns or raises. */
  datatype Code = Return | Raise | Call(frame: Frame, caught: bool, next: Code)

  /** The body leaves by an exception. */
  predicate Raises(code: Code) {
    match code
    case Return => false
    case Raise => true
    case Call(f, caught, next) => (Raises(f.body) && !caught) || Raises(next)
  }

  /** An exception of the first call ends the body. */
  predicate Escapes(code: Code)
    requires code.Call?
  {
    Raises(code.frame.body) && !code.caught
  }

  /** The clock's last reading when the body is left, if it was `lo` when entered. */
  function Last(lo: int, code: Code): int
    decreases code
  {
    if !code.Call? then lo
    else if Escapes(code) then code.frame.exit
    else Last(code.frame.exit, code.next)
  }

  /** The readings of what runs, in running order, never decrease from `lo` on. */
  predicate Monotone(lo: int, code: Code)
    decreases code
  {
    if !code.Call? then true else
      var f := code.frame;
      && lo <= f.enter
      && Monotone(f.enter, f.body)
      && Last(f.enter, f.body) <= f.exit
      && (Escapes(code) || Monotone(f.exit, code.next))
  }

  /** The readings of what runs, in running order. */
  function Readings(code: Code): seq<int>
    decreases code
  {
    if !code.Call? then [] else
      [code.frame.enter] + Readings(code.frame.body) + [code.frame.exit]
      + if Escapes(code) then [] else Readings(code.next)
  }

  /** From lo on the list never decreases. */
  predicate Climbs(lo: int, s: seq<int>)
    decreases |s|
  {
    s == [] || (lo <= s[0] && Climbs(s[0], s[1..]))
  }

  function End(lo: int, s: seq<int>): int {
    if s == [] then lo else s[|s| - 1]
  }

  lemma {:induction false} ClimbsConcat(lo: int, a: seq<int>, b: seq<int>)
    ensures Climbs(lo, a + b) <==> Climbs(lo, a) && Climbs(End(lo, a), b)
    ensures End(lo, a + b) == End(End(lo, a), b)
    decreases |a|
  {
    if a == [] {
      assert a + b == b;
    } else {
      assert (a + b)[1..] == a[1..] + b;
      ClimbsConcat(a[0], a[1..], b);
    }
  }

  /** The clock is monotone exactly if the list of its readings never decreases, and its last
      reading is the end of that list. */
  lemma {:induction false} MonotoneExactly(lo: int, code: Code)
    ensures Monotone(lo, code) <==> Climbs(lo, Readings(code))
    ensures Last(lo, code) == End(lo, Readings(code))
    decreases code
  {
    NothingClimbs(lo);
    if code.Call? {
      MonotoneExactly(code.frame.enter, code.frame.body);
      if !Escapes(code) {
        MonotoneExactly(code.frame.exit, code.next);
      }
      hide *;
      CallMonotone(lo, code);
      CallReadings(lo, code);
    } else {
      assert Readings(code) == [];
    }
  }

  lemma CallReadings(lo: int, code: Code)
    requires code.Call?
    ensures var f := code.frame;
            && (Climbs(lo, Readings(code)) <==>
                  && lo <= f.enter && Climbs(f.enter, Readings(f.body)) && End(f.enter, Readings(f.body)) <= f.exit
                  && (Escapes(code) || Climbs(f.exit, Readings(code.next))))
            && End(lo, Readings(code)) == if Escapes(code) then f.exit else End(f.exit, Readings(code.next))
  {
    var f := code.frame;
    var inner, rest := Readings(f.body), if Escapes(code) then [] else Readings(code.next);
    assert Readings(code) == [f.enter] + (inner + ([f.exit] + rest));
    NothingClimbs(f.exit);
    hide *;
    CallClimbs(lo, f.enter, inner, f.exit, rest);
  }

  lemma NothingClimbs(lo: int)
    ensures Climbs(lo, []) && End(lo, []) == lo
  {
  }

  lemma CallClimbs(lo: int, enter: int, inner: seq<int>, exit: int, rest: seq<int>)
    ensures Climbs(lo, [enter] + (inner + ([exit] + rest))) <==>
              lo <= enter && Climbs(enter, inner) && End(enter, inner) <= exit && Climbs(exit, rest)
    ensures End(lo, [enter] + (inner + ([exit] + rest))) == End(exit, rest)
  {
    ClimbsConcat(lo, [enter], inner + ([exit] + rest));
    ClimbsConcat(enter, inner, [exit] + rest);
    ClimbsConcat(End(enter, inner), [exit], rest);
    assert [enter][1..] == [] && [exit][1..] == [];
  }

  lemma CallMonotone(lo: int, code: Code)
    requires code.Call?
    ensures var f := code.frame;
            Monotone(lo, code) <==>
              && lo <= f.enter && Monotone(f.enter, f.body) && Last(f.enter, f.body) <= f.exit
              && (Escapes(code) || Monotone(f.exit, code.next))
    ensures Last(lo, code) == if Escapes(code) then code.frame.exit else Last(code.frame.exit, code.next)
  {
  }

  // ---- the reference: who owns an instant -----------------------------------------------

  /** Category of the innermost wrapped call running at instant t. */
  function Owner(outer: string, code: Code, t: int): string
    decreases code
  {
    if !code.Call? then outer
    else if code.frame.enter <= t < code.frame.exit then
      Owner(code.frame.category, code.frame.body, t)
    else if Escapes(code) then outer
    else Owner(outer, code.next, t)
  }

  /** How many instants of [begin, end) category c owns. */
  function Owned(outer: string, code: Code, begin: int, end: int, c: string): nat
    decreases end - begin
  {
    if begin >= end then 0 else
      (if Owner(outer, code, end - 1) == c then 1 else 0) + Owned(outer, code, begin, end - 1, c)
  }

  /** How many calls of wrapped functions named n run. */
  function Calls(code: Code, n: string): nat
  {
    if !code.Call? then 0 else
      (if code.frame.name == n then 1 else 0) + Calls(code.frame.body, n)
      + if Escapes(code) then 0 else Calls(code.next, n)
  }

  lemma {:induction false} LastNotBefore(lo: int, code: Code)
    requires Monotone(lo, code)
    ensures lo <= Last(lo, code)
    decreases code
  {
    if code.Call? {
      LastNotBefore(code.frame.enter, code.frame.body);
      if !Escapes(code) {
        LastNotBefore(code.frame.exit, code.next);
      }
    }
  }

  /** Outside the span of the calls it makes, a body is its own innermost category. */
  lemma {:induction false} OwnerOutside(outer: string, lo: int, code: Code, t: int)
    requires Monotone(lo, code) && (t < lo || Last(lo, code) <= t)
    ensures Owner(outer, code, t) == outer
    decreases code
  {
    if code.Call? {
      var f := code.frame;
      LastNotBefore(f.enter, f.body);
      if !Escapes(code) {
        LastNotBefore(f.exit, code.next);
        OwnerOutside(outer, f.exit, code.next, t);
      }
    }
  }

  lemma {:induction false} OwnedSplits(outer: string, code: Code, begin: int, mid: int, end: int, c: string)
    requires begin <= mid <= end
    ensures Owned(outer, code, begin, end, c) == Owned(outer, code, begin, mid, c) + Owned(outer, code, mid, end, c)
    decreases end - mid
  {
    if mid < end {
      OwnedSplits(outer, code, begin, mid, end - 1, c);
    }
  }

  /** Where two executions have the same owners they have the same measure. */
  lemma {:induction false} OwnedSame(outer: string, code: Code, outer': string, code': Code,
                                     begin: int, end: int, c: string)
    requires forall t :: begin <= t < end ==> Owner(outer, code, t) == Owner(outer', code', t)
    ensures Owned(outer, code, begin, end, c) == Owned(outer', code', begin, end, c)
    decreases end - begin
  {
    if begin < end {
      OwnedSame(outer, code, outer', code', begin, end - 1, c);
    }
  }

  lemma {:induction false} OwnedAll(outer: string, code: Code, begin: int, end: int, who: string, c: string)
    requires begin <= end && forall t :: begin <= t < end ==> Owner(outer, code, t) == who
    ensures Owned(outer, code, begin, end, c) == (if c == who then end - begin else 0)
    decreases end - begin
  {
    if begin < end {
      OwnedAll(outer, code, begin, end - 1, who, c);
    }
  }

  /** The measure of a body whose first step is a call, piece by piece. */
  lemma OwnedByFirstCall(outer: string, lo: int, code: Code, c: string)
    requires Monotone(lo, code) && code.Call?
    ensures var f := code.frame;
            Owned(outer, code, lo, Last(lo, code), c)
            == (if c == outer then f.enter - lo else 0)
               + Owned(f.category, f.body, f.enter, Last(f.enter, f.body), c)
               + (if c == f.category then f.exit - Last(f.enter, f.body) else 0)
               + if Escapes(code) then 0 else Owned(outer, code.next, f.exit, Last(f.exit, code.next), c)
  {
    var f, end := code.frame, Last(lo, code);
    var bodyEnd := Last(f.enter, f.body);
    LastNotBefore(f.enter, f.body);
    if !Escapes(code) {
      LastNotBefore(f.exit, code.next);
    }
    OwnedSplits(outer, code, lo, f.enter, end, c);
    OwnedSplits(outer, code, f.enter, f.exit, end, c);
    forall t | lo <= t < f.enter ensures Owner(outer, code, t) == outer {
      if !Escapes(code) {
        OwnerOutside(outer, f.exit, code.next, t);
      }
    }
    OwnedAll(outer, code, lo, f.enter, outer, c);
    OwnedSame(outer, code, f.category, f.body, f.enter, f.exit, c);
    OwnedSplits(f.category, f.body, f.enter, bodyEnd, f.exit, c);
    forall t | bodyEnd <= t < f.exit ensures Owner(f.category, f.body, t) == f.category {
      OwnerOutside(f.category, f.enter, f.body, t);
    }
    OwnedAll(f.category, f.body, bodyEnd, f.exit, f.category, c);
    if !Escapes(code) {
      OwnedSame(outer, code, outer, code.next, f.exit, end, c);
    }
  }

  // ---- the profiler ----------------------------------------------------------------------

  const FRONTEND := "frontend_and_other_validation"

  class Profiler {
    var active: bool
    var times: seq<Entry>
    var counts: seq<Entry>
    var category: string
    var last: int

    constructor ()
      ensures !active
    {
      active, times, counts, category, last := false, [], [], "", 0;
    }

    method Account(now: int)
      modifies this`times, this`last
      ensures last == now
      ensures Total(times) == old(Total(times)) + (now - old(last))
      ensures forall c :: Get(times, c) == old(Get(times, c)) + if c == category then now - old(last) else 0
    {
      BumpTotal(times, category, now - last);
      forall c ensures Get(Bump(times, category, now - last), c)
                    == Get(times, c) + if c == category then now - last else 0
      {
        BumpGet(times, category, now - last, c);
      }
      times := Bump(times, category, now - last);
      last := now;
    }

    /** The wrapper: account, switch category, run, and in `finally` account and restore. */
    method Wrapper(f: Frame) returns (raised: bool)
      modifies this
      ensures raised == Raises(f.body)
      ensures category == old(category) && active == old(active)
      ensures !active ==> times == old(times) && counts == old(counts) && last == old(last)
      ensures active ==> last == f.exit
      ensures active ==> Total(times) - last == old(Total(times) - last)
      ensures active ==> forall n :: Get(counts, n) == old(Get(counts, n)) + (if n == f.name then 1 else 0)
                                                      + Calls(f.body, n)
      ensures active && Monotone(f.enter, f.body) ==> forall c ::
                Get(times, c) == old(Get(times, c))
                + (if c == category then f.enter - old(last) else 0)
                + Owned(f.category, f.body, f.enter, Last(f.enter, f.body), c)
                + (if c == f.category then f.exit - Last(f.enter, f.body) else 0)
      decreases f, 1
    {
      if !active {
        raised := Body(f.body);
        return;
      }
      Account(f.enter);
      var previous := category;
      category := f.category;
      forall n ensures Get(Bump(counts, f.name, 1), n) == Get(counts, n) + if n == f.name then 1 else 0 {
        BumpGet(counts, f.name, 1, n);
      }
      counts := Bump(counts, f.name, 1);
      raised := Body(f.body);
      Account(f.exit);
      category := previous;
    }

    /** The wrapped function's own code: its calls until the first escaping exception. */
    method Body(code: Code) returns (raised: bool)
      modifies this
      ensures raised == Raises(code)
      ensures category == old(category) && active == old(active)
      ensures !active ==> times == old(times) && counts == old(counts) && last == old(last)
      ensures active ==> last == Last(old(last), code)
      ensures active ==> Total(times) - last == old(Total(times) - last)
      ensures active ==> forall n :: Get(counts, n) == old(Get(counts, n)) + Calls(code, n)
      ensures active && Monotone(old(last), code) ==> forall c ::
                Get(times, c) == old(Get(times, c)) + Owned(category, code, old(last), last, c)
      decreases code, 0
    {
      match code {
        case Return =>
          return false;
        case Raise =>
          return true;
        case Call(f, caught, next) =>
          ghost var lo := last;
          raised := Wrapper(f);
          if active && Monotone(lo, code) {
            forall c { OwnedByFirstCall(category, lo, code, c); }
          }
          if raised && !caught {
            return true;
          }
          raised := Body(next);
      }
    }

    /** call: time one request.  Its final assertion, that the categories sum
        to the wall time, holds whatever the clock does and whatever raises. */
    method Request(start: int, code: Code, end: int) returns (raised: bool)
      modifies this
      ensures raised == Raises(code) && !active
      ensures Total(times) == end - start
      ensures forall n :: Get(counts, n) == Calls(code, n)
      ensures Monotone(start, code) && Last(start, code) <= end ==>
                forall c :: Get(times, c) == Owned(FRONTEND, code, start, end, c)
    {
      times, counts := [], [];
      category := FRONTEND;
      last := start;
      active := true;
      raised := Body(code);
      ghost var bodyEnd := last;
      Account(end);
      active := false;
      if Monotone(start, code) && bodyEnd <= end {
        LastNotBefore(start, code);
        forall c ensures Get(times, c) == Owned(FRONTEND, code, start, end, c) {
          OwnedSplits(FRONTEND, code, start, bodyEnd, end, c);
          forall t | bodyEnd <= t < end ensures Owner(FRONTEND, code, t) == FRONTEND {
            OwnerOutside(FRONTEND, start, code, t);
          }
          OwnedAll(FRONTEND, code, bodyEnd, end, FRONTEND, c);
        }
      }
    }
  }

  // ---- patching and undoing ------------------------------------------------------------------

  /** A callable: an original, or the wrapper made for another callable. */
  datatype Callable = Original(id: int) | Wrapping(of: Callable, category: string)

  datatype Attribute = Attribute(owner: string, name: string)

  datatype Undo = Undo(attribute: Attribute, original: Callable)

  /** The attributes after the recorded patches are undone, newest first. */
  function Restored(attrs: map<Attribute, Callable>, undo: seq<Undo>): map<Attribute, Callable>
    decreases |undo|
  {
    if undo == [] then attrs else
      var u := undo[|undo| - 1];
      Restored(attrs[u.attribute := u.original], undo[..|undo| - 1])
  }

  class Patches {
    var attrs: map<Attribute, Callable>
    var undo: seq<Undo>
    var wrappers: map<Callable, Callable>

    constructor (initial: map<Attribute, Callable>)
      ensures attrs == initial && undo == [] && wrappers == map[]
    {
      attrs, undo, wrappers := initial, [], map[];
    }

    /** Every cached wrapper wraps its key. */
    ghost predicate Valid()
      reads this
    {
      forall k :: k in wrappers ==> wrappers[k].Wrapping? && wrappers[k].of == k
    }

    /** A missing attribute is skipped; a callable already wrapped elsewhere keeps its wrapper. */
    method Wrap(a: Attribute, category: string)
      requires Valid()
      modifies this
      ensures Valid()
      ensures Restored(attrs, undo) == old(Restored(attrs, undo))
      ensures a !in old(attrs) ==> attrs == old(attrs) && undo == old(undo) && wrappers == old(wrappers)
      ensures a in old(attrs) ==>
                && undo == old(undo) + [Undo(a, old(attrs)[a])]
                && attrs.Keys == old(attrs).Keys
                && (forall b :: b in attrs && b != a ==> attrs[b] == old(attrs)[b])
                && attrs[a].Wrapping? && attrs[a].of == old(attrs)[a]
                && (old(attrs)[a] in old(wrappers) ==> attrs[a] == old(wrappers)[old(attrs)[a]])
                && (old(attrs)[a] !in old(wrappers) ==> attrs[a].category == category)
                && wrappers == old(wrappers)[old(attrs)[a] := attrs[a]]
    {
      if a !in attrs {
        return;
      }
      var original := attrs[a];
      var wrapper;
      if original in wrappers {
        wrapper := wrappers[original];
      } else {
        wrapper := Wrapping(original, category);
        wrappers := wrappers[original := wrapper];
      }
      ghost var before, log := attrs, undo;
      undo := undo + [Undo(a, original)];
      attrs := attrs[a := wrapper];
      assert undo[..|undo| - 1] == log;
      assert attrs[a := original] == before;
    }

    /** __exit__: undo in reverse order. */
    method Exit()
      modifies this`attrs
      ensures attrs == old(Restored(attrs, undo))
    {
      var i := |undo|;
      assert undo[..i] == undo;
      while i > 0
        invariant 0 <= i <= |undo|
        invariant Restored(attrs, undo[..i]) == old(Restored(attrs, undo))
      {
        i := i - 1;
        assert undo[..i + 1][..i] == undo[..i];
        attrs := attrs[undo[i].attribute := undo[i].original];
      }
    }
  }

  /** A whole session: any patches, in any order, twice on the same attribute or
      not, leave no trace. */
  method Session(p: Patches, requests: seq<(Attribute, string)>)
    requires p.Valid() && p.undo == []
    modifies p
    ensures p.attrs == old(p.attrs)
  {
    var i := 0;
    while i < |requests|
      invariant 0 <= i <= |requests| && p.Valid()
      invariant Restored(p.attrs, p.undo) == old(p.attrs)
    {
      p.Wrap(requests[i].0, requests[i].1);
      i := i + 1;
    }
    p.Exit();
  }
}
