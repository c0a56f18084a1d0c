/** The first 1.0 crossing of a sampled speedup curve.

    x is the interpolation coordinate (log2 of the ratio); only that it strictly
    increases along the samples is used.
 */
module Crossing {
  import opened Common

  datatype Point = Point(x: real, s: real)

  ghost predicate Increasing(points: seq<Point>) {
    forall i, j :: 0 <= i < j < |points| ==> points[i].x < points[j].x
  }

  /** The loop's test on segment i. */
  predicate Brackets(points: seq<Point>, i: int)
    requires 0 <= i < |points| - 1
  {
    (points[i].s - 1.0) * (points[i + 1].s - 1.0) <= 0.0 && points[i].s != points[i + 1].s
  }

  /** Where the straight line through segment i has value 1. */
  function Interpolate(a: Point, b: Point): real
    requires a.s != b.s
  {
    a.x + (1.0 - a.s) / (b.s - a.s) * (b.x - a.x)
  }

  /** The piecewise-linear curve has value 1 at x on segment i. */
  ghost predicate MeetsOn(points: seq<Point>, i: int, x: real)
    requires Increasing(points) && 0 <= i < |points| - 1
  {
    var a, b := points[i], points[i + 1];
    a.x <= x <= b.x && a.s + (x - a.x) / (b.x - a.x) * (b.s - a.s) == 1.0
  }

  ghost predicate FlatAtOne(points: seq<Point>, i: int)
    requires 0 <= i < |points| - 1
  {
    points[i].s == 1.0 && points[i + 1].s == 1.0
  }

  method Find(points: seq<Point>) returns (r: Option<real>, ghost at: int)
    ensures r.None? ==> forall i :: 0 <= i < |points| - 1 ==> !Brackets(points, i)
    ensures r.Some? ==>
              && 0 <= at < |points| - 1 && Brackets(points, at)
              && (forall i :: 0 <= i < at ==> !Brackets(points, i))
              && r.value == Interpolate(points[at], points[at + 1])
  {
    at := 0;
    var i := 0;
    while i < |points| - 1
      invariant 0 <= i && (i <= |points| - 1 || |points| == 0)
      invariant forall k :: 0 <= k < i && k < |points| - 1 ==> !Brackets(points, k)
    {
      if Brackets(points, i) {
        return Some(Interpolate(points[i], points[i + 1])), i;
      }
      i := i + 1;
    }
    r := None;
  }

  // ---- when there is no crossing --------------------------------------------------

  ghost predicate OneSided(points: seq<Point>) {
    || |points| < 2
    || (forall i :: 0 <= i < |points| ==> points[i].s > 1.0)
    || (forall i :: 0 <= i < |points| ==> points[i].s < 1.0)
    || (forall i :: 0 <= i < |points| ==> points[i].s == 1.0)
  }

  lemma SameSide(a: real, b: real)
    requires !((a - 1.0) * (b - 1.0) <= 0.0 && a != b)
    ensures (a > 1.0 && b > 1.0) || (a < 1.0 && b < 1.0) || (a == 1.0 && b == 1.0)
  {
    MulSign(a - 1.0, b - 1.0);
  }

  lemma MulSign(a: real, b: real)
    ensures a > 0.0 && b > 0.0 ==> a * b > 0.0
    ensures a < 0.0 && b < 0.0 ==> a * b > 0.0
    ensures a <= 0.0 && b >= 0.0 ==> a * b <= 0.0
    ensures a >= 0.0 && b <= 0.0 ==> a * b <= 0.0
    ensures a >= 0.0 && b >= 0.0 ==> a * b >= 0.0
  {
  }

  lemma {:induction false} NoBracketOneSided(points: seq<Point>, k: nat)
    requires k < |points| && forall i :: 0 <= i < |points| - 1 ==> !Brackets(points, i)
    ensures points[0].s > 1.0 <==> points[k].s > 1.0
    ensures points[0].s < 1.0 <==> points[k].s < 1.0
  {
    if k > 0 {
      NoBracketOneSided(points, k - 1);
      assert !Brackets(points, k - 1);
      SameSide(points[k - 1].s, points[k].s);
    }
  }

  /** crossing returns None exactly for fewer than two points, or all above, all
      below, or all at 1. */
  lemma NoneIsOneSided(points: seq<Point>)
    ensures (forall i :: 0 <= i < |points| - 1 ==> !Brackets(points, i)) <==> OneSided(points)
  {
    if |points| >= 2 && forall i :: 0 <= i < |points| - 1 ==> !Brackets(points, i) {
      forall k | 0 <= k < |points|
        ensures (points[0].s > 1.0 <==> points[k].s > 1.0) && (points[0].s < 1.0 <==> points[k].s < 1.0)
      {
        NoBracketOneSided(points, k);
      }
    }
    if OneSided(points) {
      forall i | 0 <= i < |points| - 1 ensures !Brackets(points, i) {
        MulSign(points[i].s - 1.0, points[i + 1].s - 1.0);
      }
    }
  }

  // ---- where the crossing is ---------------------------------------------------------

  /** The fraction of the bracketing segment lies in [0, 1]. */
  lemma FractionInUnit(s0: real, s1: real)
    requires (s0 - 1.0) * (s1 - 1.0) <= 0.0 && s0 != s1
    ensures 0.0 <= (1.0 - s0) / (s1 - s0) <= 1.0
  {
    var t := (1.0 - s0) / (s1 - s0);
    assert t * (s1 - s0) == 1.0 - s0;
    MulSign(s0 - 1.0, s1 - 1.0);
    if s0 < s1 {
      assert s0 <= 1.0 <= s1;
      UnitRatio(t, s1 - s0, 1.0 - s0);
    } else {
      assert s1 <= 1.0 <= s0;
      assert t * (s0 - s1) == -(t * (s1 - s0));
      UnitRatio(t, s0 - s1, s0 - 1.0);
    }
  }

  lemma UnitRatio(t: real, d: real, n: real)
    requires t * d == n && d > 0.0 && 0.0 <= n <= d
    ensures 0.0 <= t <= 1.0
  {
    MulSign(t, d);
    MulSign(1.0 - t, d);
    assert (1.0 - t) * d == d - n;
    assert t < 0.0 ==> (-t) * d > 0.0;
    assert t > 1.0 ==> (t - 1.0) * d > 0.0;
  }

  /** The result lies in its bracket and the curve is 1 there. */
  lemma CrossingInBracket(points: seq<Point>, at: int)
    requires Increasing(points) && 0 <= at < |points| - 1 && Brackets(points, at)
    ensures points[at].x <= Interpolate(points[at], points[at + 1]) <= points[at + 1].x
    ensures MeetsOn(points, at, Interpolate(points[at], points[at + 1]))
  {
    var a, b := points[at], points[at + 1];
    FractionInUnit(a.s, b.s);
    var t := (1.0 - a.s) / (b.s - a.s);
    var w := b.x - a.x;
    assert w > 0.0 && t * w >= 0.0 && (1.0 - t) * w >= 0.0;
    assert (t * w) / w == t;
    assert t * (b.s - a.s) == 1.0 - a.s;
  }

  /** A segment that does not bracket 1 meets 1 only if it is flat at 1. */
  lemma UnbracketedMeetsOnlyFlat(points: seq<Point>, i: int, x: real)
    requires Increasing(points) && 0 <= i < |points| - 1 && !Brackets(points, i) && MeetsOn(points, i, x)
    ensures FlatAtOne(points, i)
  {
    var a, b := points[i], points[i + 1];
    SameSide(a.s, b.s);
    var w := b.x - a.x;
    var t := (x - a.x) / w;
    assert t * w == x - a.x;
    UnitRatio(t, w, x - a.x);
    assert a.s + t * (b.s - a.s) == (1.0 - t) * a.s + t * b.s;
    ConvexSide(a.s, b.s, t);
  }

  lemma ConvexSide(a: real, b: real, t: real)
    requires 0.0 <= t <= 1.0
    ensures a > 1.0 && b > 1.0 ==> (1.0 - t) * a + t * b > 1.0
    ensures a < 1.0 && b < 1.0 ==> (1.0 - t) * a + t * b < 1.0
  {
    // One of the two weights is positive and neither is negative.
    MulSign(1.0 - t, a - 1.0);
    MulSign(1.0 - t, 1.0 - a);
    MulSign(t, b - 1.0);
    MulSign(t, 1.0 - b);
    assert (1.0 - t) * a + t * b - 1.0 == (1.0 - t) * (a - 1.0) + t * (b - 1.0);
    assert 1.0 - ((1.0 - t) * a + t * b) == (1.0 - t) * (1.0 - a) + t * (1.0 - b);
  }

  // ---- is it the first place the curve is 1? ------------------------------------------------

  ghost predicate Meets(points: seq<Point>, x: real)
    requires Increasing(points)
  {
    exists i :: 0 <= i < |points| - 1 && MeetsOn(points, i, x)
  }

  /** Before the bracketing segment, segments that meet 1 are flat at 1, and then
      so are all the segments before them. */
  lemma {:induction false} FlatPrefix(points: seq<Point>, at: int, i: nat)
    requires 0 <= i < at < |points| - 1
    requires (forall k :: 0 <= k < at ==> !Brackets(points, k)) && FlatAtOne(points, i)
    ensures points[0].s == 1.0 && points[1].s == 1.0
  {
    if i > 0 {
      assert !Brackets(points, i - 1);
      SameSide(points[i - 1].s, points[i].s);
      FlatPrefix(points, at, i - 1);
    }
  }

  /** The reported crossing is the leftmost point where the curve is 1 if and only
      if the first two samples are not both exactly 1. */
  lemma CrossingIsFirst(points: seq<Point>, at: int)
    requires Increasing(points) && 0 <= at < |points| - 1 && Brackets(points, at)
    requires forall i :: 0 <= i < at ==> !Brackets(points, i)
    ensures (forall x :: Meets(points, x) ==> Interpolate(points[at], points[at + 1]) <= x)
       <==> !(points[0].s == 1.0 && points[1].s == 1.0)
  {
    var r := Interpolate(points[at], points[at + 1]);
    CrossingInBracket(points, at);
    if points[0].s == 1.0 && points[1].s == 1.0 {
      assert at > 0;
      assert MeetsOn(points, 0, points[0].x);
      assert Meets(points, points[0].x);
      assert at > 0 ==> points[0].x < points[at].x;
    } else {
      forall x | Meets(points, x) ensures r <= x {
        var i :| 0 <= i < |points| - 1 && MeetsOn(points, i, x);
        if i < at {
          UnbracketedMeetsOnlyFlat(points, i, x);
          FlatPrefix(points, at, i);
        } else if i == at {
          MeetUnique(points, at, x, r);
        } else {
          assert at + 1 < i ==> points[at + 1].x < points[i].x;
        }
      }
    }
  }

  /** A sloped segment is 1 at one point only. */
  lemma MeetUnique(points: seq<Point>, i: int, x: real, y: real)
    requires Increasing(points) && 0 <= i < |points| - 1 && points[i].s != points[i + 1].s
    requires MeetsOn(points, i, x) && MeetsOn(points, i, y)
    ensures x == y
  {
    var a, b := points[i], points[i + 1];
    var t, u := (x - a.x) / (b.x - a.x), (y - a.x) / (b.x - a.x);
    SameFactor(t, u, b.s - a.s);
    assert t * (b.x - a.x) == x - a.x && u * (b.x - a.x) == y - a.x;
  }

  lemma SameFactor(t: real, u: real, d: real)
    requires d != 0.0 && t * d == u * d
    ensures t == u
  {
    assert t == (t * d) / d && u == (u * d) / d;
  }

  /** The exception is real: on these samples the curve is 1 from the start, and the
      reported crossing is 1. */
  method LateCrossing() returns (points: seq<Point>, r: Option<real>)
    ensures Increasing(points) && Meets(points, 0.0) && r == Some(1.0)
  {
    hide *;
    points := [Point(0.0, 1.0), Point(1.0, 1.0), Point(2.0, 0.0)];
    LateSamples(points);
    ghost var at;
    r, at := Find(points);
  }

  lemma LateSamples(points: seq<Point>)
    requires points == [Point(0.0, 1.0), Point(1.0, 1.0), Point(2.0, 0.0)]
    ensures Increasing(points) && Meets(points, 0.0)
    ensures !Brackets(points, 0) && Brackets(points, 1) && Interpolate(points[1], points[2]) == 1.0
  {
    assert MeetsOn(points, 0, 0.0);
  }
}
