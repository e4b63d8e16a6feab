/** Glyph outlines: what tracing a contour means, why its edges close, and the winding rule on a scanline. */
module Outline {

  datatype Point = Point(x: int, y: int, on: bool)
  datatype Edge = Edge(x0: int, y0: int, x1: int, y1: int)
  datatype Crossing = Crossing(x: int, delta: int)

  const MAX_EDGES := 768
  const STEPS := 8

  /** C's division, which rounds toward zero. */
  function Truncated(a: int, b: int): int
    requires b != 0
  {
    if a >= 0 && b > 0 then a / b
    else if a >= 0 then -(a / -b)
    else if b > 0 then -(-a / b)
    else -a / -b
  }

  /** The quotient times the divisor misses the dividend by less than the divisor, and on the side of zero. */
  lemma TruncatedIs(a: int, b: int)
    requires b != 0
    ensures var rest := a - Truncated(a, b) * b;
      if a >= 0 then 0 <= rest < Size(b) else -Size(b) < rest <= 0
  {
    var n, d := Size(a), Size(b);
    assert n == n / d * d + n % d;
    var q := n / d;
    assert q * d == (-q) * (-d) && (-q) * d == -(q * d) && q * (-d) == -(q * d);
  }

  function Size(a: int): (size: int)
    ensures size >= 0
  {
    if a >= 0 then a else -a
  }

  /** ttf_quad in eighths: the point `t` eighths along the quadratic from `a` to `c` with control `b`. */
  function Quad(a: int, b: int, c: int, t: int): int {
    Truncated((STEPS - t) * (STEPS - t) * a + 2 * (STEPS - t) * t * b + t * t * c, STEPS * STEPS)
  }

  function QuadPoint(a: Point, b: Point, c: Point, t: int): Point {
    Point(Quad(a.x, b.x, c.x, t), Quad(a.y, b.y, c.y, t), true)
  }

  /** The first `n` points of the flattened curve. */
  function QuadPoints(a: Point, b: Point, c: Point, n: nat): seq<Point> {
    if n == 0 then [] else QuadPoints(a, b, c, n - 1) + [QuadPoint(a, b, c, n)]
  }

  function Mid(p: Point, q: Point): Point { Point(Truncated(p.x + q.x, 2), Truncated(p.y + q.y, 2), true) }

  /** The point `t` eighths along a line, eight times as large. */
  function Along(a: int, b: int, t: int): int { (STEPS - t) * a + t * b }

  /**
   A point of the flattened curve is de Casteljau's: as far along the line between the points just as far along the two
   legs. Rounding moves it toward zero, by less than one.
   */
  lemma QuadIsOnCurve(a: int, b: int, c: int, t: int)
    ensures var exact := Along(Along(a, b, t), Along(b, c, t), t); var rest := exact - 64 * Quad(a, b, c, t);
      if exact >= 0 then 0 <= rest < 64 else -64 < rest <= 0
  {
    var m := STEPS - t;
    TwiceAlong(a, b, c, m, t);
    TruncatedIs(m * m * a + 2 * m * t * b + t * t * c, 64);
  }

  lemma TwiceAlong(a: int, b: int, c: int, m: int, t: int)
    ensures m * (m * a + t * b) + t * (m * b + t * c) == m * m * a + 2 * m * t * b + t * t * c
  {
    assert m * (m * a + t * b) == m * m * a + m * (t * b) && t * (m * b + t * c) == t * (m * b) + t * t * c;
    assert m * (t * b) == m * t * b && t * (m * b) == m * t * b;
    assert 2 * m * t * b == 2 * (m * t * b) by {
      assert 2 * m * t == 2 * (m * t);
    }
  }

  /** An implied point is half way between its neighbours, up to a half, and never outside them. */
  lemma MidIsBetween(p: Point, q: Point)
    ensures var m := Mid(p, q); m.on && Half(m.x, p.x, q.x) && Half(m.y, p.y, q.y)
  {
  }

  predicate Half(m: int, a: int, b: int) {
    && -1 <= 2 * m - (a + b) <= 1 && (a <= m <= b || b <= m <= a)
    && (a + b >= 0 ==> 2 * m <= a + b) && (a + b <= 0 ==> 2 * m >= a + b)
  }

  // ---------- a contour ----------

  /** Where the contour is taken up: its first point, or its last, or the implied point between them. */
  function Start(contour: seq<Point>): (s: Point)
    requires contour != []
    ensures s.on
  {
    var first, last := contour[0], contour[|contour| - 1];
    if first.on then first else if last.on then last else Mid(first, last)
  }

  /** The points from there around the contour and back. */
  function Tour(contour: seq<Point>): (tour: seq<Point>)
    requires contour != []
    ensures tour != [] && tour[|tour| - 1] == Start(contour)
  {
    (if contour[0].on then contour[1..] else contour) + [Start(contour)]
  }

  /** Puts the implied on-curve point between any two off-curve points in a row. */
  function Implied(ps: seq<Point>): seq<Point> {
    if |ps| < 2 then ps
    else if !ps[0].on && !ps[1].on then [ps[0], Mid(ps[0], ps[1])] + Implied(ps[1..])
    else [ps[0]] + Implied(ps[1..])
  }

  /** Lines to on-curve points, flattened curves around off-curve ones. */
  function Flatten(from: Point, ps: seq<Point>): seq<Point>
    decreases |ps|
  {
    if ps == [] then []
    else if ps[0].on then [ps[0]] + Flatten(ps[0], ps[1..])
    else if |ps| == 1 then []
    else QuadPoints(from, ps[0], ps[1], STEPS) + Flatten(ps[1], ps[2..])
  }

  /** The vertices of the traced contour, from its start back to its start. */
  function Trace(contour: seq<Point>): seq<Point>
    requires contour != []
  {
    [Start(contour)] + Flatten(Start(contour), Implied(Tour(contour)))
  }

  lemma StepOn(from: Point, ps: seq<Point>)
    requires ps != [] && ps[0].on
    ensures Flatten(from, Implied(ps)) == [ps[0]] + Flatten(ps[0], Implied(ps[1..]))
  {
    assert Implied(ps)[1..] == Implied(ps[1..]);
  }

  lemma StepCurve(from: Point, ps: seq<Point>)
    requires |ps| >= 2 && !ps[0].on && ps[1].on
    ensures Flatten(from, Implied(ps)) == QuadPoints(from, ps[0], ps[1], STEPS) + Flatten(ps[1], Implied(ps[2..]))
  {
    assert ps[1..][1..] == ps[2..];
    assert Implied(ps) == [ps[0]] + ([ps[1]] + Implied(ps[2..]));
    assert Implied(ps)[2..] == Implied(ps[2..]);
  }

  lemma StepImplied(from: Point, ps: seq<Point>)
    requires |ps| >= 2 && !ps[0].on && !ps[1].on
    ensures var mid := Mid(ps[0], ps[1]);
      Flatten(from, Implied(ps)) == QuadPoints(from, ps[0], mid, STEPS) + Flatten(mid, Implied(ps[1..]))
  {
    hide QuadPoints;
    assert Implied(ps)[2..] == Implied(ps[1..]);
  }

  predicate At(p: Point, q: Point) { p.x == q.x && p.y == q.y }

  /** The last flattened point of a curve is its end point. */
  lemma QuadEnds(a: Point, b: Point, c: Point)
    ensures At(QuadPoint(a, b, c, STEPS), c) && At(QuadPoint(a, b, c, 0), a)
  {
    EighthsOfEight(a.x, b.x, c.x);
    EighthsOfEight(a.y, b.y, c.y);
  }

  lemma EighthsOfEight(a: int, b: int, c: int)
    ensures Quad(a, b, c, STEPS) == c && Quad(a, b, c, 0) == a
  {
    assert (STEPS - STEPS) * (STEPS - STEPS) * a == 0 && 2 * (STEPS - STEPS) * STEPS * b == 0;
    assert 2 * STEPS * 0 * b == 0 && 0 * 0 * c == 0;
    Whole(a);
    Whole(c);
  }

  lemma Whole(a: int)
    ensures Truncated(64 * a, 64) == a
  {
  }

  lemma {:induction false} QuadPointsLast(a: Point, b: Point, c: Point, n: nat)
    ensures |QuadPoints(a, b, c, n)| == n
    ensures forall k :: 0 <= k < n ==> QuadPoints(a, b, c, n)[k] == QuadPoint(a, b, c, k + 1)
  {
    if n > 0 {
      QuadPointsLast(a, b, c, n - 1);
    }
  }

  lemma {:induction false} FlattenEnds(from: Point, ps: seq<Point>, end: Point)
    requires ps != [] ==> ps[|ps| - 1].on && At(ps[|ps| - 1], end)
    requires ps == [] ==> At(from, end)
    requires Spaced(ps)
    ensures var all := [from] + Flatten(from, ps); At(all[|all| - 1], end)
    decreases |ps|
  {
    if ps != [] {
      if ps[0].on {
        FlattenEnds(ps[0], ps[1..], end);
      } else {
        QuadPointsLast(from, ps[0], ps[1], STEPS);
        QuadEnds(from, ps[0], ps[1]);
        FlattenEnds(ps[1], ps[2..], end);
        assert ps[2..] == [] ==> Flatten(ps[1], ps[2..]) == [];
      }
    }
  }

  /** No two off-curve points in a row. */
  ghost predicate Spaced(ps: seq<Point>) {
    forall k, l :: 0 <= k && l == k + 1 && l < |ps| ==> ps[k].on || ps[l].on
  }

  lemma {:induction false} ImpliedSpaced(ps: seq<Point>)
    requires ps != [] && ps[|ps| - 1].on
    ensures Implied(ps) != [] && Implied(ps)[|Implied(ps)| - 1] == ps[|ps| - 1] && Implied(ps)[0] == ps[0]
            && Spaced(Implied(ps))
    decreases |ps|
  {
    hide Truncated;
    if |ps| >= 2 {
      ImpliedSpaced(ps[1..]);
    }
  }

  /** A traced contour comes back to where it started, whatever mix of points it has. */
  lemma TraceCloses(contour: seq<Point>)
    requires contour != []
    ensures var t := Trace(contour); At(t[0], t[|t| - 1])
  {
    var tour := Tour(contour);
    ImpliedSpaced(tour);
    FlattenEnds(Start(contour), Implied(tour), Start(contour));
  }

  /** Whether the vertices pass through a point. */
  ghost predicate Through(vs: seq<Point>, p: Point) { exists k :: 0 <= k < |vs| && At(vs[k], p) }

  lemma ThroughLater(front: seq<Point>, back: seq<Point>, p: Point)
    requires Through(front, p) || Through(back, p)
    ensures Through(front + back, p)
  {
    if Through(front, p) {
      var k :| 0 <= k < |front| && At(front[k], p);
      assert At((front + back)[k], p);
    } else {
      var k :| 0 <= k < |back| && At(back[k], p);
      assert At((front + back)[|front| + k], p);
    }
  }

  lemma {:induction false} FlattenVisits(from: Point, ps: seq<Point>, k: nat)
    requires k < |ps| && ps[k].on && ps[|ps| - 1].on && Spaced(ps)
    ensures Through(Flatten(from, ps), ps[k])
    decreases |ps|
  {
    if ps[0].on {
      if k > 0 {
        FlattenVisits(ps[0], ps[1..], k - 1);
      } else {
        assert At(ps[0], [ps[0]][0]);
      }
      ThroughLater([ps[0]], Flatten(ps[0], ps[1..]), ps[k]);
    } else {
      var curve := QuadPoints(from, ps[0], ps[1], STEPS);
      QuadPointsLast(from, ps[0], ps[1], STEPS);
      QuadEnds(from, ps[0], ps[1]);
      if k > 1 {
        FlattenVisits(ps[1], ps[2..], k - 2);
      } else {
        assert At(curve[STEPS - 1], ps[k]);
      }
      ThroughLater(curve, Flatten(ps[1], ps[2..]), ps[k]);
    }
  }

  lemma {:induction false} ImpliedKeeps(ps: seq<Point>, k: nat)
    requires k < |ps|
    ensures ps[k] in Implied(ps)
  {
    hide Mid;
    if |ps| >= 2 && k > 0 {
      ImpliedKeeps(ps[1..], k - 1);
    }
  }

  /** A traced contour passes through every one of its on-curve points. */
  lemma TraceVisits(contour: seq<Point>, k: nat)
    requires k < |contour| && contour[k].on
    ensures Through(Trace(contour), contour[k])
  {
    var start, tour := Start(contour), Tour(contour);
    ImpliedSpaced(tour);
    if k == 0 {
      assert At(Trace(contour)[0], contour[k]);
    } else {
      var i := if contour[0].on then k - 1 else k;
      assert tour[i] == contour[k];
      ImpliedKeeps(tour, i);
      var j :| 0 <= j < |Implied(tour)| && Implied(tour)[j] == contour[k];
      FlattenVisits(start, Implied(tour), j);
      ThroughLater([start], Flatten(start, Implied(tour)), contour[k]);
    }
  }

  /** Without off-curve points, the trace is the polygon. */
  lemma PolygonTrace(contour: seq<Point>)
    requires contour != [] && forall k :: 0 <= k < |contour| ==> contour[k].on
    ensures Trace(contour) == contour + [contour[0]]
  {
    var tour := Tour(contour);
    FlatPolygon(contour[0], tour);
    assert [contour[0]] + tour == contour + [contour[0]];
  }

  lemma {:induction false} FlatPolygon(from: Point, ps: seq<Point>)
    requires forall k :: 0 <= k < |ps| ==> ps[k].on
    ensures Flatten(from, Implied(ps)) == ps
    decreases |ps|
  {
    if ps != [] {
      StepOn(from, ps);
      FlatPolygon(ps[0], ps[1..]);
    } else {
      assert Implied(ps) == [];
    }
  }

  // ---------- edges and scanlines ----------

  /** The edges between consecutive vertices; horizontal ones are left out. */
  function Edges(vs: seq<Point>): seq<Edge>
    decreases |vs|
  {
    if |vs| < 2 then []
    else Edges(vs[..|vs| - 1]) + Kept(vs[|vs| - 2], vs[|vs| - 1])
  }

  function Kept(p: Point, q: Point): seq<Edge> {
    if p.y == q.y then [] else [Edge(p.x, p.y, q.x, q.y)]
  }

  predicate Crosses(e: Edge, y: int) { (e.y0 <= y && e.y1 > y) || (e.y1 <= y && e.y0 > y) }

  function Delta(e: Edge, y: int): int { if !Crosses(e, y) then 0 else if e.y1 > e.y0 then 1 else -1 }

  function DeltaSum(es: seq<Edge>, y: int): int {
    if es == [] then 0 else DeltaSum(es[..|es| - 1], y) + Delta(es[|es| - 1], y)
  }

  function Above(p: Point, y: int): int { if p.y > y then 1 else 0 }

  lemma {:induction false} DeltaSumConcat(a: seq<Edge>, b: seq<Edge>, y: int)
    ensures DeltaSum(a + b, y) == DeltaSum(a, y) + DeltaSum(b, y)
    decreases |b|
  {
    if b == [] {
      assert a + b == a;
    } else {
      DeltaSumConcat(a, b[..|b| - 1], y);
      assert (a + b)[..|a + b| - 1] == a + b[..|b| - 1];
    }
  }

  lemma {:induction false} ChainTelescopes(vs: seq<Point>, y: int)
    requires vs != []
    ensures DeltaSum(Edges(vs), y) == Above(vs[|vs| - 1], y) - Above(vs[0], y)
    decreases |vs|
  {
    if |vs| >= 2 {
      var front, p, q := vs[..|vs| - 1], vs[|vs| - 2], vs[|vs| - 1];
      ChainTelescopes(front, y);
      DeltaSumConcat(Edges(front), Kept(p, q), y);
      assert Kept(p, q) != [] ==> Kept(p, q)[..0] == [];
    }
  }

  /** On every scanline the crossings of a traced contour cancel out. */
  lemma ContourCancels(contour: seq<Point>, y: int)
    requires contour != []
    ensures DeltaSum(Edges(Trace(contour)), y) == 0
  {
    TraceCloses(contour);
    ChainTelescopes(Trace(contour), y);
  }

  /** All contours of a glyph, one after another. */
  function AllEdges(contours: seq<seq<Point>>): seq<Edge> {
    if contours == [] then []
    else AllEdges(contours[..|contours| - 1])
         + if contours[|contours| - 1] == [] then [] else Edges(Trace(contours[|contours| - 1]))
  }

  /** The points of contour `k`: those behind the end of the one before, up to its own end. */
  function Contour(points: seq<Point>, ends: seq<nat>, k: nat): seq<Point>
    requires k < |ends| && (forall j :: 0 <= j < |ends| ==> ends[j] < |points|)
  {
    var first := if k == 0 then 0 else ends[k - 1] + 1;
    if first > ends[k] then [] else points[first..ends[k] + 1]
  }

  function Contours(points: seq<Point>, ends: seq<nat>, n: nat): seq<seq<Point>>
    requires n <= |ends| && (forall j :: 0 <= j < |ends| ==> ends[j] < |points|)
  {
    if n == 0 then [] else Contours(points, ends, n - 1) + [Contour(points, ends, n - 1)]
  }

  lemma {:induction false} GlyphCancels(contours: seq<seq<Point>>, y: int)
    ensures DeltaSum(AllEdges(contours), y) == 0
  {
    if contours != [] {
      var front, last := contours[..|contours| - 1], contours[|contours| - 1];
      GlyphCancels(front, y);
      DeltaSumConcat(AllEdges(front), if last == [] then [] else Edges(Trace(last)), y);
      if last != [] {
        ContourCancels(last, y);
      }
    }
  }

  // ---------- the nonzero winding rule ----------

  function CrossX(e: Edge, y: int): int
    requires Crosses(e, y)
  {
    e.x0 + Truncated((e.x1 - e.x0) * (y - e.y0), e.y1 - e.y0)
  }

  /** The winding number at (x, y): the deltas of all crossings at or left of x. */
  function Winding(es: seq<Edge>, x: int, y: int): int {
    if es == [] then 0
    else
      var e := es[|es| - 1];
      Winding(es[..|es| - 1], x, y) + if Crosses(e, y) && CrossX(e, y) <= x then Delta(e, y) else 0
  }

  /** The crossings of a scanline in the order of the edges. */
  function Crossings(es: seq<Edge>, y: int): seq<Crossing> {
    if es == [] then []
    else
      var e := es[|es| - 1];
      Crossings(es[..|es| - 1], y) + if Crosses(e, y) then [Crossing(CrossX(e, y), Delta(e, y))] else []
  }

  lemma {:induction false} WindingConcat(a: seq<Edge>, b: seq<Edge>, x: int, y: int)
    ensures Winding(a + b, x, y) == Winding(a, x, y) + Winding(b, x, y)
    decreases |b|
  {
    hide CrossX;
    if b == [] {
      assert a + b == a;
    } else {
      WindingConcat(a, b[..|b| - 1], x, y);
      assert (a + b)[..|a + b| - 1] == a + b[..|b| - 1];
    }
  }

  /** The winding number of a glyph is the sum of those of its contours. */
  lemma ContoursAddUp(contours: seq<seq<Point>>, c: seq<Point>, x: int, y: int)
    ensures Winding(AllEdges(contours + [c]), x, y)
            == Winding(AllEdges(contours), x, y) + if c == [] then 0 else Winding(Edges(Trace(c)), x, y)
    ensures AllEdges([]) == []
  {
    assert (contours + [c])[..|contours|] == contours;
    WindingConcat(AllEdges(contours), if c == [] then [] else Edges(Trace(c)), x, y);
    assert Winding([], x, y) == 0;
  }

  /** All points of some contours, one contour after another. */
  function Laid(contours: seq<seq<Point>>): seq<Point> {
    if contours == [] then [] else Laid(contours[..|contours| - 1]) + contours[|contours| - 1]
  }

  /** Contour ends in increasing order cut the points into contours: one after another, these are the points again. */
  lemma {:induction false} ContoursCut(points: seq<Point>, ends: seq<nat>, n: nat)
    requires 0 < n <= |ends| && (forall j :: 0 <= j < |ends| ==> ends[j] < |points|)
    requires forall j, k :: 0 <= j < k < |ends| ==> ends[j] < ends[k]
    ensures |Contours(points, ends, n)| == n && Laid(Contours(points, ends, n)) == points[..ends[n - 1] + 1]
    ensures forall k :: 0 <= k < n ==> Contours(points, ends, n)[k] != []
  {
    var front := Contours(points, ends, n - 1);
    assert (front + [Contour(points, ends, n - 1)])[..|front|] == front;
    if n > 1 {
      ContoursCut(points, ends, n - 1);
      assert points[..ends[n - 1] + 1] == points[..ends[n - 2] + 1] + points[ends[n - 2] + 1..ends[n - 1] + 1];
    }
  }

  function SumUpTo(xs: seq<Crossing>, x: int): int {
    if xs == [] then 0
    else SumUpTo(xs[..|xs| - 1], x) + if xs[|xs| - 1].x <= x then xs[|xs| - 1].delta else 0
  }

  lemma {:induction false} SumUpToConcat(a: seq<Crossing>, b: seq<Crossing>, x: int)
    ensures SumUpTo(a + b, x) == SumUpTo(a, x) + SumUpTo(b, x)
    decreases |b|
  {
    if b == [] {
      assert a + b == a;
    } else {
      SumUpToConcat(a, b[..|b| - 1], x);
      assert (a + b)[..|a + b| - 1] == a + b[..|b| - 1];
    }
  }

  lemma SumUpToOneMore(xs: seq<Crossing>, c: Crossing, x: int)
    ensures SumUpTo(xs + [c], x) == SumUpTo(xs, x) + if c.x <= x then c.delta else 0
  {
    assert (xs + [c])[..|xs|] == xs;
  }

  lemma {:induction false} WindingIsSum(es: seq<Edge>, x: int, y: int)
    ensures SumUpTo(Crossings(es, y), x) == Winding(es, x, y)
  {
    if es != [] {
      var e, front := es[|es| - 1], Crossings(es[..|es| - 1], y);
      WindingIsSum(es[..|es| - 1], x, y);
      if Crosses(e, y) {
        SumUpToOneMore(front, Crossing(CrossX(e, y), Delta(e, y)), x);
      } else {
        assert front + [] == front;
      }
    }
  }

  // ---------- sorting ----------

  predicate Sorted(xs: seq<Crossing>) { forall i, j :: 0 <= i <= j < |xs| ==> xs[i].x <= xs[j].x }

  /** The new crossing goes behind all that are not right of it. */
  function Insert(xs: seq<Crossing>, v: Crossing): (r: seq<Crossing>)
    ensures |r| == |xs| + 1
  {
    if xs == [] || xs[|xs| - 1].x <= v.x then xs + [v] else Insert(xs[..|xs| - 1], v) + [xs[|xs| - 1]]
  }

  function InsertionSorted(xs: seq<Crossing>): (r: seq<Crossing>)
    ensures |r| == |xs|
  {
    if xs == [] then [] else Insert(InsertionSorted(xs[..|xs| - 1]), xs[|xs| - 1])
  }

  lemma {:induction false} InsertAt(xs: seq<Crossing>, v: Crossing, m: nat)
    requires m <= |xs| && (m > 0 ==> xs[m - 1].x <= v.x) && forall k :: m <= k < |xs| ==> xs[k].x > v.x
    ensures Insert(xs, v) == xs[..m] + [v] + xs[m..]
  {
    var n := |xs| - 1;
    if m < |xs| {
      InsertAt(xs[..n], v, m);
      assert xs[..n][..m] == xs[..m] && xs[..n][m..] + [xs[n]] == xs[m..];
    }
  }

  lemma {:induction false} InsertKeepsOrder(xs: seq<Crossing>, v: Crossing)
    requires Sorted(xs)
    ensures Sorted(Insert(xs, v)) && forall k :: 0 <= k < |xs| + 1 ==> Insert(xs, v)[k] == v || Insert(xs, v)[k] in xs
  {
    var n := |xs| - 1;
    if xs != [] && xs[n].x > v.x {
      InsertKeepsOrder(xs[..n], v);
      var r := Insert(xs[..n], v);
      forall i | 0 <= i < |r| ensures r[i].x <= xs[n].x && (r[i] == v || r[i] in xs) {
        assert r[i] == v || r[i] in xs[..n];
      }
    }
  }

  lemma {:induction false} InsertKeepsAll(xs: seq<Crossing>, v: Crossing)
    ensures multiset(Insert(xs, v)) == multiset(xs) + multiset{v}
  {
    var n := |xs| - 1;
    if xs != [] && xs[n].x > v.x {
      InsertKeepsAll(xs[..n], v);
      assert xs == xs[..n] + [xs[n]];
    }
  }

  lemma {:induction false} InsertAdds(xs: seq<Crossing>, v: Crossing, x: int)
    ensures SumUpTo(Insert(xs, v), x) == SumUpTo(xs, x) + if v.x <= x then v.delta else 0
  {
    var n := |xs| - 1;
    if xs == [] || xs[n].x <= v.x {
      SumUpToOneMore(xs, v, x);
    } else {
      InsertAdds(xs[..n], v, x);
      SumUpToOneMore(Insert(xs[..n], v), xs[n], x);
    }
  }

  /** Sorting orders the crossings and keeps every one. */
  lemma {:induction false} SortWorks(xs: seq<Crossing>)
    ensures Sorted(InsertionSorted(xs)) && multiset(InsertionSorted(xs)) == multiset(xs)
  {
    if xs != [] {
      var front, last := xs[..|xs| - 1], xs[|xs| - 1];
      SortWorks(front);
      InsertKeepsOrder(InsertionSorted(front), last);
      InsertKeepsAll(InsertionSorted(front), last);
      assert xs == front + [last];
    }
  }

  /** Sorting changes no winding number. */
  lemma {:induction false} SortKeepsSums(xs: seq<Crossing>, x: int)
    ensures SumUpTo(InsertionSorted(xs), x) == SumUpTo(xs, x)
  {
    if xs != [] {
      SortKeepsSums(xs[..|xs| - 1], x);
      InsertAdds(InsertionSorted(xs[..|xs| - 1]), xs[|xs| - 1], x);
    }
  }

  predicate AllLeft(es: seq<Edge>, x: int, y: int) {
    forall k :: 0 <= k < |es| && Crosses(es[k], y) ==> CrossX(es[k], y) <= x
  }

  /** What is summed up along the sorted crossings is the winding number of the outline. */
  lemma SortedSumIsWinding(es: seq<Edge>, x: int, y: int)
    ensures SumUpTo(InsertionSorted(Crossings(es, y)), x) == Winding(es, x, y)
            && Sorted(InsertionSorted(Crossings(es, y)))
  {
    SortKeepsSums(Crossings(es, y), x);
    WindingIsSum(es, x, y);
    SortWorks(Crossings(es, y));
  }

  lemma {:induction false} SumUpToPast(xs: seq<Crossing>, i: nat, x: int)
    requires Sorted(xs) && i < |xs| && x < xs[i].x
    ensures SumUpTo(xs, x) == SumUpTo(xs[..i], x)
    decreases |xs|
  {
    var n := |xs| - 1;
    if i < n {
      SumUpToPast(xs[..n], i, x);
      assert xs[..n][..i] == xs[..i];
    } else {
      assert xs[..n] == xs[..i];
    }
  }

  /** Right of the last crossing all deltas count. */
  lemma {:induction false} WindingFarRight(es: seq<Edge>, x: int, y: int)
    requires AllLeft(es, x, y)
    ensures Winding(es, x, y) == DeltaSum(es, y)
  {
    if es != [] {
      WindingFarRight(es[..|es| - 1], x, y);
    }
  }

  /** A glyph's outline has winding number zero right of its last crossing, on every scanline. */
  lemma OutsideOnTheRight(contours: seq<seq<Point>>, x: int, y: int)
    requires AllLeft(AllEdges(contours), x, y)
    ensures Winding(AllEdges(contours), x, y) == 0
  {
    WindingFarRight(AllEdges(contours), x, y);
    GlyphCancels(contours, y);
  }

  // ---------- the numbers fit ----------

  const COORD_MAX := 0x1FF_FFFF

  predicate Small(a: int) { -COORD_MAX <= a <= COORD_MAX }

  predicate Fits32(a: int) { -0x8000_0000 <= a < 0x8000_0000 }

  /** With coordinates below 2^25 no step of ttf_quad leaves 32 bits, and the result is no larger than its arguments. */
  lemma QuadFits(a: int, b: int, c: int, t: int)
    requires Small(a) && Small(b) && Small(c) && 0 <= t <= STEPS
    ensures var mt := STEPS - t;
      && Fits32(mt * mt * a) && Fits32(2 * mt * t * b) && Fits32(mt * mt * a + 2 * mt * t * b)
      && Fits32(t * t * c) && Fits32(mt * mt * a + 2 * mt * t * b + t * t * c) && Small(Quad(a, b, c, t))
  {
    var mt := STEPS - t;
    WeightsAddUp(mt, t);
    WeightedFits(mt * mt, 2 * mt * t, t * t, a, b, c);
  }

  lemma WeightsAddUp(mt: int, t: int)
    requires mt >= 0 && t >= 0 && mt + t == STEPS
    ensures mt * mt >= 0 && 2 * mt * t >= 0 && t * t >= 0 && mt * mt + 2 * mt * t + t * t == 64
  {
    assert (mt + t) * (mt + t) == mt * mt + 2 * mt * t + t * t;
    assert 2 * mt * t == 2 * (mt * t);
  }

  lemma WeightedFits(p: int, q: int, r: int, a: int, b: int, c: int)
    requires 0 <= p && 0 <= q && 0 <= r && p + q + r == 64 && Small(a) && Small(b) && Small(c)
    ensures Fits32(p * a) && Fits32(q * b) && Fits32(p * a + q * b) && Fits32(r * c) && Fits32(p * a + q * b + r * c)
    ensures Small(Truncated(p * a + q * b + r * c, 64))
  {
    Scaled(p, a);
    Scaled(q, b);
    Scaled(r, c);
    SmallQuotient(p * a + q * b + r * c);
  }

  lemma Scaled(p: int, a: int)
    requires 0 <= p && Small(a)
    ensures -(p * COORD_MAX) <= p * a <= p * COORD_MAX
  {
  }

  lemma SmallQuotient(n: int)
    requires -(64 * COORD_MAX) <= n <= 64 * COORD_MAX
    ensures Small(Truncated(n, 64))
  {
  }

  /** A crossing lies between the ends of its edge, so its place fits whenever theirs do. */
  lemma CrossBetween(e: Edge, y: int)
    requires Crosses(e, y)
    ensures if e.x0 <= e.x1 then e.x0 <= CrossX(e, y) <= e.x1 else e.x1 <= CrossX(e, y) <= e.x0
  {
    hide Truncated;
    var dx, dy, k := e.x1 - e.x0, e.y1 - e.y0, y - e.y0;
    if dy > 0 {
      TruncatedBetween(dx, k, dy);
    } else {
      TruncatedBetween(dx, -k, -dy);
      TruncatedSigns(dx * k, dy);
      assert dx * -k == -(dx * k);
    }
  }

  lemma TruncatedSigns(a: int, b: int)
    requires b != 0
    ensures Truncated(-a, -b) == Truncated(a, b)
  {
  }

  lemma TruncatedBetween(dx: int, k: int, dy: int)
    requires 0 <= k <= dy && dy > 0
    ensures if dx >= 0 then 0 <= Truncated(dx * k, dy) <= dx else dx <= Truncated(dx * k, dy) <= 0
  {
    var m := if dx >= 0 then dx else -dx;
    Product(m, k, dy);
    QuotientBetween(m * k, m, dy);
    TruncatedOf(m * k, dy);
    assert dx * k == if dx >= 0 then m * k else -(m * k);
    hide Truncated;
  }

  lemma Product(m: int, k: int, dy: int)
    requires 0 <= m && 0 <= k <= dy
    ensures 0 <= m * k <= m * dy
  {
  }

  lemma TruncatedOf(n: int, d: int)
    requires n >= 0 && d > 0
    ensures Truncated(n, d) == n / d && Truncated(-n, d) == -(n / d)
  {
  }

  lemma QuotientBetween(n: int, m: int, dy: int)
    requires 0 <= n <= m * dy && 0 <= m && dy > 0
    ensures 0 <= n / dy <= m
  {
    var q := n / dy;
    assert n == q * dy + n % dy;
    Monotone(m + 1, q, dy);
    Monotone(q, -1, dy);
    assert (m + 1) * dy == m * dy + dy;
  }

  lemma Monotone(a: int, b: int, d: int)
    requires d > 0
    ensures a <= b ==> a * d <= b * d
  {
  }

  /**
   The exact place of a crossing is the quotient of dx * k and dy: the crossing is that far from the edge's first end,
   up to less than one, and never beyond it. On the first end's own scanline it is that end.
   */
  lemma CrossExact(e: Edge, y: int)
    requires Crosses(e, y)
    ensures var q, dx, dy, k := CrossX(e, y) - e.x0, e.x1 - e.x0, e.y1 - e.y0, y - e.y0;
      && Size(q * dy - dx * k) < Size(dy) && Size(q * dy) <= Size(dx * k)
      && (if dx * k >= 0 then q * dy >= 0 else q * dy <= 0)
      && (y == e.y0 ==> q == 0)
  {
    var q, dx, dy, k := CrossX(e, y) - e.x0, e.x1 - e.x0, e.y1 - e.y0, y - e.y0;
    TruncatedIs(dx * k, dy);
    hide Truncated;
    if y == e.y0 {
      CrossAtEnd(e);
    }
    NoFartherThan(dx * k, q, dy);
  }

  lemma CrossAtEnd(e: Edge)
    requires Crosses(e, e.y0)
    ensures CrossX(e, e.y0) == e.x0
  {
    assert (e.x1 - e.x0) * (e.y0 - e.y0) == 0;
  }

  /** A multiple of `d` that is less than `d` away from `n`, on the side of zero, has its sign. */
  lemma NoFartherThan(n: int, q: int, d: int)
    requires d != 0 && if n >= 0 then 0 <= n - q * d < Size(d) else -Size(d) < n - q * d <= 0
    ensures Size(q * d) <= Size(n) && if n >= 0 then q * d >= 0 else q * d <= 0
  {
    if q != 0 {
      Monotone(1, Size(q), Size(d));
      assert Size(q) * Size(d) == Size(q * d);
    }
  }

  /** Farther along the edge, the crossing is no nearer to the edge's first end. */
  lemma CrossMoves(e: Edge, y: int, y': int)
    requires Crosses(e, y) && Crosses(e, y') && Size(y - e.y0) <= Size(y' - e.y0)
    ensures if e.x0 <= e.x1 then CrossX(e, y) <= CrossX(e, y') else CrossX(e, y) >= CrossX(e, y')
  {
    hide Truncated;
    var dx, dy := e.x1 - e.x0, e.y1 - e.y0;
    var k, k' := Size(y - e.y0), Size(y' - e.y0);
    if dy < 0 {
      TruncatedSigns(dx * k, -dy);
      TruncatedSigns(dx * k', -dy);
      assert dx * -k == -(dx * k) && dx * -k' == -(dx * k');
    }
    TruncatedMoves(dx, k, k', Size(dy));
  }

  lemma TruncatedMoves(dx: int, k: nat, k': nat, d: nat)
    requires d > 0 && k <= k'
    ensures if dx >= 0 then Truncated(dx * k, d) <= Truncated(dx * k', d)
            else Truncated(dx * k, d) >= Truncated(dx * k', d)
  {
    var m := Size(dx);
    Product(m, k, k');
    Product(m, k', k');
    TruncatedOf(m * k, d);
    TruncatedOf(m * k', d);
    QuotientGrows(m * k, m * k', d);
    assert dx < 0 ==> dx * k == -(m * k) && dx * k' == -(m * k');
    hide Truncated;
  }

  lemma QuotientGrows(a: nat, b: nat, d: nat)
    requires a <= b && d > 0
    ensures a / d <= b / d
  {
    if a / d > b / d {
      Monotone(b / d + 1, a / d, d);
    }
  }
}
