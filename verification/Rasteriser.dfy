/** The rasteriser's loops: tracing contours into an edge array, collecting and sorting crossings, testing a sample. */
module Rasteriser {
  import opened Outline

  /** ttf_add_edge: horizontal edges are skipped, and so is everything once the array is full. */
  method AddEdge(edges: array<Edge>, count: nat, p: Point, q: Point) returns (count': nat)
    requires edges.Length == MAX_EDGES && count <= MAX_EDGES
    modifies edges
    ensures count <= count' <= MAX_EDGES && edges[..count] == old(edges[..count])
    ensures count' < MAX_EDGES ==> edges[..count'] == old(edges[..count]) + Kept(p, q)
  {
    if count >= MAX_EDGES || p.y == q.y {
      return count;
    }
    edges[count] := Edge(p.x, p.y, q.x, q.y);
    return count + 1;
  }

  /** The edges of the vertices `vs`, behind those that were there. */
  predicate Drawn(es: seq<Edge>, base: seq<Edge>, vs: seq<Point>) { es == base + Edges(vs) }

  lemma DrawnOneMore(es: seq<Edge>, es': seq<Edge>, base: seq<Edge>, vs: seq<Point>, prev: Point, next: Point)
    requires vs != [] && At(vs[|vs| - 1], prev) && Drawn(es, base, vs) && es' == es + Kept(prev, next)
    ensures Drawn(es', base, vs + [next])
  {
    assert (vs + [next])[..|vs|] == vs;
  }

  /** ttf_add_quad */
  method AddQuad(edges: array<Edge>, count: nat, a: Point, b: Point, c: Point, ghost base: seq<Edge>,
                 ghost vs: seq<Point>)
    returns (count': nat)
    requires edges.Length == MAX_EDGES && count <= MAX_EDGES && vs != [] && At(vs[|vs| - 1], a)
    requires count < MAX_EDGES ==> Drawn(edges[..count], base, vs)
    modifies edges
    ensures count <= count' <= MAX_EDGES
    ensures count' < MAX_EDGES ==> Drawn(edges[..count'], base, vs + QuadPoints(a, b, c, STEPS))
  {
    count' := count;
    var prev, step := a, 1;
    ghost var done := vs;
    while step <= STEPS
      invariant 1 <= step <= STEPS + 1 && count <= count' <= MAX_EDGES
      invariant done == vs + QuadPoints(a, b, c, step - 1) && At(done[|done| - 1], prev)
      invariant count' < MAX_EDGES ==> Drawn(edges[..count'], base, done)
    {
      var next := QuadPoint(a, b, c, step);
      ghost var before := edges[..count'];
      count' := AddEdge(edges, count', prev, next);
      if count' < MAX_EDGES {
        DrawnOneMore(before, edges[..count'], base, done, prev, next);
      }
      done, prev, step := done + [next], next, step + 1;
    }
  }

  /** ttf_trace_contour: unless the array fills up, the edges of the traced contour are added, and nothing else. */
  method TraceContour(points: seq<Point>, first: nat, last: int, edges: array<Edge>, count: nat) returns (count': nat)
    requires edges.Length == MAX_EDGES && count <= MAX_EDGES && last < |points|
    modifies edges
    ensures count <= count' <= MAX_EDGES
    ensures count' < MAX_EDGES ==>
      edges[..count'] == old(edges[..count]) + if first > last then [] else Edges(Trace(points[first..last + 1]))
  {
    count' := count;
    if first > last {
      return;
    }
    var start, i;
    if points[first].on {
      start, i := points[first], first + 1;
    } else {
      start, i := if points[last].on then points[last] else Mid(points[first], points[last]), first;
    }
    ghost var contour, base := points[first..last + 1], edges[..count];
    ghost var vs, rest := [start], Tour(contour);
    assert rest == points[i..last + 1] + [start] && start.on;
    assert Trace(contour) == vs + Flatten(start, Implied(rest));
    assert Drawn(edges[..count], base, vs);
    hide Trace;
    hide Tour;
    var prev := start;
    while i <= last
      invariant i <= last + 2 && count <= count' <= MAX_EDGES && (i == last + 2 ==> prev == start)
      invariant vs != [] && At(vs[|vs| - 1], prev) && Trace(contour) == vs + Flatten(prev, Implied(rest))
      invariant rest == Ahead(points, i, last, start)
      invariant count' < MAX_EDGES ==> Drawn(edges[..count'], base, vs)
      decreases last + 2 - i
    {
      count', prev, i, vs, rest := TracePoint(points, i, last, start, prev, edges, count', base, vs, rest);
    }
    TraceEnds(points, i, last, start, prev, vs);
    ghost var before := edges[..count'];
    count' := AddEdge(edges, count', prev, start);
    if count' < MAX_EDGES {
      if i == last + 1 {
        DrawnOneMore(before, edges[..count'], base, vs, prev, start);
      } else {
        assert edges[..count'] == before;
      }
    }
  }

  /** The points from place `i` on and back to the start. */
  function Ahead(points: seq<Point>, i: int, last: int, start: Point): seq<Point>
    requires 0 <= i <= last + 2 && last < |points|
  {
    if i == last + 2 then [] else points[i..last + 1] + [start]
  }

  lemma TraceEnds(points: seq<Point>, i: int, last: int, start: Point, prev: Point, vs: seq<Point>)
    requires 0 <= i && last < i <= last + 2 && last < |points| && start.on
    ensures vs + Flatten(prev, Implied(Ahead(points, i, last, start))) == if i == last + 1 then vs + [start] else vs
  {
    if i == last + 1 {
      assert Ahead(points, i, last, start) == [start];
      assert Flatten(start, []) == [] && Flatten(prev, [start]) == [start] + [];
    } else {
      assert Flatten(prev, []) == [];
    }
  }

  lemma AheadAt(points: seq<Point>, i: int, last: int, start: Point)
    requires 0 <= i <= last < |points|
    ensures var rest := Ahead(points, i, last, start);
      && |rest| >= 2 && rest[0] == points[i] && rest[1] == (if i == last then start else points[i + 1])
      && rest[1..] == Ahead(points, i + 1, last, start) && rest[2..] == Ahead(points, i + 2, last, start)
  {
  }

  /** One turn of the loop of ttf_trace_contour: a line, a curve to the next point, or a curve to an implied point. */
  method TracePoint(points: seq<Point>, i: nat, last: int, start: Point, prev: Point, edges: array<Edge>, count: nat,
                    ghost base: seq<Edge>, ghost vs: seq<Point>, ghost rest: seq<Point>)
    returns (count': nat, prev': Point, i': nat, ghost vs': seq<Point>, ghost rest': seq<Point>)
    requires i <= last < |points| && start.on && edges.Length == MAX_EDGES && count <= MAX_EDGES
    requires vs != [] && At(vs[|vs| - 1], prev) && rest == Ahead(points, i, last, start)
    requires count < MAX_EDGES ==> Drawn(edges[..count], base, vs)
    modifies edges
    ensures i < i' <= last + 2 && count <= count' <= MAX_EDGES && (i' == last + 2 ==> prev' == start)
    ensures vs' != [] && At(vs'[|vs'| - 1], prev') && rest' == Ahead(points, i', last, start)
    ensures vs' + Flatten(prev', Implied(rest')) == vs + Flatten(prev, Implied(rest))
    ensures count' < MAX_EDGES ==> Drawn(edges[..count'], base, vs')
  {
    AheadAt(points, i, last, start);
    hide Ahead;
    hide Flatten;
    hide Implied;
    hide Drawn;
    var p := points[i];
    if p.on {
      ghost var before := edges[..count];
      StepOn(prev, rest);
      count' := AddEdge(edges, count, prev, p);
      if count' < MAX_EDGES {
        DrawnOneMore(before, edges[..count'], base, vs, prev, p);
      }
      prev', i', vs', rest' := p, i + 1, vs + [p], rest[1..];
      assert vs' + Flatten(p, Implied(rest')) == vs + ([p] + Flatten(p, Implied(rest')));
    } else {
      var next := if i == last then start else points[i + 1];
      if next.on {
        StepCurve(prev, rest);
        prev', i', rest' := next, i + 2, rest[2..];
      } else {
        StepImplied(prev, rest);
        prev', i', rest' := Mid(p, next), i + 1, rest[1..];
      }
      hide Mid;
      hide QuadPoints;
      CurveEnds(prev, p, prev');
      count' := AddQuad(edges, count, prev, p, prev', base, vs);
      vs' := vs + QuadPoints(prev, p, prev', STEPS);
      assert vs' + Flatten(prev', Implied(rest')) == vs
             + (QuadPoints(prev, p, prev', STEPS) + Flatten(prev', Implied(rest')));
    }
  }

  lemma CurveEnds(a: Point, b: Point, c: Point)
    ensures var ps := QuadPoints(a, b, c, STEPS); ps != [] && At(ps[|ps| - 1], c)
  {
    QuadPointsLast(a, b, c, STEPS);
    QuadEnds(a, b, c);
  }

  /** The contour loop of xiaobaios_ttf_rasterize. */
  method TraceGlyph(points: seq<Point>, ends: seq<nat>, edges: array<Edge>) returns (count: nat)
    requires edges.Length == MAX_EDGES && forall j :: 0 <= j < |ends| ==> ends[j] < |points|
    modifies edges
    ensures count <= MAX_EDGES && (count < MAX_EDGES ==> edges[..count] == AllEdges(Contours(points, ends, |ends|)))
  {
    hide AllEdges;
    hide Edges;
    hide Trace;
    count := 0;
    var first := 0;
    assert AllEdges(Contours(points, ends, 0)) == [] by {
      NoContours();
    }
    for k := 0 to |ends|
      invariant count <= MAX_EDGES && first == (if k == 0 then 0 else ends[k - 1] + 1)
      invariant count < MAX_EDGES ==> edges[..count] == AllEdges(Contours(points, ends, k))
    {
      ghost var before := Contours(points, ends, k);
      assert Contours(points, ends, k + 1) == before + [Contour(points, ends, k)];
      OneContourMore(before, Contour(points, ends, k));
      count := TraceContour(points, first, ends[k], edges, count);
      first := ends[k] + 1;
    }
  }

  lemma NoContours()
    ensures AllEdges([]) == []
  {
  }

  lemma OneContourMore(contours: seq<seq<Point>>, c: seq<Point>)
    ensures AllEdges(contours + [c]) == AllEdges(contours) + if c == [] then [] else Edges(Trace(c))
  {
    assert (contours + [c])[..|contours|] == contours;
  }

  /** ttf_sort_intersections: insertion sort in place. */
  method SortCrossings(xs: array<Crossing>, count: nat)
    requires count <= xs.Length
    modifies xs
    ensures xs[..count] == InsertionSorted(old(xs[..count]))
  {
    ghost var was := xs[..count];
    SortedStart(was);
    var i := 1;
    while i < count
      invariant 1 <= i && (i <= count || count == 0) && |was| == count
      invariant count > 0 ==> xs[..i] == InsertionSorted(was[..i])
      invariant forall k :: i <= k < count ==> xs[k] == was[k]
    {
      SortedNext(was, i);
      ghost var behind := xs[i + 1..];
      InsertInPlace(xs, i);
      assert forall k :: i + 1 <= k < count ==> xs[k] == xs[i + 1..][k - i - 1] == behind[k - i - 1] == was[k];
      i := i + 1;
    }
    assert count > 0 ==> was[..count] == was;
    assert count == 0 ==> xs[..count] == [];
  }

  lemma SortedStart(xs: seq<Crossing>)
    ensures InsertionSorted([]) == [] && (xs != [] ==> xs[..1] == [xs[0]] && InsertionSorted(xs[..1]) == [xs[0]])
  {
    if xs != [] {
      assert xs[..1][..0] == [];
      assert Insert([], xs[0]) == [xs[0]];
    }
  }

  lemma SortedNext(xs: seq<Crossing>, i: nat)
    requires i < |xs|
    ensures InsertionSorted(xs[..i + 1]) == Insert(InsertionSorted(xs[..i]), xs[i])
  {
    assert xs[..i + 1][..i] == xs[..i];
  }

  /** Moves the crossing at place `i` down to where it belongs among the sorted ones before it. */
  method InsertInPlace(xs: array<Crossing>, i: nat)
    requires i < xs.Length
    modifies xs
    ensures xs[..i + 1] == Insert(old(xs[..i]), old(xs[i])) && xs[i + 1..] == old(xs[i + 1..])
  {
    ghost var before := xs[..i];
    var value := xs[i];
    var j := i - 1;
    while j >= 0 && xs[j].x > value.x
      invariant -1 <= j < i && xs[i + 1..] == old(xs[i + 1..])
      invariant forall k :: 0 <= k <= j ==> xs[k] == before[k]
      invariant forall k :: j + 2 <= k <= i ==> xs[k] == before[k - 1]
      invariant forall k :: j < k < i ==> before[k].x > value.x
      decreases j
    {
      ghost var behind := xs[i + 1..];
      xs[j + 1] := xs[j];
      assert xs[i + 1..] == behind;
      j := j - 1;
    }
    ghost var behind := xs[i + 1..];
    xs[j + 1] := value;
    assert xs[i + 1..] == behind;
    MovedUp(xs[..i + 1], before, value, j + 1);
    InsertAt(before, value, j + 1);
  }

  lemma MovedUp(after: seq<Crossing>, before: seq<Crossing>, v: Crossing, m: nat)
    requires m <= |before| && |after| == |before| + 1 && after[m] == v
    requires forall k :: 0 <= k < m ==> after[k] == before[k]
    requires forall k :: m < k < |after| ==> after[k] == before[k - 1]
    ensures after == before[..m] + [v] + before[m..]
  {
  }

  /** ttf_scanline_intersections: the crossings of the scanline, sorted; as many as there is room for. */
  method ScanlineCrossings(edges: array<Edge>, edgeCount: nat, y: int, xs: array<Crossing>, max: nat)
    returns (count: nat)
    requires edgeCount <= edges.Length && max <= xs.Length
    modifies xs
    ensures var all := Crossings(edges[..edgeCount], y);
      count == (if |all| < max then |all| else max) && xs[..count] == InsertionSorted(all[..count])
  {
    count := 0;
    ghost var es := edges[..edgeCount];
    ghost var all := Crossings(es, y);
    assert Crossings(es[..0], y) == [];
    hide CrossX;
    var i := 0;
    while i < edgeCount && count < max
      invariant i <= edgeCount && count <= max && xs[..count] == Crossings(es[..i], y)
    {
      var e := edges[i];
      assert es[..i + 1][..i] == es[..i] && es[..i + 1][i] == e;
      if (e.y0 <= y && e.y1 > y) || (e.y1 <= y && e.y0 > y) {
        xs[count] := Crossing(CrossX(e, y), if e.y1 > e.y0 then 1 else -1);
        count := count + 1;
      }
      i := i + 1;
    }
    CrossingsPrefix(es, i, y);
    assert es[..edgeCount] == es;
    assert xs[..count] == all[..count];
    SortCrossings(xs, count);
  }

  lemma {:induction false} CrossingsPrefix(es: seq<Edge>, i: nat, y: int)
    requires i <= |es|
    ensures Crossings(es[..i], y) <= Crossings(es, y)
    decreases |es| - i
  {
    if i == |es| {
      assert es[..i] == es;
    } else {
      CrossingsPrefix(es, i + 1, y);
      assert es[..i + 1][..i] == es[..i];
    }
  }

  /** ttf_inside_span: whether the deltas of all crossings at or left of `x` add up to something. */
  method InsideSpan(xs: array<Crossing>, count: nat, x: int) returns (inside: bool)
    requires count <= xs.Length && Sorted(xs[..count])
    ensures inside <==> SumUpTo(xs[..count], x) != 0
  {
    var winding := 0;
    assert xs[..0] == [];
    for i := 0 to count
      invariant winding == SumUpTo(xs[..i], x)
    {
      if x < xs[i].x {
        SumUpToPast(xs[..count], i, x);
        assert xs[..count][..i] == xs[..i];
        return winding != 0;
      }
      assert xs[..i + 1][..i] == xs[..i];
      winding := winding + xs[i].delta;
    }
    return winding != 0;
  }

  // ---------- coverage ----------

  const MAX_W := 96

  function Sample(es: seq<Edge>, x: int, y: int): nat { if Winding(es, x, y) != 0 then 1 else 0 }

  /** How many of the four sample points of pixel column `xx` on one scanline are inside. */
  function SamplesOn(es: seq<Edge>, xx: int, y: int): nat {
    Sample(es, 4 * xx + 1, y) + Sample(es, 4 * xx + 2, y) + Sample(es, 4 * xx + 3, y) + Sample(es, 4 * xx + 4, y)
  }

  /** The pixel's darkness: the share of its sixteen sample points that the nonzero winding rule puts inside. */
  function Coverage(es: seq<Edge>, xx: int, yy: int): nat {
    var samples := SamplesOn(es, xx, 4 * yy + 1) + SamplesOn(es, xx, 4 * yy + 2) + SamplesOn(es, xx, 4 * yy + 3)
      + SamplesOn(es, xx, 4 * yy + 4);
    (samples * 255 + 8) / 16
  }

  /** The crossings of a scanline in order. */
  ghost predicate Scanned(xs: seq<Crossing>, es: seq<Edge>, y: int) { xs == InsertionSorted(Crossings(es, y)) }

  /** Four sample points of one scanline. */
  method CountSamples(xs: array<Crossing>, count: nat, xx: nat, ghost es: seq<Edge>, y: int) returns (n: nat)
    requires count <= xs.Length && Scanned(xs[..count], es, y)
    ensures n == SamplesOn(es, xx, y)
  {
    hide Winding;
    hide Crossings;
    hide SumUpTo;
    hide InsertionSorted;
    n := 0;
    for dx := 1 to 5
      invariant n == (if dx > 1 then Sample(es, 4 * xx + 1, y) else 0) + (if dx > 2 then Sample(es, 4 * xx + 2, y)
                else 0)
                     + (if dx > 3 then Sample(es, 4 * xx + 3, y) else 0)
                       + (if dx > 4 then Sample(es, 4 * xx + 4, y) else 0)
    {
      SortedSumIsWinding(es, 4 * xx + dx, y);
      var inside := InsideSpan(xs, count, 4 * xx + dx);
      n := n + if inside then 1 else 0;
    }
  }

  /** The crossings of one scanline, all of them: there are never more than edges. */
  method Scan(edges: array<Edge>, edgeCount: nat, y: int, xs: array<Crossing>) returns (count: nat)
    requires edgeCount <= MAX_EDGES == edges.Length && xs.Length == MAX_EDGES
    modifies xs
    ensures count <= xs.Length && Scanned(xs[..count], edges[..edgeCount], y)
  {
    CrossingsFew(edges[..edgeCount], y);
    count := ScanlineCrossings(edges, edgeCount, y, xs, MAX_EDGES);
    assert Crossings(edges[..edgeCount], y)[..count] == Crossings(edges[..edgeCount], y);
  }

  lemma {:induction false} CrossingsFew(es: seq<Edge>, y: int)
    ensures |Crossings(es, y)| <= |es|
  {
    if es != [] {
      CrossingsFew(es[..|es| - 1], y);
    }
  }

  /** One row of the sampling loops of xiaobaios_ttf_rasterize. */
  method PaintRow(edges: array<Edge>, edgeCount: nat, yy: nat, width: nat) returns (row: seq<nat>)
    requires edgeCount <= MAX_EDGES == edges.Length
    ensures |row| == (if width < MAX_W then width else MAX_W)
    ensures forall xx :: 0 <= xx < |row| ==> row[xx] == Coverage(edges[..edgeCount], xx, yy)
  {
    hide Scanned;
    hide SamplesOn;
    ghost var es := edges[..edgeCount];
    var xsA, xsB := new Crossing[MAX_EDGES](_ => Crossing(0, 0)), new Crossing[MAX_EDGES](_ => Crossing(0, 0));
    var xsC, xsD := new Crossing[MAX_EDGES](_ => Crossing(0, 0)), new Crossing[MAX_EDGES](_ => Crossing(0, 0));
    var countA := Scan(edges, edgeCount, 4 * yy + 1, xsA);
    var countB := Scan(edges, edgeCount, 4 * yy + 3, xsB);
    var countC := Scan(edges, edgeCount, 4 * yy + 2, xsC);
    var countD := Scan(edges, edgeCount, 4 * yy + 4, xsD);
    row := [];
    var xx := 0;
    while xx < width && xx < MAX_W
      invariant xx <= width && xx <= MAX_W && |row| == xx
      invariant Scanned(xsA[..countA], es, 4 * yy + 1) && Scanned(xsB[..countB], es, 4 * yy + 3)
      invariant Scanned(xsC[..countC], es, 4 * yy + 2) && Scanned(xsD[..countD], es, 4 * yy + 4)
      invariant forall k :: 0 <= k < xx ==> row[k] == Coverage(es, k, yy)
    {
      var a := CountSamples(xsA, countA, xx, es, 4 * yy + 1);
      var c := CountSamples(xsC, countC, xx, es, 4 * yy + 2);
      var b := CountSamples(xsB, countB, xx, es, 4 * yy + 3);
      var d := CountSamples(xsD, countD, xx, es, 4 * yy + 4);
      row := row + [((a + c + b + d) * 255 + 8) / 16];
      xx := xx + 1;
    }
  }

  /** Right of a glyph's outline every pixel is blank. */
  lemma BlankOnTheRight(contours: seq<seq<Point>>, xx: int, yy: int)
    requires RowLeft(AllEdges(contours), 4 * xx + 1, yy)
    ensures Coverage(AllEdges(contours), xx, yy) == 0
  {
    hide Winding;
    hide AllEdges;
    hide AllLeft;
    forall x, y | 4 * yy < y <= 4 * yy + 4 && 4 * xx < x <= 4 * xx + 4 ensures Sample(AllEdges(contours), x, y) == 0 {
      LeftOfMore(AllEdges(contours), 4 * xx + 1, x, y);
      OutsideOnTheRight(contours, x, y);
    }
  }

  /** On the pixel row's four scanlines every crossing is at or left of x. */
  predicate RowLeft(es: seq<Edge>, x: int, yy: int) { forall y :: 4 * yy < y <= 4 * yy + 4 ==> AllLeft(es, x, y) }

  lemma LeftOfMore(es: seq<Edge>, x: int, x': int, y: int)
    requires AllLeft(es, x, y) && x <= x'
    ensures AllLeft(es, x', y)
  {
  }

  // ---------- a rectangle ----------

  function Rectangle(x0: int, y0: int, x1: int, y1: int): seq<Point> {
    [Point(x0, y0, true), Point(x1, y0, true), Point(x1, y1, true), Point(x0, y1, true)]
  }

  lemma RectangleEdges(x0: int, y0: int, x1: int, y1: int)
    requires y0 < y1
    ensures Edges(Trace(Rectangle(x0, y0, x1, y1))) == [Edge(x1, y0, x1, y1), Edge(x0, y1, x0, y0)]
  {
    var r := Rectangle(x0, y0, x1, y1);
    PolygonTrace(r);
    hide Trace;
    var vs := r + [r[0]];
    assert vs[..4] == r && vs[..3] == r[..3] && vs[..2] == r[..2];
    assert r[..3][..2] == r[..2] && r[..2][..1] == [r[0]];
    assert Edges([r[0]]) == [];
    assert Edges(r[..2]) == Edges(r[..2][..1]) + Kept(r[0], r[1]) == [];
    assert Edges(r[..3]) == Edges(r[..3][..2]) + Kept(r[1], r[2]) == [Edge(x1, y0, x1, y1)];
    assert Edges(r) == Edges(r[..3]) + Kept(r[2], r[3]) == [Edge(x1, y0, x1, y1)];
    assert Edges(vs) == Edges(vs[..4]) + Kept(r[3], r[0]);
  }

  /** The winding rule puts a sample inside a rectangle exactly if it is: the left and lower sides belong to it. */
  lemma RectangleInside(x0: int, y0: int, x1: int, y1: int, x: int, y: int)
    requires x0 <= x1 && y0 < y1
    ensures Winding(AllEdges([Rectangle(x0, y0, x1, y1)]), x, y) != 0 <==> x0 <= x < x1 && y0 <= y < y1
  {
    var right, left := Edge(x1, y0, x1, y1), Edge(x0, y1, x0, y0);
    OneContour(Rectangle(x0, y0, x1, y1));
    RectangleEdges(x0, y0, x1, y1);
    hide Edges;
    hide AllEdges;
    hide Trace;
    var es := [right, left];
    assert es[..1] == [right] && es[..1][..0] == [];
    if y0 <= y < y1 {
      Upright(right, y);
      Upright(left, y);
    }
    hide CrossX;
    assert Winding(es, x, y) == Winding(es[..1], x, y) + if Crosses(left, y) && x0 <= x then -1 else 0;
    assert Winding(es[..1], x, y) == Winding([], x, y) + if Crosses(right, y) && x1 <= x then 1 else 0;
  }

  lemma Upright(e: Edge, y: int)
    requires Crosses(e, y) && e.x0 == e.x1
    ensures CrossX(e, y) == e.x0
  {
    CrossBetween(e, y);
  }

  lemma OneContour(c: seq<Point>)
    requires c != []
    ensures AllEdges([c]) == Edges(Trace(c))
  {
    assert [c][..0] == [];
    assert AllEdges([]) == [];
    assert AllEdges([c]) == AllEdges([c][..0]) + Edges(Trace(c));
  }

  /** How many of the whole numbers lo, ..., hi - 1 are among a, ..., b - 1. */
  function Overlap(lo: int, hi: int, a: int, b: int): nat {
    var from, to := if lo < a then a else lo, if hi < b then hi else b;
    if from < to then to - from else 0
  }

  lemma RectangleRow(x0: int, y0: int, x1: int, y1: int, xx: int, y: int)
    requires x0 <= x1 && y0 < y1
    ensures SamplesOn(AllEdges([Rectangle(x0, y0, x1, y1)]), xx, y)
            == if y0 <= y < y1 then Overlap(4 * xx + 1, 4 * xx + 5, x0, x1) else 0
  {
    hide Winding;
    hide AllEdges;
    RectangleInside(x0, y0, x1, y1, 4 * xx + 1, y);
    RectangleInside(x0, y0, x1, y1, 4 * xx + 2, y);
    RectangleInside(x0, y0, x1, y1, 4 * xx + 3, y);
    RectangleInside(x0, y0, x1, y1, 4 * xx + 4, y);
  }

  /**
   A pixel of a filled rectangle is as dark as the share of its sixteen sample points that lie in the rectangle, to the
   nearest of 256 shades; a pixel wholly inside is black and one wholly outside blank.
   */
  lemma RectangleFills(x0: int, y0: int, x1: int, y1: int, xx: int, yy: int)
    requires x0 <= x1 && y0 < y1
    ensures var dark := Coverage(AllEdges([Rectangle(x0, y0, x1, y1)]), xx, yy);
      var inside := Overlap(4 * xx + 1, 4 * xx + 5, x0, x1) * Overlap(4 * yy + 1, 4 * yy + 5, y0, y1);
      -8 <= 16 * dark - 255 * inside <= 8 && (inside == 16 <==> dark == 255) && (inside == 0 <==> dark == 0)
  {
    hide SamplesOn;
    hide AllEdges;
    RectangleRow(x0, y0, x1, y1, xx, 4 * yy + 1);
    RectangleRow(x0, y0, x1, y1, xx, 4 * yy + 2);
    RectangleRow(x0, y0, x1, y1, xx, 4 * yy + 3);
    RectangleRow(x0, y0, x1, y1, xx, 4 * yy + 4);
    RowsInside(4 * yy + 1, y0, y1, Overlap(4 * xx + 1, 4 * xx + 5, x0, x1));
    hide Overlap;
    Shade(Overlap(4 * xx + 1, 4 * xx + 5, x0, x1) * Overlap(4 * yy + 1, 4 * yy + 5, y0, y1));
  }

  lemma RowsInside(lo: int, y0: int, y1: int, n: nat)
    requires n <= 4
    ensures (if y0 <= lo < y1 then n else 0) + (if y0 <= lo + 1 < y1 then n else 0)
            + (if y0 <= lo + 2 < y1 then n else 0) + (if y0 <= lo + 3 < y1 then n else 0)
            == n * Overlap(lo, lo + 4, y0, y1) <= 16
  {
  }

  lemma Shade(inside: nat)
    requires inside <= 16
    ensures var dark := (inside * 255 + 8) / 16;
      -8 <= 16 * dark - 255 * inside <= 8 && (inside == 16 <==> dark == 255) && (inside == 0 <==> dark == 0)
  {
  }
}
