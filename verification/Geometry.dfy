/** The geometry behind coverage: signed areas, barycentric weights, convex combinations. */
module Geometry {
  datatype Point = Point(x: real, y: real)
  datatype Bary = Bary(a: real, b: real, c: real)
  datatype Triangle = Triangle(p0: Point, p1: Point, p2: Point)

  /** Twice the signed area of a, b, c. */
  function Edge(a: Point, b: Point, c: Point): (e: real) {
    (b.x - a.x) * (c.y - a.y) - (b.y - a.y) * (c.x - a.x)
  }

  function Area(t: Triangle): (e: real) { Edge(t.p0, t.p1, t.p2) }

  /** The three edge functions at p. */
  function Edges(t: Triangle, p: Point): (w: Bary) {
    Bary(Edge(t.p1, t.p2, p), Edge(t.p2, t.p0, p), Edge(t.p0, t.p1, p))
  }

  /** Inside or on the boundary, for either winding; nothing is inside a degenerate triangle. */
  predicate Covers(t: Triangle, p: Point) {
    SameSide(Area(t), Edges(t, p))
  }

  predicate SameSide(area: real, w: Bary) {
    if area > 0.0 then w.a >= 0.0 && w.b >= 0.0 && w.c >= 0.0
    else area < 0.0 && w.a <= 0.0 && w.b <= 0.0 && w.c <= 0.0
  }

  function Weights(t: Triangle, p: Point): (b: Bary)
    requires Area(t) != 0.0
  {
    var (area, w) := (Area(t), Edges(t, p));
    Bary(w.a / area, w.b / area, w.c / area)
  }

  function Mix(b: Bary, x: real, y: real, z: real): (m: real) { b.a * x + b.b * y + b.c * z }

  function Combine(t: Triangle, b: Bary): (p: Point) {
    Point(Mix(b, t.p0.x, t.p1.x, t.p2.x), Mix(b, t.p0.y, t.p1.y, t.p2.y))
  }

  predicate Convex(b: Bary) {
    0.0 <= b.a <= 1.0 && 0.0 <= b.b <= 1.0 && 0.0 <= b.c <= 1.0 && b.a + b.b + b.c == 1.0
  }

  lemma EdgeAffine(a: Point, b: Point, t: Triangle, w: Bary)
    requires w.a + w.b + w.c == 1.0
    ensures Edge(a, b, Combine(t, w)) == Mix(w, Edge(a, b, t.p0), Edge(a, b, t.p1), Edge(a, b, t.p2))
  {
  }

  lemma EdgeRotates(a: Point, b: Point, c: Point)
    ensures Edge(a, b, c) == Edge(b, c, a) == Edge(c, a, b)
    ensures Edge(b, a, c) == -Edge(a, b, c)
    ensures Edge(a, b, a) == Edge(a, b, b) == 0.0
  {
  }

  lemma EdgesSum(t: Triangle, p: Point)
    ensures var w := Edges(t, p); w.a + w.b + w.c == Area(t)
  {
  }

  lemma EdgesCombine(t: Triangle, p: Point)
    ensures var w := Edges(t, p); Combine(t, w) == Point(Area(t) * p.x, Area(t) * p.y)
  {
  }

  /** The stored weights are the point's own barycentric coordinates, and the only ones. */
  lemma WeightsAreCoordinates(t: Triangle, p: Point)
    requires Area(t) != 0.0
    ensures var b := Weights(t, p); b.a + b.b + b.c == 1.0 && Combine(t, b) == p
  {
    hide Edge;
    var w, area, b := Edges(t, p), Area(t), Weights(t, p);
    EdgesSum(t, p);
    EdgesCombine(t, p);
    MixOfQuotients(w, area, 1.0, 1.0, 1.0);
    MixOfQuotients(w, area, t.p0.x, t.p1.x, t.p2.x);
    MixOfQuotients(w, area, t.p0.y, t.p1.y, t.p2.y);
    Cancel(b.a + b.b + b.c, 1.0, area);
    Cancel(Mix(b, t.p0.x, t.p1.x, t.p2.x), p.x, area);
    Cancel(Mix(b, t.p0.y, t.p1.y, t.p2.y), p.y, area);
  }

  lemma MixOfQuotients(w: Bary, m: real, x: real, y: real, z: real)
    requires m != 0.0
    ensures Mix(Bary(w.a / m, w.b / m, w.c / m), x, y, z) * m == Mix(w, x, y, z)
  {
    var a, b, c := w.a / m, w.b / m, w.c / m;
    assert a * m == w.a && b * m == w.b && c * m == w.c;
    assert (a * x + b * y + c * z) * m == (a * m) * x + (b * m) * y + (c * m) * z;
  }

  lemma Cancel(x: real, y: real, m: real)
    requires m != 0.0 && x * m == y * m
    ensures x == y
  {
    assert (x - y) * m == 0.0;
  }

  lemma EdgesOfCombination(t: Triangle, b: Bary)
    requires b.a + b.b + b.c == 1.0
    ensures Edges(t, Combine(t, b)) == Bary(b.a * Area(t), b.b * Area(t), b.c * Area(t))
  {
    EdgeAffine(t.p1, t.p2, t, b);
    EdgeAffine(t.p2, t.p0, t, b);
    EdgeAffine(t.p0, t.p1, t, b);
    EdgeRotates(t.p0, t.p1, t.p2);
    EdgeRotates(t.p1, t.p2, t.p0);
    EdgeRotates(t.p2, t.p0, t.p1);
  }

  /** Coverage is the closed triangle: p is covered exactly when it is a convex combination of the
      corners, and then the weights are the one combination that gives it. */
  lemma CoverageIsTriangle(t: Triangle, p: Point)
    requires Area(t) != 0.0
    ensures Covers(t, p) <==> Convex(Weights(t, p))
    ensures Covers(t, p) <==> exists b :: Convex(b) && Combine(t, b) == p
    ensures forall b: Bary :: b.a + b.b + b.c == 1.0 && Combine(t, b) == p ==> b == Weights(t, p)
  {
    WeightsAreCoordinates(t, p);
    SignsOfWeights(t, p);
    forall b: Bary | b.a + b.b + b.c == 1.0 && Combine(t, b) == p ensures b == Weights(t, p) {
      EdgesOfCombination(t, b);
      QuotientBack(b.a, Area(t));
      QuotientBack(b.b, Area(t));
      QuotientBack(b.c, Area(t));
    }
  }

  lemma QuotientBack(x: real, m: real)
    requires m != 0.0
    ensures x * m / m == x
  {
  }

  lemma SignsOfWeights(t: Triangle, p: Point)
    requires Area(t) != 0.0
    ensures Covers(t, p) <==> Convex(Weights(t, p))
  {
    var w, area, b := Edges(t, p), Area(t), Weights(t, p);
    WeightsAreCoordinates(t, p);
    SignOfQuotient(w.a, area);
    SignOfQuotient(w.b, area);
    SignOfQuotient(w.c, area);
  }

  lemma SignOfQuotient(x: real, m: real)
    requires m != 0.0
    ensures m > 0.0 ==> (x / m >= 0.0 <==> x >= 0.0)
    ensures m < 0.0 ==> (x / m >= 0.0 <==> x <= 0.0)
  {
    var q := x / m;
    assert q * m == x;
  }

  // ---- symmetry ------------------------------------------------------------------------

  function Rotate(t: Triangle): (r: Triangle) { Triangle(t.p1, t.p2, t.p0) }

  function Swap(t: Triangle): (r: Triangle) { Triangle(t.p1, t.p0, t.p2) }

  /** Rotating or swapping corners keeps coverage and moves the weights with the corners; every
      permutation of three corners is made of these two. */
  lemma PermutationKeepsCoverage(t: Triangle, p: Point)
    ensures Covers(Rotate(t), p) == Covers(Swap(t), p) == Covers(t, p)
    ensures Area(t) != 0.0 ==> Area(Rotate(t)) != 0.0 && Area(Swap(t)) != 0.0
    ensures Area(t) != 0.0 ==> var b := Weights(t, p);
      Weights(Rotate(t), p) == Bary(b.b, b.c, b.a) && Weights(Swap(t), p) == Bary(b.b, b.a, b.c)
  {
    hide Edge;
    EdgeRotates(t.p0, t.p1, t.p2);
    EdgeRotates(t.p1, t.p0, t.p2);
    EdgeRotates(t.p0, t.p1, p);
    EdgeRotates(t.p1, t.p2, p);
    EdgeRotates(t.p2, t.p0, p);
    if Area(t) != 0.0 {
      var w := Edges(t, p);
      NegatedQuotient(w.a, Area(t));
      NegatedQuotient(w.b, Area(t));
      NegatedQuotient(w.c, Area(t));
    }
  }

  lemma NegatedQuotient(x: real, m: real)
    requires m != 0.0
    ensures -x / -m == x / m
  {
  }

  /** Reflection in the vertical line x = width / 2. */
  function Reflect(p: Point, width: real): (q: Point) { Point(width - p.x, p.y) }

  function ReflectAll(t: Triangle, width: real): (r: Triangle) {
    Triangle(Reflect(t.p0, width), Reflect(t.p1, width), Reflect(t.p2, width))
  }

  lemma EdgeReflects(a: Point, b: Point, c: Point, width: real)
    ensures Edge(Reflect(a, width), Reflect(b, width), Reflect(c, width)) == -Edge(a, b, c)
  {
  }

  lemma ReflectionMirrorsCoverage(t: Triangle, p: Point, width: real)
    ensures Covers(ReflectAll(t, width), Reflect(p, width)) == Covers(t, p)
    ensures Area(t) != 0.0 ==> Area(ReflectAll(t, width)) != 0.0
    ensures Area(t) != 0.0 ==> Weights(ReflectAll(t, width), Reflect(p, width)) == Weights(t, p)
  {
    hide Edge;
    EdgeReflects(t.p0, t.p1, t.p2, width);
    EdgeReflects(t.p1, t.p2, p, width);
    EdgeReflects(t.p2, t.p0, p, width);
    EdgeReflects(t.p0, t.p1, p, width);
    if Area(t) != 0.0 {
      var w := Edges(t, p);
      NegatedQuotient(w.a, Area(t));
      NegatedQuotient(w.b, Area(t));
      NegatedQuotient(w.c, Area(t));
    }
  }

  /** Reflection in the horizontal line y = height / 2. */
  function Flip(p: Point, height: real): (q: Point) { Point(p.x, height - p.y) }

  function FlipAll(t: Triangle, height: real): (r: Triangle) {
    Triangle(Flip(t.p0, height), Flip(t.p1, height), Flip(t.p2, height))
  }

  lemma EdgeFlips(a: Point, b: Point, c: Point, height: real)
    ensures Edge(Flip(a, height), Flip(b, height), Flip(c, height)) == -Edge(a, b, c)
  {
  }

  lemma FlipMirrorsCoverage(t: Triangle, p: Point, height: real)
    ensures Covers(FlipAll(t, height), Flip(p, height)) == Covers(t, p)
    ensures Area(t) != 0.0 <==> Area(FlipAll(t, height)) != 0.0
    ensures Area(t) != 0.0 ==> Weights(FlipAll(t, height), Flip(p, height)) == Weights(t, p)
  {
    hide Edge;
    EdgeFlips(t.p0, t.p1, t.p2, height);
    EdgeFlips(t.p1, t.p2, p, height);
    EdgeFlips(t.p2, t.p0, p, height);
    EdgeFlips(t.p0, t.p1, p, height);
    if Area(t) != 0.0 {
      var w := Edges(t, p);
      NegatedQuotient(w.a, Area(t));
      NegatedQuotient(w.b, Area(t));
      NegatedQuotient(w.c, Area(t));
    }
  }

  // ---- convexity along a row -----------------------------------------------------------

  lemma EdgeBetween(a: Point, b: Point, y: real, x1: real, x2: real, x3: real)
    requires x1 <= x2 <= x3
    ensures var (e1, e2, e3) := (Edge(a, b, Point(x1, y)), Edge(a, b, Point(x2, y)), Edge(a, b, Point(x3, y)));
      e1 <= e2 <= e3 || e1 >= e2 >= e3
  {
    var d := b.y - a.y;
    if d >= 0.0 {
      assert d * (x2 - x1) >= 0.0 && d * (x3 - x2) >= 0.0;
    } else {
      assert d * (x2 - x1) <= 0.0 && d * (x3 - x2) <= 0.0;
    }
  }

  /** Between two covered points of a row everything is covered. */
  lemma RowIsOneRun(t: Triangle, y: real, x1: real, x2: real, x3: real)
    requires x1 <= x2 <= x3
    requires Covers(t, Point(x1, y)) && Covers(t, Point(x3, y))
    ensures Covers(t, Point(x2, y))
  {
    hide Edge;
    EdgeBetween(t.p1, t.p2, y, x1, x2, x3);
    EdgeBetween(t.p2, t.p0, y, x1, x2, x3);
    EdgeBetween(t.p0, t.p1, y, x1, x2, x3);
  }

  // ---- splitting an edge ------------------------------------------------------------------

  function Between(a: Point, b: Point, s: real): (m: Point) {
    Point(Toward(a.x, b.x, s), Toward(a.y, b.y, s))
  }

  function Toward(x: real, y: real, s: real): (z: real) { x + s * (y - x) }

  /** Moving a corner along an edge scales or mixes the edge functions. */
  lemma EdgeSplits(a: Point, b: Point, c: Point, s: real)
    ensures var m := Between(a, b, s);
      && Edge(a, m, c) == s * Edge(a, b, c)
      && Edge(m, b, c) == (1.0 - s) * Edge(a, b, c)
  {
  }

  lemma EdgeMixes(a: Point, b: Point, c: Point, d: Point, s: real)
    ensures Edge(Between(a, b, s), c, d) == (1.0 - s) * Edge(a, c, d) + s * Edge(b, c, d)
  {
  }

  lemma SignsUnderSplit(w0: real, w1: real, w2: real, s: real, cut: real)
    requires 0.0 < s < 1.0 && cut == s * w0 - (1.0 - s) * w1
    ensures (w0 >= 0.0 && w1 >= 0.0 && w2 >= 0.0)
        <==> ((cut >= 0.0 && w1 >= 0.0 && s * w2 >= 0.0) || (w0 >= 0.0 && -cut >= 0.0 && (1.0 - s) * w2 >= 0.0))
    ensures (cut >= 0.0 && w1 >= 0.0 && s * w2 >= 0.0) && (w0 >= 0.0 && -cut >= 0.0 && (1.0 - s) * w2 >= 0.0)
        <==> (w0 >= 0.0 && w1 >= 0.0 && w2 >= 0.0) && cut == 0.0
  {
    Scaled(s, w0);
    Scaled(s, w2);
    Scaled(1.0 - s, w1);
    Scaled(1.0 - s, w2);
  }

  lemma Scaled(k: real, x: real)
    requires k > 0.0
    ensures (k * x >= 0.0 <==> x >= 0.0) && (k * x <= 0.0 <==> x <= 0.0)
  {
    if x > 0.0 { assert k * x > 0.0; } else if x < 0.0 { assert k * -x > 0.0; }
  }

  function LeftPart(t: Triangle, s: real): (l: Triangle) { Triangle(t.p0, Between(t.p0, t.p1, s), t.p2) }

  function RightPart(t: Triangle, s: real): (r: Triangle) { Triangle(Between(t.p0, t.p1, s), t.p1, t.p2) }

  /** The side of the cutting line p lies on. */
  function Cut(t: Triangle, s: real, p: Point): (e: real) { Edge(Between(t.p0, t.p1, s), t.p2, p) }

  lemma SidesUnderSplit(area: real, w: Bary, s: real, cut: real, areaL: real, l: Bary, areaR: real, r: Bary)
    requires area != 0.0 && 0.0 < s < 1.0 && cut == s * w.a - (1.0 - s) * w.b
    requires areaL == s * area && l == Bary(cut, w.b, s * w.c)
    requires areaR == (1.0 - s) * area && r == Bary(w.a, -cut, (1.0 - s) * w.c)
    ensures areaL != 0.0 && areaR != 0.0
    ensures SameSide(area, w) <==> SameSide(areaL, l) || SameSide(areaR, r)
    ensures SameSide(areaL, l) && SameSide(areaR, r) <==> SameSide(area, w) && cut == 0.0
  {
    Scaled(s, area);
    Scaled(1.0 - s, area);
    if area > 0.0 {
      SignsUnderSplit(w.a, w.b, w.c, s, cut);
    } else {
      SignsUnderSplit(-w.a, -w.b, -w.c, s, -cut);
      assert s * -w.c == -(s * w.c) && (1.0 - s) * -w.c == -((1.0 - s) * w.c);
    }
  }

  lemma EdgesUnderSplit(t: Triangle, s: real, p: Point)
    ensures var (w, cut) := (Edges(t, p), Cut(t, s, p));
      && Area(LeftPart(t, s)) == s * Area(t) && Edges(LeftPart(t, s), p) == Bary(cut, w.b, s * w.c)
      && Area(RightPart(t, s)) == (1.0 - s) * Area(t) && Edges(RightPart(t, s), p) == Bary(w.a, -cut, (1.0 - s) * w.c)
      && cut == s * w.a - (1.0 - s) * w.b
  {
    var m := Between(t.p0, t.p1, s);
    EdgeSplits(t.p0, t.p1, t.p2, s);
    EdgeSplits(t.p0, t.p1, p, s);
    EdgeMixes(t.p0, t.p1, t.p2, p, s);
    EdgeRotates(t.p2, t.p0, p);
    EdgeRotates(m, t.p2, p);
    hide Edge, Between;
  }

  /** Cutting a triangle from a corner to a point strictly inside the opposite edge is watertight: the
      two parts cover exactly what the whole covers, and share exactly the covered points of the cut. */
  lemma WatertightSplit(t: Triangle, s: real, p: Point)
    requires Area(t) != 0.0 && 0.0 < s < 1.0
    ensures Area(LeftPart(t, s)) != 0.0 && Area(RightPart(t, s)) != 0.0
    ensures Covers(t, p) <==> Covers(LeftPart(t, s), p) || Covers(RightPart(t, s), p)
    ensures Covers(LeftPart(t, s), p) && Covers(RightPart(t, s), p) <==> Covers(t, p) && Cut(t, s, p) == 0.0
  {
    hide Area, Edges, SameSide, LeftPart, RightPart, Cut;
    EdgesUnderSplit(t, s, p);
    var l, r := LeftPart(t, s), RightPart(t, s);
    SidesUnderSplit(Area(t), Edges(t, p), s, Cut(t, s, p), Area(l), Edges(l, p), Area(r), Edges(r, p));
  }
}
