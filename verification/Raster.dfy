/** Row-major grids: pixel (i, j) of a width-w image sits at index j*w + i. */
module Grid {
  import opened Arith

  function At(w: nat, i: int, j: int): (k: int) { j * w + i }

  function Col(w: nat, k: nat): (i: nat) { if w == 0 then 0 else k % w }

  function Row(w: nat, k: nat): (j: nat) { if w == 0 then 0 else k / w }

  predicate Inside(w: nat, h: nat, i: int, j: int) { 0 <= i < w && 0 <= j < h }

  lemma RowFits(w: nat, h: nat, j: nat)
    requires j < h
    ensures 0 <= j * w <= j * w + w <= w * h
  {
    MulMonotone(j + 1, h, w);
    assert (j + 1) * w == j * w + w;
  }

  lemma MulMonotone(a: nat, b: nat, w: nat)
    requires a <= b
    ensures 0 <= a * w <= b * w
  {
  }

  lemma AtInside(w: nat, h: nat, i: int, j: int)
    requires Inside(w, h, i, j)
    ensures 0 <= At(w, i, j) < w * h && Col(w, At(w, i, j)) == i && Row(w, At(w, i, j)) == j
  {
    RowFits(w, h, j);
    ModUnique(At(w, i, j), w, j, i);
  }

  lemma Coords(w: nat, h: nat, k: nat)
    requires k < w * h
    ensures Inside(w, h, Col(w, k), Row(w, k)) && At(w, Col(w, k), Row(w, k)) == k
  {
    assert w > 0;
    assert k == k / w * w + k % w;
    if k / w >= h {
      MulMonotone(h, k / w, w);
      assert false;
    }
  }
}

/** The reference rasteriser, over the reals. Buffer row j is window y = j + 0.5, not flipped. */
module Raster {
  import opened Geometry
  import opened Grid

  datatype Viewport = Viewport(scaleX: real, scaleY: real, translateX: real, translateY: real)
  datatype Vertex = Vertex(x: real, y: real, u: real, v: real)
  datatype Coverage = Coverage(w: nat, h: nat, inside: seq<bool>)

  function ViewportFor(w: nat, h: nat): (vp: Viewport) {
    Viewport(w as real / 2.0, h as real / 2.0, w as real / 2.0, h as real / 2.0)
  }

  function Window(vp: Viewport, v: Vertex): (p: Point) {
    Point(Affine(v.x, vp.scaleX, vp.translateX), Affine(v.y, vp.scaleY, vp.translateY))
  }

  function Affine(x: real, scale: real, translate: real): (y: real) { x * scale + translate }

  function WindowTriangle(vp: Viewport, v: seq<Vertex>): (t: Triangle)
    requires |v| == 3
  {
    Triangle(Window(vp, v[0]), Window(vp, v[1]), Window(vp, v[2]))
  }

  function Centre(i: int, j: int): (p: Point) { Point(i as real + 0.5, j as real + 0.5) }

  function CentreOf(w: nat, k: nat): (p: Point) { Centre(Col(w, k), Row(w, k)) }

  /** The coverage image of a triangle. */
  function CoverageGrid(t: Triangle, w: nat, h: nat): (g: seq<bool>)
    ensures |g| == w * h
  {
    seq(w * h, k requires 0 <= k < w * h => Covers(t, CentreOf(w, k)))
  }

  /** The weights stored beside it: zero where nothing is covered. */
  function WeightGrid(t: Triangle, w: nat, h: nat): (g: seq<Bary>)
    ensures |g| == w * h
  {
    seq(w * h, k requires 0 <= k < w * h =>
      if Area(t) != 0.0 && Covers(t, CentreOf(w, k)) then Weights(t, CentreOf(w, k)) else Bary(0.0, 0.0, 0.0))
  }

  /** A vertex on the window: scaled, then moved. */
  lemma WindowIs(vp: Viewport, v: Vertex)
    ensures Window(vp, v) == Point(v.x * vp.scaleX + vp.translateX, v.y * vp.scaleY + vp.translateY)
  {
  }

  /** The centre (i + 0.5, j + 0.5) of pixel (i, j) is the mean of the three vertices' window positions
      under weights b. */
  predicate Hits(vp: Viewport, v: seq<Vertex>, b: Bary, i: int, j: int)
    requires |v| == 3
  {
    && b.a >= 0.0 && b.b >= 0.0 && b.c >= 0.0 && b.a + b.b + b.c == 1.0
    && IsMean(i as real + 0.5, b, Window(vp, v[0]).x, Window(vp, v[1]).x, Window(vp, v[2]).x)
    && IsMean(j as real + 0.5, b, Window(vp, v[0]).y, Window(vp, v[1]).y, Window(vp, v[2]).y)
  }

  predicate IsMean(m: real, b: Bary, x: real, y: real, z: real) { m == b.a * x + b.b * y + b.c * z }

  /** Twice the signed area of the triangle on the window. */
  function WindowArea(vp: Viewport, v: seq<Vertex>): (a: real)
    requires |v| == 3
  {
    var (p, q, r) := (Window(vp, v[0]), Window(vp, v[1]), Window(vp, v[2]));
    (q.x - p.x) * (r.y - p.y) - (q.y - p.y) * (r.x - p.x)
  }

  /** Pixel (i, j), stored at j * w + i, is right: marked exactly when its centre lies in the closed triangle,
      with the weights that say so; never for a triangle without area. */
  ghost predicate PixelRight(vp: Viewport, v: seq<Vertex>, w: nat, inside: seq<bool>, bw: seq<Bary>, i: int, j: int)
    requires |v| == 3 && 0 <= j * w + i < |inside| && j * w + i < |bw|
  {
    if WindowArea(vp, v) == 0.0 then !inside[j * w + i] && bw[j * w + i] == Bary(0.0, 0.0, 0.0)
    else
      && (inside[j * w + i] <==> exists b :: Hits(vp, v, b, i, j))
      && (inside[j * w + i] ==> Hits(vp, v, bw[j * w + i], i, j))
      && (!inside[j * w + i] ==> bw[j * w + i] == Bary(0.0, 0.0, 0.0))
  }

  lemma HitsIsConvex(vp: Viewport, v: seq<Vertex>, b: Bary, i: int, j: int)
    requires |v| == 3
    ensures Hits(vp, v, b, i, j) <==> Convex(b) && Combine(WindowTriangle(vp, v), b) == Centre(i, j)
  {
    hide IsMean, Mix, Window;
    var t := WindowTriangle(vp, v);
    MeanIsMix(i as real + 0.5, b, t.p0.x, t.p1.x, t.p2.x);
    MeanIsMix(j as real + 0.5, b, t.p0.y, t.p1.y, t.p2.y);
  }

  lemma MeanIsMix(m: real, b: Bary, x: real, y: real, z: real)
    ensures IsMean(m, b, x, y, z) <==> Mix(b, x, y, z) == m
  {
  }

  lemma WindowAreaIs(vp: Viewport, v: seq<Vertex>)
    requires |v| == 3
    ensures WindowArea(vp, v) == Area(WindowTriangle(vp, v))
  {
    hide Window;
  }

  lemma PixelIsRight(vp: Viewport, v: seq<Vertex>, w: nat, h: nat, i: int, j: int)
    requires |v| == 3 && Inside(w, h, i, j)
    ensures 0 <= j * w + i < w * h
    ensures var t := WindowTriangle(vp, v);
      PixelRight(vp, v, w, CoverageGrid(t, w, h), WeightGrid(t, w, h), i, j)
  {
    hide CoverageGrid, WeightGrid, Covers, Weights, Hits, WindowArea, Area, Combine, Convex, WindowTriangle;
    var t, p := WindowTriangle(vp, v), Centre(i, j);
    CoveredAt(t, w, h, i, j);
    WindowAreaIs(vp, v);
    if Area(t) == 0.0 {
      DegenerateGrids(t, w, h);
    } else {
      CoverageIsTriangle(t, p);
      WeightsAreCoordinates(t, p);
      forall b ensures Hits(vp, v, b, i, j) <==> Convex(b) && Combine(t, b) == p {
        HitsIsConvex(vp, v, b, i, j);
      }
    }
  }

  method Rasterise(vp: Viewport, v: seq<Vertex>, w: nat, h: nat) returns (cov: Coverage, bw: seq<Bary>)
    requires |v| == 3
    ensures cov == Coverage(w, h, CoverageGrid(WindowTriangle(vp, v), w, h))
    ensures bw == WeightGrid(WindowTriangle(vp, v), w, h)
    ensures forall i, j :: Inside(w, h, i, j) ==>
      0 <= j * w + i < w * h && PixelRight(vp, v, w, cov.inside, bw, i, j)
  {
    forall i, j | Inside(w, h, i, j)
      ensures 0 <= j * w + i < w * h
      ensures var t := WindowTriangle(vp, v);
        PixelRight(vp, v, w, CoverageGrid(t, w, h), WeightGrid(t, w, h), i, j)
    {
      PixelIsRight(vp, v, w, h, i, j);
    }
    cov, bw := RasteriseLoops(vp, v, w, h);
  }

  method RasteriseLoops(vp: Viewport, v: seq<Vertex>, w: nat, h: nat) returns (cov: Coverage, bw: seq<Bary>)
    requires |v| == 3
    ensures cov == Coverage(w, h, CoverageGrid(WindowTriangle(vp, v), w, h))
    ensures bw == WeightGrid(WindowTriangle(vp, v), w, h)
  {
    hide CoverageGrid, WeightGrid, Covers, Weights, Edge;
    var p0, p1, p2 := Window(vp, v[0]), Window(vp, v[1]), Window(vp, v[2]);
    ghost var t := Triangle(p0, p1, p2);
    ghost var grid, weights := CoverageGrid(t, w, h), WeightGrid(t, w, h);
    var area := Edge(p0, p1, p2);
    var inside := new bool[w * h](_ => false);
    var bary := new Bary[w * h](_ => Bary(0.0, 0.0, 0.0));
    if area == 0.0 {
      DegenerateGrids(t, w, h);
      assert inside[..] == grid && bary[..] == weights;
      return Coverage(w, h, inside[..]), bary[..];
    }
    for j := 0 to h
      invariant forall k :: 0 <= k < w * h && k < j * w ==> inside[k] == grid[k] && bary[k] == weights[k]
      invariant forall k :: 0 <= k < w * h && k >= j * w ==> !inside[k] && bary[k] == Bary(0.0, 0.0, 0.0)
    {
      var py := j as real + 0.5;
      var base, size := j * w, w * h;
      for i := 0 to w
        invariant forall k :: 0 <= k < size && k < base + i ==> inside[k] == grid[k] && bary[k] == weights[k]
        invariant forall k :: 0 <= k < size && k >= base + i ==> !inside[k] && bary[k] == Bary(0.0, 0.0, 0.0)
      {
        CoveredAt(t, w, h, i, j);
        var p := Point(i as real + 0.5, py);
        var w0, w1, w2 := Edge(p1, p2, p), Edge(p2, p0, p), Edge(p0, p1, p);
        var isIn := if area > 0.0 then w0 >= 0.0 && w1 >= 0.0 && w2 >= 0.0 else w0 <= 0.0 && w1 <= 0.0 && w2 <= 0.0;
        SignTest(t, p, isIn);
        if isIn {
          inside[base + i] := true;
          bary[base + i] := Bary(w0 / area, w1 / area, w2 / area);
        }
      }
      assert (j + 1) * w == base + w;
    }
    assert inside[..] == grid && bary[..] == weights;
    return Coverage(w, h, inside[..]), bary[..];
  }

  lemma SignTest(t: Triangle, p: Point, isIn: bool)
    requires Area(t) != 0.0
    requires var w := Edges(t, p);
      isIn == if Area(t) > 0.0 then w.a >= 0.0 && w.b >= 0.0 && w.c >= 0.0 else w.a <= 0.0 && w.b <= 0.0 && w.c <= 0.0
    ensures isIn == Covers(t, p)
    ensures var w := Edges(t, p); Weights(t, p) == Bary(w.a / Area(t), w.b / Area(t), w.c / Area(t))
  {
    hide Edge;
  }

  lemma DegenerateGrids(t: Triangle, w: nat, h: nat)
    requires Area(t) == 0.0
    ensures forall k :: 0 <= k < w * h ==> !CoverageGrid(t, w, h)[k] && WeightGrid(t, w, h)[k] == Bary(0.0, 0.0, 0.0)
  {
    hide Edge;
  }

  /** Read the grid by pixel. */
  lemma CoveredAt(t: Triangle, w: nat, h: nat, i: int, j: int)
    requires Inside(w, h, i, j)
    ensures 0 <= At(w, i, j) < w * h
    ensures CoverageGrid(t, w, h)[At(w, i, j)] == Covers(t, Centre(i, j))
    ensures WeightGrid(t, w, h)[At(w, i, j)] ==
      if Area(t) != 0.0 && Covers(t, Centre(i, j)) then Weights(t, Centre(i, j)) else Bary(0.0, 0.0, 0.0)
  {
    AtInside(w, h, i, j);
  }

  /** The default viewport takes the clip square to the whole image, bottom edge to row 0. */
  lemma ClipSquareFillsImage(v: Vertex, w: nat, h: nat)
    requires w > 0 && h > 0
    ensures var p := Window(ViewportFor(w, h), v);
      && (-1.0 <= v.x <= 1.0 <==> 0.0 <= p.x <= w as real) && (-1.0 <= v.y <= 1.0 <==> 0.0 <= p.y <= h as real)
      && (v.x == -1.0 <==> p.x == 0.0) && (v.y == -1.0 <==> p.y == 0.0)
      && p.x == (v.x + 1.0) * w as real / 2.0 && p.y == (v.y + 1.0) * h as real / 2.0
  {
    HalfScale(v.x, w as real);
    HalfScale(v.y, h as real);
  }

  lemma HalfScale(x: real, n: real)
    requires n > 0.0
    ensures var y := Affine(x, n / 2.0, n / 2.0);
      (x >= -1.0 <==> y >= 0.0) && (x <= 1.0 <==> y <= n) && (x == -1.0 <==> y == 0.0)
  {
    assert Affine(x, n / 2.0, n / 2.0) == (n / 2.0) * (x + 1.0);
    assert Affine(x, n / 2.0, n / 2.0) - n == (n / 2.0) * (x - 1.0);
    Scaled(n / 2.0, x + 1.0);
    Scaled(n / 2.0, x - 1.0);
  }

  /** For a triangle of non-zero area a pixel is marked exactly when its centre is a convex combination
      of the corners, and the stored weights are that combination. */
  lemma MarkedIffConvex(t: Triangle, w: nat, h: nat, i: int, j: int)
    requires Area(t) != 0.0 && Inside(w, h, i, j)
    ensures 0 <= At(w, i, j) < w * h
    ensures CoverageGrid(t, w, h)[At(w, i, j)] <==>
      exists b :: Convex(b) && Combine(t, b) == Point(i as real + 0.5, j as real + 0.5)
    ensures CoverageGrid(t, w, h)[At(w, i, j)] ==>
      var b := WeightGrid(t, w, h)[At(w, i, j)];
      Convex(b) && Combine(t, b) == Point(i as real + 0.5, j as real + 0.5)
  {
    hide Covers, Weights, Combine, Area, CoverageGrid, WeightGrid;
    CoveredAt(t, w, h, i, j);
    CoverageIsTriangle(t, Centre(i, j));
    WeightsAreCoordinates(t, Centre(i, j));
  }

  /** The marked pixels of a row are one run. */
  lemma RowRun(t: Triangle, w: nat, h: nat, j: int, i1: int, i2: int, i3: int)
    requires Inside(w, h, i1, j) && Inside(w, h, i3, j) && i1 <= i2 <= i3
    ensures 0 <= At(w, i1, j) < w * h && 0 <= At(w, i2, j) < w * h && 0 <= At(w, i3, j) < w * h
    ensures var inside := CoverageGrid(t, w, h);
      inside[At(w, i1, j)] && inside[At(w, i3, j)] ==> inside[At(w, i2, j)]
  {
    hide Covers, CoverageGrid, WeightGrid, At;
    CoveredAt(t, w, h, i1, j);
    CoveredAt(t, w, h, i2, j);
    CoveredAt(t, w, h, i3, j);
    if Covers(t, Centre(i1, j)) && Covers(t, Centre(i3, j)) {
      RowIsOneRun(t, j as real + 0.5, i1 as real + 0.5, i2 as real + 0.5, i3 as real + 0.5);
    }
  }

  // ---- symmetries of the image ------------------------------------------------------------

  /** The corner order s: a permutation of 0, 1, 2. */
  predicate Order(s: seq<nat>) {
    |s| == 3 && s[0] < 3 && s[1] < 3 && s[2] < 3 && s[0] != s[1] && s[0] != s[2] && s[1] != s[2]
  }

  function Reorder(v: seq<Vertex>, s: seq<nat>): (r: seq<Vertex>)
    requires |v| == 3 && Order(s)
  {
    [v[s[0]], v[s[1]], v[s[2]]]
  }

  function Component(b: Bary, n: nat): (x: real) { if n == 0 then b.a else if n == 1 then b.b else b.c }

  function ReorderBary(b: Bary, s: seq<nat>): (r: Bary)
    requires Order(s)
  {
    Bary(Component(b, s[0]), Component(b, s[1]), Component(b, s[2]))
  }

  /** Any order of the vertices covers the same points with the weights in that order. */
  lemma OrderDoesNotMatter(vp: Viewport, v: seq<Vertex>, s: seq<nat>, p: Point)
    requires |v| == 3 && Order(s)
    ensures var (t, t') := (WindowTriangle(vp, v), WindowTriangle(vp, Reorder(v, s)));
      && Covers(t', p) == Covers(t, p)
      && (Area(t') == 0.0 <==> Area(t) == 0.0)
      && (Area(t) != 0.0 ==> Weights(t', p) == ReorderBary(Weights(t, p), s))
  {
    hide Covers, Area, Weights, Window;
    var t := WindowTriangle(vp, v);
    var r, r2 := Rotate(t), Rotate(Rotate(t));
    PermutationKeepsCoverage(t, p);
    PermutationKeepsCoverage(r, p);
    PermutationKeepsCoverage(r2, p);
    PermutationKeepsCoverage(Swap(t), p);
    PermutationKeepsCoverage(Swap(r), p);
    PermutationKeepsCoverage(Swap(r2), p);
    assert Rotate(r2) == t && Swap(Swap(t)) == t && Swap(Swap(r)) == r && Swap(Swap(r2)) == r2;
  }

  /** Hence the rasterised images are equal pixel by pixel. */
  lemma OrderKeepsImage(vp: Viewport, v: seq<Vertex>, s: seq<nat>, w: nat, h: nat)
    requires |v| == 3 && Order(s)
    ensures var (t, t') := (WindowTriangle(vp, v), WindowTriangle(vp, Reorder(v, s)));
      && CoverageGrid(t', w, h) == CoverageGrid(t, w, h)
      && forall k :: 0 <= k < w * h ==> WeightGrid(t', w, h)[k] == ReorderBary(WeightGrid(t, w, h)[k], s)
  {
    hide Covers, Area, Weights, WindowTriangle;
    var t, t' := WindowTriangle(vp, v), WindowTriangle(vp, Reorder(v, s));
    forall k: nat | k < w * h
      ensures CoverageGrid(t', w, h)[k] == CoverageGrid(t, w, h)[k]
      ensures WeightGrid(t', w, h)[k] == ReorderBary(WeightGrid(t, w, h)[k], s)
    {
      OrderDoesNotMatter(vp, v, s, CentreOf(w, k));
    }
  }

  function NegateX(v: Vertex): (n: Vertex) { v.(x := -v.x) }

  /** Under the default viewport, negating every X mirrors the image left to right. */
  lemma MirrorImage(v: seq<Vertex>, w: nat, h: nat, i: int, j: int)
    requires |v| == 3 && Inside(w, h, i, j)
    ensures var (t, m) := (WindowTriangle(ViewportFor(w, h), v),
                           WindowTriangle(ViewportFor(w, h), [NegateX(v[0]), NegateX(v[1]), NegateX(v[2])]));
      && 0 <= At(w, i, j) < w * h && 0 <= At(w, w - 1 - i, j) < w * h
      && CoverageGrid(m, w, h)[At(w, w - 1 - i, j)] == CoverageGrid(t, w, h)[At(w, i, j)]
      && WeightGrid(m, w, h)[At(w, w - 1 - i, j)] == WeightGrid(t, w, h)[At(w, i, j)]
  {
    hide Covers, Area, Weights, CoverageGrid, WeightGrid, At;
    var vp := ViewportFor(w, h);
    var t, m := WindowTriangle(vp, v), WindowTriangle(vp, [NegateX(v[0]), NegateX(v[1]), NegateX(v[2])]);
    var width := w as real;
    WindowReflects(v[0], w, h);
    WindowReflects(v[1], w, h);
    WindowReflects(v[2], w, h);
    assert m == ReflectAll(t, width);
    assert Centre(w - 1 - i, j) == Reflect(Centre(i, j), width);
    ReflectionMirrorsCoverage(t, Centre(i, j), width);
    ReflectionMirrorsCoverage(m, Centre(w - 1 - i, j), width);
    assert ReflectAll(m, width) == t;
    CoveredAt(t, w, h, i, j);
    CoveredAt(m, w, h, w - 1 - i, j);
  }

  lemma WindowReflects(v: Vertex, w: nat, h: nat)
    ensures Window(ViewportFor(w, h), NegateX(v)) == Reflect(Window(ViewportFor(w, h), v), w as real)
  {
  }

  function NegateY(v: Vertex): (n: Vertex) { v.(y := -v.y) }

  /** Under the default viewport, negating every Y mirrors the image top to bottom. */
  lemma FlipImage(v: seq<Vertex>, w: nat, h: nat, i: int, j: int)
    requires |v| == 3 && Inside(w, h, i, j)
    ensures var (t, m) := (WindowTriangle(ViewportFor(w, h), v),
                           WindowTriangle(ViewportFor(w, h), [NegateY(v[0]), NegateY(v[1]), NegateY(v[2])]));
      && 0 <= At(w, i, j) < w * h && 0 <= At(w, i, h - 1 - j) < w * h
      && CoverageGrid(m, w, h)[At(w, i, h - 1 - j)] == CoverageGrid(t, w, h)[At(w, i, j)]
      && WeightGrid(m, w, h)[At(w, i, h - 1 - j)] == WeightGrid(t, w, h)[At(w, i, j)]
  {
    hide Covers, Area, Weights, CoverageGrid, WeightGrid, At;
    var vp := ViewportFor(w, h);
    var t, m := WindowTriangle(vp, v), WindowTriangle(vp, [NegateY(v[0]), NegateY(v[1]), NegateY(v[2])]);
    var height := h as real;
    WindowFlips(v[0], w, h);
    WindowFlips(v[1], w, h);
    WindowFlips(v[2], w, h);
    assert m == FlipAll(t, height);
    assert Centre(i, h - 1 - j) == Flip(Centre(i, j), height);
    FlipMirrorsCoverage(t, Centre(i, j), height);
    CoveredAt(t, w, h, i, j);
    CoveredAt(m, w, h, i, h - 1 - j);
  }

  lemma WindowFlips(v: Vertex, w: nat, h: nat)
    ensures Window(ViewportFor(w, h), NegateY(v)) == Flip(Window(ViewportFor(w, h), v), h as real)
  {
  }

  // ---- cutting an edge ----------------------------------------------------------------------

  /** The vertex a fraction s of the way from a to b. */
  function Lerp(a: Vertex, b: Vertex, s: real): (m: Vertex) {
    Vertex(Toward(a.x, b.x, s), Toward(a.y, b.y, s), Toward(a.u, b.u, s), Toward(a.v, b.v, s))
  }

  lemma WindowLerps(vp: Viewport, a: Vertex, b: Vertex, s: real)
    ensures Window(vp, Lerp(a, b, s)) == Between(Window(vp, a), Window(vp, b), s)
  {
    hide Affine, Toward;
    AffineLerp(a.x, b.x, s, vp.scaleX, vp.translateX);
    AffineLerp(a.y, b.y, s, vp.scaleY, vp.translateY);
  }

  lemma AffineLerp(a: real, b: real, s: real, k: real, c: real)
    ensures Affine(Toward(a, b, s), k, c) == Toward(Affine(a, k, c), Affine(b, k, c), s)
  {
    var d := b - a;
    assert (b * k + c) - (a * k + c) == d * k;
    assert (a + s * d) * k == a * k + s * (d * k);
  }

  /** Cut the triangle at any point strictly inside any of its edges: the two parts mark together
      exactly the pixels of the whole, and both mark exactly its pixels centred on the cut. The edge
      cut is the one between the first two vertices in order s. */
  lemma SplitImage(vp: Viewport, v: seq<Vertex>, s: seq<nat>, f: real, w: nat, h: nat, k: nat)
    requires |v| == 3 && Order(s) && 0.0 < f < 1.0 && k < w * h
    requires Area(WindowTriangle(vp, v)) != 0.0
    ensures var r := Reorder(v, s);
      var m := Lerp(r[0], r[1], f);
      var (whole, left, right) := (CoverageGrid(WindowTriangle(vp, v), w, h),
                                   CoverageGrid(WindowTriangle(vp, [r[0], m, r[2]]), w, h),
                                   CoverageGrid(WindowTriangle(vp, [m, r[1], r[2]]), w, h));
      && (whole[k] <==> left[k] || right[k])
      && (left[k] && right[k] <==> whole[k] && Edge(Window(vp, m), Window(vp, r[2]), CentreOf(w, k)) == 0.0)
  {
    hide Covers, Area, Edge, Window, Between;
    var r := Reorder(v, s);
    var t := WindowTriangle(vp, r);
    OrderDoesNotMatter(vp, v, s, CentreOf(w, k));
    WindowLerps(vp, r[0], r[1], f);
    WatertightSplit(t, f, CentreOf(w, k));
    assert WindowTriangle(vp, [r[0], Lerp(r[0], r[1], f), r[2]]) == LeftPart(t, f);
    assert WindowTriangle(vp, [Lerp(r[0], r[1], f), r[1], r[2]]) == RightPart(t, f);
  }
}
