/** The tolerance band around the coverage boundary. */
module Band {
  import opened Grid
  import opened Raster

  /** The coverage slice holds a value for every pixel. */
  predicate Complete(cov: Coverage) { |cov.inside| >= cov.w * cov.h }

  predicate InImage(cov: Coverage, i: int, j: int) { Inside(cov.w, cov.h, i, j) }

  function Pix(cov: Coverage, i: int, j: int): (b: bool)
    requires Complete(cov) && InImage(cov, i, j)
  {
    AtInside(cov.w, cov.h, i, j);
    cov.inside[At(cov.w, i, j)]
  }

  /** Pixel (i, j) is stored at j * w + i. */
  lemma PixAt(cov: Coverage, i: int, j: int)
    requires Complete(cov) && InImage(cov, i, j)
    ensures 0 <= j * cov.w + i < |cov.inside| && Pix(cov, i, j) == cov.inside[j * cov.w + i]
  {
    AtInside(cov.w, cov.h, i, j);
  }

  predicate Differs(cov: Coverage, i: int, j: int, ni: int, nj: int)
    requires Complete(cov) && InImage(cov, i, j)
  {
    InImage(cov, ni, nj) && Pix(cov, ni, nj) != Pix(cov, i, j)
  }

  /** Some neighbour to the right, left, below or above differs. */
  predicate Boundary(cov: Coverage, i: int, j: int)
    requires Complete(cov) && InImage(cov, i, j)
  {
    || Differs(cov, i, j, i + 1, j) || Differs(cov, i, j, i - 1, j)
    || Differs(cov, i, j, i, j + 1) || Differs(cov, i, j, i, j - 1)
  }

  /** Chebyshev distance at most r. */
  predicate Near(i: int, j: int, a: int, b: int, r: int) {
    -r <= a - i <= r && -r <= b - j <= r
  }

  function Radius(tol: int): (r: nat) { if tol <= 0 then 0 else tol }

  ghost predicate InBand(cov: Coverage, tol: int, i: int, j: int)
    requires Complete(cov)
  {
    exists a, b :: InImage(cov, a, b) && Near(a, b, i, j, Radius(tol)) && Boundary(cov, a, b)
  }

  /** The band as an image. */
  ghost function BandGrid(cov: Coverage, tol: int): (g: seq<bool>)
    requires Complete(cov)
    ensures |g| == cov.w * cov.h
  {
    seq(cov.w * cov.h, k requires 0 <= k < cov.w * cov.h => InBand(cov, tol, Col(cov.w, k), Row(cov.w, k)))
  }

  // ---- computing it ---------------------------------------------------------------------

  const DELTAS: seq<(int, int)> := [(1, 0), (-1, 0), (0, 1), (0, -1)]

  method IsBoundary(cov: Coverage, i: int, j: int) returns (b: bool)
    requires Complete(cov) && InImage(cov, i, j)
    ensures b == Boundary(cov, i, j)
  {
    b := false;
    for d := 0 to 4
      invariant !b
      invariant forall e :: 0 <= e < d ==> !Differs(cov, i, j, i + DELTAS[e].0, j + DELTAS[e].1)
    {
      var ni, nj := i + DELTAS[d].0, j + DELTAS[d].1;
      if ni < 0 || nj < 0 || ni >= cov.w || nj >= cov.h {
        continue;
      }
      if Pix(cov, ni, nj) != Pix(cov, i, j) {
        b := true;
        assert Differs(cov, i, j, ni, nj);
        break;
      }
    }
    if !b {
      assert !Differs(cov, i, j, i + DELTAS[0].0, j + DELTAS[0].1);
      assert !Differs(cov, i, j, i + DELTAS[1].0, j + DELTAS[1].1);
      assert !Differs(cov, i, j, i + DELTAS[2].0, j + DELTAS[2].1);
      assert !Differs(cov, i, j, i + DELTAS[3].0, j + DELTAS[3].1);
    }
  }

  /** The boundary pixels, by flat index. */
  ghost predicate BoundaryAt(cov: Coverage, k: nat)
    requires Complete(cov)
  {
    InImage(cov, Col(cov.w, k), Row(cov.w, k)) && Boundary(cov, Col(cov.w, k), Row(cov.w, k))
  }

  /** Mark every in-image pixel of the square of radius tol around (i, j). */
  method Stamp(band: array<bool>, w: nat, h: nat, i: int, j: int, tol: nat)
    requires band.Length == w * h
    modifies band
    ensures forall k :: 0 <= k < w * h ==> band[k] == (old(band[k]) || Near(i, j, Col(w, k), Row(w, k), tol))
  {
    hide Col, Row;
    var lo := -(tol as int);
    for dj := lo to tol + 1
      invariant forall k :: 0 <= k < w * h ==>
        band[k] == (old(band[k]) || (Near(i, j, Col(w, k), Row(w, k), tol) && Row(w, k) - j < dj))
    {
      for di := lo to tol + 1
        invariant forall k :: 0 <= k < w * h ==>
          band[k] == (old(band[k]) || (Near(i, j, Col(w, k), Row(w, k), tol) &&
                                       (Row(w, k) - j < dj || (Row(w, k) - j == dj && Col(w, k) - i < di))))
      {
        var ni, nj := i + di, j + dj;
        if ni < 0 || nj < 0 || ni >= w || nj >= h {
          ForeignSquare(w, h, ni, nj);
          continue;
        }
        AtInside(w, h, ni, nj);
        SameSquare(w, h, ni, nj);
        band[nj * w + ni] := true;
      }
    }
  }

  lemma ForeignSquare(w: nat, h: nat, ni: int, nj: int)
    requires !Inside(w, h, ni, nj)
    ensures forall k :: 0 <= k < w * h ==> !(Col(w, k) == ni && Row(w, k) == nj)
  {
    forall k | 0 <= k < w * h ensures !(Col(w, k) == ni && Row(w, k) == nj) {
      Coords(w, h, k);
    }
  }

  lemma SameSquare(w: nat, h: nat, ni: int, nj: int)
    requires Inside(w, h, ni, nj)
    ensures forall k :: 0 <= k < w * h && Col(w, k) == ni && Row(w, k) == nj ==> k == At(w, ni, nj)
  {
    forall k | 0 <= k < w * h && Col(w, k) == ni && Row(w, k) == nj ensures k == At(w, ni, nj) {
      Coords(w, h, k);
    }
  }

  /** Some boundary pixel with index below n lies within r of pixel k. */
  ghost predicate Reached(cov: Coverage, n: nat, k: nat, r: nat)
    requires Complete(cov)
  {
    exists m: nat :: m < n && BoundaryAt(cov, m) && Near(Col(cov.w, m), Row(cov.w, m), Col(cov.w, k), Row(cov.w, k), r)
  }

  method MarkBoundary(cov: Coverage) returns (edge: array<bool>)
    requires Complete(cov)
    ensures fresh(edge) && edge.Length == cov.w * cov.h
    ensures forall k :: 0 <= k < edge.Length ==> edge[k] == BoundaryAt(cov, k)
  {
    hide Boundary, Near, BoundaryAt, Col, Row;
    var w, h := cov.w, cov.h;
    var size := w * h;
    edge := new bool[size](_ => false);
    for j := 0 to h
      invariant forall k :: 0 <= k < size && k < j * w ==> edge[k] == BoundaryAt(cov, k)
    {
      RowFits(w, h, j);
      var base := j * w;
      for i := 0 to w
        invariant forall k :: 0 <= k < size && k < base + i ==> edge[k] == BoundaryAt(cov, k)
      {
        var b := IsBoundary(cov, i, j);
        BoundaryIndex(cov, i, j);
        var idx := base + i;
        assert 0 <= idx < size && BoundaryAt(cov, idx) == b;
        edge[idx] := b;
      }
      assert (j + 1) * w == base + w;
    }
  }

  lemma BoundaryIndex(cov: Coverage, i: int, j: int)
    requires Complete(cov) && InImage(cov, i, j)
    ensures 0 <= At(cov.w, i, j) < cov.w * cov.h && BoundaryAt(cov, At(cov.w, i, j)) == Boundary(cov, i, j)
    ensures Col(cov.w, At(cov.w, i, j)) == i && Row(cov.w, At(cov.w, i, j)) == j
  {
    AtInside(cov.w, cov.h, i, j);
  }

  method DilateRow(cov: Coverage, edge: array<bool>, tol: nat, band: array<bool>, j: nat, base: nat)
    requires Complete(cov) && edge.Length == band.Length == cov.w * cov.h && edge != band
    requires j < cov.h && base == j * cov.w
    requires forall k :: 0 <= k < edge.Length ==> edge[k] == BoundaryAt(cov, k)
    requires forall k :: 0 <= k < band.Length ==> band[k] == Reached(cov, base, k, tol)
    modifies band
    ensures forall k :: 0 <= k < band.Length ==> band[k] == Reached(cov, base + cov.w, k, tol)
  {
    hide Boundary, Near, BoundaryAt, Reached, Col, Row;
    RowFits(cov.w, cov.h, j);
    for i := 0 to cov.w
      invariant forall k :: 0 <= k < band.Length ==> band[k] == Reached(cov, base + i, k, tol)
    {
      BoundaryIndex(cov, i, j);
      ReachedNext(cov, base + i, tol);
      if !edge[base + i] {
        continue;
      }
      Stamp(band, cov.w, cov.h, i, j, tol);
    }
  }

  method Dilate(cov: Coverage, edge: array<bool>, tol: nat) returns (band: array<bool>)
    requires Complete(cov) && edge.Length == cov.w * cov.h
    requires forall k :: 0 <= k < edge.Length ==> edge[k] == BoundaryAt(cov, k)
    ensures fresh(band) && band.Length == cov.w * cov.h
    ensures forall k :: 0 <= k < band.Length ==> band[k] == Reached(cov, cov.w * cov.h, k, tol)
  {
    hide Boundary, Near, BoundaryAt, Reached, Col, Row;
    var w, h := cov.w, cov.h;
    band := new bool[w * h](_ => false);
    ReachedNone(cov, tol);
    for j := 0 to h
      invariant forall k :: 0 <= k < band.Length ==> band[k] == Reached(cov, j * w, k, tol)
    {
      DilateRow(cov, edge, tol, band, j, j * w);
      assert (j + 1) * w == j * w + w;
    }
  }

  method BoundaryBand(cov: Coverage, tol: int) returns (r: seq<bool>)
    requires Complete(cov)
    ensures r == BandGrid(cov, tol)
    ensures forall i, j :: InImage(cov, i, j) ==> 0 <= j * cov.w + i < |r|
    ensures forall i, j :: InImage(cov, i, j) ==>
      (r[j * cov.w + i] <==> !ConstantOnZone(cov, i, j, if tol <= 0 then 0 else tol))
  {
    r := BandLoops(cov, tol);
    forall i, j | InImage(cov, i, j)
      ensures 0 <= j * cov.w + i < |r|
      ensures r[j * cov.w + i] <==> !ConstantOnZone(cov, i, j, if tol <= 0 then 0 else tol)
    {
      hide InBand, ConstantOnZone;
      AtInside(cov.w, cov.h, i, j);
      BandMeaning(cov, tol, i, j);
    }
  }

  method BandLoops(cov: Coverage, tol: int) returns (r: seq<bool>)
    requires Complete(cov)
    ensures r == BandGrid(cov, tol)
  {
    hide Boundary, Near, BoundaryAt, Reached, InBand, Col, Row;
    var edge := MarkBoundary(cov);
    if tol <= 0 {
      r := edge[..];
      forall k | 0 <= k < |r| ensures r[k] == InBand(cov, tol, Col(cov.w, k), Row(cov.w, k)) {
        NearZero(cov, k, tol);
      }
      return;
    }
    var band := Dilate(cov, edge, tol);
    r := band[..];
    forall k | 0 <= k < |r| ensures r[k] == InBand(cov, tol, Col(cov.w, k), Row(cov.w, k)) {
      ReachedIsBand(cov, k, tol);
    }
  }

  lemma ReachedNone(cov: Coverage, r: nat)
    requires Complete(cov)
    ensures forall k: nat :: !Reached(cov, 0, k, r)
  {
  }

  lemma NearZero(cov: Coverage, k: nat, tol: int)
    requires Complete(cov) && k < cov.w * cov.h && tol <= 0
    ensures BoundaryAt(cov, k) == InBand(cov, tol, Col(cov.w, k), Row(cov.w, k))
  {
    hide Boundary, Col, Row;
    Coords(cov.w, cov.h, k);
    var i, j := Col(cov.w, k), Row(cov.w, k);
    if BoundaryAt(cov, k) {
      assert Near(i, j, i, j, 0);
    }
  }

  lemma ReachedNext(cov: Coverage, n: nat, r: nat)
    requires Complete(cov)
    ensures forall k: nat ::
      Reached(cov, n + 1, k, r) ==
      (|| Reached(cov, n, k, r)
       || (BoundaryAt(cov, n) && Near(Col(cov.w, n), Row(cov.w, n), Col(cov.w, k), Row(cov.w, k), r)))
  {
    hide Boundary, Col, Row, Near;
  }

  lemma ReachedIsBand(cov: Coverage, k: nat, tol: nat)
    requires Complete(cov) && k < cov.w * cov.h && tol > 0
    ensures Reached(cov, cov.w * cov.h, k, tol) == InBand(cov, tol, Col(cov.w, k), Row(cov.w, k))
  {
    hide Boundary, Near, Col, Row;
    var i, j := Col(cov.w, k), Row(cov.w, k);
    if InBand(cov, tol, i, j) {
      var a, b :| InImage(cov, a, b) && Near(a, b, i, j, Radius(tol)) && Boundary(cov, a, b);
      AtInside(cov.w, cov.h, a, b);
      assert BoundaryAt(cov, At(cov.w, a, b));
    }
  }

  // ---- what it means ------------------------------------------------------------------------

  predicate Adjacent(i: int, j: int, a: int, b: int) {
    (a == i && (b == j + 1 || b == j - 1)) || (b == j && (a == i + 1 || a == i - 1))
  }

  /** In the image, and at most one step up, down, left or right from an in-image pixel whose column and row
      differ from i and j by at most r. */
  ghost predicate InZone(cov: Coverage, i: int, j: int, r: nat, a: int, b: int) {
    && InImage(cov, a, b)
    && exists c, d :: InImage(cov, c, d) && i - r <= c <= i + r && j - r <= d <= j + r
                      && ((a == c && b == d) || Adjacent(c, d, a, b))
  }

  ghost predicate ConstantOnZone(cov: Coverage, i: int, j: int, r: nat)
    requires Complete(cov) && InImage(cov, i, j)
  {
    forall a, b :: InZone(cov, i, j, r, a, b) ==> Pix(cov, a, b) == Pix(cov, i, j)
  }

  lemma NearSymmetric(i: int, j: int, a: int, b: int, r: int)
    ensures Near(i, j, a, b, r) == Near(a, b, i, j, r)
  {
  }

  lemma BoundaryIsAdjacent(cov: Coverage, i: int, j: int)
    requires Complete(cov) && InImage(cov, i, j)
    ensures Boundary(cov, i, j) <==> exists a, b :: Adjacent(i, j, a, b) && Differs(cov, i, j, a, b)
  {
    hide Differs;
    if Boundary(cov, i, j) {
      assert Adjacent(i, j, i + 1, j) && Adjacent(i, j, i - 1, j);
      assert Adjacent(i, j, i, j + 1) && Adjacent(i, j, i, j - 1);
    }
  }

  /** With no boundary pixel in the ball, walk from any of its pixels to the centre, staying in the
      image and in the ball, without coverage ever changing. */
  lemma {:induction false} WalkToCentre(cov: Coverage, i: int, j: int, r: nat, a: int, b: int)
    requires Complete(cov) && InImage(cov, i, j) && InImage(cov, a, b) && Near(i, j, a, b, r)
    requires forall c, d :: InImage(cov, c, d) && Near(i, j, c, d, r) ==> !Boundary(cov, c, d)
    ensures Pix(cov, a, b) == Pix(cov, i, j)
    decreases (if a < i then i - a else a - i) + (if b < j then j - b else b - j)
  {
    hide Pix;
    if a != i {
      var a' := if a < i then a + 1 else a - 1;
      assert !Boundary(cov, a', b);
      WalkToCentre(cov, i, j, r, a', b);
    } else if b != j {
      var b' := if b < j then b + 1 else b - 1;
      assert !Boundary(cov, a, b');
      WalkToCentre(cov, i, j, r, a, b');
    }
  }

  /** A pixel is outside the band exactly when coverage is constant over its ball and the ball's neighbours. */
  lemma BandMeaning(cov: Coverage, tol: int, i: int, j: int)
    requires Complete(cov) && InImage(cov, i, j)
    ensures !InBand(cov, tol, i, j) <==> ConstantOnZone(cov, i, j, if tol <= 0 then 0 else tol)
  {
    hide Pix, Boundary;
    var r := Radius(tol);
    if !InBand(cov, tol, i, j) {
      forall c, d | InImage(cov, c, d) && Near(i, j, c, d, r) ensures !Boundary(cov, c, d) {
        NearSymmetric(i, j, c, d, r);
      }
      forall a, b | InZone(cov, i, j, r, a, b) ensures Pix(cov, a, b) == Pix(cov, i, j) {
        var c, d :| InImage(cov, c, d) && i - r <= c <= i + r && j - r <= d <= j + r
                    && ((a == c && b == d) || Adjacent(c, d, a, b));
        assert Near(i, j, c, d, r);
        WalkToCentre(cov, i, j, r, c, d);
        BoundaryIsAdjacent(cov, c, d);
        assert !Differs(cov, c, d, a, b);
      }
    } else {
      var c, d :| InImage(cov, c, d) && Near(c, d, i, j, r) && Boundary(cov, c, d);
      NearSymmetric(c, d, i, j, r);
      BoundaryIsAdjacent(cov, c, d);
      var a, b :| Adjacent(c, d, a, b) && Differs(cov, c, d, a, b);
      assert InZone(cov, i, j, r, c, d) && InZone(cov, i, j, r, a, b);
    }
  }

  /** A larger tolerance never shrinks the band. */
  lemma BandMonotone(cov: Coverage, s: int, t: int, i: int, j: int)
    requires Complete(cov) && s <= t
    ensures InBand(cov, s, i, j) ==> InBand(cov, t, i, j)
  {
    hide Boundary;
    if InBand(cov, s, i, j) {
      var a, b :| InImage(cov, a, b) && Near(a, b, i, j, Radius(s)) && Boundary(cov, a, b);
      assert Near(a, b, i, j, Radius(t));
    }
  }

  /** From x at most t towards y. */
  function Step(x: int, y: int, t: int): (z: int)
    requires t >= 0
    ensures -t <= z - x <= t && (x <= z <= y || y <= z <= x)
    ensures z == y || z == x + t < y || z == x - t > y
  {
    if y - x > t then x + t else if y - x < -t then x - t else y
  }

  /** Dilating the band of s by t more pixels gives the band of s + t, also where the image clips it. */
  lemma BandsCompose(cov: Coverage, s: nat, t: nat, i: int, j: int)
    requires Complete(cov) && InImage(cov, i, j)
    ensures InBand(cov, s + t, i, j) <==>
            exists a, b :: InImage(cov, a, b) && i - t <= a <= i + t && j - t <= b <= j + t && InBand(cov, s, a, b)
  {
    hide Boundary;
    if InBand(cov, s + t, i, j) {
      var c, d :| InImage(cov, c, d) && Near(c, d, i, j, s + t) && Boundary(cov, c, d);
      var a, b := Step(i, c, t), Step(j, d, t);
      assert Near(c, d, a, b, s) && Near(a, b, i, j, t);
      assert InBand(cov, s, a, b);
    }
    if a, b :| InImage(cov, a, b) && i - t <= a <= i + t && j - t <= b <= j + t && InBand(cov, s, a, b) {
      var c, d :| InImage(cov, c, d) && Near(c, d, a, b, Radius(s)) && Boundary(cov, c, d);
      assert Near(c, d, i, j, s + t);
    }
  }
}
