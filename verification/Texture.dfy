/** Colours, texture sampling and the two reference images. */
module Texture {
  import opened Bytes
  import opened Geometry
  import opened Grid
  import opened Raster

  datatype BGRA = BGRA(b: byte, g: byte, r: byte, a: byte)
  datatype Colour = Colour(r: real, g: real, b: real, a: real)
  datatype Filter = Nearest | Linear

  /** Channel n of a stored pixel in RGBA order. */
  function Channel(p: BGRA, n: nat): (c: byte) {
    if n == 0 then p.r else if n == 1 then p.g else if n == 2 then p.b else p.a
  }

  /** math.Round: to nearest, halves away from zero. */
  function Round(x: real): (n: int) {
    if x >= 0.0 then (x + 0.5).Floor else -((0.5 - x).Floor)
  }

  /** Round and clamp to a byte: the nearest value to x in 0..255, the upper one half way. */
  function RoundUnit(x: real): (c: byte)
    ensures 0.0 <= x <= 255.0 ==> -0.5 < c as real - x <= 0.5
    ensures x < 0.0 ==> c == 0
    ensures x > 255.0 ==> c == 255
  {
    var r := Round(x);
    if r < 0 then 0 else if r > 255 then 255 else r
  }

  /** Rounding never leaves a byte interval its argument lies in. */
  lemma RoundWithin(x: real, lo: byte, hi: byte)
    requires lo as real <= x <= hi as real
    ensures lo <= RoundUnit(x) <= hi
  {
    var r := (x + 0.5).Floor;
    assert lo as real + 0.5 <= x + 0.5 < r as real + 1.0 && r as real <= x + 0.5 <= hi as real + 0.5;
  }

  function ToBGRA(c: Colour): (p: BGRA) {
    BGRA(RoundUnit(c.b * 255.0), RoundUnit(c.g * 255.0), RoundUnit(c.r * 255.0), RoundUnit(c.a * 255.0))
  }

  /** Each stored channel is the nearest byte to 255 times its own component. */
  lemma PackNearest(c: Colour)
    ensures var p := ToBGRA(c);
      Nearby(p.r, 255.0 * c.r) && Nearby(p.g, 255.0 * c.g) && Nearby(p.b, 255.0 * c.b) && Nearby(p.a, 255.0 * c.a)
  {
    hide RoundUnit;
  }

  predicate Nearby(p: byte, x: real) {
    if x < 0.0 then p == 0 else if x > 255.0 then p == 255 else -0.5 < p as real - x <= 0.5
  }

  function ClampInt(x: int, lo: int, hi: int): (y: int)
    requires lo <= hi
    ensures lo <= y <= hi && (lo <= x <= hi ==> y == x)
  {
    if x < lo then lo else if x > hi then hi else x
  }

  // ---- texels --------------------------------------------------------------------------

  /** tex holds texW * texH RGBA8 texels, row by row. */
  predicate GoodTexture(tex: seq<byte>, texW: nat, texH: nat) {
    texW > 0 && texH > 0 && |tex| >= 4 * (texW * texH)
  }

  function Texel(tex: seq<byte>, texW: nat, texH: nat, ix: int, iy: int, n: nat): (c: byte)
    requires GoodTexture(tex, texW, texH) && Inside(texW, texH, ix, iy) && n < 4
  {
    AtInside(texW, texH, ix, iy);
    tex[4 * At(texW, ix, iy) + n]
  }

  /** Channel n of texel (ix, iy) is byte 4 * (iy * texW + ix) + n, channels in RGBA order. */
  lemma TexelBytes(tex: seq<byte>, texW: nat, texH: nat, ix: int, iy: int)
    requires GoodTexture(tex, texW, texH) && Inside(texW, texH, ix, iy)
    ensures 0 <= iy * texW + ix < texW * texH
    ensures var o := 4 * (iy * texW + ix);
      && TexelBGRA(tex, texW, texH, ix, iy) == BGRA(tex[o + 2], tex[o + 1], tex[o], tex[o + 3])
      && forall n :: 0 <= n < 4 ==> Texel(tex, texW, texH, ix, iy, n) == tex[o + n]
  {
    AtInside(texW, texH, ix, iy);
  }

  function TexelBGRA(tex: seq<byte>, texW: nat, texH: nat, ix: int, iy: int): (p: BGRA)
    requires GoodTexture(tex, texW, texH) && Inside(texW, texH, ix, iy)
    ensures forall n :: 0 <= n < 4 ==> Channel(p, n) == Texel(tex, texW, texH, ix, iy, n)
  {
    BGRA(Texel(tex, texW, texH, ix, iy, 2), Texel(tex, texW, texH, ix, iy, 1),
         Texel(tex, texW, texH, ix, iy, 0), Texel(tex, texW, texH, ix, iy, 3))
  }

  function Blend(x: real, y: real, d: real): (z: real) { x * (1.0 - d) + y * d }

  /** One channel of the bilinear blend of the four taps around (fx, fy). */
  function BlendChannel(tex: seq<byte>, texW: nat, texH: nat, fx: real, fy: real, n: nat): (c: real)
    requires GoodTexture(tex, texW, texH) && n < 4
  {
    var (x0, y0) := (fx.Floor, fy.Floor);
    var (dx, dy) := (fx - x0 as real, fy - y0 as real);
    var (xa, xb) := (ClampInt(x0, 0, texW - 1), ClampInt(x0 + 1, 0, texW - 1));
    var (ya, yb) := (ClampInt(y0, 0, texH - 1), ClampInt(y0 + 1, 0, texH - 1));
    Blend(Blend(Texel(tex, texW, texH, xa, ya, n) as real, Texel(tex, texW, texH, xb, ya, n) as real, dx),
          Blend(Texel(tex, texW, texH, xa, yb, n) as real, Texel(tex, texW, texH, xb, yb, n) as real, dx), dy)
  }

  function Sample(tex: seq<byte>, texW: nat, texH: nat, u: real, v: real, filter: Filter): (p: BGRA)
    requires GoodTexture(tex, texW, texH)
  {
    match filter
    case Nearest =>
      TexelBGRA(tex, texW, texH,
                ClampInt((u * texW as real).Floor, 0, texW - 1), ClampInt((v * texH as real).Floor, 0, texH - 1))
    case Linear =>
      var (fx, fy) := (u * texW as real - 0.5, v * texH as real - 0.5);
      BGRA(RoundUnit(BlendChannel(tex, texW, texH, fx, fy, 2)), RoundUnit(BlendChannel(tex, texW, texH, fx, fy, 1)),
           RoundUnit(BlendChannel(tex, texW, texH, fx, fy, 0)), RoundUnit(BlendChannel(tex, texW, texH, fx, fy, 3)))
  }

  // ---- sampling is bounded and consistent ------------------------------------------------

  /** Every texel's channel n lies in lo..hi. */
  ghost predicate ChannelWithin(tex: seq<byte>, texW: nat, texH: nat, n: nat, lo: byte, hi: byte)
    requires GoodTexture(tex, texW, texH) && n < 4
  {
    forall k :: 0 <= k < texW * texH ==> lo <= tex[4 * k + n] <= hi
  }

  lemma TexelWithin(tex: seq<byte>, texW: nat, texH: nat, ix: int, iy: int, n: nat, lo: byte, hi: byte)
    requires GoodTexture(tex, texW, texH) && Inside(texW, texH, ix, iy) && n < 4
    requires ChannelWithin(tex, texW, texH, n, lo, hi)
    ensures lo <= Texel(tex, texW, texH, ix, iy, n) <= hi
  {
    AtInside(texW, texH, ix, iy);
  }

  lemma NonNegative(a: real, b: real)
    requires a >= 0.0 && b >= 0.0
    ensures a * b >= 0.0
  {
  }

  lemma BlendWithin(x: real, y: real, d: real, lo: real, hi: real)
    requires lo <= x <= hi && lo <= y <= hi && 0.0 <= d <= 1.0
    ensures lo <= Blend(x, y, d) <= hi
  {
    var e := 1.0 - d;
    NonNegative(x - lo, e);
    NonNegative(y - lo, d);
    NonNegative(hi - x, e);
    NonNegative(hi - y, d);
    assert lo * e + lo * d == lo && hi * e + hi * d == hi;
  }

  lemma BlendChannelWithin(tex: seq<byte>, texW: nat, texH: nat, fx: real, fy: real, n: nat, lo: byte, hi: byte)
    requires GoodTexture(tex, texW, texH) && n < 4 && ChannelWithin(tex, texW, texH, n, lo, hi)
    ensures lo as real <= BlendChannel(tex, texW, texH, fx, fy, n) <= hi as real
  {
    hide Blend, Texel, ChannelWithin, ClampInt;
    var x0, y0 := fx.Floor, fy.Floor;
    var xa, xb := ClampInt(x0, 0, texW - 1), ClampInt(x0 + 1, 0, texW - 1);
    var ya, yb := ClampInt(y0, 0, texH - 1), ClampInt(y0 + 1, 0, texH - 1);
    TexelWithin(tex, texW, texH, xa, ya, n, lo, hi);
    TexelWithin(tex, texW, texH, xb, ya, n, lo, hi);
    TexelWithin(tex, texW, texH, xa, yb, n, lo, hi);
    TexelWithin(tex, texW, texH, xb, yb, n, lo, hi);
    var dx, dy := fx - x0 as real, fy - y0 as real;
    var c00, c10 := Texel(tex, texW, texH, xa, ya, n) as real, Texel(tex, texW, texH, xb, ya, n) as real;
    var c01, c11 := Texel(tex, texW, texH, xa, yb, n) as real, Texel(tex, texW, texH, xb, yb, n) as real;
    BlendWithin(c00, c10, dx, lo as real, hi as real);
    BlendWithin(c01, c11, dx, lo as real, hi as real);
    BlendWithin(Blend(c00, c10, dx), Blend(c01, c11, dx), dy, lo as real, hi as real);
  }

  /** Under either filter a sampled channel lies between the least and greatest texel of that channel. */
  lemma SampleWithin(tex: seq<byte>, texW: nat, texH: nat, u: real, v: real, filter: Filter, n: nat, lo: byte, hi: byte)
    requires GoodTexture(tex, texW, texH) && n < 4 && ChannelWithin(tex, texW, texH, n, lo, hi)
    ensures lo <= Channel(Sample(tex, texW, texH, u, v, filter), n) <= hi
  {
    hide ChannelWithin, BlendChannel, Texel, RoundUnit;
    match filter
    case Nearest =>
      var ix, iy := ClampInt((u * texW as real).Floor, 0, texW - 1), ClampInt((v * texH as real).Floor, 0, texH - 1);
      TexelWithin(tex, texW, texH, ix, iy, n, lo, hi);
    case Linear =>
      var fx, fy := u * texW as real - 0.5, v * texH as real - 0.5;
      BlendChannelWithin(tex, texW, texH, fx, fy, n, lo, hi);
      RoundWithin(BlendChannel(tex, texW, texH, fx, fy, n), lo, hi);
  }

  /** A texture of one colour samples as that colour everywhere. */
  lemma ConstantTexture(tex: seq<byte>, texW: nat, texH: nat, u: real, v: real, filter: Filter, p: BGRA)
    requires GoodTexture(tex, texW, texH)
    requires forall n :: 0 <= n < 4 ==> ChannelWithin(tex, texW, texH, n, Channel(p, n), Channel(p, n))
    ensures Sample(tex, texW, texH, u, v, filter) == p
  {
    hide ChannelWithin, Sample;
    SampleWithin(tex, texW, texH, u, v, filter, 0, Channel(p, 0), Channel(p, 0));
    SampleWithin(tex, texW, texH, u, v, filter, 1, Channel(p, 1), Channel(p, 1));
    SampleWithin(tex, texW, texH, u, v, filter, 2, Channel(p, 2), Channel(p, 2));
    SampleWithin(tex, texW, texH, u, v, filter, 3, Channel(p, 3), Channel(p, 3));
  }

  /** At a texel centre both filters return that texel. */
  lemma FiltersAgreeAtCentres(tex: seq<byte>, texW: nat, texH: nat, ix: int, iy: int)
    requires GoodTexture(tex, texW, texH) && Inside(texW, texH, ix, iy)
    ensures var (u, v) := ((ix as real + 0.5) / texW as real, (iy as real + 0.5) / texH as real);
      && Sample(tex, texW, texH, u, v, Nearest) == TexelBGRA(tex, texW, texH, ix, iy)
      && Sample(tex, texW, texH, u, v, Linear) == TexelBGRA(tex, texW, texH, ix, iy)
  {
    hide Sample;
    CentreCoordinate(ix, texW);
    CentreCoordinate(iy, texH);
    var u, v := (ix as real + 0.5) / texW as real, (iy as real + 0.5) / texH as real;
    SampleAtCentre(tex, texW, texH, u, v, ix, iy);
  }

  lemma SampleAtCentre(tex: seq<byte>, texW: nat, texH: nat, u: real, v: real, ix: int, iy: int)
    requires GoodTexture(tex, texW, texH) && Inside(texW, texH, ix, iy)
    requires u * texW as real == ix as real + 0.5 && v * texH as real == iy as real + 0.5
    ensures Sample(tex, texW, texH, u, v, Nearest) == TexelBGRA(tex, texW, texH, ix, iy)
    ensures Sample(tex, texW, texH, u, v, Linear) == TexelBGRA(tex, texW, texH, ix, iy)
  {
    hide BlendChannel, RoundUnit, Texel;
    HalfFloor(ix);
    HalfFloor(iy);
    CentreTap(tex, texW, texH, ix, iy, 0);
    CentreTap(tex, texW, texH, ix, iy, 1);
    CentreTap(tex, texW, texH, ix, iy, 2);
    CentreTap(tex, texW, texH, ix, iy, 3);
  }

  lemma HalfFloor(i: int)
    ensures (i as real + 0.5).Floor == i
  {
  }

  lemma CentreCoordinate(i: int, n: nat)
    requires n > 0
    ensures (i as real + 0.5) / n as real * n as real == i as real + 0.5
  {
  }

  lemma CentreTap(tex: seq<byte>, texW: nat, texH: nat, ix: int, iy: int, n: nat)
    requires GoodTexture(tex, texW, texH) && Inside(texW, texH, ix, iy) && n < 4
    ensures BlendChannel(tex, texW, texH, ix as real, iy as real, n) == Texel(tex, texW, texH, ix, iy, n) as real
    ensures RoundUnit(Texel(tex, texW, texH, ix, iy, n) as real) == Texel(tex, texW, texH, ix, iy, n)
  {
    hide Texel;
    assert (ix as real).Floor == ix && (iy as real).Floor == iy;
    var c := Texel(tex, texW, texH, ix, iy, n);
    RoundWithin(c as real, c, c);
  }

  /** Clamp to edge: outside the outermost texel centres the blend is that of the nearest point inside. */
  function ClampReal(x: real, hi: real): (y: real)
    requires hi >= 0.0
  {
    if x < 0.0 then 0.0 else if x > hi then hi else x
  }

  /** The two taps of one axis and the weight of the second. */
  function Taps(f: real, n: nat): (r: (int, int, real))
    requires n > 0
  {
    (ClampInt(f.Floor, 0, n - 1), ClampInt(f.Floor + 1, 0, n - 1), f - f.Floor as real)
  }

  /** Blending a value c(i) along one axis depends only on the clamped coordinate. */
  lemma TapsClamp(f: real, n: nat, c: int -> real)
    requires n > 0
    ensures var ((a, b, d), (a', b', d')) := (Taps(f, n), Taps(ClampReal(f, (n - 1) as real), n));
      Blend(c(a), c(b), d) == Blend(c(a'), c(b'), d')
  {
    if f < 0.0 {
      assert f.Floor + 1 <= 0;
    } else if f > (n - 1) as real {
      assert f.Floor >= n - 1;
      assert ((n - 1) as real).Floor == n - 1;
    }
  }

  /** The Linear filter is exact on affine textures between texel centres: the right four taps with the
      right weights. */
  ghost predicate AffineChannel(tex: seq<byte>, texW: nat, texH: nat, n: nat, c: real, dx: real, dy: real)
    requires GoodTexture(tex, texW, texH) && n < 4
  {
    forall ix, iy :: Inside(texW, texH, ix, iy) ==>
      Texel(tex, texW, texH, ix, iy, n) as real == c + dx * ix as real + dy * iy as real
  }

  lemma BlendAffine(c: real, s: real, f: real, n: nat, p: real, q: real)
    requires n > 0 && 0.0 <= f <= (n - 1) as real
    requires var (a, b, _) := Taps(f, n); p == c + s * a as real && q == c + s * b as real
    ensures Blend(p, q, Taps(f, n).2) == c + s * f
  {
    var i := f.Floor;
    var d := f - i as real;
    assert s * f == s * i as real + s * d;
    if i + 1 <= n - 1 {
      assert s * (i + 1) as real == s * i as real + s;
      assert p * (1.0 - d) + (p + s) * d == p + s * d;
    } else {
      assert d == 0.0;
    }
  }

  lemma LinearExactOnAffine(tex: seq<byte>, texW: nat, texH: nat, fx: real, fy: real, n: nat,
                            c: real, dx: real, dy: real)
    requires GoodTexture(tex, texW, texH) && n < 4 && AffineChannel(tex, texW, texH, n, c, dx, dy)
    requires 0.0 <= fx <= (texW - 1) as real && 0.0 <= fy <= (texH - 1) as real
    ensures BlendChannel(tex, texW, texH, fx, fy, n) == c + dx * fx + dy * fy
  {
    hide Blend, Texel;
    var (xa, xb, ex) := Taps(fx, texW);
    var (ya, yb, ey) := Taps(fy, texH);
    var c00, c10 := Texel(tex, texW, texH, xa, ya, n) as real, Texel(tex, texW, texH, xb, ya, n) as real;
    var c01, c11 := Texel(tex, texW, texH, xa, yb, n) as real, Texel(tex, texW, texH, xb, yb, n) as real;
    BlendAffine(c + dy * ya as real, dx, fx, texW, c00, c10);
    BlendAffine(c + dy * yb as real, dx, fx, texW, c01, c11);
    BlendAffine(c + dx * fx, dy, fy, texH, Blend(c00, c10, ex), Blend(c01, c11, ex));
  }

  /** Clamp to edge in both coordinates, for every texture. */
  lemma LinearClampsToEdge(tex: seq<byte>, texW: nat, texH: nat, fx: real, fy: real, n: nat)
    requires GoodTexture(tex, texW, texH) && n < 4
    ensures BlendChannel(tex, texW, texH, fx, fy, n) ==
            BlendChannel(tex, texW, texH, ClampReal(fx, (texW - 1) as real), ClampReal(fy, (texH - 1) as real), n)
  {
    hide Blend, Texel;
    var gx, gy := ClampReal(fx, (texW - 1) as real), ClampReal(fy, (texH - 1) as real);
    var (ya, yb, _) := Taps(fy, texH);
    TapsClamp(fx, texW, x => if Inside(texW, texH, x, ya) then Texel(tex, texW, texH, x, ya, n) as real else 0.0);
    TapsClamp(fx, texW, x => if Inside(texW, texH, x, yb) then Texel(tex, texW, texH, x, yb, n) as real else 0.0);
    TapsClamp(fy, texH, y => if 0 <= y < texH then RowBlend(tex, texW, texH, gx, y, n) else 0.0);
  }

  function RowBlend(tex: seq<byte>, texW: nat, texH: nat, fx: real, y: int, n: nat): (c: real)
    requires GoodTexture(tex, texW, texH) && n < 4 && 0 <= y < texH
  {
    var (a, b, d) := Taps(fx, texW);
    Blend(Texel(tex, texW, texH, a, y, n) as real, Texel(tex, texW, texH, b, y, n) as real, d)
  }

  /** One axis between two texel centres: the fraction a of the way from value c(i) to the next. */
  lemma TapsBetween(i: int, a: real, n: nat, c: int -> real)
    requires 0 <= i < n && 0.0 <= a <= 1.0 && (a > 0.0 ==> i + 1 < n)
    ensures var (p, q, d) := Taps(i as real + a, n);
      Blend(c(p), c(q), d) == Blend(c(i), c(if a == 0.0 then i else i + 1), a)
  {
    hide Blend;
    var f := i as real + a;
    var (p, q, d) := Taps(f, n);
    if a < 1.0 {
      assert f.Floor == i && p == i && d == a;
      BlendEnds(c(p), c(q));
      BlendEnds(c(p), c(i));
    } else {
      assert f == (i + 1) as real && f.Floor == i + 1 && p == i + 1 && d == 0.0;
      BlendEnds(c(p), c(q));
      BlendEnds(c(i), c(i + 1));
    }
  }

  lemma BlendEnds(x: real, y: real)
    ensures Blend(x, y, 0.0) == x && Blend(x, y, 1.0) == y
  {
  }

  lemma RowBetween(tex: seq<byte>, texW: nat, texH: nat, ix: int, a: real, y: int, n: nat)
    requires GoodTexture(tex, texW, texH) && Inside(texW, texH, ix, y) && n < 4
    requires 0.0 <= a <= 1.0 && (a > 0.0 ==> ix + 1 < texW)
    ensures var jx := if a == 0.0 then ix else ix + 1;
      RowBlend(tex, texW, texH, ix as real + a, y, n) ==
      Blend(Texel(tex, texW, texH, ix, y, n) as real, Texel(tex, texW, texH, jx, y, n) as real, a)
  {
    hide Blend, Texel;
    TapsBetween(ix, a, texW, x => if Inside(texW, texH, x, y) then Texel(tex, texW, texH, x, y, n) as real else 0.0);
  }

  lemma BlendByRows(tex: seq<byte>, texW: nat, texH: nat, fx: real, fy: real, n: nat)
    requires GoodTexture(tex, texW, texH) && n < 4
    ensures var (p, q, d) := Taps(fy, texH);
      && 0 <= p < texH && 0 <= q < texH
      && BlendChannel(tex, texW, texH, fx, fy, n) ==
         Blend(RowBlend(tex, texW, texH, fx, p, n), RowBlend(tex, texW, texH, fx, q, n), d)
  {
    hide Blend, Texel;
  }

  lemma BlendBetween(tex: seq<byte>, texW: nat, texH: nat, ix: int, iy: int, a: real, b: real, n: nat)
    requires GoodTexture(tex, texW, texH) && Inside(texW, texH, ix, iy) && n < 4
    requires 0.0 <= a <= 1.0 && 0.0 <= b <= 1.0 && (a > 0.0 ==> ix + 1 < texW) && (b > 0.0 ==> iy + 1 < texH)
    ensures var (jx, jy) := (if a == 0.0 then ix else ix + 1, if b == 0.0 then iy else iy + 1);
      BlendChannel(tex, texW, texH, ix as real + a, iy as real + b, n) ==
      Bilinear(a, b, Texel(tex, texW, texH, ix, iy, n), Texel(tex, texW, texH, jx, iy, n),
                     Texel(tex, texW, texH, ix, jy, n), Texel(tex, texW, texH, jx, jy, n))
  {
    hide Blend, Texel, RowBlend, BlendChannel, Taps, Bilinear;
    var fx, fy := ix as real + a, iy as real + b;
    var jx, jy := if a == 0.0 then ix else ix + 1, if b == 0.0 then iy else iy + 1;
    RowBetween(tex, texW, texH, ix, a, iy, n);
    RowBetween(tex, texW, texH, ix, a, jy, n);
    var r0, r1 := RowBlend(tex, texW, texH, fx, iy, n), RowBlend(tex, texW, texH, fx, jy, n);
    BlendByRows(tex, texW, texH, fx, fy, n);
    TapsBetween(iy, b, texH, y => if 0 <= y < texH then RowBlend(tex, texW, texH, fx, y, n) else 0.0);
    Expand(a, b, Texel(tex, texW, texH, ix, iy, n), Texel(tex, texW, texH, jx, iy, n),
           Texel(tex, texW, texH, ix, jy, n), Texel(tex, texW, texH, jx, jy, n));
  }

  /** The mean of four texels with the weights of their areas. */
  function Bilinear(a: real, b: real, t00: byte, t10: byte, t01: byte, t11: byte): (c: real) {
    (1.0 - a) * (1.0 - b) * t00 as real + a * (1.0 - b) * t10 as real
    + (1.0 - a) * b * t01 as real + a * b * t11 as real
  }

  lemma Expand(a: real, b: real, t00: byte, t10: byte, t01: byte, t11: byte)
    ensures Blend(Blend(t00 as real, t10 as real, a), Blend(t01 as real, t11 as real, a), b) ==
            Bilinear(a, b, t00, t10, t01, t11)
  {
  }

  /** The Linear filter between texel centres, for every texture: at the fractions a and b of the way from
      the centre of (ix, iy) to the next column and row, each channel is the rounded bilinear mean of the
      four texels. */
  lemma LinearIsBilinear(tex: seq<byte>, texW: nat, texH: nat, ix: int, iy: int, a: real, b: real, n: nat)
    requires GoodTexture(tex, texW, texH) && Inside(texW, texH, ix, iy) && n < 4
    requires 0.0 <= a <= 1.0 && 0.0 <= b <= 1.0 && (a > 0.0 ==> ix + 1 < texW) && (b > 0.0 ==> iy + 1 < texH)
    ensures var (jx, jy) := (if a == 0.0 then ix else ix + 1, if b == 0.0 then iy else iy + 1);
      var (u, v) := ((ix as real + 0.5 + a) / texW as real, (iy as real + 0.5 + b) / texH as real);
      Channel(Sample(tex, texW, texH, u, v, Linear), n) ==
      RoundUnit(Bilinear(a, b, Texel(tex, texW, texH, ix, iy, n), Texel(tex, texW, texH, jx, iy, n),
                               Texel(tex, texW, texH, ix, jy, n), Texel(tex, texW, texH, jx, jy, n)))
  {
    hide Texel, RoundUnit, BlendChannel, Bilinear;
    var u, v := (ix as real + 0.5 + a) / texW as real, (iy as real + 0.5 + b) / texH as real;
    TexelSpace(ix as real + 0.5 + a, texW);
    TexelSpace(iy as real + 0.5 + b, texH);
    assert u * texW as real - 0.5 == ix as real + a && v * texH as real - 0.5 == iy as real + b;
    SampleChannel(tex, texW, texH, u, v, n);
    BlendBetween(tex, texW, texH, ix, iy, a, b, n);
  }

  lemma TexelSpace(x: real, n: nat)
    requires n > 0
    ensures x / n as real * n as real == x
  {
  }

  lemma SampleChannel(tex: seq<byte>, texW: nat, texH: nat, u: real, v: real, n: nat)
    requires GoodTexture(tex, texW, texH) && n < 4
    ensures Channel(Sample(tex, texW, texH, u, v, Linear), n) ==
            RoundUnit(BlendChannel(tex, texW, texH, u * texW as real - 0.5, v * texH as real - 0.5, n))
  {
    hide Texel, RoundUnit, BlendChannel;
  }

  /** The coordinate moved to the nearest of the outermost texel centres, if it lies outside them. */
  function ClampCoord(u: real, n: nat): (c: real)
    requires n > 0
  {
    if u < 0.5 / n as real then 0.5 / n as real
    else if u > (n as real - 0.5) / n as real then (n as real - 0.5) / n as real
    else u
  }

  lemma ScaledClamp(u: real, lo: real, hi: real, m: real)
    requires m >= 1.0 && lo * m == 0.5 && hi * m == m - 0.5
    ensures (if u < lo then lo else if u > hi then hi else u) * m - 0.5 == ClampReal(u * m - 0.5, m - 1.0)
  {
    Ordered(u, lo, m, u * m, 0.5);
    Ordered(hi, u, m, m - 0.5, u * m);
  }

  lemma ClampCoordIs(u: real, n: nat)
    requires n > 0
    ensures ClampCoord(u, n) * n as real - 0.5 == ClampReal(u * n as real - 0.5, (n - 1) as real)
  {
    var m := n as real;
    TexelSpace(0.5, n);
    TexelSpace(m - 0.5, n);
    ScaledClamp(u, 0.5 / m, (m - 0.5) / m, m);
  }

  lemma Ordered(x: real, y: real, m: real, xm: real, ym: real)
    requires m > 0.0 && xm == x * m && ym == y * m
    ensures x < y <==> xm < ym
  {
    if x < y {
      assert (y - x) * m > 0.0;
    } else {
      assert (x - y) * m >= 0.0;
    }
  }

  /** Clamp to edge: outside the outermost texel centres Linear samples the nearest point inside, so with
      LinearIsBilinear every coordinate is accounted for. */
  lemma LinearSampleClamps(tex: seq<byte>, texW: nat, texH: nat, u: real, v: real)
    requires GoodTexture(tex, texW, texH)
    ensures Sample(tex, texW, texH, u, v, Linear) ==
            Sample(tex, texW, texH, ClampCoord(u, texW), ClampCoord(v, texH), Linear)
  {
    hide Texel, RoundUnit, BlendChannel, ClampReal, ClampCoord;
    ClampCoordIs(u, texW);
    ClampCoordIs(v, texH);
    var fx, fy := u * texW as real - 0.5, v * texH as real - 0.5;
    LinearClampsToEdge(tex, texW, texH, fx, fy, 0);
    LinearClampsToEdge(tex, texW, texH, fx, fy, 1);
    LinearClampsToEdge(tex, texW, texH, fx, fy, 2);
    LinearClampsToEdge(tex, texW, texH, fx, fy, 3);
  }

  /** Nearest picks the texel whose cell holds the coordinate; the outermost cells reach to infinity. */
  lemma NearestPicksCell(tex: seq<byte>, texW: nat, texH: nat, u: real, v: real, ix: int, iy: int)
    requires GoodTexture(tex, texW, texH) && Inside(texW, texH, ix, iy)
    requires (ix == 0 || ix as real / texW as real <= u) && (ix == texW - 1 || u < (ix + 1) as real / texW as real)
    requires (iy == 0 || iy as real / texH as real <= v) && (iy == texH - 1 || v < (iy + 1) as real / texH as real)
    ensures Sample(tex, texW, texH, u, v, Nearest) == TexelBGRA(tex, texW, texH, ix, iy)
  {
    hide TexelBGRA;
    CellFloor(u, ix, texW);
    CellFloor(v, iy, texH);
  }

  lemma FloorCell(f: real, i: int, n: nat)
    requires 0 <= i < n && (i == 0 || i as real <= f) && (i == n - 1 || f < (i + 1) as real)
    ensures ClampInt(f.Floor, 0, n - 1) == i
  {
    var k := f.Floor;
    assert k as real <= f < k as real + 1.0;
  }

  lemma CellFloor(u: real, i: int, n: nat)
    requires 0 <= i < n
    requires (i == 0 || i as real / n as real <= u) && (i == n - 1 || u < (i + 1) as real / n as real)
    ensures ClampInt((u * n as real).Floor, 0, n - 1) == i
  {
    TexelSpace(i as real, n);
    TexelSpace((i + 1) as real, n);
    var m, f := n as real, u * n as real;
    Ordered(u, i as real / m, m, f, i as real);
    Ordered(u, (i + 1) as real / m, m, f, (i + 1) as real);
    FloorCell(f, i, n);
  }

  // ---- the reference images ---------------------------------------------------------------

  /** The flat-shaded image. */
  function DrawImage(t: Triangle, fill: BGRA, bg: BGRA, w: nat, h: nat): (img: seq<BGRA>)
    ensures |img| == w * h
  {
    seq(w * h, k requires 0 <= k < w * h => if CoverageGrid(t, w, h)[k] then fill else bg)
  }

  method DrawReference(vp: Viewport, v: seq<Vertex>, flat: Colour, bg: BGRA, w: nat, h: nat)
    returns (out: seq<BGRA>, cov: Coverage)
    requires |v| == 3
    ensures cov == Coverage(w, h, CoverageGrid(WindowTriangle(vp, v), w, h))
    ensures out == DrawImage(WindowTriangle(vp, v), ToBGRA(flat), bg, w, h)
  {
    hide CoverageGrid, WeightGrid, WindowTriangle, ToBGRA;
    var bw;
    cov, bw := Rasterise(vp, v, w, h);
    var fill := ToBGRA(flat);
    var buf := new BGRA[w * h](_ => bg);
    for k := 0 to w * h
      invariant forall m :: 0 <= m < k ==> buf[m] == if cov.inside[m] then fill else bg
    {
      if cov.inside[k] {
        buf[k] := fill;
      } else {
        buf[k] := bg;
      }
    }
    out := buf[..];
  }

  /** The colour of a covered pixel: the texture at its interpolated coordinates. */
  function Shade(v: seq<Vertex>, b: Bary, tex: seq<byte>, texW: nat, texH: nat, filter: Filter): (p: BGRA)
    requires |v| == 3 && GoodTexture(tex, texW, texH)
  {
    Sample(tex, texW, texH, Mix(b, v[0].u, v[1].u, v[2].u), Mix(b, v[0].v, v[1].v, v[2].v), filter)
  }

  function TexImage(vp: Viewport, v: seq<Vertex>, tex: seq<byte>, texW: nat, texH: nat,
                    filter: Filter, bg: BGRA, w: nat, h: nat): (img: seq<BGRA>)
    requires |v| == 3 && GoodTexture(tex, texW, texH)
    ensures |img| == w * h
  {
    var t := WindowTriangle(vp, v);
    seq(w * h, k requires 0 <= k < w * h =>
      if CoverageGrid(t, w, h)[k] then Shade(v, WeightGrid(t, w, h)[k], tex, texW, texH, filter) else bg)
  }

  method TexReference(vp: Viewport, v: seq<Vertex>, tex: seq<byte>, texW: nat, texH: nat,
                      filter: Filter, bg: BGRA, w: nat, h: nat)
    returns (out: seq<BGRA>, cov: Coverage)
    requires |v| == 3 && GoodTexture(tex, texW, texH)
    ensures cov == Coverage(w, h, CoverageGrid(WindowTriangle(vp, v), w, h))
    ensures out == TexImage(vp, v, tex, texW, texH, filter, bg, w, h)
  {
    hide CoverageGrid, WeightGrid, WindowTriangle, Sample;
    var bw;
    cov, bw := Rasterise(vp, v, w, h);
    var buf := new BGRA[w * h](_ => bg);
    for k := 0 to w * h
      invariant forall m :: 0 <= m < k ==>
        buf[m] == if cov.inside[m] then Shade(v, bw[m], tex, texW, texH, filter) else bg
    {
      if !cov.inside[k] {
        buf[k] := bg;
        continue;
      }
      var b := bw[k];
      var u := Mix(b, v[0].u, v[1].u, v[2].u);
      var vv := Mix(b, v[0].v, v[1].v, v[2].v);
      buf[k] := Sample(tex, texW, texH, u, vv, filter);
      assert buf[k] == Shade(v, b, tex, texW, texH, filter);
    }
    out := buf[..];
  }

  /** Pixel (i, j) of the flat image: the fill if its centre lies in the closed triangle, else the background. */
  lemma DrawPixel(vp: Viewport, v: seq<Vertex>, fill: BGRA, bg: BGRA, w: nat, h: nat, i: int, j: int)
    requires |v| == 3 && Inside(w, h, i, j)
    ensures 0 <= j * w + i < w * h
    ensures var hit := WindowArea(vp, v) != 0.0 && exists b :: Hits(vp, v, b, i, j);
      DrawImage(WindowTriangle(vp, v), fill, bg, w, h)[j * w + i] == if hit then fill else bg
  {
    hide CoverageGrid, WeightGrid, WindowTriangle, WindowArea, Hits;
    PixelIsRight(vp, v, w, h, i, j);
  }

  /** Pixel (i, j) of the textured image: where its centre is the mean of the vertices under weights b, the
      texture at the same mean of their coordinates; elsewhere, and without area, the background. */
  lemma TexPixel(vp: Viewport, v: seq<Vertex>, tex: seq<byte>, texW: nat, texH: nat,
                 filter: Filter, bg: BGRA, w: nat, h: nat, i: int, j: int)
    requires |v| == 3 && GoodTexture(tex, texW, texH) && Inside(w, h, i, j)
    ensures 0 <= j * w + i < w * h
    ensures var p := TexImage(vp, v, tex, texW, texH, filter, bg, w, h)[j * w + i];
      && (WindowArea(vp, v) == 0.0 ==> p == bg)
      && ((forall b :: !Hits(vp, v, b, i, j)) ==> p == bg)
      && (WindowArea(vp, v) != 0.0 ==> forall b :: Hits(vp, v, b, i, j) ==>
            p == Sample(tex, texW, texH, Mix(b, v[0].u, v[1].u, v[2].u), Mix(b, v[0].v, v[1].v, v[2].v), filter))
  {
    hide CoverageGrid, WeightGrid, WindowTriangle, WindowArea, Hits, Sample, Mix;
    PixelIsRight(vp, v, w, h, i, j);
    if WindowArea(vp, v) != 0.0 {
      forall b | Hits(vp, v, b, i, j)
        ensures TexImage(vp, v, tex, texW, texH, filter, bg, w, h)[j * w + i] ==
                Sample(tex, texW, texH, Mix(b, v[0].u, v[1].u, v[2].u), Mix(b, v[0].v, v[1].v, v[2].v), filter)
      {
        HitIsUnique(vp, v, b, WeightGrid(WindowTriangle(vp, v), w, h)[j * w + i], i, j);
      }
    }
  }

  lemma HitIsUnique(vp: Viewport, v: seq<Vertex>, b: Bary, c: Bary, i: int, j: int)
    requires |v| == 3 && WindowArea(vp, v) != 0.0 && Hits(vp, v, b, i, j) && Hits(vp, v, c, i, j)
    ensures b == c
  {
    hide WindowTriangle, WindowArea, Hits, Area, Weights, Combine, Covers;
    var t := WindowTriangle(vp, v);
    WindowAreaIs(vp, v);
    HitsIsConvex(vp, v, b, i, j);
    HitsIsConvex(vp, v, c, i, j);
    CoverageIsTriangle(t, Centre(i, j));
  }

  /** Every covered pixel's channel lies between the least and greatest texel of that channel. */
  lemma TexImageWithin(vp: Viewport, v: seq<Vertex>, tex: seq<byte>, texW: nat, texH: nat,
                       filter: Filter, bg: BGRA, w: nat, h: nat,
                       k: nat, n: nat, lo: byte, hi: byte)
    requires |v| == 3 && GoodTexture(tex, texW, texH) && n < 4 && k < w * h
    requires ChannelWithin(tex, texW, texH, n, lo, hi)
    requires CoverageGrid(WindowTriangle(vp, v), w, h)[k]
    ensures lo <= Channel(TexImage(vp, v, tex, texW, texH, filter, bg, w, h)[k], n) <= hi
  {
    hide CoverageGrid, WeightGrid, Sample, ChannelWithin;
    var b := WeightGrid(WindowTriangle(vp, v), w, h)[k];
    SampleWithin(tex, texW, texH, Mix(b, v[0].u, v[1].u, v[2].u), Mix(b, v[0].v, v[1].v, v[2].v), filter, n, lo, hi);
  }

  /** Interpolation is affine in the window: coordinates that are affine functions of position at the
      corners take that function's value at every covered pixel. */
  lemma InterpolationIsAffine(vp: Viewport, v: seq<Vertex>, tex: seq<byte>, texW: nat, texH: nat,
                              filter: Filter, bg: BGRA, w: nat, h: nat,
                              k: nat, f: (real, real, real), g: (real, real, real))
    requires |v| == 3 && GoodTexture(tex, texW, texH) && k < w * h
    requires forall n :: 0 <= n < 3 ==>
      v[n].u == AffineAt(f, Window(vp, v[n])) && v[n].v == AffineAt(g, Window(vp, v[n]))
    requires CoverageGrid(WindowTriangle(vp, v), w, h)[k]
    ensures TexImage(vp, v, tex, texW, texH, filter, bg, w, h)[k] ==
            Sample(tex, texW, texH, AffineAt(f, CentreOf(w, k)), AffineAt(g, CentreOf(w, k)), filter)
  {
    hide Sample, Edge, Window;
    var t, p := WindowTriangle(vp, v), CentreOf(w, k);
    WeightsAreCoordinates(t, p);
    MixOfAffine(t, Weights(t, p), f);
    MixOfAffine(t, Weights(t, p), g);
    assert v[0].u == AffineAt(f, t.p0) && v[1].u == AffineAt(f, t.p1) && v[2].u == AffineAt(f, t.p2);
    assert v[0].v == AffineAt(g, t.p0) && v[1].v == AffineAt(g, t.p1) && v[2].v == AffineAt(g, t.p2);
  }

  function AffineAt(f: (real, real, real), p: Point): (y: real) { f.0 + f.1 * p.x + f.2 * p.y }

  lemma MixOfAffine(t: Triangle, b: Bary, f: (real, real, real))
    requires b.a + b.b + b.c == 1.0
    ensures Mix(b, AffineAt(f, t.p0), AffineAt(f, t.p1), AffineAt(f, t.p2)) == AffineAt(f, Combine(t, b))
  {
    assert b.a * f.0 + b.b * f.0 + b.c * f.0 == f.0;
  }

  /** The colour whose packed form is p. */
  function Unpacked(p: BGRA): (c: Colour) {
    Colour(p.r as real / 255.0, p.g as real / 255.0, p.b as real / 255.0, p.a as real / 255.0)
  }

  lemma PackUnpacked(p: BGRA)
    ensures ToBGRA(Unpacked(p)) == p
  {
    hide RoundUnit;
    UnpackByte(p.r);
    UnpackByte(p.g);
    UnpackByte(p.b);
    UnpackByte(p.a);
  }

  lemma UnpackByte(c: byte)
    ensures RoundUnit(c as real / 255.0 * 255.0) == c
  {
    hide RoundUnit;
    assert c as real / 255.0 * 255.0 == c as real;
    RoundWithin(c as real, c, c);
  }

  /** A texture of one colour draws exactly the flat-shaded image of that colour. */
  lemma ConstantTextureDrawsFlat(vp: Viewport, v: seq<Vertex>, tex: seq<byte>, texW: nat, texH: nat,
                                 filter: Filter, bg: BGRA, w: nat, h: nat, p: BGRA)
    requires |v| == 3 && GoodTexture(tex, texW, texH)
    requires forall n :: 0 <= n < 4 ==> ChannelWithin(tex, texW, texH, n, Channel(p, n), Channel(p, n))
    ensures TexImage(vp, v, tex, texW, texH, filter, bg, w, h) ==
            DrawImage(WindowTriangle(vp, v), ToBGRA(Unpacked(p)), bg, w, h)
  {
    hide CoverageGrid, WeightGrid, Sample, ChannelWithin, ToBGRA, WindowTriangle;
    PackUnpacked(p);
    var t := WindowTriangle(vp, v);
    forall k: nat | k < w * h && CoverageGrid(t, w, h)[k]
      ensures Shade(v, WeightGrid(t, w, h)[k], tex, texW, texH, filter) == p
    {
      var b := WeightGrid(t, w, h)[k];
      ConstantTexture(tex, texW, texH, Mix(b, v[0].u, v[1].u, v[2].u), Mix(b, v[0].v, v[1].v, v[2].v), filter, p);
    }
  }
}
