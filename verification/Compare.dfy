/** Comparing a readback against the reference image, with an edge band and a colour tolerance. */
module Compare {
  import opened Bytes
  import opened Geometry
  import opened Grid
  import opened Raster
  import opened Texture
  import opened Band

  datatype Kind = CoverageKind | ColourKind

  datatype PixelDiff = PixelDiff(x: nat, y: nat, got: BGRA, ref: BGRA, kind: Kind)

  datatype Result = Result(w: nat, h: nat, refInterior: nat, covMatch: nat, covMismatch: nat, covExactMatch: nat,
                           maxColourDelta: nat, interiorTested: nat, diffs: seq<PixelDiff>, pass: bool)

  function Abs(x: int): (y: nat) { if x < 0 then -x else x }

  function ChannelDelta(a: BGRA, b: BGRA, n: nat): (d: nat) {
    Abs(Channel(a, n) as int - Channel(b, n) as int)
  }

  /** d bounds the difference in every channel and is attained in one. */
  ghost predicate IsDelta(a: BGRA, b: BGRA, d: nat) {
    (forall n :: 0 <= n < 4 ==> ChannelDelta(a, b, n) <= d) && exists n :: 0 <= n < 4 && ChannelDelta(a, b, n) == d
  }

  function Delta(a: BGRA, b: BGRA): (d: nat)
    ensures IsDelta(a, b, d)
  {
    var (d0, d1) := (ChannelDelta(a, b, 0), ChannelDelta(a, b, 1));
    var (d2, d3) := (ChannelDelta(a, b, 2), ChannelDelta(a, b, 3));
    var m := if d0 >= d1 then d0 else d1;
    var n := if d2 >= d3 then d2 else d3;
    if m >= n then m else n
  }

  method MaxChannelDelta(a: BGRA, b: BGRA) returns (m: nat)
    ensures IsDelta(a, b, m) && m == Delta(a, b)
  {
    hide Delta;
    m := 0;
    for k := 0 to 4
      invariant forall n :: 0 <= n < k ==> ChannelDelta(a, b, n) <= m
      invariant k > 0 ==> exists n :: 0 <= n < k && ChannelDelta(a, b, n) == m
      invariant k == 0 ==> m == 0
    {
      var d := Channel(a, k) as int - Channel(b, k) as int;
      if d < 0 { d := -d; }
      assert d == ChannelDelta(a, b, k);
      if d > m { m := d; }
    }
  }

  /** Every channel of p lies within d of the same channel of q. */
  predicate Close(p: BGRA, q: BGRA, d: int) {
    && -d <= p.b as int - q.b as int <= d && -d <= p.g as int - q.g as int <= d
    && -d <= p.r as int - q.r as int <= d && -d <= p.a as int - q.a as int <= d
  }

  lemma CloseIsDelta(p: BGRA, q: BGRA, d: int)
    ensures Close(p, q, d) <==> Delta(p, q) <= d
  {
    hide Delta;
    assert IsDelta(p, q, Delta(p, q));
    assert ChannelDelta(p, q, 0) == Abs(p.r as int - q.r as int);
    assert ChannelDelta(p, q, 1) == Abs(p.g as int - q.g as int);
    assert ChannelDelta(p, q, 2) == Abs(p.b as int - q.b as int);
    assert ChannelDelta(p, q, 3) == Abs(p.a as int - q.a as int);
  }

  // ---- one pixel ----------------------------------------------------------------------------

  /** Everything the comparison looks at; `near` marks the band. */
  datatype Input = Input(got: seq<BGRA>, ref: seq<BGRA>, cov: Coverage, bg: BGRA, near: seq<bool>, colourTol: int)

  function Size(inp: Input): (n: nat) { inp.cov.w * inp.cov.h }

  predicate Ready(inp: Input) {
    |inp.got| >= Size(inp) && |inp.ref| >= Size(inp) && |inp.cov.inside| >= Size(inp) && |inp.near| >= Size(inp)
  }

  predicate RefIn(inp: Input, k: nat) requires Ready(inp) && k < Size(inp) { inp.cov.inside[k] }

  predicate RealIn(inp: Input, k: nat) requires Ready(inp) && k < Size(inp) { inp.got[k] != inp.bg }

  predicate CovOK(inp: Input, k: nat) requires Ready(inp) && k < Size(inp) {
    RefIn(inp, k) == RealIn(inp, k) || inp.near[k]
  }

  predicate ColourOK(inp: Input, k: nat) requires Ready(inp) && k < Size(inp) {
    RefIn(inp, k) && RealIn(inp, k) ==> Delta(inp.got[k], inp.ref[k]) <= inp.colourTol
  }

  /** What the comparison counts. */
  datatype Test = TRefIn | TMatch | TInnerMismatch | TMismatch | TExact | TForgiven | TTested

  predicate Passes(inp: Input, t: Test, k: nat) requires Ready(inp) && k < Size(inp) {
    match t
    case TRefIn => RefIn(inp, k)
    case TMatch => RefIn(inp, k) && CovOK(inp, k)
    case TInnerMismatch => RefIn(inp, k) && !CovOK(inp, k)
    case TMismatch => !CovOK(inp, k)
    case TExact => RefIn(inp, k) == RealIn(inp, k)
    case TForgiven => RefIn(inp, k) != RealIn(inp, k) && inp.near[k]
    case TTested => RefIn(inp, k) && RealIn(inp, k)
  }

  function Count(inp: Input, t: Test, n: nat): (c: nat)
    requires Ready(inp) && n <= Size(inp)
  {
    if n == 0 then 0 else Count(inp, t, n - 1) + if Passes(inp, t, n - 1) then 1 else 0
  }

  /** The largest colour difference among the first n pixels covered on both sides. */
  function MaxDelta(inp: Input, n: nat): (d: nat)
    requires Ready(inp) && n <= Size(inp)
  {
    if n == 0 then 0
    else
      var d := MaxDelta(inp, n - 1);
      var here := Delta(inp.got[n - 1], inp.ref[n - 1]);
      if Passes(inp, TTested, n - 1) && here > d then here else d
  }

  /** The one report a failing pixel gives. */
  function Failure(inp: Input, k: nat): (d: seq<PixelDiff>)
    requires Ready(inp) && k < Size(inp)
  {
    if !CovOK(inp, k) then [PixelDiff(Col(inp.cov.w, k), Row(inp.cov.w, k), inp.got[k], inp.ref[k], CoverageKind)]
    else if !ColourOK(inp, k) then [PixelDiff(Col(inp.cov.w, k), Row(inp.cov.w, k), inp.got[k], inp.ref[k], ColourKind)]
    else []
  }

  /** All failures among the first n pixels, in row-major order. */
  function Failures(inp: Input, n: nat): (ds: seq<PixelDiff>)
    requires Ready(inp) && n <= Size(inp)
  {
    if n == 0 then [] else Failures(inp, n - 1) + Failure(inp, n - 1)
  }

  function Capped(ds: seq<PixelDiff>, max: int): (r: seq<PixelDiff>) {
    if max <= 0 then [] else if |ds| <= max then ds else ds[..max]
  }

  lemma CappedAppend(ds: seq<PixelDiff>, d: PixelDiff, max: int)
    ensures Capped(ds + [d], max) == if |Capped(ds, max)| < max then Capped(ds, max) + [d] else Capped(ds, max)
  {
  }

  // ---- the comparison ------------------------------------------------------------------------

  /** The tally after n pixels. */
  ghost predicate Tallied(inp: Input, n: nat, maxDiffs: int, res: Result)
    requires Ready(inp)
  {
    && n <= Size(inp)
    && res.refInterior == Count(inp, TRefIn, n) && res.covMatch == Count(inp, TMatch, n)
    && res.covMismatch == Count(inp, TMismatch, n) && res.covExactMatch == Count(inp, TExact, n)
    && res.interiorTested == Count(inp, TTested, n) && res.maxColourDelta == MaxDelta(inp, n)
    && res.diffs == Capped(Failures(inp, n), maxDiffs)
  }

  /** One pixel's share of the loop. */
  method TallyPixel(inp: Input, i: nat, j: nat, idx: nat, maxDiffs: int, was: Result) returns (res: Result)
    requires Ready(inp) && idx < Size(inp) && i == Col(inp.cov.w, idx) && j == Row(inp.cov.w, idx)
    requires Tallied(inp, idx, maxDiffs, was)
    ensures Tallied(inp, idx + 1, maxDiffs, res) && res.w == was.w && res.h == was.h
  {
    hide Delta, Capped;
    res := was;
    var refIn := inp.cov.inside[idx];
    var realIn := inp.got[idx] != inp.bg;
    if refIn { res := res.(refInterior := res.refInterior + 1); }
    if refIn == realIn { res := res.(covExactMatch := res.covExactMatch + 1); }
    var covOK := refIn == realIn || inp.near[idx];
    var d := PixelDiff(i, j, inp.got[idx], inp.ref[idx], CoverageKind);
    CappedAppend(Failures(inp, idx), d, maxDiffs);
    if refIn {
      if covOK {
        res := res.(covMatch := res.covMatch + 1);
      } else {
        res := res.(covMismatch := res.covMismatch + 1, diffs := AppendDiff(res.diffs, maxDiffs, d));
      }
    } else if !covOK {
      res := res.(covMismatch := res.covMismatch + 1, diffs := AppendDiff(res.diffs, maxDiffs, d));
    }
    if refIn && realIn {
      res := res.(interiorTested := res.interiorTested + 1);
      var delta := MaxChannelDelta(inp.got[idx], inp.ref[idx]);
      if delta > res.maxColourDelta { res := res.(maxColourDelta := delta); }
      if delta > inp.colourTol {
        CappedAppend(Failures(inp, idx), d.(kind := ColourKind), maxDiffs);
        res := res.(diffs := AppendDiff(res.diffs, maxDiffs, d.(kind := ColourKind)));
      }
    }
    assert Failures(inp, idx) + [] == Failures(inp, idx);
  }

  function AppendDiff(ds: seq<PixelDiff>, max: int, d: PixelDiff): (r: seq<PixelDiff>) {
    if |ds| < max then ds + [d] else ds
  }

  method CompareCore(inp: Input, maxDiffs: int) returns (res: Result)
    requires Ready(inp)
    ensures Tallied(inp, Size(inp), maxDiffs, res) && res.w == inp.cov.w && res.h == inp.cov.h
    ensures GreatestDelta(inp.got, inp.ref, inp.cov.inside, inp.bg, Size(inp), res.maxColourDelta)
    ensures res.pass <==> res.covMismatch == 0 && res.maxColourDelta <= inp.colourTol
  {
    hide Count, MaxDelta, Failures, Capped, GreatestDelta;
    var w, h := inp.cov.w, inp.cov.h;
    EmptyTally(inp, maxDiffs);
    res := Result(w, h, 0, 0, 0, 0, 0, 0, [], false);
    for j := 0 to h
      invariant j * w <= Size(inp) && Tallied(inp, j * w, maxDiffs, res) && res.w == w && res.h == h
    {
      RowFits(w, h, j);
      for i := 0 to w
        invariant Tallied(inp, j * w + i, maxDiffs, res) && res.w == w && res.h == h
      {
        AtInside(w, h, i, j);
        res := TallyPixel(inp, i, j, j * w + i, maxDiffs, res);
      }
      assert (j + 1) * w == j * w + w;
    }
    assert h * w == Size(inp);
    MaxDeltaIsGreatest(inp, Size(inp));
    res := res.(pass := res.covMismatch == 0 && res.maxColourDelta <= inp.colourTol);
  }

  lemma EmptyTally(inp: Input, maxDiffs: int)
    requires Ready(inp)
    ensures Tallied(inp, 0, maxDiffs, Result(inp.cov.w, inp.cov.h, 0, 0, 0, 0, 0, 0, [], false))
  {
  }

  // ---- what the numbers mean --------------------------------------------------------------------

  lemma {:induction false} CountZero(inp: Input, t: Test, n: nat)
    requires Ready(inp) && n <= Size(inp)
    ensures Count(inp, t, n) == 0 <==> forall k: nat :: k < n ==> !Passes(inp, t, k)
  {
    if n > 0 {
      CountZero(inp, t, n - 1);
    }
  }

  lemma {:induction false} MaxDeltaBounds(inp: Input, n: nat)
    requires Ready(inp) && n <= Size(inp)
    ensures MaxDelta(inp, n) <= inp.colourTol <==> inp.colourTol >= 0 && forall k: nat :: k < n ==> ColourOK(inp, k)
  {
    hide Delta;
    if n > 0 {
      MaxDeltaBounds(inp, n - 1);
      var k := n - 1;
      assert ColourOK(inp, k) <==> (Passes(inp, TTested, k) ==> Delta(inp.got[k], inp.ref[k]) <= inp.colourTol);
      assert (forall m: nat :: m < n ==> ColourOK(inp, m)) <==>
             (forall m: nat :: m < k ==> ColourOK(inp, m)) && ColourOK(inp, k);
    }
  }

  /** The pixels covered on both sides are within m of each other in every channel, and not within less. */
  ghost predicate GreatestDelta(got: seq<BGRA>, ref: seq<BGRA>, inside: seq<bool>, bg: BGRA, n: nat, m: nat)
    requires |got| >= n && |ref| >= n && |inside| >= n
  {
    && (forall k: nat :: k < n && inside[k] && got[k] != bg ==> Close(got[k], ref[k], m))
    && (m == 0 || exists k: nat :: k < n && inside[k] && got[k] != bg && !Close(got[k], ref[k], m as int - 1))
  }

  lemma {:induction false} MaxDeltaIsGreatest(inp: Input, n: nat)
    requires Ready(inp) && n <= Size(inp)
    ensures GreatestDelta(inp.got, inp.ref, inp.cov.inside, inp.bg, n, MaxDelta(inp, n))
  {
    hide Delta, Close;
    if n > 0 {
      var k, m, before := n - 1, MaxDelta(inp, n), MaxDelta(inp, n - 1);
      MaxDeltaIsGreatest(inp, k);
      forall j: nat | j < n && inp.cov.inside[j] && inp.got[j] != inp.bg ensures Close(inp.got[j], inp.ref[j], m) {
        CloseIsDelta(inp.got[j], inp.ref[j], m);
        CloseIsDelta(inp.got[j], inp.ref[j], before);
      }
      if m > 0 && m != before {
        CloseIsDelta(inp.got[k], inp.ref[k], m - 1);
      }
    }
  }

  ghost function PassSet(inp: Input, t: Test, n: nat): (s: set<nat>)
    requires Ready(inp) && n <= Size(inp)
  {
    set k: nat | k < n && Passes(inp, t, k)
  }

  /** A count is the size of the set of pixels counted. */
  lemma {:induction false} CountIsSize(inp: Input, t: Test, n: nat)
    requires Ready(inp) && n <= Size(inp)
    ensures Count(inp, t, n) == |PassSet(inp, t, n)|
  {
    hide Passes;
    if n == 0 {
      assert PassSet(inp, t, n) == {};
    } else {
      CountIsSize(inp, t, n - 1);
      var s := PassSet(inp, t, n - 1);
      assert PassSet(inp, t, n) == if Passes(inp, t, n - 1) then s + {n - 1} else s;
    }
  }

  /** Pass, pixel by pixel. */
  lemma VerdictExact(inp: Input, maxDiffs: int, res: Result)
    requires Ready(inp) && Tallied(inp, Size(inp), maxDiffs, res)
    requires res.pass <==> res.covMismatch == 0 && res.maxColourDelta <= inp.colourTol
    ensures res.pass <==> inp.colourTol >= 0 && forall k: nat :: k < Size(inp) ==> CovOK(inp, k) && ColourOK(inp, k)
  {
    hide Capped, Failures, CovOK, ColourOK, MaxDelta, Count;
    CountZero(inp, TMismatch, Size(inp));
    MaxDeltaBounds(inp, Size(inp));
    assert forall k: nat :: k < Size(inp) ==> Passes(inp, TMismatch, k) == !CovOK(inp, k);
  }

  lemma {:induction false} NoFailures(inp: Input, n: nat)
    requires Ready(inp) && n <= Size(inp)
    ensures Failures(inp, n) == [] <==> forall k: nat :: k < n ==> CovOK(inp, k) && ColourOK(inp, k)
  {
    hide CovOK, ColourOK;
    if n > 0 {
      NoFailures(inp, n - 1);
    }
  }

  /** With room for one diff and a colour tolerance, Pass is the same as an empty list. */
  lemma PassIffNoDiffs(inp: Input, maxDiffs: int, res: Result)
    requires Ready(inp) && Tallied(inp, Size(inp), maxDiffs, res) && maxDiffs > 0 && inp.colourTol >= 0
    requires res.pass <==> res.covMismatch == 0 && res.maxColourDelta <= inp.colourTol
    ensures res.pass <==> res.diffs == []
  {
    hide Failures, CovOK, ColourOK;
    VerdictExact(inp, maxDiffs, res);
    NoFailures(inp, Size(inp));
  }

  /** The counters conserve pixels. */
  lemma {:induction false} CountsConserve(inp: Input, n: nat)
    requires Ready(inp) && n <= Size(inp)
    ensures Count(inp, TMatch, n) + Count(inp, TInnerMismatch, n) == Count(inp, TRefIn, n)
    ensures Count(inp, TExact, n) + Count(inp, TMismatch, n) + Count(inp, TForgiven, n) == n
    ensures Count(inp, TInnerMismatch, n) <= Count(inp, TMismatch, n)
  {
    if n > 0 {
      CountsConserve(inp, n - 1);
    }
  }

  /** The failure list is in row-major order, each pixel at most once. */
  lemma {:induction false} FailuresOrdered(inp: Input, n: nat, a: nat, b: nat)
    requires Ready(inp) && n <= Size(inp) && a < b < |Failures(inp, n)|
    ensures var ds := Failures(inp, n); At(inp.cov.w, ds[a].x, ds[a].y) < At(inp.cov.w, ds[b].x, ds[b].y) < n
  {
    hide CovOK, ColourOK, At, Col, Row;
    FailureIndex(inp, n, b);
    if b == |Failures(inp, n - 1)| {
      FailureIndex(inp, n - 1, a);
      Coords(inp.cov.w, inp.cov.h, n - 1);
    } else {
      FailuresOrdered(inp, n - 1, a, b);
    }
  }

  /** Every listed failure is that of an earlier pixel. */
  lemma {:induction false} FailureIndex(inp: Input, n: nat, a: nat)
    requires Ready(inp) && n <= Size(inp) && a < |Failures(inp, n)|
    ensures n > 0
    ensures var d := Failures(inp, n)[a]; var k := At(inp.cov.w, d.x, d.y); 0 <= k < n && Failure(inp, k) == [d]
  {
    hide CovOK, ColourOK, At, Col, Row;
    if a < |Failures(inp, n - 1)| {
      FailureIndex(inp, n - 1, a);
    } else {
      Coords(inp.cov.w, inp.cov.h, n - 1);
    }
  }

  /** Every failing pixel is in the list. */
  lemma {:induction false} FailureListed(inp: Input, n: nat, k: nat) returns (a: nat)
    requires Ready(inp) && k < n <= Size(inp) && Failure(inp, k) != []
    ensures a < |Failures(inp, n)| && Failures(inp, n)[a] == Failure(inp, k)[0]
    decreases n
  {
    hide CovOK, ColourOK;
    if k == n - 1 {
      a := |Failures(inp, n - 1)|;
    } else {
      a := FailureListed(inp, n - 1, k);
    }
  }

  // ---- the public entry -----------------------------------------------------------------------------

  /** A flat buffer as pixels; a trailing partial pixel is dropped. */
  function PixelsOf(b: seq<byte>): (px: seq<BGRA>)
    ensures |px| == |b| / 4
  {
    seq(|b| / 4, i requires 0 <= i < |b| / 4 => BGRA(b[4 * i], b[4 * i + 1], b[4 * i + 2], b[4 * i + 3]))
  }

  method BytesToBGRA(b: seq<byte>) returns (out: seq<BGRA>)
    ensures out == PixelsOf(b) && |out| == |b| / 4
    ensures forall i :: 0 <= i < |out| ==>
      out[i].b == b[4 * i] && out[i].g == b[4 * i + 1] && out[i].r == b[4 * i + 2] && out[i].a == b[4 * i + 3]
  {
    var buf := new BGRA[|b| / 4](_ => BGRA(0, 0, 0, 0));
    for i := 0 to |b| / 4
      invariant forall k :: 0 <= k < i ==> buf[k] == PixelsOf(b)[k]
    {
      var p := b[i * 4..i * 4 + 4];
      buf[i] := BGRA(p[0], p[1], p[2], p[3]);
    }
    out := buf[..];
  }

  /** The readback buffer of an image. */
  function BytesOf(px: seq<BGRA>): (b: seq<byte>)
    ensures |b| == 4 * |px|
  {
    if px == [] then [] else BytesOf(px[..|px| - 1]) + [px[|px| - 1].b, px[|px| - 1].g, px[|px| - 1].r, px[|px| - 1].a]
  }

  lemma {:induction false} PixelsRoundTrip(px: seq<BGRA>)
    ensures PixelsOf(BytesOf(px)) == px
  {
    if px != [] {
      var n := |px| - 1;
      var front := BytesOf(px[..n]);
      PixelsRoundTrip(px[..n]);
      forall i | 0 <= i < |px| ensures PixelsOf(BytesOf(px))[i] == px[i] {
        if i < n {
          assert PixelsOf(front)[i] == px[..n][i];
        }
      }
    }
  }

  /** What is compared, as the caller has it. */
  datatype Picture = Picture(got: seq<BGRA>, ref: seq<BGRA>, cov: Coverage, bg: BGRA, edgeTol: int, colourTol: int)

  ghost predicate Whole(p: Picture) {
    Complete(p.cov) && |p.got| >= p.cov.w * p.cov.h && |p.ref| >= p.cov.w * p.cov.h
  }

  ghost predicate BandAt(p: Picture, k: nat)
    requires Whole(p)
  {
    InBand(p.cov, p.edgeTol, Col(p.cov.w, k), Row(p.cov.w, k))
  }

  /** Pixel k is covered on one side only, and outside the band. */
  ghost predicate CoverageFails(p: Picture, k: nat)
    requires Whole(p) && k < p.cov.w * p.cov.h
  {
    p.cov.inside[k] != (p.got[k] != p.bg) && !BandAt(p, k)
  }

  /** Pixel k is covered on both sides, and some channel is off by more than the tolerance. */
  ghost predicate ColourFails(p: Picture, k: nat)
    requires Whole(p) && k < p.cov.w * p.cov.h
  {
    p.cov.inside[k] && p.got[k] != p.bg && !Close(p.got[k], p.ref[k], p.colourTol)
  }

  /** The verdict in the picture's own terms. */
  ghost predicate Acceptable(p: Picture)
    requires Whole(p)
  {
    p.colourTol >= 0 && forall k: nat :: k < p.cov.w * p.cov.h ==> !CoverageFails(p, k) && !ColourFails(p, k)
  }

  /** Every counter is the number of pixels it is about. */
  ghost predicate Counted(p: Picture, res: Result)
    requires Whole(p)
  {
    var n := p.cov.w * p.cov.h;
    && res.refInterior == |set k: nat | k < n && p.cov.inside[k]|
    && res.covMatch == |set k: nat | k < n && p.cov.inside[k] && (p.got[k] != p.bg || BandAt(p, k))|
    && res.covMismatch == |set k: nat | k < n && CoverageFails(p, k)|
    && res.covExactMatch == |set k: nat | k < n && p.cov.inside[k] == (p.got[k] != p.bg)|
    && res.interiorTested == |set k: nat | k < n && p.cov.inside[k] && p.got[k] != p.bg|
  }

  function PixelIndex(w: nat, d: PixelDiff): (k: nat) { d.y * w + d.x }

  /** A report about pixel k: what was read, what was expected there, and which check failed. */
  ghost predicate DiffRight(p: Picture, d: PixelDiff)
    requires Whole(p)
  {
    var k := PixelIndex(p.cov.w, d);
    && d.x < p.cov.w && d.y < p.cov.h && k < p.cov.w * p.cov.h && d.got == p.got[k] && d.ref == p.ref[k]
    && (d.kind == CoverageKind <==> CoverageFails(p, k)) && (d.kind == ColourKind <==> ColourFails(p, k))
  }

  /** The list is the row-major beginning of all failures: each entry right, in order, and a failing pixel
      missing only when the list is full and everything in it comes before. */
  ghost predicate Reported(p: Picture, maxDiffs: int, ds: seq<PixelDiff>)
    requires Whole(p)
  {
    && (ds == [] || |ds| <= maxDiffs)
    && (forall a :: 0 <= a < |ds| ==> DiffRight(p, ds[a]))
    && (forall a, b :: 0 <= a < b < |ds| ==> PixelIndex(p.cov.w, ds[a]) < PixelIndex(p.cov.w, ds[b]))
    && (forall k: nat :: k < p.cov.w * p.cov.h && (CoverageFails(p, k) || ColourFails(p, k)) ==>
          || (exists a :: 0 <= a < |ds| && PixelIndex(p.cov.w, ds[a]) == k)
          || (|ds| >= maxDiffs && forall a :: 0 <= a < |ds| ==> PixelIndex(p.cov.w, ds[a]) < k))
  }

  /** Picture and band as one input of the loops. */
  ghost function InputFor(p: Picture): (inp: Input)
    requires Whole(p)
    ensures Ready(inp)
  {
    Input(p.got, p.ref, p.cov, p.bg, BandGrid(p.cov, p.edgeTol), p.colourTol)
  }

  lemma ChecksAgree(p: Picture, k: nat)
    requires Whole(p) && k < p.cov.w * p.cov.h
    ensures CovOK(InputFor(p), k) <==> !CoverageFails(p, k)
    ensures ColourOK(InputFor(p), k) <==> !ColourFails(p, k)
    ensures !(CoverageFails(p, k) && ColourFails(p, k))
  {
    hide InBand, Delta, Close, Col, Row;
    CloseIsDelta(p.got[k], p.ref[k], p.colourTol);
  }

  lemma CountsAgree(p: Picture, maxDiffs: int, res: Result)
    requires Whole(p) && Tallied(InputFor(p), p.cov.w * p.cov.h, maxDiffs, res)
    ensures Counted(p, res)
  {
    hide Count, MaxDelta, Failures, Capped, InputFor, Passes, CoverageFails, BandAt;
    var inp, n := InputFor(p), p.cov.w * p.cov.h;
    InputSize(p);
    forall k: nat | k < n
      ensures Passes(inp, TRefIn, k) == p.cov.inside[k]
      ensures Passes(inp, TMatch, k) == (p.cov.inside[k] && (p.got[k] != p.bg || BandAt(p, k)))
      ensures Passes(inp, TMismatch, k) == CoverageFails(p, k)
      ensures Passes(inp, TExact, k) == (p.cov.inside[k] == (p.got[k] != p.bg))
      ensures Passes(inp, TTested, k) == (p.cov.inside[k] && p.got[k] != p.bg)
    {
      TestsMean(p, k);
    }
    CountIsSize(inp, TRefIn, n);
    CountIsSize(inp, TMatch, n);
    CountIsSize(inp, TMismatch, n);
    CountIsSize(inp, TExact, n);
    CountIsSize(inp, TTested, n);
    assert PassSet(inp, TRefIn, n) == set k: nat | k < n && p.cov.inside[k];
    assert PassSet(inp, TMatch, n) == set k: nat | k < n && p.cov.inside[k] && (p.got[k] != p.bg || BandAt(p, k));
    assert PassSet(inp, TMismatch, n) == set k: nat | k < n && CoverageFails(p, k);
    assert PassSet(inp, TExact, n) == set k: nat | k < n && p.cov.inside[k] == (p.got[k] != p.bg);
    assert PassSet(inp, TTested, n) == set k: nat | k < n && p.cov.inside[k] && p.got[k] != p.bg;
  }

  lemma TestsMean(p: Picture, k: nat)
    requires Whole(p) && k < p.cov.w * p.cov.h
    ensures var inp := InputFor(p);
      && Passes(inp, TRefIn, k) == p.cov.inside[k]
      && Passes(inp, TMatch, k) == (p.cov.inside[k] && (p.got[k] != p.bg || BandAt(p, k)))
      && Passes(inp, TMismatch, k) == CoverageFails(p, k)
      && Passes(inp, TExact, k) == (p.cov.inside[k] == (p.got[k] != p.bg))
      && Passes(inp, TTested, k) == (p.cov.inside[k] && p.got[k] != p.bg)
  {
    hide InBand, Col, Row;
  }

  lemma FailureIsRight(p: Picture, k: nat)
    requires Whole(p) && k < p.cov.w * p.cov.h
    ensures var ds := Failure(InputFor(p), k);
      && (ds != [] <==> CoverageFails(p, k) || ColourFails(p, k))
      && (ds != [] ==> DiffRight(p, ds[0]) && PixelIndex(p.cov.w, ds[0]) == k)
  {
    hide CovOK, ColourOK, CoverageFails, ColourFails, Col, Row;
    ChecksAgree(p, k);
    Coords(p.cov.w, p.cov.h, k);
  }

  lemma ReportAgrees(p: Picture, maxDiffs: int)
    requires Whole(p)
    ensures Reported(p, maxDiffs, Capped(Failures(InputFor(p), p.cov.w * p.cov.h), maxDiffs))
  {
    hide CoverageFails, ColourFails, Failures, DiffRight, Failure, InputFor, PixelIndex;
    var inp, n, w := InputFor(p), p.cov.w * p.cov.h, p.cov.w;
    InputSize(p);
    var all := Failures(inp, n);
    var ds := Capped(all, maxDiffs);
    forall a | 0 <= a < |all| ensures DiffRight(p, all[a]) {
      ListedRight(p, a);
    }
    forall a, b | 0 <= a < b < |all| ensures PixelIndex(w, all[a]) < PixelIndex(w, all[b]) {
      ListedOrder(p, a, b);
    }
    forall k: nat | k < n && (CoverageFails(p, k) || ColourFails(p, k))
      ensures exists a :: 0 <= a < |all| && PixelIndex(w, all[a]) == k
    {
      FailureIsRight(p, k);
      var a := FailureListed(inp, n, k);
      assert PixelIndex(w, all[a]) == k;
    }
    forall k: nat | k < n && (CoverageFails(p, k) || ColourFails(p, k))
      ensures (exists a :: 0 <= a < |ds| && PixelIndex(w, ds[a]) == k)
           || (|ds| >= maxDiffs && forall a :: 0 <= a < |ds| ==> PixelIndex(w, ds[a]) < k)
    {
      var a :| 0 <= a < |all| && PixelIndex(w, all[a]) == k;
      if a < |ds| {
        assert ds[a] == all[a];
      }
    }
  }

  lemma InputSize(p: Picture)
    requires Whole(p)
    ensures Size(InputFor(p)) == p.cov.w * p.cov.h && InputFor(p).cov.w == p.cov.w && InputFor(p).cov.h == p.cov.h
  {
  }

  lemma ListedRight(p: Picture, a: nat)
    requires Whole(p) && a < |Failures(InputFor(p), p.cov.w * p.cov.h)|
    ensures DiffRight(p, Failures(InputFor(p), p.cov.w * p.cov.h)[a])
  {
    hide CoverageFails, ColourFails, Failures, DiffRight, Failure, InputFor;
    var inp, n := InputFor(p), p.cov.w * p.cov.h;
    InputSize(p);
    FailureIndex(inp, n, a);
    var d := Failures(inp, n)[a];
    FailureIsRight(p, At(p.cov.w, d.x, d.y));
  }

  lemma ListedOrder(p: Picture, a: nat, b: nat)
    requires Whole(p) && a < b < |Failures(InputFor(p), p.cov.w * p.cov.h)|
    ensures var ds := Failures(InputFor(p), p.cov.w * p.cov.h);
      PixelIndex(p.cov.w, ds[a]) < PixelIndex(p.cov.w, ds[b])
  {
    hide Failures, InputFor;
    InputSize(p);
    FailuresOrdered(InputFor(p), p.cov.w * p.cov.h, a, b);
  }

  method Compare(bytes: seq<byte>, ref: seq<BGRA>, cov: Coverage, bg: BGRA,
                 edgeTol: int, colourTol: int, maxDiffs: int)
    returns (res: Result)
    requires Complete(cov) && |bytes| / 4 >= cov.w * cov.h && |ref| >= cov.w * cov.h
    ensures var p := Picture(PixelsOf(bytes), ref, cov, bg, edgeTol, colourTol);
      && Whole(p)
      && (res.pass <==> Acceptable(p))
      && Counted(p, res)
      && Reported(p, maxDiffs, res.diffs)
      && Tallied(InputFor(p), cov.w * cov.h, maxDiffs, res)
      && GreatestDelta(p.got, ref, cov.inside, bg, cov.w * cov.h, res.maxColourDelta)
    ensures res.w == cov.w && res.h == cov.h
    ensures maxDiffs > 0 && colourTol >= 0 ==> (res.pass <==> res.diffs == [])
    ensures res.covMatch <= res.refInterior && res.covExactMatch + res.covMismatch <= cov.w * cov.h
  {
    hide Count, MaxDelta, Failures, Capped, CovOK, ColourOK, InBand, Delta, Counted, Reported, GreatestDelta, Col, Row;
    hide CoverageFails, ColourFails;
    var got := BytesToBGRA(bytes);
    var near := BoundaryBand(cov, edgeTol);
    var inp := Input(got, ref, cov, bg, near, colourTol);
    ghost var p := Picture(PixelsOf(bytes), ref, cov, bg, edgeTol, colourTol);
    assert inp == InputFor(p);
    res := CompareCore(inp, maxDiffs);
    VerdictExact(inp, maxDiffs, res);
    CountsConserve(inp, Size(inp));
    CountsAgree(p, maxDiffs, res);
    ReportAgrees(p, maxDiffs);
    MaxDeltaIsGreatest(inp, Size(inp));
    forall k: nat | k < cov.w * cov.h
      ensures CovOK(inp, k) <==> !CoverageFails(p, k)
      ensures ColourOK(inp, k) <==> !ColourFails(p, k)
    {
      ChecksAgree(p, k);
    }
    if maxDiffs > 0 && colourTol >= 0 {
      PassIffNoDiffs(inp, maxDiffs, res);
    }
  }

  /** Loosening either tolerance never turns a pass into a failure. */
  lemma AcceptableMonotone(p: Picture, edgeTol: int, colourTol: int)
    requires Whole(p) && p.edgeTol <= edgeTol && p.colourTol <= colourTol && Acceptable(p)
    ensures Acceptable(p.(edgeTol := edgeTol, colourTol := colourTol))
  {
    hide InBand, Col, Row;
    forall k: nat | k < p.cov.w * p.cov.h
      ensures !CoverageFails(p.(edgeTol := edgeTol, colourTol := colourTol), k)
      ensures !ColourFails(p.(edgeTol := edgeTol, colourTol := colourTol), k)
    {
      assert !CoverageFails(p, k) && !ColourFails(p, k);
      BandMonotone(p.cov, p.edgeTol, edgeTol, Col(p.cov.w, k), Row(p.cov.w, k));
    }
  }

  /** The flat reference read back unchanged passes exactly when its fill can be told from the
      background, or everything it covers lies in the band anyway. */
  lemma ReferencePasses(t: Triangle, fill: BGRA, bg: BGRA, w: nat, h: nat, edgeTol: int, colourTol: int)
    requires colourTol >= 0
    ensures var (img, cov) := (DrawImage(t, fill, bg, w, h), Coverage(w, h, CoverageGrid(t, w, h)));
      && PixelsOf(BytesOf(img)) == img
      && (Acceptable(Picture(img, img, cov, bg, edgeTol, colourTol)) <==>
          fill != bg || forall k: nat :: k < w * h && cov.inside[k] ==> InBand(cov, edgeTol, Col(w, k), Row(w, k)))
  {
    hide InBand, Col, Row, CoverageGrid;
    var img, cov := DrawImage(t, fill, bg, w, h), Coverage(w, h, CoverageGrid(t, w, h));
    PixelsRoundTrip(img);
    var p := Picture(img, img, cov, bg, edgeTol, colourTol);
    forall k: nat | k < w * h
      ensures CoverageFails(p, k) <==> cov.inside[k] && fill == bg && !InBand(cov, edgeTol, Col(w, k), Row(w, k))
      ensures !ColourFails(p, k)
    {
    }
  }

  /** A fill the colour of the background can fail against itself: one covered pixel, no band. */
  lemma InvisibleFillFails(bg: BGRA, edgeTol: int, colourTol: int)
    ensures var t := Triangle(Point(0.0, 0.0), Point(2.0, 0.0), Point(0.0, 2.0));
      var (img, cov) := (DrawImage(t, bg, bg, 1, 1), Coverage(1, 1, CoverageGrid(t, 1, 1)));
      !Acceptable(Picture(img, img, cov, bg, edgeTol, colourTol))
  {
    var t := Triangle(Point(0.0, 0.0), Point(2.0, 0.0), Point(0.0, 2.0));
    var cov := Coverage(1, 1, CoverageGrid(t, 1, 1));
    assert CentreOf(1, 0) == Point(0.5, 0.5);
    assert cov.inside[0];
    var img := DrawImage(t, bg, bg, 1, 1);
    var p := Picture(img, img, cov, bg, edgeTol, colourTol);
    assert forall a, b :: InImage(cov, a, b) ==> a == 0 && b == 0;
    assert !Boundary(cov, 0, 0);
    assert CoverageFails(p, 0);
  }
}
