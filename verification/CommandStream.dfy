/** The vn_cs command-stream format: little-endian values on dword boundaries,
    pointers as an 8-byte count, strings as an 8-byte size and padded NUL-terminated bytes. */
module CommandStream {
  import opened Bytes
  import opened RingLayout

  /** One value appended to a stream. */
  datatype Op =
    | W32(v: u32)
    | W64(q: u64)
    | Text(s: seq<byte>) // strOrEmpty: an empty string is a bare count of 0
    | Str(t: seq<byte>)  // str: an empty string is still a NUL with its padding

  datatype Kind = K32 | K64 | KText | KStr

  const MAX_LENGTH: nat := 0x7fff_ffff_ffff_fff0

  function KindOf(op: Op): (k: Kind) {
    match op case W32(_) => K32 case W64(_) => K64 case Text(_) => KText case Str(_) => KStr
  }

  function Zeros(n: nat): (z: seq<byte>)
    ensures |z| == n
  {
    seq(n, _ => 0)
  }

  /** Zero bytes that bring a length up to a dword boundary. */
  function Slack(n: nat): (k: nat)
    ensures (n + k) % 4 == 0 && k < 4
  {
    (4 - n % 4) % 4
  }

  function PadDword(b: seq<byte>): (r: seq<byte>)
    ensures |r| % 4 == 0 && |b| <= |r| < |b| + 4 && b <= r
    ensures |b| % 4 == 0 ==> r == b
    ensures forall k :: |b| <= k < |r| ==> r[k] == 0
  {
    b + Zeros(Slack(|b|))
  }

  /** Appending one zero to an unaligned string is one step of the padding. */
  lemma PadOne(b: seq<byte>)
    requires |b| % 4 != 0
    ensures PadDword(b + [0]) == PadDword(b)
    ensures Slack(|b + [0]|) < Slack(|b|)
  {
    assert [0] + Zeros(Slack(|b| + 1)) == Zeros(Slack(|b|));
  }

  /** Padding the whole is padding the end when what precedes is aligned. */
  lemma PadSuffix(a: seq<byte>, b: seq<byte>)
    requires |a| % 4 == 0
    ensures PadDword(a + b) == a + PadDword(b)
  {
    assert Slack(|a + b|) == Slack(|b|);
  }

  /** A Go string or slice has an int length. */
  predicate Encodable(op: Op) {
    match op case Text(s) => |s| < MAX_LENGTH case Str(s) => |s| < MAX_LENGTH case _ => true
  }

  function Terminated(s: seq<byte>): (r: seq<byte>)
    requires |s| < MAX_LENGTH
    ensures |r| % 4 == 0 && |r| >= 12
  {
    hide PadDword, Le64;
    var p := PadDword(s + [0]);
    assert (8 + |p|) % 4 == 0;
    Le64(|s| + 1) + p
  }

  function Chunk(op: Op): (c: seq<byte>)
    requires Encodable(op)
    ensures |c| % 4 == 0
  {
    hide Terminated, Le32, Le64;
    match op
    case W32(v) => Le32(v)
    case W64(q) => Le64(q)
    case Text(s) => if s == [] then Le64(0) else Terminated(s)
    case Str(s) => Terminated(s)
  }

  /** The bytes of one value: four or eight, least significant first; a string as the eight-byte count of
      its bytes and a NUL, the bytes, and zeros up to a dword; an empty optional string as a count of 0. */
  lemma ChunkBytes(op: Op)
    requires Encodable(op)
    ensures var c := Chunk(op);
      match op
      case W32(v) => |c| == 4 && U32At(c, 0) == v
      case W64(q) => |c| == 8 && U64At(c, 0) == q
      case Text(s) => if s == [] then |c| == 8 && U64At(c, 0) == 0 else TextBytes(c, s)
      case Str(s) => TextBytes(c, s)
  {
    hide Le32, Le64, U32At, U64At, Terminated;
    var c := Chunk(op);
    match op
    case W32(v) => assert c[0..4] == Le32(v); Le32At(c, 0, v);
    case W64(q) => assert c[0..8] == Le64(q); Le64At(c, 0, q);
    case Text(s) => if s == [] { assert c[0..8] == Le64(0); Le64At(c, 0, 0); } else { TerminatedBytes(s); }
    case Str(s) => TerminatedBytes(s);
  }

  predicate TextBytes(c: seq<byte>, s: seq<byte>) {
    && |c| == 8 + (|s| + 4) / 4 * 4 && U64At(c, 0) == |s| + 1 && c[8..8 + |s|] == s
    && forall k :: 8 + |s| <= k < |c| ==> c[k] == 0
  }

  lemma TerminatedBytes(s: seq<byte>)
    requires |s| < MAX_LENGTH
    ensures TextBytes(Terminated(s), s)
  {
    hide Le64, U64At, PadDword;
    var c := Terminated(s);
    assert c[0..8] == Le64(|s| + 1);
    Le64At(c, 0, |s| + 1);
    var p := PadDword(s + [0]);
    assert c[8..8 + |s|] == p[..|s|] == s;
    forall k | 8 + |s| <= k < |c| ensures c[k] == 0 {
      assert c[k] == p[k - 8];
      assert k - 8 == |s| ==> p[k - 8] == (s + [0])[k - 8];
    }
  }

  ghost predicate AllEncodable(ops: seq<Op>) {
    forall i :: 0 <= i < |ops| ==> Encodable(ops[i])
  }

  lemma AlignedSum(a: nat, b: nat)
    requires a % 4 == 0 && b % 4 == 0
    ensures (a + b) % 4 == 0
  {
  }

  /** Alignment holds after every sequence of operations. */
  function Encode(ops: seq<Op>): (b: seq<byte>)
    requires AllEncodable(ops)
    ensures |b| % 4 == 0
  {
    hide Chunk;
    if ops == [] then []
    else
      var c, rest := Chunk(ops[0]), Encode(ops[1..]);
      assert (|c| + |rest|) % 4 == 0 by { AlignedSum(|c|, |rest|); }
      c + rest
  }

  lemma {:induction false} EncodeSnoc(ops: seq<Op>, op: Op)
    requires AllEncodable(ops) && Encodable(op)
    ensures AllEncodable(ops + [op])
    ensures Encode(ops + [op]) == Encode(ops) + Chunk(op)
  {
    hide Chunk;
    if ops == [] {
      assert ops + [op] == [op];
    } else {
      assert (ops + [op])[1..] == ops[1..] + [op];
      EncodeSnoc(ops[1..], op);
    }
  }

  // ---- the host's reader -------------------------------------------------

  function TakeText(s: seq<byte>): (r: Option<(seq<byte>, seq<byte>)>) {
    if |s| < 8 then None
    else
      var n, body := U64At(s, 0) as nat, s[8..];
      if n == 0 then Some(([], body))
      else if n + Slack(n) > |body| || body[n - 1] != 0 then None
      else Some((body[..n - 1], body[n + Slack(n)..]))
  }

  function Take(s: seq<byte>, k: Kind): (r: Option<(Op, seq<byte>)>) {
    match k
    case K32 => if |s| < 4 then None else Some((W32(U32At(s, 0)), s[4..]))
    case K64 => if |s| < 8 then None else Some((W64(U64At(s, 0)), s[8..]))
    case KText => var (t, rest) :- TakeText(s); Some((Text(t), rest))
    case KStr => var (t, rest) :- TakeText(s); Some((Str(t), rest))
  }

  /** Read values of the given kinds, and what follows them. */
  function Decode(s: seq<byte>, ks: seq<Kind>): (r: Option<(seq<Op>, seq<byte>)>) {
    if ks == [] then Some(([], s))
    else
      var (op, rest) :- Take(s, ks[0]);
      var (ops, rest') :- Decode(rest, ks[1..]);
      Some(([op] + ops, rest'))
  }

  function Kinds(ops: seq<Op>): (ks: seq<Kind>) {
    seq(|ops|, i requires 0 <= i < |ops| => KindOf(ops[i]))
  }

  /** Strings survive whatever bytes they hold, NULs included: the size field delimits them. */
  lemma TakeTerminated(t: seq<byte>, rest: seq<byte>)
    requires |t| < MAX_LENGTH
    ensures TakeText(Terminated(t) + rest) == Some((t, rest))
  {
    hide Le64, U64At, Slack;
    var s, n := Terminated(t) + rest, |t| + 1;
    assert s[0..8] == Le64(n);
    Le64At(s, 0, n);
    var body := PadDword(t + [0]) + rest;
    assert s[8..] == body;
    assert body[..n - 1] == t && body[n - 1] == 0;
    assert body[n + Slack(n)..] == rest;
  }

  lemma TakeChunk(op: Op, rest: seq<byte>)
    requires Encodable(op)
    ensures Take(Chunk(op) + rest, KindOf(op)) == Some((op, rest))
  {
    var s := Chunk(op) + rest;
    match op
    case W32(v) => assert s[0..4] == Le32(v); Le32At(s, 0, v); assert s[4..] == rest;
    case W64(q) => assert s[0..8] == Le64(q); Le64At(s, 0, q); assert s[8..] == rest;
    case Text(t) =>
      if t == [] {
        assert s[0..8] == Le64(0); Le64At(s, 0, 0); assert s[8..] == rest;
      } else {
        TakeTerminated(t, rest);
      }
    case Str(t) => TakeTerminated(t, rest);
  }

  lemma {:induction false} StreamRoundTrip(ops: seq<Op>, rest: seq<byte>)
    requires AllEncodable(ops)
    ensures Decode(Encode(ops) + rest, Kinds(ops)) == Some((ops, rest))
  {
    hide Chunk, Take;
    if ops == [] {
      assert Encode(ops) + rest == rest;
    } else {
      assert Encode(ops) + rest == Chunk(ops[0]) + (Encode(ops[1..]) + rest);
      TakeChunk(ops[0], Encode(ops[1..]) + rest);
      StreamRoundTrip(ops[1..], rest);
      assert Kinds(ops)[1..] == Kinds(ops[1..]);
      assert [ops[0]] + ops[1..] == ops;
    }
  }

  /** `str` and `strOrEmpty` write the same bytes exactly for the non-empty strings. */
  lemma StringFormsAgree(s: seq<byte>)
    requires |s| < MAX_LENGTH
    ensures Chunk(Str(s)) == Chunk(Text(s)) <==> s != []
  {
    if s == [] {
      assert |Chunk(Str(s))| != |Chunk(Text(s))|;
    }
  }

  /** `(n + 3) &^ 3` zero-filled is the padded string. */
  lemma RoundUp(s: seq<byte>, size: nat)
    requires size == (|s| + 1 + 3) / 4 * 4
    ensures size > |s| && s + Zeros(size - |s|) == PadDword(s + [0])
  {
    assert size == |s| + 1 + Slack(|s| + 1);
  }

  lemma TextChunk(b: seq<byte>, s: seq<byte>)
    requires |b| % 4 == 0 && 0 < |s| < MAX_LENGTH
    ensures PadDword(b + Le64(|s| + 1) + s + [0]) == b + Chunk(Text(s))
  {
    hide Le64, PadDword;
    var front := b + Le64(|s| + 1);
    assert |front| % 4 == 0 by { AlignedSum(|b|, 8); }
    PadSuffix(front, s + [0]);
    assert front + s + [0] == front + (s + [0]);
    assert front + PadDword(s + [0]) == b + Terminated(s);
  }

  /** Append zero bytes until the length is a multiple of four. */
  method Pad(b: seq<byte>) returns (r: seq<byte>)
    ensures r == PadDword(b)
  {
    r := b;
    while |r| % 4 != 0
      invariant PadDword(r) == PadDword(b)
      decreases Slack(|r|)
    {
      PadOne(r);
      r := r + [0];
    }
  }

  // ---- the builder ---------------------------------------------------------

  class Builder {
    var b: seq<byte>
    ghost var ops: seq<Op>

    ghost predicate Valid()
      reads this
    {
      AllEncodable(ops) && b == Encode(ops)
    }

    constructor ()
      ensures Valid() && ops == []
    {
      b, ops := [], [];
    }

    method Finish() returns (r: seq<byte>)
      requires Valid()
      ensures AllEncodable(ops) && r == Encode(ops)
    {
      r := b;
    }

    method U32(v: u32)
      requires Valid()
      modifies this
      ensures Valid() && ops == old(ops) + [W32(v)]
    {
      EncodeSnoc(ops, W32(v));
      b, ops := b + Le32(v), ops + [W32(v)];
    }

    method U64(v: u64)
      requires Valid()
      modifies this
      ensures Valid() && ops == old(ops) + [W64(v)]
    {
      EncodeSnoc(ops, W64(v));
      b, ops := b + Le64(v), ops + [W64(v)];
    }

    method SimplePointer(present: bool) returns (r: bool)
      requires Valid()
      modifies this
      ensures Valid() && ops == old(ops) + [W64(if present then 1 else 0)] && r == present
    {
      if present { U64(1); } else { U64(0); }
      r := present;
    }

    method StrOrEmpty(s: seq<byte>)
      requires Valid() && |s| < MAX_LENGTH
      modifies this
      ensures Valid() && ops == old(ops) + [Text(s)]
    {
      if s == [] {
        EncodeSnoc(ops, Text(s));
        b, ops := b + Le64(0), ops + [Text(s)];
        return;
      }
      hide Encode, Le64;
      TextChunk(b, s);
      var b' := Pad(b + Le64(|s| + 1) + s + [0]);
      EncodeSnoc(ops, Text(s));
      b, ops := b', ops + [Text(s)];
    }

    method Str(s: seq<byte>)
      requires Valid() && |s| < MAX_LENGTH
      modifies this
      ensures Valid() && ops == old(ops) + [Op.Str(s)]
    {
      hide Encode, Le64;
      EncodeSnoc(ops, Op.Str(s));
      var size := (|s| + 1 + 3) / 4 * 4;
      RoundUp(s, size);
      b := b + Le64(|s| + 1);
      b := b + (s + Zeros(size - |s|));
      ops := ops + [Op.Str(s)];
    }
  }

  // ---- the three hand-encoded commands -------------------------------------

  const CMD_CREATE_INSTANCE: u32 := 0
  const CMD_SET_REPLY: u32 := 178
  const CMD_CREATE_RING: u32 := 188
  const STY_RING_CREATE_INFO: u32 := 1000384000
  const STY_INSTANCE_CREATE_INFO: u32 := 1
  const STY_APPLICATION_INFO: u32 := 0

  datatype Instance =
    Instance(flags: u32, appName: seq<byte>, engineName: seq<byte>, apiVersion: u32, handle: Option<u64>)

  predicate ShortNames(appName: seq<byte>, engineName: seq<byte>) {
    |appName| < MAX_LENGTH && |engineName| < MAX_LENGTH
  }

  function ApplicationOps(appName: seq<byte>, engineName: seq<byte>, apiVersion: u64): (ops: seq<Op>) {
    [W32(STY_APPLICATION_INFO), W64(0), Text(appName), W32(0), Text(engineName), W32(0), W32(Low32(apiVersion))]
  }

  function InstanceBody(flags: u32, appName: seq<byte>, engineName: seq<byte>, apiVersion: u64): (ops: seq<Op>) {
    [W32(CMD_CREATE_INSTANCE), W32(flags), W64(1)] + CreateInfoOps(appName, engineName, apiVersion) + [W64(0)]
  }

  function CreateInfoOps(appName: seq<byte>, engineName: seq<byte>, apiVersion: u64): (ops: seq<Op>) {
    [W32(STY_INSTANCE_CREATE_INFO), W64(0), W32(0), W64(1)] +
    ApplicationOps(appName, engineName, apiVersion) +
    [W32(0), W64(0), W32(0), W64(0)]
  }

  function InstanceOps(flags: u32, appName: seq<byte>, engineName: seq<byte>, apiVersion: u64, handle: u64)
    : (ops: seq<Op>)
  {
    InstanceBody(flags, appName, engineName, apiVersion) + HandleOps(handle)
  }

  function HandleOps(handle: u64): (ops: seq<Op>) {
    if handle != 0 then [W64(1), W64(handle)] else [W64(0)]
  }

  /** The documented field order of vkCreateInstance, one entry per field. */
  function InstanceLayout(flags: u32, appName: seq<byte>, engineName: seq<byte>, apiVersion: u32): (ops: seq<Op>)
    ensures |ops| == 19
  {
    [W32(0), W32(flags), W64(1), W32(1), W64(0), W32(0), W64(1), W32(0), W64(0),
     Text(appName), W32(0), Text(engineName),
     W32(0), W32(apiVersion), W32(0), W64(0), W32(0), W64(0), W64(0)]
  }

  /** The host's decoder for vkCreateInstance: every fixed field must hold its documented value. */
  function DecodeInstance(s: seq<byte>): (r: Option<Instance>) {
    var (ops, rest) :- Decode(s, [K32, K32, K64, K32, K64, K32, K64, K32, K64, KText, K32, KText,
                                  K32, K32, K32, K64, K32, K64, K64]);
    if |ops| != 19 || !ops[1].W32? || !ops[9].Text? || !ops[11].Text? || !ops[13].W32? then None
    else
      var (flags, app, engine, api) := (ops[1].v, ops[9].s, ops[11].s, ops[13].v);
      var (present, rest') :- Take(rest, K64);
      if ops != InstanceLayout(flags, app, engine, api) then None
      else if present == W64(0) then
        if rest' != [] then None else Some(Instance(flags, app, engine, api, None))
      else
        var (h, tail) :- Take(rest', K64);
        if present != W64(1) || !h.W64? || tail != [] then None else Some(Instance(flags, app, engine, api, Some(h.q)))
  }

  method AppendApplicationInfo(e: Builder, appName: seq<byte>, engineName: seq<byte>, apiVersion: u64)
    requires e.Valid() && ShortNames(appName, engineName)
    modifies e
    ensures e.Valid() && e.ops == old(e.ops) + ApplicationOps(appName, engineName, apiVersion)
  {
    hide Encode, AllEncodable, Builder.Valid;
    e.U32(STY_APPLICATION_INFO);
    var next := e.SimplePointer(false);
    e.StrOrEmpty(appName);
    e.U32(0);
    e.StrOrEmpty(engineName);
    e.U32(0);
    e.U32(Low32(apiVersion));
  }

  method AppendCreateInfo(e: Builder, appName: seq<byte>, engineName: seq<byte>, apiVersion: u64)
    requires e.Valid() && ShortNames(appName, engineName)
    modifies e
    ensures e.Valid() && e.ops == old(e.ops) + CreateInfoOps(appName, engineName, apiVersion)
  {
    hide Encode, AllEncodable, Builder.Valid, ApplicationOps;
    e.U32(STY_INSTANCE_CREATE_INFO);
    var next := e.SimplePointer(false);
    e.U32(0);
    var app := e.SimplePointer(true);
    if app {
      AppendApplicationInfo(e, appName, engineName, apiVersion);
    }
    e.U32(0);
    e.U64(0);
    e.U32(0);
    e.U64(0);
  }

  method EncodeMinimalCreateInstance(flags: u32, appName: seq<byte>, engineName: seq<byte>,
                                     apiVersion: u64, handle: u64)
    returns (b: seq<byte>)
    requires ShortNames(appName, engineName)
    ensures |b| % 4 == 0 && PadDword(b) == b
    ensures DecodeInstance(b) ==
            Some(Instance(flags, appName, engineName, Low32(apiVersion), if handle == 0 then None else Some(handle)))
    ensures var ops := [W32(0), W32(flags), W64(1), W32(1), W64(0), W32(0), W64(1), W32(0), W64(0),
                        Text(appName), W32(0), Text(engineName), W32(0), W32(Low32(apiVersion)),
                        W32(0), W64(0), W32(0), W64(0), W64(0)]
                       + if handle == 0 then [W64(0)] else [W64(1), W64(handle)];
      AllEncodable(ops) && b == Encode(ops)
  {
    hide Encode, DecodeInstance, PadDword, AllEncodable, Builder.Valid, CreateInfoOps;
    var e := new Builder();
    e.U32(CMD_CREATE_INSTANCE);
    e.U32(flags);
    var present := e.SimplePointer(true);
    if present {
      AppendCreateInfo(e, appName, engineName, apiVersion);
    }
    var alloc := e.SimplePointer(false);
    assert e.ops == InstanceBody(flags, appName, engineName, apiVersion);
    var named := e.SimplePointer(handle != 0);
    if named {
      e.U64(handle);
    }
    assert e.ops == InstanceOps(flags, appName, engineName, apiVersion, handle);
    InstanceDecodes(flags, appName, engineName, apiVersion, handle);
    BodyKinds(flags, appName, engineName, apiVersion);
    b := e.Finish();
  }

  lemma {:induction false} EncodeConcat(a: seq<Op>, c: seq<Op>)
    requires AllEncodable(a) && AllEncodable(c)
    ensures AllEncodable(a + c) && Encode(a + c) == Encode(a) + Encode(c)
  {
    hide Chunk;
    if a == [] {
      assert a + c == c;
    } else {
      assert (a + c)[1..] == a[1..] + c;
      EncodeConcat(a[1..], c);
    }
  }

  lemma InstanceDecodes(flags: u32, appName: seq<byte>, engineName: seq<byte>, apiVersion: u64, handle: u64)
    requires ShortNames(appName, engineName)
    ensures AllEncodable(InstanceOps(flags, appName, engineName, apiVersion, handle))
    ensures DecodeInstance(Encode(InstanceOps(flags, appName, engineName, apiVersion, handle))) ==
            Some(Instance(flags, appName, engineName, Low32(apiVersion), if handle == 0 then None else Some(handle)))
  {
    hide Decode, Take, Encode, Kinds, InstanceBody, AllEncodable;
    var body, tail := InstanceBody(flags, appName, engineName, apiVersion), HandleOps(handle);
    BodyKinds(flags, appName, engineName, apiVersion);
    HandleDecodes(handle);
    EncodeConcat(body, tail);
    StreamRoundTrip(body, Encode(tail));
  }

  lemma BodyKinds(flags: u32, appName: seq<byte>, engineName: seq<byte>, apiVersion: u64)
    requires ShortNames(appName, engineName)
    ensures var body := InstanceBody(flags, appName, engineName, apiVersion);
      && AllEncodable(body) && |body| == 19
      && Kinds(body) == [K32, K32, K64, K32, K64, K32, K64, K32, K64, KText, K32, KText,
                         K32, K32, K32, K64, K32, K64, K64]
      && body == InstanceLayout(flags, appName, engineName, Low32(apiVersion))
  {
  }

  lemma HandleDecodes(handle: u64)
    ensures AllEncodable(HandleOps(handle))
    ensures var present := Take(Encode(HandleOps(handle)), K64);
      if handle == 0 then present == Some((W64(0), []))
      else present.Some? && present.value.0 == W64(1) && Take(present.value.1, K64) == Some((W64(handle), []))
  {
    hide Chunk, Take;
    assert Encode([W64(handle)]) == Chunk(W64(handle)) + [];
    TakeChunk(W64(handle), []);
    if handle != 0 {
      assert HandleOps(handle)[1..] == [W64(handle)];
      TakeChunk(W64(1), Encode([W64(handle)]));
    }
  }

  function SetReplyOps(resourceID: u32, offset: u64, size: u64): (ops: seq<Op>) {
    [W32(CMD_SET_REPLY), W32(0), W64(1), W32(resourceID), W64(offset), W64(size)]
  }

  const SET_REPLY_BYTES: nat := 36

  function SetReplyStream(resourceID: u32, offset: u64, size: u64): (b: seq<byte>)
    ensures |b| == SET_REPLY_BYTES
    ensures Decode(b, [K32, K32, K64, K32, K64, K64]) ==
            Some(([W32(178), W32(0), W64(1), W32(resourceID), W64(offset), W64(size)], []))
  {
    var ops := SetReplyOps(resourceID, offset, size);
    StreamRoundTrip(ops, []);
    assert Kinds(ops) == [K32, K32, K64, K32, K64, K64];
    assert Encode(ops) + [] == Encode(ops);
    SetReplyLength(resourceID, offset, size);
    Encode(ops)
  }

  lemma SetReplyLength(resourceID: u32, offset: u64, size: u64)
    ensures |Encode(SetReplyOps(resourceID, offset, size))| == 36
  {
    var ops := SetReplyOps(resourceID, offset, size);
    EncodeConcat(ops[..3], ops[3..]);
    assert ops == ops[..3] + ops[3..];
    assert Encode(ops[..3][2..]) == Chunk(W64(1)) + Encode(ops[..3][2..][1..]);
    assert Encode(ops[3..][2..]) == Chunk(W64(size)) + Encode(ops[3..][2..][1..]);
  }

  method EncodeSetReply(resourceID: u32, offset: u64, size: u64) returns (b: seq<byte>)
    ensures b == SetReplyStream(resourceID, offset, size)
  {
    hide Encode, AllEncodable, Builder.Valid;
    var e := new Builder();
    e.U32(CMD_SET_REPLY);
    e.U32(0);
    var present := e.SimplePointer(true);
    if present {
      e.U32(resourceID);
      e.U64(offset);
      e.U64(size);
    }
    assert e.ops == SetReplyOps(resourceID, offset, size);
    b := e.Finish();
  }

  /** The create-ring stream carries every field of the create info to the host. */
  function CreateRingOps(ring: u64, i: RingCreateInfo): (ops: seq<Op>) {
    [W32(CMD_CREATE_RING), W32(0), W64(ring), W64(1), W32(STY_RING_CREATE_INFO), W64(0)] + RingInfoOps(i)
  }

  function RingInfoOps(i: RingCreateInfo): (ops: seq<Op>) {
    [W32(i.flags), W32(i.resourceID), W64(i.offset), W64(i.size), W64(i.idleTimeout),
     W64(i.headOffset), W64(i.tailOffset), W64(i.statusOffset),
     W64(i.bufferOffset), W64(i.bufferSize), W64(i.extraOffset), W64(i.extraSize)]
  }

  function DecodeCreateRing(s: seq<byte>): (r: Option<(u64, RingCreateInfo)>) {
    var (o, rest) :- Decode(s, [K32, K32, K64, K64, K32, K64, K32, K32,
                                K64, K64, K64, K64, K64, K64, K64, K64, K64, K64]);
    if |o| != 18 || o[0] != W32(188) || o[1] != W32(0) || o[3] != W64(1) || o[4] != W32(1000384000) || o[5] != W64(0)
       || !o[2].W64? || !o[6].W32? || !o[7].W32?
       || (exists k :: 8 <= k < 18 && !o[k].W64?) then None
    else Some((o[2].q, RingCreateInfo(o[6].v, o[7].v, o[8].q, o[9].q, o[10].q, o[11].q,
                                      o[12].q, o[13].q, o[14].q, o[15].q, o[16].q, o[17].q)))
  }

  /** The documented field order of vkCreateRingMESA. */
  lemma CreateRingLayout(ring: u64, i: RingCreateInfo)
    ensures CreateRingOps(ring, i) == 
      [W32(188), W32(0), W64(ring), W64(1), W32(1000384000), W64(0),
       W32(i.flags), W32(i.resourceID), W64(i.offset), W64(i.size), W64(i.idleTimeout),
       W64(i.headOffset), W64(i.tailOffset), W64(i.statusOffset),
       W64(i.bufferOffset), W64(i.bufferSize), W64(i.extraOffset), W64(i.extraSize)]
  {
  }

  lemma CreateRingDecodes(ring: u64, i: RingCreateInfo)
    ensures AllEncodable(CreateRingOps(ring, i))
    ensures DecodeCreateRing(Encode(CreateRingOps(ring, i))) == Some((ring, i))
  {
    hide Encode, Decode;
    var ops := CreateRingOps(ring, i);
    StreamRoundTrip(ops, []);
    assert Encode(ops) + [] == Encode(ops);
    assert Kinds(ops) == [K32, K32, K64, K64, K32, K64, K32, K32, K64, K64, K64, K64, K64, K64, K64, K64, K64, K64];
  }

  method AppendRingInfo(e: Builder, i: RingCreateInfo)
    requires e.Valid()
    modifies e
    ensures e.Valid() && e.ops == old(e.ops) + RingInfoOps(i)
  {
    hide Encode, AllEncodable, Builder.Valid;
    e.U32(i.flags);
    e.U32(i.resourceID);
    e.U64(i.offset);
    e.U64(i.size);
    e.U64(i.idleTimeout);
    assert e.ops == old(e.ops) + RingInfoOps(i)[..5];
    e.U64(i.headOffset);
    e.U64(i.tailOffset);
    e.U64(i.statusOffset);
    e.U64(i.bufferOffset);
    assert e.ops == old(e.ops) + RingInfoOps(i)[..9];
    e.U64(i.bufferSize);
    e.U64(i.extraOffset);
    e.U64(i.extraSize);
  }

  method EncodeCreateRing(ring: u64, i: RingCreateInfo) returns (b: seq<byte>)
    ensures |b| % 4 == 0
    ensures DecodeCreateRing(b) == Some((ring, i))
    ensures var ops := [W32(188), W32(0), W64(ring), W64(1), W32(1000384000), W64(0),
                        W32(i.flags), W32(i.resourceID), W64(i.offset), W64(i.size), W64(i.idleTimeout),
                        W64(i.headOffset), W64(i.tailOffset), W64(i.statusOffset),
                        W64(i.bufferOffset), W64(i.bufferSize), W64(i.extraOffset), W64(i.extraSize)];
      AllEncodable(ops) && b == Encode(ops)
  {
    hide Encode, DecodeCreateRing, AllEncodable, Builder.Valid;
    var e := new Builder();
    e.U32(CMD_CREATE_RING);
    e.U32(0);
    e.U64(ring);
    var present := e.SimplePointer(true);
    if present {
      e.U32(STY_RING_CREATE_INFO);
      var next := e.SimplePointer(false);
      AppendRingInfo(e, i);
    }
    assert e.ops == CreateRingOps(ring, i);
    CreateRingDecodes(ring, i);
    CreateRingLayout(ring, i);
    b := e.Finish();
  }
}
