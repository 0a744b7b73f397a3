/** The vtest request stream: how the client frames each request and how a server that follows the
    documented layouts reads it back. The length field of the header counts payload dwords, except
    for CREATE_RENDERER, where it counts bytes; TRANSFER_PUT data is delimited by its own DataSize. */
module Wire {
  import opened Bytes

  const HDR_BYTES: nat := 8
  const RES_CREATE_SIZE: nat := 10
  const TRANSFER_HDR_SIZE: nat := 11
  const BLOB_SIZE: nat := 6

  const TRANSFER_GET: u32 := 4
  const TRANSFER_PUT: u32 := 5
  const SUBMIT_CMD: u32 := 6
  const CREATE_RENDERER: u32 := 8
  const RESOURCE_CREATE: u32 := 2
  const PING: u32 := 10
  const PROTOCOL_VERSION: u32 := 11
  const GET_PARAM: u32 := 15
  const GET_CAPSET: u32 := 16
  const CONTEXT_INIT: u32 := 17
  const RESOURCE_CREATE_BLOB: u32 := 18
  const SUBMIT_CMD2: u32 := 24

  datatype ResourceArgs = ResourceArgs(handle: u32, target: u32, format: u32, bind: u32, width: u32, height: u32,
                                       depth: u32, arraySize: u32, lastLevel: u32, nrSamples: u32)

  datatype TransferArgs = TransferArgs(handle: u32, level: u32, stride: u32, layerStride: u32, x: u32, y: u32, z: u32,
                                       width: u32, height: u32, depth: u32, dataSize: u32)

  datatype Sync = Sync(id: u32, value: u64)

  datatype Batch = Batch(flags: u32, ringIdx: u32, syncs: seq<Sync>, data: seq<byte>)

  datatype Request =
    | Ping
    | ProtocolVersion(version: u32)
    | CreateRenderer(name: seq<byte>)
    | ResourceCreate(res: ResourceArgs)
    | SubmitCmd(buf: seq<byte>)
    | TransferGet(get: TransferArgs)
    | TransferPut(put: TransferArgs, data: seq<byte>)
    | GetParam(param: u32)
    | GetCapset(id: u32, capVersion: u32)
    | ContextInit(capset: u32)
    | ResourceCreateBlob(blobType: u32, flags: u32, size: u64, blobID: u64)
    | SubmitCmd2(batch: Batch)

  // ---- encoding -------------------------------------------------------------------

  function Header(length: u32, id: u32): (b: seq<byte>)
    ensures |b| == HDR_BYTES
  {
    Le32(length) + Le32(id)
  }

  function ResourceDwords(a: ResourceArgs): (ds: seq<u32>) {
    [a.handle, a.target, a.format, a.bind, a.width, a.height, a.depth, a.arraySize, a.lastLevel, a.nrSamples]
  }

  function TransferDwords(a: TransferArgs): (ds: seq<u32>) {
    [a.handle, a.level, a.stride, a.layerStride, a.x, a.y, a.z, a.width, a.height, a.depth, a.dataSize]
  }

  function Halves(v: u64): (ds: seq<u32>) {
    [Low32(v), v / TWO32]
  }

  /** A command whose payload is a fixed number of dwords. */
  function Fixed(id: u32, ds: seq<u32>): (b: seq<byte>)
    requires |ds| < TWO32
  {
    Header(|ds|, id) + EncodeDwords(ds)
  }

  function SyncBytes(syncs: seq<Sync>): (b: seq<byte>)
    ensures |b| == 12 * |syncs|
  {
    if syncs == [] then []
    else SyncBytes(syncs[..|syncs| - 1]) + (Le32(syncs[|syncs| - 1].id) + Le64(syncs[|syncs| - 1].value))
  }

  const BATCH_HEADER: nat := 9 // batch_count and one batch, in dwords

  function BatchPayload(b: Batch): (p: seq<byte>)
    ensures |p| == 4 * BATCH_HEADER + |b.data| + 12 * |b.syncs|
  {
    var cmdDwords := Low32(|b.data| / 4);
    EncodeDwords([1, b.flags, BATCH_HEADER, cmdDwords, Low32(BATCH_HEADER + cmdDwords as int), Low32(|b.syncs|),
                  b.ringIdx, 0, 0])
    + b.data + SyncBytes(b.syncs)
  }

  function BatchLength(b: Batch): (n: nat) {
    BATCH_HEADER + |b.data| / 4 + 3 * |b.syncs|
  }

  /** The bytes of a request, or None where the encoder refuses it. */
  function Encode(r: Request): (b: Option<seq<byte>>) {
    match r
    case Ping => Some(Fixed(PING, []))
    case ProtocolVersion(v) => Some(Fixed(PROTOCOL_VERSION, [v]))
    case CreateRenderer(name) => Some(Header(Low32(|name|), CREATE_RENDERER) + name)
    case ResourceCreate(a) => Some(Fixed(RESOURCE_CREATE, ResourceDwords(a)))
    case SubmitCmd(buf) => if |buf| % 4 != 0 then None else Some(Header(Low32(|buf| / 4), SUBMIT_CMD) + buf)
    case TransferGet(a) => Some(Fixed(TRANSFER_GET, TransferDwords(a)))
    case TransferPut(a, data) =>
      Some(Header(Low32(TRANSFER_HDR_SIZE + Low32(|data|) as int / 4), TRANSFER_PUT)
           + EncodeDwords(TransferDwords(a)) + data)
    case GetParam(p) => Some(Fixed(GET_PARAM, [p]))
    case GetCapset(id, v) => Some(Fixed(GET_CAPSET, [id, v]))
    case ContextInit(c) => Some(Fixed(CONTEXT_INIT, [c]))
    case ResourceCreateBlob(t, f, size, id) => Some(Fixed(RESOURCE_CREATE_BLOB, [t, f] + Halves(size) + Halves(id)))
    case SubmitCmd2(b) =>
      if |b.data| % 4 != 0 then None else Some(Header(Low32(BatchLength(b)), SUBMIT_CMD2) + BatchPayload(b))
  }

  // ---- the server's reader ----------------------------------------------------------

  function DecodeSyncs(s: seq<byte>, n: nat): (syncs: seq<Sync>)
    requires |s| >= 12 * n
    ensures |syncs| == n
  {
    if n == 0 then [] else DecodeSyncs(s, n - 1) + [Sync(U32At(s, 12 * (n - 1)), U64At(s, 12 * (n - 1) + 4))]
  }

  /** Read one batch by following the offsets in its header and nothing else. */
  function DecodeBatch(p: seq<byte>): (b: Option<Batch>) {
    if |p| < 4 * BATCH_HEADER || U32At(p, 0) != 1 then None
    else
      var (cmdOffset, cmdSize) := (U32At(p, 8) as int, U32At(p, 12) as int);
      var (syncOffset, syncCount) := (U32At(p, 16) as int, U32At(p, 20) as int);
      if 4 * (cmdOffset + cmdSize) > |p| || 4 * (syncOffset + 3 * syncCount) > |p| then None
      else Some(Batch(U32At(p, 4), U32At(p, 24), DecodeSyncs(p[4 * syncOffset..], syncCount),
                      p[4 * cmdOffset..4 * (cmdOffset + cmdSize)]))
  }

  function FixedSize(id: u32): (n: Option<nat>) {
    if id == PING then Some(0)
    else if id == PROTOCOL_VERSION || id == GET_PARAM || id == CONTEXT_INIT then Some(1)
    else if id == GET_CAPSET then Some(2)
    else if id == RESOURCE_CREATE_BLOB then Some(BLOB_SIZE)
    else if id == RESOURCE_CREATE then Some(RES_CREATE_SIZE)
    else if id == TRANSFER_GET then Some(TRANSFER_HDR_SIZE)
    else None
  }

  function ToTransfer(d: seq<u32>): (a: TransferArgs)
    requires |d| == TRANSFER_HDR_SIZE
  {
    TransferArgs(d[0], d[1], d[2], d[3], d[4], d[5], d[6], d[7], d[8], d[9], d[10])
  }

  function Join(lo: u32, hi: u32): (v: u64) {
    lo as int + TWO32 * hi as int
  }

  /** The request a fixed-size payload stands for. */
  function FromDwords(id: u32, d: seq<u32>): (r: Option<Request>)
    requires FixedSize(id) == Some(|d|)
  {
    if id == PING then Some(Ping)
    else if id == PROTOCOL_VERSION then Some(ProtocolVersion(d[0]))
    else if id == GET_PARAM then Some(GetParam(d[0]))
    else if id == CONTEXT_INIT then Some(ContextInit(d[0]))
    else if id == GET_CAPSET then Some(GetCapset(d[0], d[1]))
    else if id == RESOURCE_CREATE_BLOB then Some(ResourceCreateBlob(d[0], d[1], Join(d[2], d[3]), Join(d[4], d[5])))
    else if id == RESOURCE_CREATE then
      Some(ResourceCreate(ResourceArgs(d[0], d[1], d[2], d[3], d[4], d[5], d[6], d[7], d[8], d[9])))
    else Some(TransferGet(ToTransfer(d)))
  }

  /** One request off the front of the stream. */
  function Parse(s: seq<byte>): (r: Option<(Request, seq<byte>)>)
    ensures r.Some? ==> |r.value.1| < |s|
  {
    if |s| < HDR_BYTES then None
    else ParseBody(U32At(s, 0), U32At(s, 4), s[HDR_BYTES..])
  }

  function ParseBody(length: u32, id: u32, body: seq<byte>): (r: Option<(Request, seq<byte>)>)
    ensures r.Some? ==> |r.value.1| <= |body|
  {
    if FixedSize(id).Some? then
      var n := FixedSize(id).value;
      if length != n || |body| < 4 * n then None
      else var r :- FromDwords(id, DecodeDwords(body, n)); Some((r, body[4 * n..]))
    else if id == CREATE_RENDERER then
      if |body| < length as int then None else Some((CreateRenderer(body[..length]), body[length..]))
    else if id == SUBMIT_CMD then
      var n := 4 * length as int;
      if |body| < n then None else Some((SubmitCmd(body[..n]), body[n..]))
    else if id == TRANSFER_PUT then
      if |body| < 4 * TRANSFER_HDR_SIZE then None
      else
        var a := ToTransfer(DecodeDwords(body, TRANSFER_HDR_SIZE));
        var (n, rest) := (a.dataSize as int, body[4 * TRANSFER_HDR_SIZE..]);
        if length as int != TRANSFER_HDR_SIZE + n / 4 || |rest| < n then None
        else Some((TransferPut(a, rest[..n]), rest[n..]))
    else if id == SUBMIT_CMD2 then
      var n := 4 * length as int;
      if |body| < n then None
      else var b :- DecodeBatch(body[..n]); Some((SubmitCmd2(b), body[n..]))
    else None
  }

  // ---- one frame --------------------------------------------------------------------

  /** What a caller must respect; everything else about a request is free. */
  predicate WellFormed(r: Request) {
    match r
    case CreateRenderer(name) => |name| < TWO32
    case SubmitCmd(buf) => |buf| % 4 == 0 && |buf| / 4 < TWO32
    case TransferPut(a, data) => a.dataSize == |data|
    case SubmitCmd2(b) => |b.data| % 4 == 0 && BatchLength(b) < TWO32
    case _ => true
  }

  lemma ParseHeader(length: u32, id: u32, body: seq<byte>)
    ensures Parse(Header(length, id) + body) == ParseBody(length, id, body)
  {
    hide Le32, U32At, ParseBody;
    var s := Header(length, id) + body;
    assert s[0..4] == Le32(length) && s[4..8] == Le32(id) && s[8..] == body;
    Le32At(s, 0, length);
    Le32At(s, 4, id);
  }

  lemma ParseFixed(id: u32, ds: seq<u32>, rest: seq<byte>)
    requires FixedSize(id) == Some(|ds|)
    ensures Parse(Fixed(id, ds) + rest) == Some((FromDwords(id, ds).value, rest))
  {
    hide EncodeDwords, DecodeDwords, Header;
    ParseHeader(|ds|, id, EncodeDwords(ds) + rest);
    assert Fixed(id, ds) + rest == Header(|ds|, id) + (EncodeDwords(ds) + rest);
    DwordsRoundTrip(ds, rest);
    assert (EncodeDwords(ds) + rest)[4 * |ds|..] == rest;
  }

  lemma {:induction false} SyncsRoundTrip(syncs: seq<Sync>, rest: seq<byte>)
    ensures DecodeSyncs(SyncBytes(syncs) + rest, |syncs|) == syncs
  {
    hide Le32, Le64, U32At, U64At;
    if syncs != [] {
      var n := |syncs| - 1;
      var tail := Le32(syncs[n].id) + Le64(syncs[n].value) + rest;
      assert SyncBytes(syncs) + rest == SyncBytes(syncs[..n]) + tail;
      SyncsRoundTrip(syncs[..n], tail);
      SyncAt(SyncBytes(syncs[..n]), syncs[n], rest);
    }
  }

  lemma SyncAt(front: seq<byte>, last: Sync, rest: seq<byte>)
    ensures var s := front + (Le32(last.id) + Le64(last.value) + rest);
      U32At(s, |front|) == last.id && U64At(s, |front| + 4) == last.value
  {
    hide Le32, Le64, U32At, U64At;
    var o, s := |front|, front + (Le32(last.id) + Le64(last.value) + rest);
    assert s[o..o + 4] == Le32(last.id);
    assert s[o + 4..o + 12] == Le64(last.value);
    Le32At(s, o, last.id);
    Le64At(s, o + 4, last.value);
  }

  lemma DwordOf(ds: seq<u32>, rest: seq<byte>, i: nat)
    requires i < |ds|
    ensures U32At(EncodeDwords(ds) + rest, 4 * i) == ds[i]
  {
    hide U32At, EncodeDwords, DecodeDwords;
    DwordsRoundTrip(ds, rest);
    DwordAt(EncodeDwords(ds) + rest, |ds|, i);
  }

  /** The emitted offsets: header, command stream and syncs are disjoint and tile the payload. */
  lemma BatchTiles(b: Batch)
    requires WellFormed(SubmitCmd2(b))
    ensures var p := BatchPayload(b);
      && U32At(p, 0) == 1 && U32At(p, 4) == b.flags && U32At(p, 24) == b.ringIdx
      && U32At(p, 8) == BATCH_HEADER && 4 * U32At(p, 12) as int == |b.data|
      && U32At(p, 16) as int == U32At(p, 8) as int + U32At(p, 12) as int && U32At(p, 20) == |b.syncs|
      && 4 * (U32At(p, 16) as int + 3 * U32At(p, 20) as int) == |p| == 4 * BatchLength(b)
      && p[4 * BATCH_HEADER..4 * BATCH_HEADER + |b.data|] == b.data
      && p[4 * BATCH_HEADER + |b.data|..] == SyncBytes(b.syncs)
  {
    hide U32At, EncodeDwords, SyncBytes;
    var d := |b.data| / 4;
    var h: seq<u32> := [1, b.flags, BATCH_HEADER, d, BATCH_HEADER + d, |b.syncs|, b.ringIdx, 0, 0];
    var rest := b.data + SyncBytes(b.syncs);
    assert BatchPayload(b) == EncodeDwords(h) + rest;
    DwordOf(h, rest, 0);
    DwordOf(h, rest, 1);
    DwordOf(h, rest, 2);
    DwordOf(h, rest, 3);
    DwordOf(h, rest, 4);
    DwordOf(h, rest, 5);
    DwordOf(h, rest, 6);
  }

  lemma BatchRoundTrip(b: Batch)
    requires WellFormed(SubmitCmd2(b))
    ensures DecodeBatch(BatchPayload(b)) == Some(b)
  {
    hide U32At, EncodeDwords, SyncBytes, DecodeSyncs, BatchPayload;
    BatchTiles(b);
    SyncsRoundTrip(b.syncs, []);
    assert SyncBytes(b.syncs) + [] == SyncBytes(b.syncs);
  }

  lemma PutRoundTrip(a: TransferArgs, data: seq<byte>, rest: seq<byte>)
    ensures var s := Encode(TransferPut(a, data)).value + rest;
      Parse(s) == Some((TransferPut(a, data), rest)) <==> a.dataSize == |data|
  {
    hide EncodeDwords, DecodeDwords, Header;
    var ds, more := TransferDwords(a), data + rest;
    var length := Low32(TRANSFER_HDR_SIZE + Low32(|data|) as int / 4);
    var body := EncodeDwords(ds) + more;
    assert Encode(TransferPut(a, data)).value + rest == Header(length, TRANSFER_PUT) + body;
    ParseHeader(length, TRANSFER_PUT, body);
    DwordsRoundTrip(ds, more);
    assert ToTransfer(ds) == a;
    assert body[4 * TRANSFER_HDR_SIZE..] == more;
    if a.dataSize == |data| {
      assert more[..|data|] == data && more[|data|..] == rest;
    }
  }

  lemma ParseName(length: u32, body: seq<byte>)
    ensures ParseBody(length, CREATE_RENDERER, body) ==
      if |body| < length as int then None else Some((CreateRenderer(body[..length]), body[length..]))
  {
    hide DecodeDwords, FromDwords, ToTransfer, DecodeBatch;
  }

  lemma ParseCmd(length: u32, body: seq<byte>)
    ensures ParseBody(length, SUBMIT_CMD, body) ==
      if |body| < 4 * length as int then None
      else Some((SubmitCmd(body[..4 * length as int]), body[4 * length as int..]))
  {
    hide DecodeDwords, FromDwords, ToTransfer, DecodeBatch;
  }

  lemma ParseCmd2(length: u32, body: seq<byte>)
    ensures ParseBody(length, SUBMIT_CMD2, body) ==
      if |body| < 4 * length as int then None
      else match DecodeBatch(body[..4 * length as int])
        case None => None
        case Some(b) => Some((SubmitCmd2(b), body[4 * length as int..]))
  {
    hide DecodeDwords, FromDwords, ToTransfer, DecodeBatch;
  }

  lemma SplitAt(a: seq<byte>, b: seq<byte>, n: nat)
    requires n <= |a + b|
    ensures (a + b)[..n] == a && (a + b)[n..] == b <==> n == |a|
  {
    if n == |a| {
      assert (a + b)[..n] == a && (a + b)[n..] == b;
    }
  }

  lemma NameRoundTrip(name: seq<byte>, rest: seq<byte>)
    ensures Parse(Encode(CreateRenderer(name)).value + rest) == Some((CreateRenderer(name), rest)) <==> |name| < TWO32
  {
    hide Header, Parse, ParseBody;
    var n, body := Low32(|name|), name + rest;
    ParseHeader(n, CREATE_RENDERER, body);
    ParseName(n, body);
    assert Encode(CreateRenderer(name)).value + rest == Header(n, CREATE_RENDERER) + body;
    SplitAt(name, rest, n);
  }

  lemma CmdRoundTrip(buf: seq<byte>, rest: seq<byte>)
    requires |buf| % 4 == 0
    ensures Parse(Encode(SubmitCmd(buf)).value + rest) == Some((SubmitCmd(buf), rest)) <==> |buf| / 4 < TWO32
  {
    hide Header, Parse, ParseBody;
    var n, body := Low32(|buf| / 4), buf + rest;
    ParseHeader(n, SUBMIT_CMD, body);
    ParseCmd(n, body);
    assert Encode(SubmitCmd(buf)).value + rest == Header(n, SUBMIT_CMD) + body;
    SplitAt(buf, rest, 4 * n as int);
  }

  lemma Cmd2RoundTrip(b: Batch, rest: seq<byte>)
    requires |b.data| % 4 == 0
    ensures Parse(Encode(SubmitCmd2(b)).value + rest) == Some((SubmitCmd2(b), rest)) <==> BatchLength(b) < TWO32
  {
    hide Header, Parse, ParseBody, DecodeBatch, BatchPayload;
    var n, p := BatchLength(b), BatchPayload(b);
    var body := p + rest;
    ParseCmd2(Low32(n), body);
    ParseHeader(Low32(n), SUBMIT_CMD2, body);
    assert Encode(SubmitCmd2(b)).value + rest == Header(Low32(n), SUBMIT_CMD2) + body;
    if n < TWO32 {
      BatchRoundTrip(b);
      assert body[..4 * n] == p && body[4 * n..] == rest;
    }
  }

  /** A frame reads back as itself, leaving exactly what follows it, if and only if the request is well formed. */
  lemma FrameExact(r: Request, rest: seq<byte>)
    ensures Encode(r).Some? && Parse(Encode(r).value + rest) == Some((r, rest)) <==> WellFormed(r)
  {
    hide Parse, Fixed, EncodeDwords, Header, BatchPayload;
    match r {
      case Ping => ParseFixed(PING, [], rest);
      case ProtocolVersion(v) => ParseFixed(PROTOCOL_VERSION, [v], rest);
      case ResourceCreate(a) => ParseFixed(RESOURCE_CREATE, ResourceDwords(a), rest);
      case TransferGet(a) => ParseFixed(TRANSFER_GET, TransferDwords(a), rest);
      case GetParam(p) => ParseFixed(GET_PARAM, [p], rest);
      case GetCapset(id, v) => ParseFixed(GET_CAPSET, [id, v], rest);
      case ContextInit(c) => ParseFixed(CONTEXT_INIT, [c], rest);
      case ResourceCreateBlob(t, f, size, id) =>
        ParseFixed(RESOURCE_CREATE_BLOB, [t, f] + Halves(size) + Halves(id), rest);
      case TransferPut(a, data) => PutRoundTrip(a, data, rest);
      case CreateRenderer(name) => NameRoundTrip(name, rest);
      case SubmitCmd(buf) => if |buf| % 4 == 0 { CmdRoundTrip(buf, rest); }
      case SubmitCmd2(b) => if |b.data| % 4 == 0 { Cmd2RoundTrip(b, rest); }
    }
  }

  // ---- the documented bytes ------------------------------------------------------------

  /** The word at offset o, least significant byte first. */
  predicate WordAt(s: seq<byte>, o: nat, v: int) {
    o + 4 <= |s| && v == s[o] as int + 256 * s[o + 1] as int + 65536 * s[o + 2] as int + 16777216 * s[o + 3] as int
  }

  /** A frame: the length word, the command id, the fields as words one after the other, then raw bytes. */
  ghost predicate IsFrame(s: seq<byte>, length: int, id: int, fields: seq<u32>, tail: seq<byte>) {
    && |s| == 8 + 4 * |fields| + |tail|
    && WordAt(s, 0, length) && WordAt(s, 4, id)
    && (forall k :: 0 <= k < |fields| ==> WordAt(s, 8 + 4 * k, fields[k]))
    && s[8 + 4 * |fields|..] == tail
  }

  lemma FrameIs(length: u32, id: u32, fields: seq<u32>, tail: seq<byte>)
    ensures IsFrame(Header(length, id) + EncodeDwords(fields) + tail, length, id, fields, tail)
  {
    hide Le32, U32At, EncodeDwords;
    var body := EncodeDwords(fields) + tail;
    var s := Header(length, id) + EncodeDwords(fields) + tail;
    assert s == Header(length, id) + body;
    assert s[0..4] == Le32(length) && s[4..8] == Le32(id);
    Le32At(s, 0, length);
    Le32At(s, 4, id);
    WordIs(s, 0);
    WordIs(s, 4);
    forall k | 0 <= k < |fields| ensures WordAt(s, 8 + 4 * k, fields[k]) {
      DwordOf(fields, tail, k);
      assert s[8..] == body;
      ShiftedWord(s, 8, 4 * k);
      WordIs(s, 8 + 4 * k);
    }
  }

  lemma WordIs(s: seq<byte>, o: nat)
    requires o + 4 <= |s|
    ensures WordAt(s, o, U32At(s, o))
  {
  }

  lemma ShiftedWord(s: seq<byte>, n: nat, o: nat)
    requires n + o + 4 <= |s|
    ensures U32At(s[n..], o) == U32At(s, n + o)
  {
  }

  /** Every request's frame, byte for byte as documented: command ids, lengths in dwords (in bytes for
      CREATE_RENDERER) modulo 2^32, and every field in its place. Only data that is not a whole number of
      dwords is refused. */
  lemma FrameBytes(r: Request)
    ensures Encode(r).None? <==> (r.SubmitCmd? && |r.buf| % 4 != 0) || (r.SubmitCmd2? && |r.batch.data| % 4 != 0)
    ensures Encode(r).Some? ==> var s := Encode(r).value;
      match r
      case Ping => IsFrame(s, 0, 10, [], [])
      case ProtocolVersion(v) => IsFrame(s, 1, 11, [v], [])
      case CreateRenderer(name) => IsFrame(s, |name| % 0x1_0000_0000, 8, [], name)
      case ResourceCreate(a) =>
        IsFrame(s, 10, 2, [a.handle, a.target, a.format, a.bind, a.width, a.height, a.depth, a.arraySize,
                           a.lastLevel, a.nrSamples], [])
      case SubmitCmd(buf) => IsFrame(s, |buf| / 4 % 0x1_0000_0000, 6, [], buf)
      case TransferGet(a) =>
        IsFrame(s, 11, 4, [a.handle, a.level, a.stride, a.layerStride, a.x, a.y, a.z, a.width, a.height, a.depth,
                           a.dataSize], [])
      case TransferPut(a, data) =>
        IsFrame(s, 11 + |data| % 0x1_0000_0000 / 4, 5,
                [a.handle, a.level, a.stride, a.layerStride, a.x, a.y, a.z, a.width, a.height, a.depth, a.dataSize],
                data)
      case GetParam(p) => IsFrame(s, 1, 15, [p], [])
      case GetCapset(id, v) => IsFrame(s, 2, 16, [id, v], [])
      case ContextInit(c) => IsFrame(s, 1, 17, [c], [])
      case ResourceCreateBlob(t, f, size, id) =>
        IsFrame(s, 6, 18, [t, f, size % 0x1_0000_0000, size / 0x1_0000_0000,
                           id % 0x1_0000_0000, id / 0x1_0000_0000], [])
      case SubmitCmd2(b) =>
        var d := |b.data| / 4;
        IsFrame(s, (9 + d + 3 * |b.syncs|) % 0x1_0000_0000, 24,
                [1, b.flags, 9, d % 0x1_0000_0000, (9 + d) % 0x1_0000_0000, |b.syncs| % 0x1_0000_0000, b.ringIdx, 0, 0],
                b.data + SyncBytes(b.syncs))
  {
    hide IsFrame, EncodeDwords, Header, SyncBytes;
    match r {
      case Ping => FixedFrame(PING, []);
      case ProtocolVersion(v) => FixedFrame(PROTOCOL_VERSION, [v]);
      case CreateRenderer(name) => FrameIs(Low32(|name|), CREATE_RENDERER, [], name); NoFields();
        assert Header(Low32(|name|), CREATE_RENDERER) + [] == Header(Low32(|name|), CREATE_RENDERER);
      case ResourceCreate(a) => FixedFrame(RESOURCE_CREATE, ResourceDwords(a));
      case SubmitCmd(buf) => FrameIs(Low32(|buf| / 4), SUBMIT_CMD, [], buf); NoFields();
        assert Header(Low32(|buf| / 4), SUBMIT_CMD) + [] == Header(Low32(|buf| / 4), SUBMIT_CMD);
      case TransferGet(a) => FixedFrame(TRANSFER_GET, TransferDwords(a));
      case TransferPut(a, data) =>
        FrameIs(Low32(TRANSFER_HDR_SIZE + Low32(|data|) as int / 4), TRANSFER_PUT, TransferDwords(a), data);
      case GetParam(p) => FixedFrame(GET_PARAM, [p]);
      case GetCapset(id, v) => FixedFrame(GET_CAPSET, [id, v]);
      case ContextInit(c) => FixedFrame(CONTEXT_INIT, [c]);
      case ResourceCreateBlob(t, f, size, id) => FixedFrame(RESOURCE_CREATE_BLOB, [t, f] + Halves(size) + Halves(id));
        assert [t, f] + Halves(size) + Halves(id) ==
               [t, f, size % 0x1_0000_0000, size / 0x1_0000_0000, id % 0x1_0000_0000, id / 0x1_0000_0000];
      case SubmitCmd2(b) => if |b.data| % 4 == 0 { Cmd2Frame(b); }
    }
  }

  lemma NoFields()
    ensures EncodeDwords([]) == []
  {
  }

  lemma FixedFrame(id: u32, ds: seq<u32>)
    requires |ds| < TWO32
    ensures IsFrame(Fixed(id, ds), |ds|, id, ds, [])
  {
    hide IsFrame, EncodeDwords, Header;
    FrameIs(|ds|, id, ds, []);
    assert Header(|ds|, id) + EncodeDwords(ds) + [] == Fixed(id, ds);
  }

  lemma PayloadParts(b: Batch, fields: seq<u32>)
    requires var d := |b.data| / 4;
      fields == [1, b.flags, 9, d % 0x1_0000_0000, (9 + d) % 0x1_0000_0000, |b.syncs| % 0x1_0000_0000, b.ringIdx, 0, 0]
    ensures BatchPayload(b) == EncodeDwords(fields) + (b.data + SyncBytes(b.syncs))
  {
    hide EncodeDwords, SyncBytes;
    var cmdDwords := Low32(|b.data| / 4);
    assert fields == [1, b.flags, BATCH_HEADER, cmdDwords, Low32(BATCH_HEADER + cmdDwords as int), Low32(|b.syncs|),
                      b.ringIdx, 0, 0];
  }

  lemma Cmd2Frame(b: Batch)
    requires |b.data| % 4 == 0
    ensures var d := |b.data| / 4;
      IsFrame(Encode(SubmitCmd2(b)).value, (9 + d + 3 * |b.syncs|) % 0x1_0000_0000, 24,
              [1, b.flags, 9, d % 0x1_0000_0000, (9 + d) % 0x1_0000_0000, |b.syncs| % 0x1_0000_0000, b.ringIdx, 0, 0],
              b.data + SyncBytes(b.syncs))
  {
    hide IsFrame, EncodeDwords, Header, SyncBytes;
    var d := |b.data| / 4;
    var length: u32 := (9 + d + 3 * |b.syncs|) % 0x1_0000_0000;
    var fields: seq<u32> :=
      [1, b.flags, 9, d % 0x1_0000_0000, (9 + d) % 0x1_0000_0000, |b.syncs| % 0x1_0000_0000, b.ringIdx, 0, 0];
    var tail := b.data + SyncBytes(b.syncs);
    FrameIs(length, SUBMIT_CMD2, fields, tail);
    PayloadParts(b, fields);
    hide BatchPayload;
    assert Encode(SubmitCmd2(b)).value == Header(length, SUBMIT_CMD2) + EncodeDwords(fields) + tail;
  }

  lemma WordKept(s: seq<byte>, rest: seq<byte>, o: nat, v: int)
    requires WordAt(s, o, v)
    ensures WordAt(s + rest, o, v)
  {
  }

  /** The syncs behind a batch: id, then the low and the high word of the value, 12 bytes each. */
  lemma {:induction false} SyncWords(syncs: seq<Sync>, i: nat)
    requires i < |syncs|
    ensures var s := SyncBytes(syncs);
      && WordAt(s, 12 * i, syncs[i].id)
      && WordAt(s, 12 * i + 4, syncs[i].value % 0x1_0000_0000) && WordAt(s, 12 * i + 8, syncs[i].value / 0x1_0000_0000)
  {
    hide Le32, U32At, WordAt;
    var n := |syncs| - 1;
    var front, last := SyncBytes(syncs[..n]), syncs[n];
    var s := SyncBytes(syncs);
    if i < n {
      SyncWords(syncs[..n], i);
      var rest := Le32(last.id) + Le64(last.value);
      WordKept(front, rest, 12 * i, syncs[i].id);
      WordKept(front, rest, 12 * i + 4, syncs[i].value % TWO32);
      WordKept(front, rest, 12 * i + 8, syncs[i].value / TWO32);
    } else {
      var o := 12 * n;
      assert s[o..o + 4] == Le32(last.id) && s[o + 4..o + 8] == Le32(last.value % TWO32)
          && s[o + 8..o + 12] == Le32(last.value / TWO32);
      Le32At(s, o, last.id);
      Le32At(s, o + 4, last.value % TWO32);
      Le32At(s, o + 8, last.value / TWO32);
      WordIs(s, o);
      WordIs(s, o + 4);
      WordIs(s, o + 8);
    }
  }

  // ---- whole streams -------------------------------------------------------------------

  ghost predicate AllWellFormed(rs: seq<Request>) {
    forall i :: 0 <= i < |rs| ==> WellFormed(rs[i])
  }

  lemma WellFormedEncodes(r: Request)
    requires WellFormed(r)
    ensures Encode(r).Some? && |Encode(r).value| >= HDR_BYTES
  {
    hide EncodeDwords, BatchPayload;
  }

  /** The request stream of a session. */
  function EncodeAll(rs: seq<Request>): (s: seq<byte>)
    requires AllWellFormed(rs)
  {
    if rs == [] then [] else WellFormedEncodes(rs[0]); Encode(rs[0]).value + EncodeAll(rs[1..])
  }

  /** What the server makes of a request stream: every request in it, if it is one. */
  function ParseAll(s: seq<byte>): (rs: Option<seq<Request>>)
    decreases |s|
  {
    if s == [] then Some([])
    else
      var (r, rest) :- Parse(s);
      var rs :- ParseAll(rest);
      Some([r] + rs)
  }

  /** Any list of well-formed requests parses back to exactly itself, although a renderer name or
      transferred data of odd length leaves every later frame unaligned. */
  lemma {:induction false} StreamRoundTrip(rs: seq<Request>)
    requires AllWellFormed(rs)
    ensures ParseAll(EncodeAll(rs)) == Some(rs)
  {
    hide Parse, Encode;
    if rs != [] {
      WellFormedEncodes(rs[0]);
      FrameExact(rs[0], EncodeAll(rs[1..]));
      StreamRoundTrip(rs[1..]);
      assert [rs[0]] + rs[1..] == rs;
    }
  }

  /** Hence no byte stream stands for two request lists. */
  lemma UniquelyDecodable(rs: seq<Request>, qs: seq<Request>)
    requires AllWellFormed(rs) && AllWellFormed(qs)
    ensures EncodeAll(rs) == EncodeAll(qs) ==> rs == qs
  {
    StreamRoundTrip(rs);
    StreamRoundTrip(qs);
  }

  lemma {:induction false} EncodeAllConcat(a: seq<Request>, b: seq<Request>)
    requires AllWellFormed(a) && AllWellFormed(b)
    ensures AllWellFormed(a + b) && EncodeAll(a + b) == EncodeAll(a) + EncodeAll(b)
  {
    hide Encode;
    if a == [] {
      assert a + b == b;
    } else {
      assert (a + b)[1..] == a[1..] + b;
      EncodeAllConcat(a[1..], b);
    }
  }

  lemma LowSum(a: int, b: int, c: int)
    ensures Low32(a + Low32(b) as int + Low32(c) as int) == Low32(a + b + c)
  {
  }

  // ---- the encoders that loop --------------------------------------------------------

  method EncodeSubmitCmd2(b: Batch) returns (r: Option<seq<byte>>)
    ensures r == Encode(SubmitCmd2(b))
  {
    hide EncodeDwords, Header, Le32, Le64;
    if |b.data| % 4 != 0 {
      return None;
    }
    var cmdDwords := Low32(|b.data| / 4);
    var total := Low32(BATCH_HEADER + cmdDwords as int + Low32(3 * |b.syncs|) as int);
    var out := Header(total, SUBMIT_CMD2);
    out := out + EncodeDwords([1, b.flags, BATCH_HEADER, cmdDwords, Low32(BATCH_HEADER + cmdDwords as int),
                               Low32(|b.syncs|), b.ringIdx, 0, 0]);
    out := out + b.data;
    ghost var front := out;
    for i := 0 to |b.syncs|
      invariant out == front + SyncBytes(b.syncs[..i])
    {
      var s := b.syncs[i];
      assert b.syncs[..i + 1][..i] == b.syncs[..i];
      out := out + (Le32(s.id) + Le64(s.value));
    }
    assert b.syncs[..|b.syncs|] == b.syncs;
    assert total == Low32(BatchLength(b)) by { LowSum(BATCH_HEADER, |b.data| / 4, 3 * |b.syncs|); }
    assert out == Header(total, SUBMIT_CMD2) + BatchPayload(b);
    r := Some(out);
  }

  method ReadDwords(buf: seq<byte>, n: nat) returns (out: seq<u32>)
    requires |buf| == 4 * n
    ensures out == DecodeDwords(buf, n)
  {
    hide U32At, DecodeDwords;
    out := [];
    for i := 0 to n
      invariant |out| == i && forall k :: 0 <= k < i ==> out[k] == U32At(buf, 4 * k)
    {
      out := out + [U32At(buf[4 * i..4 * i + 4], 0)];
      assert U32At(buf[4 * i..4 * i + 4], 0) == U32At(buf, 4 * i) by { SliceWord(buf, 4 * i); }
    }
    forall k | 0 <= k < n ensures out[k] == DecodeDwords(buf, n)[k] {
      DwordAt(buf, n, k);
    }
  }

  lemma SliceWord(s: seq<byte>, o: nat)
    requires o + 4 <= |s|
    ensures U32At(s[o..o + 4], 0) == U32At(s, o)
  {
  }
}
