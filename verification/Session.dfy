/** A client session against a server that follows the documented replies: the server parses the
    request bytes it was sent, answers each request in turn, and the client reads those answers. */
module Session {
  import opened Bytes
  import opened Wire

  /** What the server decides about one request; its reply bytes follow from the documented layout. */
  datatype Answer = Answer(number: u32, valid: bool, blob: seq<byte>)

  /** A server may answer by everything it has been asked so far, the current request last. */
  type Server = seq<Request> -> Answer

  predicate Fitting(r: Request, a: Answer) {
    match r
    case GetCapset(_, _) => |a.blob| % 4 == 0 && 1 + |a.blob| / 4 < TWO32
    case TransferGet(g) => |a.blob| == g.dataSize
    case _ => true
  }

  ghost predicate Honest(server: Server) {
    forall h: seq<Request> :: h != [] ==> Fitting(h[|h| - 1], server(h))
  }

  function MinU32(a: u32, b: u32): (m: u32) { if a <= b then a else b }

  /** The reply bytes of the last request in the history. */
  function ReplyTo(server: Server, h: seq<Request>): (b: seq<byte>)
    requires h != []
  {
    var a := server(h);
    match h[|h| - 1]
    case Ping => Header(0, PING)
    case ProtocolVersion(v) => Header(1, PROTOCOL_VERSION) + Le32(MinU32(v, a.number))
    case GetParam(_) => Header(2, GET_PARAM) + (Le32(if a.valid then 1 else 0) + Le32(a.number))
    case GetCapset(_, _) =>
      if a.valid then Header(Low32(1 + |a.blob| / 4), GET_CAPSET) + (Le32(1) + a.blob)
      else Header(1, GET_CAPSET) + Le32(0)
    case TransferGet(_) => a.blob
    case _ => []
  }

  /** All replies to a list of requests. */
  function Stream(server: Server, rs: seq<Request>): (b: seq<byte>) {
    if rs == [] then [] else Stream(server, rs[..|rs| - 1]) + ReplyTo(server, rs)
  }

  /** Every complete request in a byte stream. */
  function Received(s: seq<byte>): (rs: seq<Request>)
    decreases |s|
  {
    match Parse(s)
    case None => []
    case Some((r, rest)) => [r] + Received(rest)
  }

  /** What the server has sent once it has received the given bytes. */
  function Sent(server: Server, requests: seq<byte>): (b: seq<byte>) {
    Stream(server, Received(requests))
  }

  // ---- the client ---------------------------------------------------------------------

  /** Bytes written so far and how many reply bytes have been read. */
  datatype Conn = Conn(requests: seq<byte>, pos: nat)

  datatype Value = Number(n: u32) | Capset(blob: seq<byte>, valid: bool) | Pixels(bytes: seq<byte>) | Done | Error

  function Put(c: Conn, b: seq<byte>): (c': Conn) {
    c.(requests := c.requests + b)
  }

  /** Read exactly n reply bytes, or fail when the server sends no more. */
  function Read(server: Server, c: Conn, n: nat): (r: Option<(seq<byte>, Conn)>) {
    var s := Sent(server, c.requests);
    if c.pos + n > |s| then None else Some((s[c.pos..c.pos + n], c.(pos := c.pos + n)))
  }

  /** A failed read has taken whatever there was. */
  function Exhausted(server: Server, c: Conn): (c': Conn) {
    var n := |Sent(server, c.requests)|;
    c.(pos := if c.pos < n then n else c.pos)
  }

  /** A response header: length, command, connection. */
  function ReadHeader(server: Server, c: Conn): (r: Option<(u32, u32, Conn)>) {
    var (b, c') :- Read(server, c, HDR_BYTES);
    if |b| < HDR_BYTES then None else Some((U32At(b, 0), U32At(b, 4), c'))
  }

  function TakeParam(server: Server, c: Conn): (r: (Conn, Value)) {
    match ReadHeader(server, c)
    case None => (Exhausted(server, c), Error)
    case Some((length, cmd, c1)) =>
      if cmd != GET_PARAM || length != 2 then (c1, Error)
      else match Read(server, c1, 8)
        case None => (Exhausted(server, c1), Error)
        case Some((b, c2)) =>
          (c2, if |b| < 8 then Error else if U32At(b, 0) == 0 then Number(0) else Number(U32At(b, 4)))
  }

  function TakeCapset(server: Server, c: Conn): (r: (Conn, Value)) {
    match ReadHeader(server, c)
    case None => (Exhausted(server, c), Error)
    case Some((length, cmd, c1)) =>
      if cmd != GET_CAPSET then (c1, Error)
      else match Read(server, c1, 4)
        case None => (Exhausted(server, c1), Error)
        case Some((v, c2)) =>
          if |v| < 4 then (c2, Error)
          else if U32At(v, 0) == 0 then (c2, Capset([], false))
          else match Read(server, c2, 4 * Low32(length as int - 1) as int)
            case None => (Exhausted(server, c2), Error)
            case Some((blob, c3)) => (c3, Capset(blob, true))
  }

  function TakePixels(server: Server, c: Conn, n: nat): (r: (Conn, Value)) {
    match Read(server, c, n)
    case None => (Exhausted(server, c), Error)
    case Some((b, c1)) => (c1, Pixels(b))
  }

  function TakeVersion(server: Server, c: Conn): (r: (Conn, Value)) {
    match ReadHeader(server, c)
    case None => (Exhausted(server, c), Error)
    case Some((_, _, c1)) =>
      match Read(server, c1, 4)
      case None => (Exhausted(server, c1), Error)
      case Some((b, c2)) => (c2, if |b| < 4 then Error else Number(U32At(b, 0)))
  }

  /** The client's calls. `Send` is any of the calls that have no reply. */
  datatype Call = Handshake(name: seq<byte>, version: u32) | AskParam(param: u32) | AskCapset(id: u32, version: u32)
                | AskPixels(args: TransferArgs) | Send(r: Request)

  function PutRequest(c: Conn, r: Request): (c': Conn) {
    match Encode(r) case None => c case Some(b) => Put(c, b)
  }

  function DoHandshake(server: Server, c: Conn, name: seq<byte>, version: u32): (r: (Conn, Value)) {
    var c1 := PutRequest(PutRequest(c, CreateRenderer(name)), Ping);
    match ReadHeader(server, c1)
    case None => (Exhausted(server, c1), Error)
    case Some((_, _, c2)) => TakeVersion(server, PutRequest(c2, ProtocolVersion(version)))
  }

  function Do(server: Server, c: Conn, call: Call): (r: (Conn, Value)) {
    match call
    case Handshake(name, version) => DoHandshake(server, c, name, version)
    case AskParam(p) => TakeParam(server, PutRequest(c, GetParam(p)))
    case AskCapset(id, v) => TakeCapset(server, PutRequest(c, GetCapset(id, v)))
    case AskPixels(a) => TakePixels(server, PutRequest(c, TransferGet(a)), a.dataSize)
    case Send(r) => (PutRequest(c, r), if Encode(r).None? then Error else Done)
  }

  // ---- what a call should do ------------------------------------------------------------

  predicate Silent(r: Request) {
    r.ResourceCreate? || r.SubmitCmd? || r.TransferPut? || r.ContextInit? || r.SubmitCmd2?
  }

  predicate Proper(call: Call) {
    match call
    case Handshake(name, _) => |name| < TWO32
    case Send(r) => Silent(r) && (WellFormed(r) || Encode(r).None?)
    case _ => true
  }

  /** The requests a call puts on the wire. */
  function Requests(call: Call): (rs: seq<Request>) {
    match call
    case Handshake(name, version) => [CreateRenderer(name), Ping, ProtocolVersion(version)]
    case AskParam(p) => [GetParam(p)]
    case AskCapset(id, v) => [GetCapset(id, v)]
    case AskPixels(a) => [TransferGet(a)]
    case Send(r) => if Encode(r).None? then [] else [r]
  }

  /** The server's own answer to the call, given everything requested up to and including it. */
  function Expected(server: Server, h: seq<Request>, call: Call): (v: Value)
  {
    var a := server(h);
    match call
    case Handshake(_, version) => Number(MinU32(version, a.number))
    case AskParam(_) => Number(if a.valid then a.number else 0)
    case AskCapset(_, _) => Capset(if a.valid then a.blob else [], a.valid)
    case AskPixels(_) => Pixels(a.blob)
    case Send(r) => if Encode(r).None? then Error else Done
  }

  /** The server has received exactly `rs` and the client has yet to read exactly `owed`. */
  ghost predicate Owes(server: Server, c: Conn, rs: seq<Request>, owed: seq<byte>) {
    && AllWellFormed(rs) && c.requests == EncodeAll(rs)
    && Received(c.requests) == rs
    && c.pos + |owed| == |Stream(server, rs)| && Stream(server, rs)[c.pos..] == owed
  }

  ghost predicate InSync(server: Server, c: Conn, rs: seq<Request>) {
    Owes(server, c, rs, [])
  }

  lemma {:induction false} ServerReceives(rs: seq<Request>)
    requires AllWellFormed(rs)
    ensures Received(EncodeAll(rs)) == rs
  {
    hide Encode, Parse;
    if rs == [] {
      assert Parse([]).None? by { NothingParses(); }
    } else {
      WellFormedEncodes(rs[0]);
      FrameExact(rs[0], EncodeAll(rs[1..]));
      ServerReceives(rs[1..]);
      assert [rs[0]] + rs[1..] == rs;
    }
  }

  lemma NothingParses()
    ensures Parse([]).None?
  {
  }

  lemma RequestOwesReply(server: Server, c: Conn, rs: seq<Request>, r: Request)
    requires InSync(server, c, rs) && WellFormed(r)
    ensures Owes(server, PutRequest(c, r), rs + [r], ReplyTo(server, rs + [r]))
  {
    hide Encode, Received, ReplyTo, WellFormed;
    var all := rs + [r];
    WellFormedEncodes(r);
    EncodeAllConcat(rs, [r]);
    assert EncodeAll([r]) == Encode(r).value + [];
    ServerReceives(all);
    assert all[..|all| - 1] == rs;
  }

  lemma ReadsOwed(server: Server, c: Conn, rs: seq<Request>, owed: seq<byte>, n: nat)
    requires Owes(server, c, rs, owed) && n <= |owed|
    ensures var r := Read(server, c, n);
      && r == Some((owed[..n], c.(pos := c.pos + n)))
      && Owes(server, r.value.1, rs, owed[n..])
  {
    hide Received, EncodeAll, AllWellFormed;
    var s := Stream(server, rs);
    assert s[c.pos..c.pos + n] == s[c.pos..][..n];
    assert s[c.pos + n..] == s[c.pos..][n..];
  }

  lemma ReadsHeader(server: Server, c: Conn, rs: seq<Request>, length: u32, cmd: u32, body: seq<byte>)
    requires Owes(server, c, rs, Header(length, cmd) + body)
    ensures var r := ReadHeader(server, c);
      && r == Some((length, cmd, c.(pos := c.pos + HDR_BYTES)))
      && Owes(server, r.value.2, rs, body)
  {
    hide Owes, Read, U32At, Le32;
    var owed := Header(length, cmd) + body;
    ReadsOwed(server, c, rs, owed, HDR_BYTES);
    var b := owed[..8];
    assert b[0..4] == Le32(length) && b[4..8] == Le32(cmd);
    Le32At(b, 0, length);
    Le32At(b, 4, cmd);
    assert owed[8..] == body;
  }

  /** The server owes one word, then `rest`: the client reads that word. */
  lemma ReadsWord(server: Server, c: Conn, rs: seq<Request>, v: u32, rest: seq<byte>)
    requires Owes(server, c, rs, Le32(v) + rest)
    ensures var r := Read(server, c, 4);
      && r.Some? && |r.value.0| == 4 && U32At(r.value.0, 0) == v && Owes(server, r.value.1, rs, rest)
  {
    hide Owes, Read, U32At, Le32;
    var owed := Le32(v) + rest;
    ReadsOwed(server, c, rs, owed, 4);
    assert owed[..4][0..4] == Le32(v) && owed[4..] == rest;
    Le32At(owed[..4], 0, v);
  }

  lemma ParamInSync(server: Server, c: Conn, rs: seq<Request>, p: u32)
    requires InSync(server, c, rs)
    ensures var h := rs + [GetParam(p)]; var (c', v) := TakeParam(server, PutRequest(c, GetParam(p)));
      InSync(server, c', h) && v == Number(if server(h).valid then server(h).number else 0)
  {
    hide Owes, Read, ReadHeader, U32At, Le32, Header;
    var h := rs + [GetParam(p)];
    var a, c1 := server(h), PutRequest(c, GetParam(p));
    RequestOwesReply(server, c, rs, GetParam(p));
    var flag: u32 := if a.valid then 1 else 0;
    var body := Le32(flag) + Le32(a.number);
    ReadsHeader(server, c1, h, 2, GET_PARAM, body);
    var c2 := ReadHeader(server, c1).value.2;
    ReadsOwed(server, c2, h, body, 8);
    assert body[..8] == body && body[8..] == [];
    assert body[0..4] == Le32(flag) && body[4..8] == Le32(a.number);
    Le32At(body, 0, flag);
    Le32At(body, 4, a.number);
  }

  /** Reading a capset reply off the stream leaves nothing of it behind exactly when the server says
      valid or sends no body. */
  lemma CapsetSyncExact(server: Server, c: Conn, rs: seq<Request>, length: u32, flag: u32, body: seq<byte>)
    requires length >= 1 && |body| == 4 * (length as int - 1)
    requires Owes(server, c, rs, Header(length, GET_CAPSET) + (Le32(flag) + body))
    ensures var (c', v) := TakeCapset(server, c);
      && (InSync(server, c', rs) <==> flag != 0 || length == 1)
      && v == Capset(if flag != 0 then body else [], flag != 0)
  {
    hide Read, ReadHeader, U32At, Le32, Header, Received, EncodeAll, AllWellFormed, Stream;
    ReadsHeader(server, c, rs, length, GET_CAPSET, Le32(flag) + body);
    var c1 := ReadHeader(server, c).value.2;
    ReadsWord(server, c1, rs, flag, body);
    var c2 := Read(server, c1, 4).value.1;
    if flag != 0 {
      ReadsOwed(server, c2, rs, body, |body|);
      assert body[..|body|] == body && body[|body|..] == [];
    }
  }

  lemma CapsetInSync(server: Server, c: Conn, rs: seq<Request>, id: u32, version: u32)
    requires InSync(server, c, rs) && Honest(server)
    ensures var h := rs + [GetCapset(id, version)];
      var (c', v) := TakeCapset(server, PutRequest(c, GetCapset(id, version)));
      InSync(server, c', h) && v == Capset(if server(h).valid then server(h).blob else [], server(h).valid)
  {
    hide Owes, Le32, Header, TakeCapset;
    var r := GetCapset(id, version);
    var h := rs + [r];
    RequestOwesReply(server, c, rs, r);
    assert h[|h| - 1] == r && Fitting(r, server(h));
    if server(h).valid {
      CapsetSyncExact(server, PutRequest(c, r), h, 1 + |server(h).blob| / 4, 1, server(h).blob);
    } else {
      assert Le32(0) + [] == Le32(0);
      CapsetSyncExact(server, PutRequest(c, r), h, 1, 0, []);
    }
  }

  // ---- replies of any kind -----------------------------------------------------------------

  /** A read of more than is owed fails and leaves nothing. */
  lemma ReadsShort(server: Server, c: Conn, rs: seq<Request>, owed: seq<byte>, n: nat)
    requires Owes(server, c, rs, owed) && n > |owed|
    ensures Read(server, c, n) == None && InSync(server, Exhausted(server, c), rs)
  {
    hide Received, EncodeAll, AllWellFormed;
    var s := Stream(server, rs);
    assert s[|s|..] == [];
  }

  /** GetParam on whatever the server sends behind a header: an answer exactly when the header says two dwords
      of command 15 and they are there; the value where the flag is set, 0 where it is not. */
  lemma ParamExact(server: Server, c: Conn, rs: seq<Request>, length: u32, cmd: u32, body: seq<byte>)
    requires Owes(server, c, rs, Header(length, cmd) + body)
    ensures var (c', v) := TakeParam(server, c);
      if cmd != 15 || length != 2 then v == Error && Owes(server, c', rs, body)
      else if |body| < 8 then v == Error && InSync(server, c', rs)
      else v == Number(if U32At(body, 0) == 0 then 0 else U32At(body, 4)) && Owes(server, c', rs, body[8..])
  {
    hide Owes, Read, ReadHeader, U32At, Le32, Header, Exhausted;
    ReadsHeader(server, c, rs, length, cmd, body);
    var c1 := ReadHeader(server, c).value.2;
    if |body| < 8 {
      ReadsShort(server, c1, rs, body, 8);
    } else {
      ReadsOwed(server, c1, rs, body, 8);
      PrefixWord(body, 8, 0);
      PrefixWord(body, 8, 4);
    }
  }

  lemma PrefixWord(s: seq<byte>, n: nat, o: nat)
    requires o + 4 <= n <= |s|
    ensures U32At(s[..n], o) == U32At(s, o)
  {
  }

  /** GetCapset on whatever the server sends behind a header: invalid on a zero flag, else the announced
      number of bytes, and an error on another command or when something is missing. */
  lemma CapsetExact(server: Server, c: Conn, rs: seq<Request>, length: u32, cmd: u32, body: seq<byte>)
    requires Owes(server, c, rs, Header(length, cmd) + body)
    ensures var (c', v) := TakeCapset(server, c);
      var n := 4 * ((length as int - 1) % 0x1_0000_0000);
      if cmd != 16 then v == Error && Owes(server, c', rs, body)
      else if |body| < 4 then v == Error && InSync(server, c', rs)
      else if U32At(body, 0) == 0 then v == Capset([], false) && Owes(server, c', rs, body[4..])
      else if |body| - 4 < n then v == Error && InSync(server, c', rs)
      else v == Capset(body[4..4 + n], true) && Owes(server, c', rs, body[4 + n..])
  {
    hide Owes, Read, ReadHeader, U32At, Le32, Header, Exhausted;
    ReadsHeader(server, c, rs, length, cmd, body);
    var c1 := ReadHeader(server, c).value.2;
    if |body| < 4 {
      ReadsShort(server, c1, rs, body, 4);
    } else {
      ReadsOwed(server, c1, rs, body, 4);
      PrefixWord(body, 4, 0);
      var c2, rest, n := Read(server, c1, 4).value.1, body[4..], 4 * Low32(length as int - 1) as int;
      if |rest| < n {
        ReadsShort(server, c2, rs, rest, n);
      } else {
        ReadsOwed(server, c2, rs, rest, n);
        assert rest[..n] == body[4..4 + n] && rest[n..] == body[4 + n..];
      }
    }
  }

  /** The negotiated version is the dword behind any header; pixels are the requested bytes, all or none. */
  lemma VersionExact(server: Server, c: Conn, rs: seq<Request>, length: u32, cmd: u32, body: seq<byte>)
    requires Owes(server, c, rs, Header(length, cmd) + body)
    ensures var (c', v) := TakeVersion(server, c);
      if |body| < 4 then v == Error && InSync(server, c', rs)
      else v == Number(U32At(body, 0)) && Owes(server, c', rs, body[4..])
  {
    hide Owes, Read, ReadHeader, U32At, Le32, Header, Exhausted;
    ReadsHeader(server, c, rs, length, cmd, body);
    var c1 := ReadHeader(server, c).value.2;
    if |body| < 4 {
      ReadsShort(server, c1, rs, body, 4);
    } else {
      ReadsOwed(server, c1, rs, body, 4);
      PrefixWord(body, 4, 0);
    }
  }

  lemma PixelsExact(server: Server, c: Conn, rs: seq<Request>, owed: seq<byte>, n: nat)
    requires Owes(server, c, rs, owed)
    ensures var (c', v) := TakePixels(server, c, n);
      if |owed| < n then v == Error && InSync(server, c', rs)
      else v == Pixels(owed[..n]) && Owes(server, c', rs, owed[n..])
  {
    hide Owes, Read, Exhausted;
    if |owed| < n {
      ReadsShort(server, c, rs, owed, n);
    } else {
      ReadsOwed(server, c, rs, owed, n);
    }
  }

  /** Without a whole header every call that reads one fails. */
  lemma NoHeader(server: Server, c: Conn, rs: seq<Request>, owed: seq<byte>)
    requires Owes(server, c, rs, owed) && |owed| < 8
    ensures TakeParam(server, c).1 == TakeCapset(server, c).1 == TakeVersion(server, c).1 == Error
    ensures InSync(server, TakeParam(server, c).0, rs) && InSync(server, TakeCapset(server, c).0, rs)
  {
    hide Owes, Read, U32At, Exhausted;
    ReadsShort(server, c, rs, owed, 8);
  }

  // ---- replies as documented -----------------------------------------------------------------

  lemma OneDword(v: u32)
    ensures EncodeDwords([v]) == Le32(v)
  {
    assert EncodeDwords([v]) == Le32(v) + EncodeDwords([v][1..]);
  }

  /** The server's replies, byte for byte as documented. */
  lemma ReplyBytes(server: Server, h: seq<Request>)
    requires h != []
    ensures var (a, b) := (server(h), ReplyTo(server, h));
      match h[|h| - 1]
      case Ping => IsFrame(b, 0, 10, [], [])
      case ProtocolVersion(v) => IsFrame(b, 1, 11, [if v <= a.number then v else a.number], [])
      case GetParam(_) => IsFrame(b, 2, 15, [if a.valid then 1 else 0, a.number], [])
      case GetCapset(_, _) =>
        if a.valid then IsFrame(b, (1 + |a.blob| / 4) % 0x1_0000_0000, 16, [1], a.blob) else IsFrame(b, 1, 16, [0], [])
      case TransferGet(_) => b == a.blob
      case _ => b == []
  {
    hide IsFrame, EncodeDwords, Header, Le32;
    var a := server(h);
    match h[|h| - 1] {
      case Ping => FrameIs(0, PING, [], []); NoFields();
        assert Header(0, PING) + [] + [] == Header(0, PING);
      case ProtocolVersion(v) => FrameIs(1, PROTOCOL_VERSION, [MinU32(v, a.number)], []); OneDword(MinU32(v, a.number));
        assert Header(1, PROTOCOL_VERSION) + Le32(MinU32(v, a.number)) + [] == ReplyTo(server, h);
      case GetParam(_) =>
        var flag: u32 := if a.valid then 1 else 0;
        FrameIs(2, GET_PARAM, [flag, a.number], []);
        DwordsConcat([flag], [a.number]);
        assert [flag] + [a.number] == [flag, a.number];
        OneDword(flag);
        OneDword(a.number);
        assert Header(2, GET_PARAM) + (Le32(flag) + Le32(a.number)) + [] == ReplyTo(server, h);
      case GetCapset(_, _) =>
        var flag: u32 := if a.valid then 1 else 0;
        OneDword(flag);
        var length, tail := if a.valid then Low32(1 + |a.blob| / 4) else 1, if a.valid then a.blob else [];
        FrameIs(length, GET_CAPSET, [flag], tail);
        assert Header(length, GET_CAPSET) + Le32(flag) + tail == ReplyTo(server, h);
      case _ =>
    }
  }

  lemma HandshakeInSync(server: Server, c: Conn, rs: seq<Request>, name: seq<byte>, version: u32)
    requires InSync(server, c, rs) && |name| < TWO32
    ensures var h := rs + [CreateRenderer(name), Ping, ProtocolVersion(version)];
      var (c', v) := DoHandshake(server, c, name, version);
      InSync(server, c', h) && v == Number(MinU32(version, server(h).number))
  {
    hide Owes, Read, ReadHeader, U32At, Le32, Header, PutRequest;
    var h1, h2 := rs + [CreateRenderer(name)], rs + [CreateRenderer(name), Ping];
    var h := rs + [CreateRenderer(name), Ping, ProtocolVersion(version)];
    assert h2 == h1 + [Ping] && h == h2 + [ProtocolVersion(version)];
    RequestOwesReply(server, c, rs, CreateRenderer(name));
    var c1 := PutRequest(c, CreateRenderer(name));
    RequestOwesReply(server, c1, h1, Ping);
    var c2 := PutRequest(c1, Ping);
    assert Header(0, PING) + [] == Header(0, PING);
    ReadsHeader(server, c2, h2, 0, PING, []);
    var c3 := ReadHeader(server, c2).value.2;
    RequestOwesReply(server, c3, h2, ProtocolVersion(version));
    var c4, m := PutRequest(c3, ProtocolVersion(version)), MinU32(version, server(h).number);
    assert Le32(m) + [] == Le32(m);
    ReadsHeader(server, c4, h, 1, PROTOCOL_VERSION, Le32(m));
    ReadsWord(server, ReadHeader(server, c4).value.2, h, m, []);
  }

  lemma PixelsInSync(server: Server, c: Conn, rs: seq<Request>, a: TransferArgs)
    requires InSync(server, c, rs) && Honest(server)
    ensures var h := rs + [TransferGet(a)];
      var (c', v) := TakePixels(server, PutRequest(c, TransferGet(a)), a.dataSize);
      InSync(server, c', h) && v == Pixels(server(h).blob)
  {
    hide Owes, Read, PutRequest;
    var h := rs + [TransferGet(a)];
    RequestOwesReply(server, c, rs, TransferGet(a));
    assert h[|h| - 1] == TransferGet(a) && Fitting(TransferGet(a), server(h));
    var b := server(h).blob;
    ReadsOwed(server, PutRequest(c, TransferGet(a)), h, b, |b|);
    assert b[..|b|] == b && b[|b|..] == [];
  }

  /** One call from a synchronised connection returns the server's answer and leaves it synchronised. */
  lemma CallInSync(server: Server, c: Conn, rs: seq<Request>, call: Call)
    requires InSync(server, c, rs) && Honest(server) && Proper(call)
    ensures var (c', v) := Do(server, c, call); var h := rs + Requests(call);
      InSync(server, c', h) && v == Expected(server, h, call)
  {
    hide Owes, TakeParam, TakeCapset, TakePixels, DoHandshake, Encode, WellFormed;
    match call {
      case Handshake(name, version) => HandshakeInSync(server, c, rs, name, version);
      case AskParam(p) => ParamInSync(server, c, rs, p);
      case AskCapset(id, v) => CapsetInSync(server, c, rs, id, v);
      case AskPixels(a) => PixelsInSync(server, c, rs, a);
      case Send(r) =>
        if Encode(r).None? {
          assert rs + [] == rs;
        } else {
          RequestOwesReply(server, c, rs, r);
        }
    }
  }

  // ---- whole sessions --------------------------------------------------------------------

  function Run(server: Server, c: Conn, calls: seq<Call>): (r: (Conn, seq<Value>))
    decreases |calls|
  {
    if calls == [] then (c, [])
    else
      var (c1, v) := Do(server, c, calls[0]);
      var (c2, vs) := Run(server, c1, calls[1..]);
      (c2, [v] + vs)
  }

  function AllRequests(calls: seq<Call>): (rs: seq<Request>) {
    if calls == [] then [] else Requests(calls[0]) + AllRequests(calls[1..])
  }

  function AllExpected(server: Server, h: seq<Request>, calls: seq<Call>): (vs: seq<Value>)
    decreases |calls|
  {
    if calls == [] then []
    else
      var h1 := h + Requests(calls[0]);
      [Expected(server, h1, calls[0])] + AllExpected(server, h1, calls[1..])
  }

  /** For every sequence of calls: each consumes exactly its own reply bytes and returns the server's
      values, so no later call reads a misaligned reply. */
  lemma {:induction false} SessionInSync(server: Server, c: Conn, rs: seq<Request>, calls: seq<Call>)
    requires InSync(server, c, rs) && Honest(server)
    requires forall i :: 0 <= i < |calls| ==> Proper(calls[i])
    ensures var (c', vs) := Run(server, c, calls);
      InSync(server, c', rs + AllRequests(calls)) && vs == AllExpected(server, rs, calls)
    decreases |calls|
  {
    hide Owes, Do, Expected, Requests, Proper, Honest;
    if calls == [] {
      assert rs + [] == rs;
    } else {
      CallInSync(server, c, rs, calls[0]);
      var h := rs + Requests(calls[0]);
      SessionInSync(server, Do(server, c, calls[0]).0, h, calls[1..]);
      assert h + AllRequests(calls[1..]) == rs + AllRequests(calls);
    }
  }

  /** A fresh connection is synchronised. */
  lemma FreshInSync(server: Server)
    ensures InSync(server, Conn([], 0), [])
  {
    ServerReceives([]);
  }

  // ---- the client object --------------------------------------------------------------------

  /** The client over a connection to `server`: writes append to what the server has received, reads
      take the next bytes it has sent. */
  class Client {
    const server: Server
    var requests: seq<byte>
    var pos: nat

    ghost function State(): Conn
      reads this
    {
      Conn(requests, pos)
    }

    constructor (server: Server)
      ensures this.server == server && State() == Conn([], 0)
    {
      this.server, requests, pos := server, [], 0;
    }

    /** Encode a request and write it, unless the encoder refuses it. */
    method Issue(r: Request) returns (ok: bool)
      modifies this`requests
      ensures State() == PutRequest(old(State()), r) && ok == Encode(r).Some?
    {
      var pkt := Encode(r);
      ok := pkt.Some?;
      if ok {
        requests := requests + pkt.value;
      }
    }

    method ReadFull(n: nat) returns (ok: bool, b: seq<byte>)
      modifies this`pos
      ensures ok ==> |b| == n && Read(server, old(State()), n) == Some((b, State()))
      ensures !ok ==> Read(server, old(State()), n) == None && State() == Exhausted(server, old(State()))
    {
      hide Sent;
      var stream := Sent(server, requests);
      if pos + n > |stream| {
        pos := if pos < |stream| then |stream| else pos;
        return false, [];
      }
      ok, b := true, stream[pos..pos + n];
      pos := pos + n;
    }

    method GetHeader() returns (ok: bool, length: u32, cmd: u32)
      modifies this`pos
      ensures ok ==> ReadHeader(server, old(State())) == Some((length, cmd, State()))
      ensures !ok ==> ReadHeader(server, old(State())) == None && State() == Exhausted(server, old(State()))
    {
      var got, b := ReadFull(HDR_BYTES);
      if !got {
        return false, 0, 0;
      }
      return true, U32At(b, 0), U32At(b, 4);
    }

    method GetParam(param: u32) returns (v: Value)
      modifies this
      ensures (State(), v) == Do(server, old(State()), AskParam(param))
    {
      hide Read, U32At, ReadHeader, PutRequest;
      var _ := Issue(Request.GetParam(param));
      var ok, length, cmd := GetHeader();
      if !ok || cmd != GET_PARAM || length != 2 {
        return Error;
      }
      var got, b := ReadFull(8);
      if !got {
        return Error;
      }
      var resp := ReadDwords(b, 2);
      DwordAt(b, 2, 0);
      DwordAt(b, 2, 1);
      if resp[0] == 0 {
        return Number(0);
      }
      return Number(resp[1]);
    }

    method GetCapset(id: u32, version: u32) returns (v: Value)
      modifies this
      ensures (State(), v) == Do(server, old(State()), AskCapset(id, version))
    {
      hide Read, U32At, ReadHeader, PutRequest;
      var _ := Issue(Request.GetCapset(id, version));
      var ok, length, cmd := GetHeader();
      if !ok || cmd != GET_CAPSET {
        return Error;
      }
      var got, b := ReadFull(4);
      if !got {
        return Error;
      }
      if U32At(b, 0) == 0 {
        return Capset([], false);
      }
      var whole, blob := ReadFull(4 * Low32(length as int - 1) as int);
      v := if whole then Capset(blob, true) else Error;
    }

    method Handshake(name: seq<byte>, version: u32) returns (v: Value)
      modifies this
      ensures (State(), v) == Do(server, old(State()), Call.Handshake(name, version))
    {
      hide Read, U32At, ReadHeader, PutRequest;
      var _ := Issue(CreateRenderer(name));
      var _ := Issue(Ping);
      var ok, _, _ := GetHeader();
      if !ok {
        return Error;
      }
      var _ := Issue(ProtocolVersion(version));
      var ok2, _, _ := GetHeader();
      if !ok2 {
        return Error;
      }
      var got, b := ReadFull(4);
      v := if got then Number(U32At(b, 0)) else Error;
    }

    method GetPixels(a: TransferArgs) returns (v: Value)
      modifies this
      ensures (State(), v) == Do(server, old(State()), AskPixels(a))
    {
      hide Read, PutRequest;
      var _ := Issue(TransferGet(a));
      var got, b := ReadFull(a.dataSize);
      v := if got then Pixels(b) else Error;
    }

    /** SubmitCmd, SubmitCmd2, TransferPut, CreateResource and ContextInit: no reply. */
    method SendOnly(r: Request) returns (v: Value)
      modifies this
      ensures (State(), v) == Do(server, old(State()), Send(r))
    {
      hide PutRequest, Encode;
      var ok := Issue(r);
      v := if ok then Done else Error;
    }
  }
}
