/** The socket loops: whole transfers from partial ones. The kernel's answers are a script. */
module RawConn {
  import opened Bytes

  /** One system call: moved up to n bytes, was interrupted (EINTR), or failed. When the script
      runs out the connection has failed. */
  datatype Kernel = Moved(n: nat) | Interrupted | Failed

  function Min(a: nat, b: nat): (m: nat)
  {
    if a <= b then a else b
  }

  /** How many of `want` bytes get through, and whether all do. */
  function Transfer(want: nat, script: seq<Kernel>): (r: (nat, bool))
    ensures r.0 <= want && (r.1 <==> r.0 == want)
    decreases |script|
  {
    if want == 0 then (0, true)
    else if script == [] then (0, false)
    else match script[0]
      case Interrupted => Transfer(want, script[1..])
      case Failed => (0, false)
      case Moved(n) =>
        var k := Min(n, want);
        if k == 0 then (0, false)
        else var (m, ok) := Transfer(want - k, script[1..]); (k + m, ok)
  }

  /** Leading interruptions, each of which is retried. */
  function Interrupts(script: seq<Kernel>): (k: nat)
    ensures k <= |script| && (forall j :: 0 <= j < k ==> script[j].Interrupted?)
    ensures k < |script| ==> !script[k].Interrupted?
  {
    if script == [] || !script[0].Interrupted? then 0 else 1 + Interrupts(script[1..])
  }

  /** The first answer that is not an interruption. */
  function Answer(script: seq<Kernel>): (a: Kernel)
    ensures !a.Interrupted?
  {
    var k := Interrupts(script);
    if k < |script| then script[k] else Failed
  }

  /** The script behind that answer. */
  function Rest(script: seq<Kernel>): (s: seq<Kernel>)
    ensures |s| <= |script| && (Answer(script) != Failed ==> |s| < |script|)
  {
    var k := Interrupts(script);
    if k < |script| then script[k + 1..] else []
  }

  /** A transfer goes one answered call at a time. */
  lemma {:induction false} TransferByCalls(want: nat, script: seq<Kernel>)
    requires want > 0
    ensures Transfer(want, script) == match Answer(script)
      case Moved(n) =>
        if n == 0 then (0, false)
        else var k := Min(n, want); var (m, ok) := Transfer(want - k, Rest(script)); (k + m, ok)
      case _ => (0, false)
    decreases |script|
  {
    if script != [] && script[0].Interrupted? {
      TransferByCalls(want, script[1..]);
      assert script[1..][Interrupts(script[1..])..] == script[Interrupts(script)..];
      if Interrupts(script) < |script| {
        assert script[1..][Interrupts(script[1..]) + 1..] == script[Interrupts(script) + 1..];
      }
    }
  }

  class Socket {
    var sent: seq<byte>     // what the peer has received
    var incoming: seq<byte> // what the peer has sent and nobody has read

    /** However the kernel cuts it up: success puts exactly p on the stream, failure exactly the reported prefix. */
    method Write(p: seq<byte>, script: seq<Kernel>) returns (total: nat, ok: bool)
      modifies this`sent
      ensures total <= |p| && sent == old(sent) + p[..total]
      ensures ok <==> total == |p|
      ensures (total, ok) == Transfer(|p|, script)
    {
      total := 0;
      var i := 0;
      while total < |p|
        invariant total <= |p| && i <= |script|
        invariant sent == old(sent) + p[..total]
        invariant var (m, done) := Transfer(|p| - total, script[i..]); Transfer(|p|, script) == (total + m, done)
        decreases |script| - i
      {
        if i == |script| {
          return total, false;
        }
        assert script[i..][1..] == script[i + 1..];
        var answer := script[i];
        i := i + 1;
        match answer {
          case Interrupted =>
          case Failed => return total, false;
          case Moved(n) =>
            var k := Min(n, |p| - total);
            if k == 0 {
              return total, false;
            }
            assert p[..total] + p[total..total + k] == p[..total + k];
            sent := sent + p[total..total + k];
            total := total + k;
        }
      }
      ok := true;
    }

    /** A single receive, retried while interrupted: as much as the first real answer moves. */
    method Read(want: nat, script: seq<Kernel>) returns (got: seq<byte>, ok: bool, rest: seq<Kernel>)
      requires want > 0
      modifies this`incoming
      ensures old(incoming) == got + incoming && |got| <= want
      ensures |got| == match Answer(script) case Moved(n) => Min(Min(n, want), |old(incoming)|) case _ => 0
      ensures ok <==> got != []
      ensures rest == Rest(script)
    {
      var i := 0;
      while i < |script|
        invariant i <= Interrupts(script) && incoming == old(incoming)
      {
        match script[i] {
          case Interrupted =>
          case Failed => return [], false, script[i + 1..];
          case Moved(n) =>
            var k := Min(Min(n, want), |incoming|);
            if k == 0 {
              return [], false, script[i + 1..];
            }
            got := incoming[..k];
            incoming := incoming[k..];
            return got, true, script[i + 1..];
        }
        i := i + 1;
      }
      return [], false, [];
    }

    /** Fills the buffer with exactly the next n bytes of the stream, in order, or fails having read fewer;
        how far it gets is what the kernel moves, and no more than the peer has sent. */
    method ReadFull(n: nat, script: seq<Kernel>) returns (buf: seq<byte>, ok: bool)
      modifies this`incoming
      ensures old(incoming) == buf + incoming
      ensures ok <==> |buf| == n
      ensures ok ==> n <= |old(incoming)| && buf == old(incoming)[..n] && incoming == old(incoming)[n..]
      ensures |buf| == Min(Transfer(n, script).0, |old(incoming)|)
      ensures n <= |old(incoming)| ==> (|buf|, ok) == Transfer(n, script)
    {
      buf := [];
      var left := script;
      while |buf| < n
        invariant |buf| <= n
        invariant old(incoming) == buf + incoming
        invariant Min(Transfer(n, script).0, |old(incoming)|) == |buf| + Min(Transfer(n - |buf|, left).0, |incoming|)
        decreases |left|
      {
        TransferByCalls(n - |buf|, left);
        var got, done, rest := Read(n - |buf|, left);
        if !done {
          return buf, false;
        }
        buf := buf + got;
        left := rest;
      }
      ok := true;
    }
  }

  function WithoutInterrupts(script: seq<Kernel>): (s: seq<Kernel>) {
    if script == [] then []
    else (if script[0].Interrupted? then [] else [script[0]]) + WithoutInterrupts(script[1..])
  }

  /** Interruptions change nothing. */
  lemma {:induction false} InterruptsDoNotMatter(want: nat, script: seq<Kernel>)
    ensures Transfer(want, script) == Transfer(want, WithoutInterrupts(script))
    decreases |script|
  {
    if script != [] {
      var rest := WithoutInterrupts(script[1..]);
      match script[0] {
        case Interrupted => assert [] + rest == rest; InterruptsDoNotMatter(want, script[1..]);
        case Failed => assert ([script[0]] + rest)[0] == Failed;
        case Moved(n) =>
          assert ([script[0]] + rest)[1..] == rest;
          if want > 0 && n > 0 {
            InterruptsDoNotMatter(want - Min(n, want), script[1..]);
          }
      }
    }
  }

  function Capacity(script: seq<Kernel>): (n: nat) {
    if script == [] then 0 else (if script[0].Moved? then script[0].n else 0) + Capacity(script[1..])
  }

  /** With a live connection the transfer completes exactly when the kernel moves enough in all. */
  lemma {:induction false} CompletesIffEnough(want: nat, script: seq<Kernel>)
    requires forall i :: 0 <= i < |script| ==> script[i] != Failed && script[i] != Moved(0)
    ensures Transfer(want, script).1 <==> want <= Capacity(script)
    decreases |script|
  {
    if script != [] {
      match script[0] {
        case Interrupted => CompletesIffEnough(want, script[1..]);
        case Moved(n) =>
          if want > 0 {
            CompletesIffEnough(want - Min(n, want), script[1..]);
          }
      }
    }
  }
}
