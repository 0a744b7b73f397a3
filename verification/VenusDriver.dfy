/** The guest's own code: the mapped ring and the clear-image driver's two submit calls,
    updating shared memory in place. Each is proved to do what ReplyProtocol says it does. */
module VenusDriver {
  import opened Bytes
  import opened Arith
  import opened RingLayout
  import opened Ring
  import opened CommandStream
  import P = ReplyProtocol

  class MappedRing {
    const mem: array<byte>
    const bufferSize: nat
    var cur: u32

    ghost predicate Valid() {
      GoodSize(bufferSize) && bufferSize > 0 && mem.Length >= BUFFER_OFFSET + bufferSize
    }

    constructor (mem: array<byte>, bufferSize: nat)
      requires GoodSize(bufferSize) && bufferSize > 0 && mem.Length >= BUFFER_OFFSET + bufferSize
      ensures Valid() && this.mem == mem && this.bufferSize == bufferSize && cur == 0
    {
      this.mem, this.bufferSize, this.cur := mem, bufferSize, 0;
    }

    method Head() returns (v: u32)
      requires Valid()
      ensures v == HeadWord(mem[..])
    {
      v := U32At(mem[HEAD_OFFSET..HEAD_OFFSET + CONTROL_WORD], 0);
    }

    /** Everything outside the tail word and the buffer is left alone: head, status, extra region. */
    method WriteCmd(cur: u32, cmd: seq<byte>) returns (newCur: u32)
      requires Valid() && |cmd| <= bufferSize
      modifies mem
      ensures mem[..] == Stored(old(mem[..]), bufferSize, cur, cmd)
      ensures newCur == TailWord(mem[..]) == Low32(cur as int + |cmd|)
      ensures mem[64..68] == Le32(newCur)
      ensures forall k :: 0 <= k < |cmd| ==> mem[192 + (cur as int + k) % bufferSize] == cmd[k]
      ensures mem[..TAIL_OFFSET] == old(mem[..TAIL_OFFSET])
      ensures mem[TAIL_OFFSET + CONTROL_WORD..BUFFER_OFFSET] == old(mem[TAIL_OFFSET + CONTROL_WORD..BUFFER_OFFSET])
      ensures mem[BUFFER_OFFSET + bufferSize..] == old(mem[BUFFER_OFFSET + bufferSize..])
    {
      hide Le32, Stored, Low32, BitAnd;
      ghost var k: nat :| bufferSize == Pow2(k);
      MaskIsMod(cur, k);
      var mask := bufferSize - 1;
      var start := BitAnd(cur, mask);
      var n := |cmd|;
      var base := BUFFER_OFFSET;
      if start + n <= bufferSize {
        forall i | 0 <= i < n { mem[base + start + i] := cmd[i]; }
      } else {
        var first := bufferSize - start;
        forall i | 0 <= i < first { mem[base + start + i] := cmd[i]; }
        forall i | 0 <= i < n - first { mem[base + i] := cmd[first + i]; }
      }
      newCur := Low32(cur as int + n);
      var word := Le32(newCur);
      forall i | 0 <= i < CONTROL_WORD { mem[TAIL_OFFSET + i] := word[i]; }
      StoredPointwise(old(mem[..]), bufferSize, cur, cmd, mem[..]);
      StoredTail(old(mem[..]), bufferSize, cur, cmd);
      WordDeterminesBytes(mem[..], TAIL_OFFSET);
      forall k | 0 <= k < |cmd| ensures mem[192 + (cur as int + k) % bufferSize] == cmd[k] {
        StoredSlot(old(mem[..]), bufferSize, cur, cmd, k);
      }
    }

    /** Returns the new tail, which is the command's sequence number. */
    method Submit(cmd: seq<byte>) returns (seqno: u32)
      requires Valid() && |cmd| <= bufferSize
      modifies mem, this`cur
      ensures mem[..] == Stored(old(mem[..]), bufferSize, old(cur), cmd)
      ensures cur == seqno == Low32(old(cur) as int + |cmd|)
    {
      cur := WriteCmd(cur, cmd);
      seqno := cur;
    }
  }

  /** Byte k of the command is in the slot k after the cursor, round the buffer. */
  lemma StoredSlot(mem: seq<byte>, size: nat, cur: u32, cmd: seq<byte>, k: nat)
    requires size > 0 && |mem| >= BUFFER_OFFSET + size && k < |cmd| <= size
    ensures Stored(mem, size, cur, cmd)[192 + (cur as int + k) % size] == cmd[k]
  {
    hide Le32, Low32;
    SlotDistance(cur as int + k, cur, size);
  }

  /** An image that agrees with the stored command slot by slot is the stored image. */
  lemma StoredPointwise(mem: seq<byte>, size: nat, cur: u32, cmd: seq<byte>, mem': seq<byte>)
    requires size > 0 && |mem| == |mem'| >= BUFFER_OFFSET + size && |cmd| <= size
    requires forall k :: TAIL_OFFSET <= k < TAIL_OFFSET + CONTROL_WORD ==>
      mem'[k] == Le32(Low32(cur as int + |cmd|))[k - TAIL_OFFSET]
    requires forall k :: BUFFER_OFFSET <= k < BUFFER_OFFSET + size ==>
      mem'[k] == var d := Beyond(k - BUFFER_OFFSET, cur % size, size); if d < |cmd| then cmd[d] else mem[k]
    requires forall k :: 0 <= k < |mem| ==>
      TAIL_OFFSET <= k < TAIL_OFFSET + CONTROL_WORD || BUFFER_OFFSET <= k < BUFFER_OFFSET + size || mem'[k] == mem[k]
    ensures mem' == Stored(mem, size, cur, cmd)
  {
    hide Le32, Low32;
  }

  lemma FetchedIs(c: P.Setup, w: P.World)
    requires P.Shaped(c, w) && |w.host.log| < |w.host.queue|
    ensures var k := |w.host.log|;
      P.Fetched(c, w) == Fetch(w.mem, c.size, Low32(P.Start(w.host.queue, k)), |w.host.queue[k].bytes|)
  {
  }

  /** The driver, sharing memory with a host whose position is `host`. */
  class ClearDriver {
    const ring: MappedRing
    const replyMem: array<byte>
    const setup: P.Setup
    var host: P.Host

    ghost predicate Valid()
      reads this, ring, ring.mem, replyMem
    {
      && ring.Valid() && ring.mem != replyMem && setup.size == ring.bufferSize
      && P.Shaped(setup, View())
    }

    ghost function View(): P.World
      reads this, ring, ring.mem, replyMem
    {
      P.World(ring.mem[..], ring.cur, replyMem[..], host)
    }

    constructor (ring: MappedRing, replyMem: array<byte>, setup: P.Setup)
      requires ring.Valid() && ring.mem != replyMem && setup.size == ring.bufferSize
      requires 4 <= setup.replySize <= replyMem.Length < TWO64
      ensures Valid() && this.ring == ring && this.replyMem == replyMem && this.setup == setup
      ensures host == P.NEW_HOST
    {
      this.ring, this.replyMem, this.setup := ring, replyMem, setup;
      host := P.NEW_HOST;
    }

    /** One move of the other party, in the shared memory. */
    method HostMove(m: P.Move)
      requires Valid()
      modifies this`host, ring.mem, replyMem
      ensures Valid() && View() == P.Step(setup, old(View()), m)
    {
      hide P.Fetched, P.Finished, Le32;
      ghost var was := View();
      var h := host;
      match m {
        case Begin =>
          if P.CanBegin(h) {
            var k := |h.log|;
            var cmd := Fetch(ring.mem[..], setup.size, Low32(P.Start(h.queue, k)), |h.queue[k].bytes|);
            FetchedIs(setup, was);
            host := h.(activity := P.Busy([]), seen := h.seen + [cmd]);
          }
        case WriteByte(b) =>
          if P.CanWrite(h) {
            var p, t := h.activity.written, h.target.value;
            var at := t.offset as int + |p|;
            if t.resource == setup.replyResource && at < replyMem.Length {
              replyMem[at] := b;
              assert replyMem[..] == was.reply[at := b];
            }
            host := h.(activity := P.Busy(p + [b]));
          }
        case Finish =>
          if P.CanFinish(h) {
            host := P.Finished(h);
          }
        case Advance(n) =>
          if P.CanAdvance(h, n) {
            var word := Le32(Low32(h.head + n));
            forall i | 0 <= i < CONTROL_WORD { ring.mem[HEAD_OFFSET + i] := word[i]; }
            assert ring.mem[..] == word + was.mem[4..];
            host := h.(head := h.head + n);
          }
      }
    }

    method HostMoves(ms: seq<P.Move>)
      requires Valid()
      modifies this`host, ring.mem, replyMem
      ensures Valid() && View() == P.Steps(setup, old(View()), ms)
    {
      hide P.Step, P.Shaped;
      ghost var was := View();
      for i := 0 to |ms|
        invariant Valid()
        invariant P.Steps(setup, View(), ms[i..]) == P.Steps(setup, was, ms)
      {
        assert ms[i..][1..] == ms[i + 1..];
        HostMove(ms[i]);
      }
    }

    method Post(cmd: P.Command) returns (seqno: u32)
      requires Valid() && |cmd.bytes| <= setup.size
      modifies this`host, ring`cur, ring.mem
      ensures Valid() && View() == P.Submit(setup, old(View()), cmd) && seqno == ring.cur
    {
      hide Stored;
      seqno := ring.Submit(cmd.bytes);
      host := host.(queue := if cmd.bytes == [] then host.queue else host.queue + [cmd]);
    }

    method WaitHead(seqno: u32, polls: seq<seq<P.Move>>) returns (reached: bool)
      requires Valid()
      modifies this`host, ring.mem, replyMem
      ensures Valid() && (View(), reached) == P.WaitHead(setup, old(View()), seqno, polls)
    {
      hide P.Steps, P.Shaped;
      ghost var was := View();
      var i := 0;
      while true
        invariant Valid() && i <= |polls|
        invariant P.WaitHead(setup, View(), seqno, polls[i..]) == P.WaitHead(setup, was, seqno, polls)
        decreases |polls| - i
      {
        var head := ring.Head();
        if head >= seqno {
          return true;
        }
        if i == |polls| {
          return false;
        }
        assert polls[i..][1..] == polls[i + 1..];
        HostMoves(polls[i]);
        i := i + 1;
      }
    }

    method FillReply(fill: seq<seq<P.Move>>)
      requires Valid()
      modifies this`host, ring.mem, replyMem
      ensures Valid() && View() == P.Fill(setup, old(View()), 0, fill)
    {
      hide P.Steps;
      ghost var was := View();
      for i := 0 to replyMem.Length
        invariant Valid()
        invariant P.Fill(setup, View(), i, fill) == P.Fill(setup, was, 0, fill)
      {
        HostMoves(if i < |fill| then fill[i] else []);
        ghost var mid := View();
        replyMem[i] := P.SENTINEL;
        assert replyMem[..] == mid.reply[i := P.SENTINEL];
      }
    }

    method SubmitWithReply(want: int, cmd: seq<byte>, s: P.Schedule) returns (o: P.Outcome)
      requires Valid() && P.Fits(setup, cmd)
      modifies this`host, ring`cur, ring.mem, replyMem
      ensures Valid() && (View(), o) == P.SubmitWithReply(setup, old(View()), want, cmd, s)
    {
      hide P.Steps, P.Fill, P.WaitHead, P.Submit, U32At;
      FillReply(s.fill);
      ghost var filled := View();
      var setReply := EncodeSetReply(setup.replyResource, 0, setup.replySize);
      setReply := Pad(setReply);
      var _ := Post(P.Command(setReply, false));
      HostMoves(s.between);
      var stream := Pad(cmd);
      var seqno := Post(P.Command(stream, true));
      assert View() == P.PostBoth(setup, filled, cmd, s.between);
      var reached := WaitHead(seqno, s.polls);
      HostMoves(s.beforeEcho);
      var echoed := P.Int32(U32At(replyMem[..], 0));
      HostMoves(s.beforeCopy);
      if !reached {
        o := P.Timeout;
      } else if echoed != want {
        o := P.NoReply;
      } else {
        o := P.Ok(replyMem[..setup.replySize]);
        assert replyMem[..setup.replySize] == replyMem[..][..setup.replySize];
      }
    }

    method SubmitNoReply(cmd: seq<byte>, s: P.Schedule) returns (o: P.Outcome)
      requires Valid() && P.FitsAlone(setup, cmd)
      modifies this`host, ring`cur, ring.mem, replyMem
      ensures Valid() && (View(), o) == P.SubmitNoReply(setup, old(View()), cmd, s)
    {
      hide P.WaitHead, P.Submit, P.Shaped;
      var stream := Pad(cmd);
      var seqno := Post(P.Command(stream, false));
      var reached := WaitHead(seqno, s.polls);
      o := if reached then P.Ok([]) else P.Timeout;
    }

    method Make(call: P.Call, s: P.Schedule) returns (o: P.Outcome)
      requires Valid() && P.CallFits(setup, call)
      modifies this`host, ring`cur, ring.mem, replyMem
      ensures Valid() && (View(), o) == P.Apply(setup, old(View()), call, s)
    {
      hide P.Shaped, P.SubmitWithReply, P.SubmitNoReply;
      match call {
        case WithReply(want, cmd) => o := SubmitWithReply(want, cmd, s);
        case WithoutReply(cmd) => o := SubmitNoReply(cmd, s);
      }
    }

    /** The walk of VenusClearImage: one call after another, returning at the first failure. */
    method Walk(calls: seq<P.Call>, ss: seq<P.Schedule>) returns (os: seq<P.Outcome>)
      requires Valid() && |ss| == |calls|
      requires forall i :: 0 <= i < |calls| ==> P.CallFits(setup, calls[i])
      modifies this`host, ring`cur, ring.mem, replyMem
      ensures Valid() && (View(), os) == P.Run(setup, old(View()), calls, ss)
    {
      hide P.Shaped, P.Apply, P.CallFits;
      ghost var was := View();
      os := [];
      assert calls[0..] == calls && ss[0..] == ss;
      assert os + P.Run(setup, was, calls, ss).1 == P.Run(setup, was, calls, ss).1;
      for i := 0 to |calls|
        invariant Valid()
        invariant var (w, rest) := P.Run(setup, View(), calls[i..], ss[i..]);
          P.Run(setup, was, calls, ss) == (w, os + rest)
      {
        assert calls[i..][1..] == calls[i + 1..] && ss[i..][1..] == ss[i + 1..];
        var o := Make(calls[i], ss[i]);
        ghost var done := os;
        os := os + [o];
        if !o.Ok? {
          return;
        }
        ghost var tail := P.Run(setup, View(), calls[i + 1..], ss[i + 1..]).1;
        assert done + ([o] + tail) == os + tail;
      }
      assert os + [] == os;
    }
  }

  /** Bring-up on fresh shared memory and the walk over it: whatever the host does, every call that came
      back has the reply to its own command. */
  method ClearImage(setup: P.Setup, extraSize: nat, calls: seq<P.Call>, ss: seq<P.Schedule>)
    returns (d: ClearDriver, os: seq<P.Outcome>)
    requires GoodSize(setup.size) && setup.size > 0 && 4 <= setup.replySize < TWO64 && |ss| == |calls|
    requires forall i :: 0 <= i < |calls| ==> P.CallFits(setup, calls[i])
    requires forall i :: 0 <= i < |calls| && calls[i].WithReply? ==> calls[i].want != P.NO_REPLY_TYPE
    requires P.NoCrossing(0, calls)
    ensures d.Valid() && d.setup == setup
    ensures P.RunFresh(setup, P.NEW_HOST, d.View(), calls, os)
  {
    hide P.CallFits, P.RunFresh, P.NoCrossing, P.Run, P.Inv;
    var mem := new byte[RingShmemSize(setup.size, extraSize)](_ => 0);
    var replyMem := new byte[setup.replySize];
    var ring := new MappedRing(mem, setup.size);
    d := new ClearDriver(ring, replyMem, setup);
    ghost var w := d.View();
    P.BringUp(setup, mem[..], replyMem[..]);
    P.RunIsFresh(setup, w, calls, ss);
    os := d.Walk(calls, ss);
  }
}
