/** The reply handshake over the ring, as a system of two parties sharing memory.

    The guest runs the clear-image driver's calls in order; between any two of its
    steps the host makes any number of moves of its own. What the host may do is what
    the driver's documentation assumes of it: it takes commands in order and only once
    the tail covers them, keeps the reply stream it is told of, writes the reply of a
    reply-bearing command (or nothing, on a CS error) there before it moves head past
    that command, and never moves head beyond what it has finished. A move that is not
    possible in a state leaves the state as it is, so every schedule of moves is a
    possible one. */
module ReplyProtocol {
  import opened Bytes
  import opened RingLayout
  import opened Ring
  import opened CommandStream

  /** Fixed at bring-up: the ring's buffer size and the reply blob. */
  datatype Setup = Setup(size: nat, replyResource: u32, replySize: nat)

  datatype Command = Command(bytes: seq<byte>, wantsReply: bool)

  /** Where the host was told to put replies. */
  datatype Target = Target(resource: u32, offset: u64, size: u64)

  /** `written`: the reply to the command at hand, as far as it goes. */
  datatype Activity = Idle | Busy(written: seq<byte>)

  /** `queue`: every command whose bytes the tail covers. `log`: the reply each finished command got,
      empty for none. `seen`: the bytes the host fetched for each command it started. */
  datatype Host = Host(queue: seq<Command>, head: nat, log: seq<seq<byte>>, seen: seq<seq<byte>>,
                       target: Option<Target>, activity: Activity)

  datatype World = World(mem: seq<byte>, cur: u32, reply: seq<byte>, host: Host)

  datatype Move = Begin | WriteByte(b: byte) | Finish | Advance(n: nat)

  function Flatten(q: seq<Command>): (s: seq<byte>) {
    if q == [] then [] else Flatten(q[..|q| - 1]) + q[|q| - 1].bytes
  }

  /** Stream position where command k starts. */
  function Start(q: seq<Command>, k: nat): (n: nat)
    requires k <= |q|
  {
    |Flatten(q[..k])|
  }

  predicate Shaped(c: Setup, w: World) {
    && 0 < c.size && |w.mem| >= BUFFER_OFFSET + c.size
    && 4 <= c.replySize <= |w.reply| < TWO64
  }

  // ---- the host's moves --------------------------------------------------------

  /** What a command says about replies, if it is vkSetReplyCommandStreamMESA. */
  function Told(bytes: seq<byte>): (t: Option<Target>) {
    var (ops, rest) :- Decode(bytes, [K32, K32, K64, K32, K64, K64]);
    if |ops| == 6 && rest == [] && ops[..3] == [W32(CMD_SET_REPLY), W32(0), W64(1)]
       && ops[3].W32? && ops[4].W64? && ops[5].W64?
    then Some(Target(ops[3].v, ops[4].q, ops[5].q)) else None
  }

  predicate CanBegin(h: Host) {
    h.activity.Idle? && |h.log| < |h.queue|
  }

  predicate CanWrite(h: Host) {
    && h.activity.Busy? && |h.log| < |h.queue| && h.queue[|h.log|].wantsReply
    && h.target.Some? && |h.activity.written| < h.target.value.size
  }

  predicate CanFinish(h: Host) {
    h.activity.Busy? && h.seen != []
  }

  predicate CanAdvance(h: Host, n: nat) {
    |h.log| <= |h.queue| && h.head + n <= Start(h.queue, |h.log|)
  }

  /** Byte n of a reply, in the window when the target is the window's resource. */
  function Put(c: Setup, reply: seq<byte>, t: Target, n: nat, b: byte): (r: seq<byte>)
    ensures |r| == |reply|
  {
    if t.resource == c.replyResource && t.offset as int + n < |reply| then reply[t.offset as int + n := b] else reply
  }

  function Fetched(c: Setup, w: World): (s: seq<byte>)
    requires Shaped(c, w) && |w.host.log| < |w.host.queue|
  {
    var k := |w.host.log|;
    Fetch(w.mem, c.size, Low32(Start(w.host.queue, k)), |w.host.queue[k].bytes|)
  }

  /** The host's state when the command at hand is finished. */
  function Finished(h: Host): (h': Host)
    requires CanFinish(h)
  {
    var t := Told(h.seen[|h.seen| - 1]);
    h.(activity := Idle, log := h.log + [h.activity.written], target := if t.Some? then t else h.target)
  }

  function Step(c: Setup, w: World, m: Move): (w': World)
    requires Shaped(c, w)
    ensures Shaped(c, w') && |w'.reply| == |w.reply| && w'.cur == w.cur && w'.host.queue == w.host.queue
    ensures w.host.log <= w'.host.log && w.host.head <= w'.host.head
  {
    hide Told, Start;
    var h := w.host;
    match m
    case Begin =>
      if CanBegin(h) then w.(host := h.(activity := Busy([]), seen := h.seen + [Fetched(c, w)])) else w
    case WriteByte(b) =>
      if CanWrite(h) then
        var p := h.activity.written;
        w.(reply := Put(c, w.reply, h.target.value, |p|, b), host := h.(activity := Busy(p + [b])))
      else w
    case Finish =>
      if CanFinish(h) then w.(host := Finished(h)) else w
    case Advance(n) =>
      if CanAdvance(h, n) then w.(mem := WithHead(w.mem, Low32(h.head + n)), host := h.(head := h.head + n)) else w
  }

  function Steps(c: Setup, w: World, ms: seq<Move>): (w': World)
    requires Shaped(c, w)
    ensures Shaped(c, w') && |w'.reply| == |w.reply| && w'.cur == w.cur && w'.host.queue == w.host.queue
    ensures w.host.log <= w'.host.log && w.host.head <= w'.host.head
    decreases |ms|
  {
    hide Step;
    if ms == [] then w else Steps(c, Step(c, w, ms[0]), ms[1..])
  }

  // ---- the guest's steps -------------------------------------------------------

  /** Submit: the bytes into the ring, the cursor past them. An empty stream is no command. */
  function Submit(c: Setup, w: World, cmd: Command): (w': World)
    requires Shaped(c, w) && |cmd.bytes| <= c.size
    ensures Shaped(c, w') && |w'.reply| == |w.reply|
  {
    w.(mem := Stored(w.mem, c.size, w.cur, cmd.bytes),
       cur := Low32(w.cur as int + |cmd.bytes|),
       host := w.host.(queue := if cmd.bytes == [] then w.host.queue else w.host.queue + [cmd]))
  }

  const SENTINEL: byte := 0xCC

  /** Fill the reply window byte by byte, the host moving in between. */
  function Fill(c: Setup, w: World, i: nat, ms: seq<seq<Move>>): (w': World)
    requires Shaped(c, w) && i <= |w.reply|
    ensures Shaped(c, w') && |w'.reply| == |w.reply|
    decreases |w.reply| - i
  {
    if i == |w.reply| then w
    else
      var w1 := Steps(c, w, if i < |ms| then ms[i] else []);
      Fill(c, w1.(reply := w1.reply[i := SENTINEL]), i + 1, ms)
  }

  /** Poll the head word: reached, or the deadline passes after the given number of sleeps. */
  function WaitHead(c: Setup, w: World, seqno: u32, polls: seq<seq<Move>>): (r: (World, bool))
    requires Shaped(c, w)
    ensures Shaped(c, r.0) && |r.0.reply| == |w.reply| && r.0.host.queue == w.host.queue && r.0.cur == w.cur
    ensures w.host.log <= r.0.host.log
    decreases |polls|
  {
    if HeadWord(w.mem) >= seqno then (w, true)
    else if polls == [] then (w, false)
    else WaitHead(c, Steps(c, w, polls[0]), seqno, polls[1..])
  }

  function Int32(v: u32): (i: int)
    ensures -0x8000_0000 <= i < 0x8000_0000
  {
    if v < 0x8000_0000 then v else v as int - TWO32
  }

  datatype Outcome = Ok(reply: seq<byte>) | Timeout | NoReply

  /** The host's moves at every point of one call. */
  datatype Schedule = Schedule(fill: seq<seq<Move>>, between: seq<Move>, polls: seq<seq<Move>>,
                               beforeEcho: seq<Move>, beforeCopy: seq<Move>)

  /** Bytes of a reply call, and of a call without reply. */
  function ReplyCallBytes(cmd: seq<byte>): (n: nat) {
    SET_REPLY_BYTES + |PadDword(cmd)|
  }

  predicate Fits(c: Setup, cmd: seq<byte>) {
    ReplyCallBytes(cmd) <= c.size
  }

  predicate FitsAlone(c: Setup, cmd: seq<byte>) {
    |PadDword(cmd)| <= c.size
  }

  function SetReply(c: Setup): (cmd: Command)
    requires c.replySize < TWO64
    ensures |cmd.bytes| == SET_REPLY_BYTES && !cmd.wantsReply
  {
    Command(PadDword(SetReplyStream(c.replyResource, 0, c.replySize)), false)
  }

  /** SetReply and the command into the ring. */
  function PostBoth(c: Setup, w: World, cmd: seq<byte>, between: seq<Move>): (w': World)
    requires Shaped(c, w) && Fits(c, cmd)
    ensures Shaped(c, w')
  {
    var w1 := Steps(c, Submit(c, w, SetReply(c)), between);
    Submit(c, w1, Command(PadDword(cmd), true))
  }

  /** Wait for head, check the echoed type, copy the window. */
  function Collect(c: Setup, w: World, want: int, s: Schedule): (r: (World, Outcome))
    requires Shaped(c, w)
    ensures Shaped(c, r.0)
  {
    var (w1, reached) := WaitHead(c, w, w.cur, s.polls);
    var w2 := Steps(c, w1, s.beforeEcho);
    var echoed := Int32(U32At(w2.reply, 0));
    var w3 := Steps(c, w2, s.beforeCopy);
    (w3, if !reached then Timeout else if echoed != want then NoReply else Ok(w3.reply[..c.replySize]))
  }

  function SubmitWithReply(c: Setup, w: World, want: int, cmd: seq<byte>, s: Schedule): (r: (World, Outcome))
    requires Shaped(c, w) && Fits(c, cmd)
    ensures Shaped(c, r.0)
  {
    Collect(c, PostBoth(c, Fill(c, w, 0, s.fill), cmd, s.between), want, s)
  }

  function SubmitNoReply(c: Setup, w: World, cmd: seq<byte>, s: Schedule): (r: (World, Outcome))
    requires Shaped(c, w) && FitsAlone(c, cmd)
    ensures Shaped(c, r.0)
  {
    var w1 := Submit(c, w, Command(PadDword(cmd), false));
    var (w2, reached) := WaitHead(c, w1, w1.cur, s.polls);
    (w2, if reached then Ok([]) else Timeout)
  }

  // ---- what every step keeps --------------------------------------------------

  /** Every reply-bearing command follows a SetReply of this setup. */
  ghost predicate Aimed(c: Setup, q: seq<Command>)
    requires c.replySize < TWO64
  {
    forall i :: 0 <= i < |q| && q[i].wantsReply ==> i > 0 && q[i - 1].bytes == SetReply(c).bytes
  }

  function Own(c: Setup): (t: Target)
    requires c.replySize < TWO64
  {
    Target(c.replyResource, 0, c.replySize)
  }

  /** Position and log of the host. */
  ghost predicate LogInv(c: Setup, h: Host) {
    && (forall i :: 0 <= i < |h.queue| ==> h.queue[i].bytes != [])
    && |h.log| <= |h.queue|
    && h.head <= Start(h.queue, |h.log|)
    && (h.activity.Busy? ==> |h.log| < |h.queue|)
    && |h.seen| == |h.log| + (if h.activity.Busy? then 1 else 0)
    && (forall i :: 0 <= i < |h.seen| ==> h.seen[i] == h.queue[i].bytes)
    && (forall i :: 0 <= i < |h.log| ==> |h.log[i]| <= c.replySize && (h.log[i] != [] ==> h.queue[i].wantsReply))
    && (h.activity.Busy? ==> |h.activity.written| <= c.replySize)
    && (h.activity.Busy? && h.activity.written != [] ==> h.queue[|h.log|].wantsReply)
  }

  ghost predicate HostInv(c: Setup, h: Host)
    requires c.replySize < TWO64
  {
    && LogInv(c, h)
    && Aimed(c, h.queue)
    && (|h.log| > 0 && h.queue[|h.log| - 1].bytes == SetReply(c).bytes ==> h.target == Some(Own(c)))
  }

  ghost predicate Inv(c: Setup, w: World) {
    && Shaped(c, w)
    && HostInv(c, w.host)
    && Holds(w.mem, c.size, Flatten(w.host.queue), w.host.head)
    && w.cur == Low32(|Flatten(w.host.queue)|)
  }

  /** The host has released every byte. */
  ghost predicate Drained(w: World) {
    w.host.head == |Flatten(w.host.queue)|
  }

  lemma {:induction false} FlattenSplit(q: seq<Command>, k: nat)
    requires k <= |q|
    ensures Flatten(q[..k]) <= Flatten(q)
    ensures k < |q| ==> Flatten(q[..k + 1]) == Flatten(q[..k]) + q[k].bytes
    ensures Start(q, k) <= |Flatten(q)|
    ensures k < |q| ==> Start(q, k + 1) == Start(q, k) + |q[k].bytes|
    ensures k < |q| ==> Flatten(q[..k + 1]) <= Flatten(q)
    decreases |q| - k
  {
    if k < |q| {
      FlattenSplit(q, k + 1);
      assert q[..k + 1][..k] == q[..k];
    } else {
      assert q[..k] == q;
    }
  }

  /** The host reads each command exactly as it was submitted. */
  lemma SeesTheCommand(c: Setup, w: World)
    requires Inv(c, w) && |w.host.log| < |w.host.queue|
    ensures Fetched(c, w) == w.host.queue[|w.host.log|].bytes
  {
    hide Fetch, Holds, Low32, Aimed, SetReply;
    var q, k := w.host.queue, |w.host.log|;
    var all, from, n := Flatten(q), Start(q, k), |q[k].bytes|;
    FlattenSplit(q, k);
    FetchIsSent(w.mem, c.size, all, w.host.head, from, n);
    assert all[from..from + n] == Flatten(q[..k + 1])[from..];
  }

  /** Whoever decodes a SetReply learns the reply window: the blob's resource, offset 0, its size. */
  lemma SetReplyTells(c: Setup)
    requires c.replySize < TWO64
    ensures Told(SetReply(c).bytes) == Some(Own(c))
  {
    hide Decode, SetReplyStream;
  }

  /** So every reply lands at the start of the window, byte n at offset n. */
  lemma RepliesLandInWindow(c: Setup, w: World, b: byte)
    requires Inv(c, w) && w.host.activity.Busy? && w.host.queue[|w.host.log|].wantsReply
    ensures w.host.target == Some(Own(c))
    ensures var p := w.host.activity.written; |p| < c.replySize ==>
      Step(c, w, WriteByte(b)) == w.(reply := w.reply[|p| := b], host := w.host.(activity := Busy(p + [b])))
    ensures |w.host.activity.written| >= c.replySize ==> Step(c, w, WriteByte(b)) == w
  {
    hide Holds, Flatten, SetReply, Start;
  }

  lemma FinishKeepsHostInv(c: Setup, w: World)
    requires Inv(c, w) && CanFinish(w.host)
    ensures HostInv(c, Finished(w.host))
  {
    hide Holds, Flatten, Told, SetReply;
    SetReplyTells(c);
    FlattenSplit(w.host.queue, |w.host.log|);
  }

  lemma StepKeepsInv(c: Setup, w: World, m: Move)
    requires Inv(c, w)
    ensures Inv(c, Step(c, w, m))
  {
    hide Fetched, Holds, Low32, WithHead, Flatten, SetReply, Put, Told;
    var h := w.host;
    match m
    case Begin => if CanBegin(h) { SeesTheCommand(c, w); }
    case WriteByte(b) => if CanWrite(h) { RepliesLandInWindow(c, w, b); }
    case Finish => if CanFinish(h) { FinishKeepsHostInv(c, w); }
    case Advance(n) =>
      if CanAdvance(h, n) {
        FlattenSplit(h.queue, |h.log|);
        AdvanceReleases(w.mem, c.size, Flatten(h.queue), h.head, h.head + n);
      }
  }

  lemma {:induction false} StepsKeepInv(c: Setup, w: World, ms: seq<Move>)
    requires Inv(c, w)
    ensures Inv(c, Steps(c, w, ms))
    decreases |ms|
  {
    hide Step, Holds, HostInv;
    if ms != [] {
      StepKeepsInv(c, w, ms[0]);
      StepsKeepInv(c, Step(c, w, ms[0]), ms[1..]);
    }
  }

  // ---- a drained ring is quiet --------------------------------------------------

  lemma DrainedIsDone(c: Setup, w: World)
    requires Inv(c, w) && Drained(w)
    ensures |w.host.log| == |w.host.queue| && w.host.activity.Idle?
  {
    hide Holds, Flatten, Aimed, SetReply;
    var q, k := w.host.queue, |w.host.log|;
    if k < |q| {
      FlattenSplit(q, k);
      FlattenSplit(q, k + 1);
      assert false;
    }
  }

  /** After everything is released no move of the host changes anything. */
  lemma DrainedIsQuiet(c: Setup, w: World, m: Move)
    requires Inv(c, w) && Drained(w)
    ensures Step(c, w, m) == w
  {
    hide Fetched, Flatten, Le32, Aimed, SetReply, Finished, Put;
    DrainedIsDone(c, w);
    assert w.host.queue[..|w.host.queue|] == w.host.queue;
    if m.Advance? && m.n == 0 {
      WordDeterminesBytes(w.mem, 0);
      assert WithHead(w.mem, HeadWord(w.mem)) == w.mem[0..4] + w.mem[4..] == w.mem;
    }
  }

  lemma {:induction false} DrainedStaysPut(c: Setup, w: World, ms: seq<Move>)
    requires Inv(c, w) && Drained(w)
    ensures Steps(c, w, ms) == w
    decreases |ms|
  {
    hide Step, Holds, HostInv;
    if ms != [] {
      DrainedIsQuiet(c, w, ms[0]);
      DrainedStaysPut(c, w, ms[1..]);
    }
  }

  // ---- a settled host leaves the window alone -----------------------------------

  /** No unfinished command before the k-th can write another byte of a reply. */
  ghost predicate SettledBelow(c: Setup, h: Host, k: nat) {
    forall i :: |h.log| <= i < |h.queue| && i < k && h.queue[i].wantsReply ==>
      i == |h.log| && h.activity.Busy? && |h.activity.written| == c.replySize
  }

  ghost predicate Settled(c: Setup, h: Host) {
    SettledBelow(c, h, |h.queue|)
  }

  lemma DrainedIsSettled(c: Setup, w: World)
    requires Inv(c, w) && Drained(w)
    ensures Settled(c, w.host)
  {
    DrainedIsDone(c, w);
  }

  lemma SettledIsQuiet(c: Setup, w: World, m: Move)
    requires Inv(c, w) && Settled(c, w.host)
    ensures Settled(c, Step(c, w, m).host) && Step(c, w, m).reply == w.reply
  {
    hide Fetched, Flatten, Holds, WithHead, SetReply, Start, Put, Told;
    if m.WriteByte? && CanWrite(w.host) {
      RepliesLandInWindow(c, w, m.b);
    }
  }

  lemma {:induction false} SettledStaysQuiet(c: Setup, w: World, ms: seq<Move>)
    requires Inv(c, w) && Settled(c, w.host)
    ensures Settled(c, Steps(c, w, ms).host) && Steps(c, w, ms).reply == w.reply
    decreases |ms|
  {
    hide Step, Holds, HostInv, Settled;
    if ms != [] {
      StepKeepsInv(c, w, ms[0]);
      SettledIsQuiet(c, w, ms[0]);
      SettledStaysQuiet(c, Step(c, w, ms[0]), ms[1..]);
    }
  }

  function Sentinels(n: nat): (s: seq<byte>)
    ensures |s| == n
  {
    seq(n, _ => SENTINEL)
  }

  /** With a settled host the fill leaves sentinels everywhere, whatever the schedule. */
  lemma {:induction false} FillCovers(c: Setup, w: World, i: nat, ms: seq<seq<Move>>)
    requires Inv(c, w) && Settled(c, w.host) && i <= |w.reply|
    requires w.reply[..i] == Sentinels(i)
    ensures var w' := Fill(c, w, i, ms);
      && Inv(c, w') && Settled(c, w'.host) && w'.reply == Sentinels(|w.reply|)
      && (forall k :: 0 <= k < |w'.reply| ==> w'.reply[k] == 0xCC)
      && w'.host.queue == w.host.queue && w.host.head <= w'.host.head && w.host.log <= w'.host.log
    decreases |w.reply| - i
  {
    hide Steps, Holds, HostInv, Flatten, Settled;
    if i == |w.reply| {
      assert w.reply[..i] == w.reply;
    } else {
      var now := if i < |ms| then ms[i] else [];
      StepsKeepInv(c, w, now);
      SettledStaysQuiet(c, w, now);
      var w1 := Steps(c, w, now);
      var w2 := w1.(reply := w1.reply[i := SENTINEL]);
      assert w2.reply[..i + 1] == Sentinels(i + 1);
      FillCovers(c, w2, i + 1, ms);
    }
  }

  // ---- submitting and waiting ---------------------------------------------------

  /** n more bytes fit beside what the host has not released. */
  ghost predicate Space(c: Setup, w: World, n: nat) {
    |Flatten(w.host.queue)| + n <= w.host.head + c.size
  }

  /** Head and the end of n more bytes lie in the same 2^32 bytes of the stream. */
  ghost predicate SameBlock(w: World, n: nat) {
    w.host.head / TWO32 == (|Flatten(w.host.queue)| + n) / TWO32
  }

  /** A reply-bearing command goes right behind SetReply. */
  ghost predicate GoodOrder(c: Setup, q: seq<Command>, cmd: Command)
    requires c.replySize < TWO64
  {
    cmd.wantsReply ==> q != [] && q[|q| - 1].bytes == SetReply(c).bytes
  }

  lemma AppendsOne(q: seq<Command>, cmd: Command)
    ensures Flatten(q + [cmd]) == Flatten(q) + cmd.bytes
  {
    assert (q + [cmd])[..|q|] == q;
  }

  /** The host's bookkeeping does not mind another command behind the queue. */
  lemma QueueGrows(c: Setup, h: Host, cmd: Command)
    requires c.replySize < TWO64 && HostInv(c, h) && cmd.bytes != [] && GoodOrder(c, h.queue, cmd)
    ensures HostInv(c, h.(queue := h.queue + [cmd]))
  {
    hide Flatten, SetReply;
    assert (h.queue + [cmd])[..|h.log|] == h.queue[..|h.log|];
  }

  lemma SpaceIsSmall(c: Setup, w: World, n: nat)
    requires Inv(c, w) && Space(c, w, n)
    ensures n <= c.size && w.host.head <= |Flatten(w.host.queue)|
  {
  }

  lemma SubmitKeepsInv(c: Setup, w: World, cmd: Command)
    requires Inv(c, w) && Space(c, w, |cmd.bytes|) && GoodOrder(c, w.host.queue, cmd)
    ensures |cmd.bytes| <= c.size
    ensures Inv(c, Submit(c, w, cmd))
    ensures Flatten(Submit(c, w, cmd).host.queue) == Flatten(w.host.queue) + cmd.bytes
  {
    hide Stored, Holds, Low32, HostInv, GoodOrder, Flatten;
    SpaceIsSmall(c, w, |cmd.bytes|);
    var q := w.host.queue;
    SubmitAppends(w.mem, c.size, Flatten(q), w.host.head, cmd.bytes);
    LowAdd(|Flatten(q)|, |cmd.bytes|);
    if cmd.bytes != [] {
      QueueGrows(c, w.host, cmd);
      AppendsOne(q, cmd);
    } else {
      assert Flatten(q) + [] == Flatten(q);
    }
  }

  /** The plain 32-bit comparison, in one block of 2^32 bytes and across its end. */
  lemma HeadTest(c: Setup, w: World)
    requires Inv(c, w)
    ensures SameBlock(w, 0) ==> (HeadWord(w.mem) >= w.cur <==> Drained(w))
    ensures !SameBlock(w, 0) ==> HeadWord(w.mem) >= w.cur && !Drained(w)
  {
    hide HostInv, Flatten, HeadWord, TailWord;
  }

  lemma StepsStayInBlock(c: Setup, w: World, ms: seq<Move>)
    requires Inv(c, w) && SameBlock(w, 0)
    ensures SameBlock(Steps(c, w, ms), 0)
  {
    hide HostInv, Flatten, HeadWord, TailWord, Steps;
    StepsKeepInv(c, w, ms);
  }

  /** Within one block of 2^32 bytes the wait succeeds exactly when everything is released. */
  lemma {:induction false} WaitMeansDrained(c: Setup, w: World, polls: seq<seq<Move>>)
    requires Inv(c, w) && SameBlock(w, 0)
    ensures var (w', reached) := WaitHead(c, w, w.cur, polls);
      Inv(c, w') && (reached <==> Drained(w'))
    decreases |polls|
  {
    hide Steps, Holds, HostInv, Flatten, SameBlock;
    HeadTest(c, w);
    if HeadWord(w.mem) < w.cur && polls != [] {
      StepsKeepInv(c, w, polls[0]);
      StepsStayInBlock(c, w, polls[0]);
      WaitMeansDrained(c, Steps(c, w, polls[0]), polls[1..]);
    }
  }

  lemma {:induction false} WaitKeepsInv(c: Setup, w: World, seqno: u32, polls: seq<seq<Move>>)
    requires Inv(c, w)
    ensures Inv(c, WaitHead(c, w, seqno, polls).0)
    decreases |polls|
  {
    hide Steps, Holds, HostInv;
    if HeadWord(w.mem) < seqno && polls != [] {
      StepsKeepInv(c, w, polls[0]);
      WaitKeepsInv(c, Steps(c, w, polls[0]), seqno, polls[1..]);
    }
  }

  /** The world at poll i: the host has moved through the first i sleeps. */
  function AtPoll(c: Setup, w: World, polls: seq<seq<Move>>, i: nat): (w': World)
    requires Shaped(c, w) && i <= |polls|
    ensures Shaped(c, w') && w'.host.queue == w.host.queue && w'.cur == w.cur
    ensures w.host.head <= w'.host.head && w.host.log <= w'.host.log
    decreases i
  {
    if i == 0 then w else Steps(c, AtPoll(c, w, polls, i - 1), polls[i - 1])
  }

  lemma {:induction false} AtPollLater(c: Setup, w: World, polls: seq<seq<Move>>, i: nat)
    requires Shaped(c, w) && i < |polls|
    ensures AtPoll(c, Steps(c, w, polls[0]), polls[1..], i) == AtPoll(c, w, polls, i + 1)
    decreases i
  {
    hide Steps;
    if i > 0 {
      AtPollLater(c, w, polls, i - 1);
    }
  }

  /** Poll i finds head at or past the sequence number. */
  ghost predicate SeenAt(c: Setup, w: World, seqno: u32, polls: seq<seq<Move>>, i: int)
    requires Shaped(c, w)
  {
    0 <= i <= |polls| && HeadWord(AtPoll(c, w, polls, i).mem) >= seqno
  }

  /** The wait goes on polling until the deadline: it succeeds exactly when some poll up to the last
      finds head there, and returns at the first one that does. */
  lemma {:induction false} WaitPolls(c: Setup, w: World, seqno: u32, polls: seq<seq<Move>>)
    requires Shaped(c, w)
    ensures var (w', reached) := WaitHead(c, w, seqno, polls);
      && (reached <==> exists i :: SeenAt(c, w, seqno, polls, i))
      && (reached ==> exists i :: SeenAt(c, w, seqno, polls, i) && w' == AtPoll(c, w, polls, i)
                                  && forall j :: 0 <= j < i ==> !SeenAt(c, w, seqno, polls, j))
      && (!reached ==> w' == AtPoll(c, w, polls, |polls|))
    decreases |polls|
  {
    hide Steps, HeadWord;
    if HeadWord(w.mem) >= seqno {
      assert SeenAt(c, w, seqno, polls, 0);
    } else if polls != [] {
      var w1, rest := Steps(c, w, polls[0]), polls[1..];
      WaitPolls(c, w1, seqno, rest);
      forall i: int | 0 <= i < |polls|
        ensures SeenAt(c, w1, seqno, rest, i) == SeenAt(c, w, seqno, polls, i + 1)
        ensures AtPoll(c, w1, rest, i) == AtPoll(c, w, polls, i + 1)
      {
        AtPollLater(c, w, polls, i);
      }
      if i :| SeenAt(c, w, seqno, polls, i) {
        assert SeenAt(c, w1, seqno, rest, i - 1);
      }
      if WaitHead(c, w, seqno, polls).1 {
        var i :| SeenAt(c, w1, seqno, rest, i) && WaitHead(c, w1, seqno, rest).0 == AtPoll(c, w1, rest, i)
          && forall j :: 0 <= j < i ==> !SeenAt(c, w1, seqno, rest, j);
        assert SeenAt(c, w, seqno, polls, i + 1);
        forall j | 0 <= j < i + 1 ensures !SeenAt(c, w, seqno, polls, j) {
          if j > 0 {
            assert !SeenAt(c, w1, seqno, rest, j - 1);
          }
        }
      } else {
        AtPollLater(c, w, polls, |rest|);
      }
    }
  }

  /** Whether a wait for everything submitted can be believed. */
  ghost predicate WaitHonest(c: Setup, w: World, polls: seq<seq<Move>>)
    requires Shaped(c, w)
  {
    var (w', reached) := WaitHead(c, w, w.cur, polls);
    reached ==> Drained(w')
  }

  /** When the cursor passes a multiple of 2^32 that head has not, the wait returns at once, whatever
      the host does, with bytes still unread. */
  lemma CrossingReturnsAtOnce(c: Setup, w: World, polls: seq<seq<Move>>)
    requires Inv(c, w) && !SameBlock(w, 0)
    ensures WaitHead(c, w, w.cur, polls) == (w, true) && !Drained(w)
  {
    hide Steps, Holds, HostInv, Flatten, SameBlock;
    HeadTest(c, w);
  }

  /** The exact condition, known before the submit: the wait after a command is right under every
      schedule if and only if head and the command's end lie in the same 2^32 bytes. */
  lemma WaitExact(c: Setup, w: World, cmd: Command)
    requires Inv(c, w) && Space(c, w, |cmd.bytes|) && GoodOrder(c, w.host.queue, cmd)
    ensures |cmd.bytes| <= c.size
    ensures SameBlock(w, |cmd.bytes|) <==> forall polls :: WaitHonest(c, Submit(c, w, cmd), polls)
  {
    hide WaitHead, Holds, HostInv, Flatten, Stored, GoodOrder;
    SubmitKeepsInv(c, w, cmd);
    var w1 := Submit(c, w, cmd);
    if SameBlock(w, |cmd.bytes|) {
      forall polls ensures WaitHonest(c, w1, polls) {
        WaitMeansDrained(c, w1, polls);
      }
    } else {
      CrossingReturnsAtOnce(c, w1, []);
      assert !WaitHonest(c, w1, []);
    }
  }

  // ---- whose reply is it ----------------------------------------------------------

  /** The part of command k's reply that is in the window. */
  function Progress(h: Host, k: nat): (p: seq<byte>) {
    if k < |h.log| then h.log[k]
    else if k == |h.log| && h.activity.Busy? then h.activity.written
    else []
  }

  /** The window over `n` bytes holding `p` and sentinels after it. */
  function Window(p: seq<byte>, n: nat): (s: seq<byte>)
    ensures |s| >= n && (|p| <= n ==> |s| == n)
  {
    p + Sentinels(if |p| <= n then n - |p| else 0)
  }

  /** Only command k can still write, and nothing follows it. */
  ghost predicate Calm(c: Setup, h: Host, k: nat) {
    |h.queue| <= k + 1 && SettledBelow(c, h, k)
  }

  /** The window holds command k's reply so far and nothing else. */
  ghost predicate Fresh(c: Setup, w: World, k: nat) {
    |Progress(w.host, k)| <= c.replySize <= |w.reply| && w.reply == Window(Progress(w.host, k), |w.reply|)
  }

  lemma StepKeepsFresh(c: Setup, w: World, m: Move, k: nat)
    requires Inv(c, w) && Calm(c, w.host, k) && Fresh(c, w, k)
    ensures Calm(c, Step(c, w, m).host, k) && Fresh(c, Step(c, w, m), k)
  {
    hide Holds, Flatten, Fetched, WithHead, Start, SetReply, Told, Put;
    var h := w.host;
    if m.WriteByte? && CanWrite(h) {
      RepliesLandInWindow(c, w, m.b);
      assert Window(h.activity.written, |w.reply|)[|h.activity.written| := m.b]
          == Window(h.activity.written + [m.b], |w.reply|);
    }
  }

  lemma {:induction false} StepsKeepFresh(c: Setup, w: World, ms: seq<Move>, k: nat)
    requires Inv(c, w) && Calm(c, w.host, k) && Fresh(c, w, k)
    ensures Calm(c, Steps(c, w, ms).host, k) && Fresh(c, Steps(c, w, ms), k)
    decreases |ms|
  {
    hide Step, Holds, HostInv, Fresh, Calm;
    if ms != [] {
      StepKeepsInv(c, w, ms[0]);
      StepKeepsFresh(c, w, ms[0], k);
      StepsKeepFresh(c, Step(c, w, ms[0]), ms[1..], k);
    }
  }

  lemma {:induction false} WaitKeepsFresh(c: Setup, w: World, seqno: u32, polls: seq<seq<Move>>, k: nat)
    requires Inv(c, w) && Calm(c, w.host, k) && Fresh(c, w, k)
    ensures var w' := WaitHead(c, w, seqno, polls).0; Calm(c, w'.host, k) && Fresh(c, w', k)
    decreases |polls|
  {
    hide Steps, Holds, HostInv, Fresh, Calm;
    if HeadWord(w.mem) < seqno && polls != [] {
      StepsKeepInv(c, w, polls[0]);
      StepsKeepFresh(c, w, polls[0], k);
      WaitKeepsFresh(c, Steps(c, w, polls[0]), seqno, polls[1..], k);
    }
  }

  // ---- one call ---------------------------------------------------------------------

  /** The command a stream becomes, if it has any bytes. */
  function Queued(cmd: seq<byte>, wantsReply: bool): (q: seq<Command>) {
    if PadDword(cmd) == [] then [] else [Command(PadDword(cmd), wantsReply)]
  }

  lemma AppendsQueued(q: seq<Command>, cmd: seq<byte>, wantsReply: bool)
    ensures Flatten(q + Queued(cmd, wantsReply)) == Flatten(q) + PadDword(cmd)
  {
    hide PadDword, Flatten;
    if PadDword(cmd) == [] {
      assert q + [] == q && Flatten(q) + [] == Flatten(q);
    } else {
      AppendsOne(q, Command(PadDword(cmd), wantsReply));
    }
  }

  /** What both submits leave, from any world with space for them. */
  lemma PostKeepsInv(c: Setup, w: World, cmd: seq<byte>, between: seq<Move>)
    requires Inv(c, w) && Space(c, w, ReplyCallBytes(cmd))
    ensures Fits(c, cmd)
    ensures var w' := PostBoth(c, w, cmd, between);
      && Inv(c, w')
      && w'.host.queue == w.host.queue + [SetReply(c)] + Queued(cmd, true)
      && w.host.log <= w'.host.log && w.host.head <= w'.host.head && |w'.reply| == |w.reply|
      && |Flatten(w'.host.queue)| == |Flatten(w.host.queue)| + ReplyCallBytes(cmd)
  {
    hide Steps, Holds, HostInv, Flatten, SetReply, Stored, PadDword;
    SpaceIsSmall(c, w, ReplyCallBytes(cmd));
    SubmitKeepsInv(c, w, SetReply(c));
    var w1 := Submit(c, w, SetReply(c));
    StepsKeepInv(c, w1, between);
    SubmitKeepsInv(c, Steps(c, w1, between), Command(PadDword(cmd), true));
  }

  /** From a settled world with a filled window the window belongs to the command alone. */
  lemma PostKeepsFresh(c: Setup, w: World, cmd: seq<byte>, between: seq<Move>)
    requires Inv(c, w) && Settled(c, w.host) && w.reply == Sentinels(|w.reply|) && Space(c, w, ReplyCallBytes(cmd))
    ensures Fits(c, cmd)
    ensures var w', k := PostBoth(c, w, cmd, between), |w.host.queue| + 1; Calm(c, w'.host, k) && Fresh(c, w', k)
  {
    hide Steps, Holds, Flatten, SetReply, Stored, PadDword, Aimed;
    var k := |w.host.queue| + 1;
    SpaceIsSmall(c, w, ReplyCallBytes(cmd));
    SubmitKeepsInv(c, w, SetReply(c));
    var w1 := Submit(c, w, SetReply(c));
    assert Fresh(c, w1, k) by { assert Progress(w1.host, k) == []; }
    StepsKeepInv(c, w1, between);
    StepsKeepFresh(c, w1, between, k);
  }

  /** Without a reply the window reads back as a value no caller asks for. */
  const NO_REPLY_TYPE: int := -858993460

  lemma SentinelEcho(n: nat)
    requires n >= 4
    ensures Int32(U32At(Window([], n), 0)) == NO_REPLY_TYPE == -858993460
  {
  }

  /** The bytes a reply leaves for the caller: itself, and 0xCC behind it. */
  lemma WindowShows(p: seq<byte>, n: nat)
    requires |p| <= n
    ensures var s := Window(p, n); |s| == n && s[..|p|] == p && forall i :: |p| <= i < n ==> s[i] == 0xCC
  {
  }

  /** What the caller gets, from what the host's log says about command k. */
  ghost predicate Verdict(c: Setup, w: World, o: Outcome, want: int, k: nat)
    requires c.replySize >= 4
  {
    && (o.Ok? <==> k < |w.host.log| && w.host.log[k] != []
                   && Int32(U32At(Window(w.host.log[k], c.replySize), 0)) == want)
    && (o.Ok? ==> o.reply == Window(w.host.log[k], c.replySize))
  }

  lemma VerdictFromWindow(c: Setup, w: World, want: int, k: nat)
    requires Shaped(c, w) && Fresh(c, w, k)
    requires w.host.activity.Idle? && want != NO_REPLY_TYPE
    ensures Verdict(c, w, if Int32(U32At(w.reply, 0)) != want then NoReply else Ok(w.reply[..c.replySize]), want, k)
  {
    hide U32At;
    var p := Progress(w.host, k);
    if p == [] {
      SentinelEcho(|w.reply|);
      SentinelEcho(c.replySize);
    }
    assert w.reply[..c.replySize] == Window(p, c.replySize);
    SameWord(w.reply, Window(p, c.replySize));
  }

  lemma SameWord(a: seq<byte>, b: seq<byte>)
    requires |a| >= 4 && |b| >= 4 && a[..4] == b[..4]
    ensures U32At(a, 0) == U32At(b, 0)
  {
    assert a[0] == a[..4][0] && a[1] == a[..4][1] && a[2] == a[..4][2] && a[3] == a[..4][3];
    assert b[0] == b[..4][0] && b[1] == b[..4][1] && b[2] == b[..4][2] && b[3] == b[..4][3];
  }

  /** The call ended with the host's own answer to its command: drained, and the verdict is right. */
  ghost predicate Answers(c: Setup, w': World, o: Outcome, want: int, k: nat)
    requires c.replySize >= 4
  {
    !o.Timeout? ==> Drained(w') && Verdict(c, w', o, want, k)
  }

  /** Freshness, for every schedule of the host: unless it timed out, a call made while no unfinished
      command can still reply ends drained, and it succeeds exactly when the host replied to this very
      command with the wanted type; the bytes it returns are that reply, never an earlier one. */
  lemma CallIsFresh(c: Setup, w: World, want: int, cmd: seq<byte>, s: Schedule)
    requires Inv(c, w) && Settled(c, w.host) && want != NO_REPLY_TYPE
    requires Space(c, w, ReplyCallBytes(cmd)) && SameBlock(w, ReplyCallBytes(cmd))
    ensures Fits(c, cmd)
    ensures var (w', o) := SubmitWithReply(c, w, want, cmd, s);
      && Inv(c, w')
      && w'.host.queue == w.host.queue + [SetReply(c)] + Queued(cmd, true)
      && w.host.log <= w'.host.log
      && Answers(c, w', o, want, |w.host.queue| + 1)
      && (o.Ok? ==> Queued(cmd, true) != [])
  {
    hide PostBoth, WaitHead, Steps, Holds, Flatten, SetReply, Queued, Window, Verdict, Fill, HostInv;
    hide Fresh, Calm, Settled;
    var k := |w.host.queue| + 1;
    assert w.reply[..0] == Sentinels(0);
    FillCovers(c, w, 0, s.fill);
    var w0 := Fill(c, w, 0, s.fill);
    PostKeepsInv(c, w0, cmd, s.between);
    PostKeepsFresh(c, w0, cmd, s.between);
    var w1 := PostBoth(c, w0, cmd, s.between);
    assert SameBlock(w1, 0) by { BlockNarrows(c, w, w1, ReplyCallBytes(cmd)); }
    CollectIsFresh(c, w1, want, s, k);
  }

  /** Moving head towards the end keeps it in the end's block. */
  lemma BlockNarrows(c: Setup, w: World, w': World, n: nat)
    requires SameBlock(w, n) && Inv(c, w') && w.host.head <= w'.host.head
    requires |Flatten(w'.host.queue)| == |Flatten(w.host.queue)| + n
    ensures SameBlock(w', 0)
  {
    hide Flatten, HostInv, HeadWord, TailWord;
  }

  lemma CollectIsFresh(c: Setup, w: World, want: int, s: Schedule, k: nat)
    requires Inv(c, w) && Calm(c, w.host, k) && Fresh(c, w, k) && SameBlock(w, 0) && want != NO_REPLY_TYPE
    ensures var (w', o) := Collect(c, w, want, s);
      && Inv(c, w') && w'.host.queue == w.host.queue && w.host.log <= w'.host.log
      && Answers(c, w', o, want, k) && (o.Ok? ==> k < |w'.host.queue|)
  {
    hide WaitHead, Steps, Holds, Flatten, Window, U32At, Fresh, Calm, SameBlock, Aimed, SetReply;
    WaitMeansDrained(c, w, s.polls);
    WaitKeepsFresh(c, w, w.cur, s.polls, k);
    var (w1, reached) := WaitHead(c, w, w.cur, s.polls);
    StepsKeepInv(c, w1, s.beforeEcho);
    StepsKeepInv(c, Steps(c, w1, s.beforeEcho), s.beforeCopy);
    if reached {
      DrainedStaysPut(c, w1, s.beforeEcho);
      DrainedStaysPut(c, w1, s.beforeCopy);
      DrainedIsDone(c, w1);
      VerdictFromWindow(c, w1, want, k);
    }
  }

  /** A call without reply succeeds exactly when the ring ends drained. */
  lemma QuietCallDrains(c: Setup, w: World, cmd: seq<byte>, s: Schedule)
    requires Inv(c, w) && Space(c, w, |PadDword(cmd)|) && SameBlock(w, |PadDword(cmd)|)
    ensures FitsAlone(c, cmd)
    ensures var (w', o) := SubmitNoReply(c, w, cmd, s);
      && Inv(c, w')
      && w'.host.queue == w.host.queue + Queued(cmd, false)
      && w.host.log <= w'.host.log
      && (o.Ok? <==> Drained(w')) && !o.NoReply?
  {
    hide WaitHead, Holds, HostInv, Flatten, Stored, Low32, PadDword;
    SubmitKeepsInv(c, w, Command(PadDword(cmd), false));
    var w1 := Submit(c, w, Command(PadDword(cmd), false));
    WaitMeansDrained(c, w1, s.polls);
    assert w.host.queue + [] == w.host.queue;
  }

  // ---- a host that is in time ---------------------------------------------------------

  ghost predicate DrainedAt(c: Setup, w: World, polls: seq<seq<Move>>, i: int)
    requires Shaped(c, w)
  {
    0 <= i <= |polls| && Drained(AtPoll(c, w, polls, i))
  }

  lemma {:induction false} PollsKeepInv(c: Setup, w: World, polls: seq<seq<Move>>, i: nat)
    requires Inv(c, w) && i <= |polls|
    ensures Inv(c, AtPoll(c, w, polls, i))
    decreases i
  {
    hide Steps, Holds, HostInv;
    if i > 0 {
      PollsKeepInv(c, w, polls, i - 1);
      StepsKeepInv(c, AtPoll(c, w, polls, i - 1), polls[i - 1]);
    }
  }

  lemma {:induction false} DrainedAtStays(c: Setup, w: World, polls: seq<seq<Move>>, i: nat, j: nat)
    requires Inv(c, w) && DrainedAt(c, w, polls, i) && i <= j <= |polls|
    ensures AtPoll(c, w, polls, j) == AtPoll(c, w, polls, i)
    decreases j
  {
    hide Steps, Holds, HostInv, Flatten;
    if i < j {
      DrainedAtStays(c, w, polls, i, j - 1);
      PollsKeepInv(c, w, polls, i);
      DrainedStaysPut(c, AtPoll(c, w, polls, i), polls[j - 1]);
    }
  }

  /** Within one block the wait succeeds exactly when the host has released everything by some poll, and
      returns that poll's world. */
  lemma WaitInTime(c: Setup, w: World, polls: seq<seq<Move>>)
    requires Inv(c, w) && SameBlock(w, 0)
    ensures var (w', reached) := WaitHead(c, w, w.cur, polls);
      && (reached <==> exists i :: DrainedAt(c, w, polls, i))
      && (forall i :: DrainedAt(c, w, polls, i) ==> w' == AtPoll(c, w, polls, i))
  {
    hide Steps, Holds, HostInv, Flatten, AtPoll, WaitHead, HeadWord;
    WaitPolls(c, w, w.cur, polls);
    forall i | 0 <= i <= |polls| ensures SeenAt(c, w, w.cur, polls, i) == DrainedAt(c, w, polls, i) {
      PollsKeepInv(c, w, polls, i);
      BlockNarrows(c, w, AtPoll(c, w, polls, i), 0);
      HeadTest(c, AtPoll(c, w, polls, i));
    }
    var (w', reached) := WaitHead(c, w, w.cur, polls);
    forall i | DrainedAt(c, w, polls, i) ensures w' == AtPoll(c, w, polls, i) {
      assert SeenAt(c, w, w.cur, polls, i);
      var first :| SeenAt(c, w, w.cur, polls, first) && w' == AtPoll(c, w, polls, first)
        && forall j :: 0 <= j < first ==> !SeenAt(c, w, w.cur, polls, j);
      DrainedAtStays(c, w, polls, first, i);
    }
  }

  /** The world when both commands are in the ring and the guest starts to wait. */
  function Posted(c: Setup, w: World, cmd: seq<byte>, s: Schedule): (w': World)
    requires Shaped(c, w) && Fits(c, cmd)
    ensures Shaped(c, w')
  {
    PostBoth(c, Fill(c, w, 0, s.fill), cmd, s.between)
  }

  /** A reply call times out exactly when no poll finds the ring drained; if one does, the call returns
      that poll's world and succeeds exactly when the reply logged there has the wanted type. */
  lemma CallInTime(c: Setup, w: World, want: int, cmd: seq<byte>, s: Schedule)
    requires Inv(c, w) && Settled(c, w.host) && want != NO_REPLY_TYPE
    requires Space(c, w, ReplyCallBytes(cmd)) && SameBlock(w, ReplyCallBytes(cmd))
    ensures Fits(c, cmd)
    ensures var (w', o) := SubmitWithReply(c, w, want, cmd, s);
      var w1 := Posted(c, w, cmd, s);
      && (o.Timeout? <==> !exists i :: DrainedAt(c, w1, s.polls, i))
      && (forall i :: DrainedAt(c, w1, s.polls, i) ==>
            w' == AtPoll(c, w1, s.polls, i) && Verdict(c, w', o, want, |w.host.queue| + 1))
  {
    hide PostBoth, Collect, Steps, Holds, Flatten, Verdict, Fill, HostInv, Settled, AtPoll, DrainedAt, SameBlock;
    CallIsFresh(c, w, want, cmd, s);
    assert w.reply[..0] == Sentinels(0);
    FillCovers(c, w, 0, s.fill);
    PostKeepsInv(c, Fill(c, w, 0, s.fill), cmd, s.between);
    var w1 := Posted(c, w, cmd, s);
    BlockNarrows(c, w, w1, ReplyCallBytes(cmd));
    CollectInTime(c, w1, want, s);
    assert SubmitWithReply(c, w, want, cmd, s) == Collect(c, w1, want, s);
    var (w', o) := Collect(c, w1, want, s);
    forall i | DrainedAt(c, w1, s.polls, i) ensures Verdict(c, w', o, want, |w.host.queue| + 1) {
    }
  }

  lemma CollectInTime(c: Setup, w: World, want: int, s: Schedule)
    requires Inv(c, w) && SameBlock(w, 0)
    ensures var (w', o) := Collect(c, w, want, s);
      && (o.Timeout? <==> !exists i :: DrainedAt(c, w, s.polls, i))
      && (forall i :: DrainedAt(c, w, s.polls, i) ==> w' == AtPoll(c, w, s.polls, i))
  {
    hide WaitHead, Steps, Holds, Flatten, HostInv, AtPoll, U32At, DrainedAt, SameBlock;
    WaitInTime(c, w, s.polls);
    WaitMeansDrained(c, w, s.polls);
    var (w1, reached) := WaitHead(c, w, w.cur, s.polls);
    if reached {
      DrainedStaysPut(c, w1, s.beforeEcho);
      DrainedStaysPut(c, w1, s.beforeCopy);
    }
  }

  /** A call without reply succeeds exactly when some poll finds the ring drained. */
  lemma QuietCallInTime(c: Setup, w: World, cmd: seq<byte>, s: Schedule)
    requires Inv(c, w) && Space(c, w, |PadDword(cmd)|) && SameBlock(w, |PadDword(cmd)|)
    ensures FitsAlone(c, cmd)
    ensures var w1 := Submit(c, w, Command(PadDword(cmd), false));
      SubmitNoReply(c, w, cmd, s).1.Ok? <==> exists i :: DrainedAt(c, w1, s.polls, i)
  {
    hide WaitHead, Holds, HostInv, Flatten, Stored, Low32, PadDword, AtPoll;
    SubmitKeepsInv(c, w, Command(PadDword(cmd), false));
    WaitInTime(c, Submit(c, w, Command(PadDword(cmd), false)), s.polls);
  }

  // ---- whole runs --------------------------------------------------------------------

  datatype Call = WithReply(want: int, cmd: seq<byte>) | WithoutReply(cmd: seq<byte>)

  /** The call's bytes fit the buffer. */
  predicate CallFits(c: Setup, call: Call) {
    CallBytes(call) <= c.size
  }

  /** The bytes a call puts in the ring. */
  function CallBytes(call: Call): (n: nat) {
    if call.WithReply? then ReplyCallBytes(call.cmd) else |PadDword(call.cmd)|
  }

  function Apply(c: Setup, w: World, call: Call, s: Schedule): (r: (World, Outcome))
    requires Shaped(c, w) && CallFits(c, call)
    ensures Shaped(c, r.0)
  {
    match call
    case WithReply(want, cmd) => SubmitWithReply(c, w, want, cmd, s)
    case WithoutReply(cmd) => SubmitNoReply(c, w, cmd, s)
  }

  /** The driver's walk: the calls in order, stopping at the first that fails. */
  function Run(c: Setup, w: World, calls: seq<Call>, ss: seq<Schedule>): (r: (World, seq<Outcome>))
    requires Shaped(c, w) && |ss| == |calls|
    requires forall i :: 0 <= i < |calls| ==> CallFits(c, calls[i])
    ensures |r.1| <= |calls|
    decreases |calls|
  {
    if calls == [] then (w, [])
    else
      var (w1, o) := Apply(c, w, calls[0], ss[0]);
      if !o.Ok? then (w1, [o])
      else
        var (w2, os) := Run(c, w1, calls[1..], ss[1..]);
        (w2, [o] + os)
  }

  /** The commands one call puts in the ring. */
  function Commands(c: Setup, call: Call): (q: seq<Command>)
    requires c.replySize < TWO64
  {
    match call
    case WithReply(_, cmd) => [SetReply(c)] + Queued(cmd, true)
    case WithoutReply(cmd) => Queued(cmd, false)
  }

  function AllCommands(c: Setup, calls: seq<Call>): (q: seq<Command>)
    requires c.replySize < TWO64
  {
    if calls == [] then [] else Commands(c, calls[0]) + AllCommands(c, calls[1..])
  }

  /** No call's bytes reach across a multiple of 2^32 of the stream, from `total` bytes on. The run as a
      whole may be of any length. */
  predicate NoCrossing(total: nat, calls: seq<Call>)
    decreases |calls|
  {
    calls != [] ==>
      && total / TWO32 == (total + CallBytes(calls[0])) / TWO32
      && NoCrossing(total + CallBytes(calls[0]), calls[1..])
  }

  /** Bytes a whole run puts in the ring. */
  function Total(calls: seq<Call>): (n: nat) {
    if calls == [] then 0 else CallBytes(calls[0]) + Total(calls[1..])
  }

  /** In particular nothing crosses while all bytes together stay below 2^32. */
  lemma {:induction false} ShortRunsDoNotCross(total: nat, calls: seq<Call>)
    requires total + Total(calls) < TWO32
    ensures NoCrossing(total, calls)
    decreases |calls|
  {
    hide CallBytes;
    if calls != [] {
      ShortRunsDoNotCross(total + CallBytes(calls[0]), calls[1..]);
    }
  }

  /** Where in the host's log the reply to call i belongs, in a run whose first command gets index `base`. */
  function ReplyIndex(c: Setup, base: nat, calls: seq<Call>, i: nat): (k: nat)
    requires c.replySize < TWO64 && i < |calls|
    decreases i
  {
    if i == 0 then base + 1 else ReplyIndex(c, base + |Commands(c, calls[0])|, calls[1..], i - 1)
  }

  /** Every answered call has its own command's reply. */
  ghost predicate Answered(c: Setup, w: World, base: nat, calls: seq<Call>, os: seq<Outcome>)
    requires 4 <= c.replySize < TWO64 && |os| <= |calls|
  {
    forall i :: 0 <= i < |os| && calls[i].WithReply? && !os[i].Timeout? ==>
      Verdict(c, w, os[i], calls[i].want, ReplyIndex(c, base, calls, i))
  }

  lemma CallAdvances(c: Setup, w: World, call: Call, s: Schedule)
    requires Inv(c, w) && Drained(w) && CallFits(c, call) && SameBlock(w, CallBytes(call))
    requires call.WithReply? ==> call.want != NO_REPLY_TYPE
    ensures var (w', o) := Apply(c, w, call, s);
      && Inv(c, w')
      && w'.host.queue == w.host.queue + Commands(c, call)
      && w.host.log <= w'.host.log
      && (!o.Timeout? ==> Drained(w'))
      && (call.WithReply? ==> Answers(c, w', o, call.want, |w.host.queue| + 1))
      && |Flatten(w'.host.queue)| == |Flatten(w.host.queue)| + CallBytes(call)
  {
    hide SubmitWithReply, SubmitNoReply, Flatten, Holds, HostInv, Verdict, Queued, SetReply, Settled;
    match call {
      case WithReply(want, cmd) =>
        DrainedIsSettled(c, w);
        CallIsFresh(c, w, want, cmd, s);
        assert w.host.queue + [SetReply(c)] + Queued(cmd, true) == w.host.queue + ([SetReply(c)] + Queued(cmd, true));
        AppendsOne(w.host.queue, SetReply(c));
        AppendsQueued(w.host.queue + [SetReply(c)], cmd, true);
      case WithoutReply(cmd) =>
        QuietCallDrains(c, w, cmd, s);
        AppendsQueued(w.host.queue, cmd, false);
    }
  }

  /** A verdict about a logged command stays true while the log grows. */
  lemma VerdictStays(c: Setup, w: World, w': World, o: Outcome, want: int, k: nat)
    requires 4 <= c.replySize && Verdict(c, w, o, want, k) && w.host.log <= w'.host.log && o.Ok?
    ensures Verdict(c, w', o, want, k)
  {
  }

  /** What a run from host state `h` to `w'` guarantees: the host saw every command byte for byte, only the last
      call can have failed, the ring is drained unless that call timed out, and every call that came
      back has the reply logged for its own command. */
  ghost predicate RunFresh(c: Setup, h: Host, w': World, calls: seq<Call>, os: seq<Outcome>)
    requires 4 <= c.replySize < TWO64
  {
    && Inv(c, w')
    && h.log <= w'.host.log
    && |os| <= |calls|
    && w'.host.queue == h.queue + AllCommands(c, calls[..|os|])
    && (forall i :: 0 <= i < |os| - 1 ==> os[i].Ok?)
    && (|os| == |calls| || (os != [] && !os[|os| - 1].Ok?))
    && (os == [] || !os[|os| - 1].Timeout? ==> Drained(w'))
    && Answered(c, w', |h.queue|, calls, os)
  }

  lemma AnsweredCons(c: Setup, w: World, base: nat, calls: seq<Call>, o: Outcome, os: seq<Outcome>)
    requires 4 <= c.replySize < TWO64 && calls != [] && |os| < |calls|
    requires calls[0].WithReply? && !o.Timeout? ==> Verdict(c, w, o, calls[0].want, base + 1)
    requires Answered(c, w, base + |Commands(c, calls[0])|, calls[1..], os)
    ensures Answered(c, w, base, calls, [o] + os)
  {
    hide Verdict, Commands;
    var os' := [o] + os;
    forall i | 0 <= i < |os'| && calls[i].WithReply? && !os'[i].Timeout?
      ensures Verdict(c, w, os'[i], calls[i].want, ReplyIndex(c, base, calls, i))
    {
      if i > 0 {
        assert os'[i] == os[i - 1] && calls[i] == calls[1..][i - 1];
      }
    }
  }

  lemma RunFreshNone(c: Setup, w: World)
    requires Inv(c, w) && Drained(w)
    ensures RunFresh(c, w.host, w, [], [])
  {
    hide Inv, Flatten;
    assert w.host.queue + [] == w.host.queue;
  }

  /** A call that succeeded, before a run. */
  lemma RunFreshCons(c: Setup, h: Host, w1: World, w': World, calls: seq<Call>, o: Outcome, os: seq<Outcome>)
    requires 4 <= c.replySize < TWO64 && calls != [] && o.Ok?
    requires h.log <= w1.host.log && w1.host.queue == h.queue + Commands(c, calls[0])
    requires calls[0].WithReply? ==> Verdict(c, w1, o, calls[0].want, |h.queue| + 1)
    requires RunFresh(c, w1.host, w', calls[1..], os)
    ensures RunFresh(c, h, w', calls, [o] + os)
  {
    hide Inv, Verdict, Commands, Answered, Flatten;
    var all := [o] + os;
    assert calls[..|all|][1..] == calls[1..][..|os|];
    assert h.queue + (Commands(c, calls[0]) + AllCommands(c, calls[1..][..|os|])) == w'.host.queue;
    if calls[0].WithReply? {
      VerdictStays(c, w1, w', o, calls[0].want, |h.queue| + 1);
    }
    AnsweredCons(c, w', |h.queue|, calls, o, os);
  }

  /** A call that failed, as a whole run. */
  lemma RunFreshStop(c: Setup, h: Host, w': World, calls: seq<Call>, o: Outcome)
    requires 4 <= c.replySize < TWO64 && calls != [] && !o.Ok? && Inv(c, w')
    requires h.log <= w'.host.log && w'.host.queue == h.queue + Commands(c, calls[0])
    requires calls[0].WithReply? ==> Answers(c, w', o, calls[0].want, |h.queue| + 1)
    requires !o.Timeout? ==> Drained(w')
    ensures RunFresh(c, h, w', calls, [o])
  {
    hide Inv, Verdict, Commands, Flatten;
    assert calls[..1] == [calls[0]];
    assert AllCommands(c, [calls[0]]) == Commands(c, calls[0]) + [];
  }

  /** Every run from a drained ring that stops at its first failure, whatever the host's schedule and
      however long. */
  lemma {:induction false} RunIsFresh(c: Setup, w: World, calls: seq<Call>, ss: seq<Schedule>)
    requires Inv(c, w) && Drained(w) && |ss| == |calls|
    requires forall i :: 0 <= i < |calls| ==> CallFits(c, calls[i])
    requires forall i :: 0 <= i < |calls| && calls[i].WithReply? ==> calls[i].want != NO_REPLY_TYPE
    requires NoCrossing(|Flatten(w.host.queue)|, calls)
    ensures var (w', os) := Run(c, w, calls, ss); RunFresh(c, w.host, w', calls, os)
    decreases |calls|
  {
    hide Apply, Flatten, Holds, HostInv, Verdict, Commands, CallFits, CallBytes, RunFresh;
    if calls == [] {
      RunFreshNone(c, w);
    } else {
      CallAdvances(c, w, calls[0], ss[0]);
      var (w1, o) := Apply(c, w, calls[0], ss[0]);
      if o.Ok? {
        RunIsFresh(c, w1, calls[1..], ss[1..]);
        var (w', os) := Run(c, w1, calls[1..], ss[1..]);
        RunFreshCons(c, w.host, w1, w', calls, o, os);
      } else {
        RunFreshStop(c, w.host, w1, calls, o);
      }
    }
  }

  const NEW_HOST := Host([], 0, [], [], None, Idle)

  /** Bring-up leaves a zeroed ring and an untouched reply window. */
  lemma BringUp(c: Setup, mem: seq<byte>, reply: seq<byte>)
    requires GoodSize(c.size) && c.size > 0 && |mem| >= BUFFER_OFFSET + c.size
    requires HeadWord(mem) == TailWord(mem) == 0
    requires 4 <= c.replySize <= |reply| < TWO64
    ensures var w := World(mem, 0, reply, NEW_HOST); Inv(c, w) && Drained(w)
  {
  }
}
