/** Shared-memory layout of the Venus ring: three control words on their own
    cache lines, then the command buffer, then the extra region. */
module RingLayout {
  import opened Bytes

  const CACHE_LINE: nat := 64
  const HEAD_OFFSET: nat := 0
  const TAIL_OFFSET: nat := CACHE_LINE
  const STATUS_OFFSET: nat := 2 * CACHE_LINE
  const BUFFER_OFFSET: nat := 3 * CACHE_LINE
  const CONTROL_WORD: nat := 4

  datatype RingCreateInfo = RingCreateInfo(
    flags: u32, resourceID: u32, offset: u64, size: u64, idleTimeout: u64,
    headOffset: u64, tailOffset: u64, statusOffset: u64,
    bufferOffset: u64, bufferSize: u64, extraOffset: u64, extraSize: u64)

  datatype Region = Region(start: int, length: int)

  predicate Disjoint(a: Region, b: Region) {
    a.start + a.length <= b.start || b.start + b.length <= a.start
  }

  /** The regions a host derives from the create info. */
  function Regions(i: RingCreateInfo): (r: seq<Region>) {
    [Region(i.headOffset, CONTROL_WORD), Region(i.tailOffset, CONTROL_WORD), Region(i.statusOffset, CONTROL_WORD),
     Region(i.bufferOffset, i.bufferSize), Region(i.extraOffset, i.extraSize)]
  }

  function RingShmemSize(bufferSize: nat, extraSize: nat): (n: nat) {
    BUFFER_OFFSET + bufferSize + extraSize
  }

  /** The create info for a blob holding the ring at offset 0. Sizes are Go ints. */
  function RingCreateInfoForBlob(resID: u32, bufferSize: nat, extraSize: nat, idleTimeout: u64): (i: RingCreateInfo)
    requires RingShmemSize(bufferSize, extraSize) < 0x8000_0000_0000_0000
    ensures forall a, b :: 0 <= a < b < 5 ==> Disjoint(Regions(i)[a], Regions(i)[b])
    ensures forall a :: 0 <= a < 5 ==> 0 <= Regions(i)[a].start && Regions(i)[a].start + Regions(i)[a].length <= i.size
    ensures Regions(i)[4].start == Regions(i)[3].start + Regions(i)[3].length
    ensures i.size == i.extraOffset as int + i.extraSize as int
  {
    RingCreateInfo(0, resID, 0, RingShmemSize(bufferSize, extraSize), idleTimeout,
                   HEAD_OFFSET, TAIL_OFFSET, STATUS_OFFSET,
                   BUFFER_OFFSET, bufferSize, BUFFER_OFFSET + bufferSize, extraSize)
  }
}

/** The ring as an image of its shared memory. The control words are 32-bit;
    the unbounded history `sent` and the unbounded `head` say what they mean. */
module Ring {
  import opened Bytes
  import opened Arith
  import opened RingLayout

  /** "bufferSize must be a power of two"; cursors are 32-bit. */
  ghost predicate GoodSize(size: nat) {
    PowerOfTwo(size) && size <= 0x8000_0000
  }

  function HeadWord(mem: seq<byte>): (v: u32) requires |mem| >= BUFFER_OFFSET { U32At(mem, HEAD_OFFSET) }

  function TailWord(mem: seq<byte>): (v: u32) requires |mem| >= BUFFER_OFFSET { U32At(mem, TAIL_OFFSET) }

  /** How far slot `x` lies beyond slot `start`, going round the buffer. */
  function Beyond(x: nat, start: nat, size: nat): (d: int) {
    if x >= start then x - start else x + size - start
  }

  /** What one write of `cmd` at cursor `cur` leaves in memory: byte i of the
      command at the i-th slot after `cur`, and the tail word past it. */
  function Stored(mem: seq<byte>, size: nat, cur: u32, cmd: seq<byte>): (mem': seq<byte>)
    requires size > 0 && |mem| >= BUFFER_OFFSET + size && |cmd| <= size
    ensures |mem'| == |mem|
  {
    seq(|mem|, k requires 0 <= k < |mem| =>
      if TAIL_OFFSET <= k < TAIL_OFFSET + CONTROL_WORD then Le32(Low32(cur as int + |cmd|))[k - TAIL_OFFSET]
      else if BUFFER_OFFSET <= k < BUFFER_OFFSET + size && Beyond(k - BUFFER_OFFSET, cur % size, size) < |cmd|
      then cmd[Beyond(k - BUFFER_OFFSET, cur % size, size)]
      else mem[k])
  }

  /** The host's store to the head word. */
  function WithHead(mem: seq<byte>, v: u32): (mem': seq<byte>)
    requires |mem| >= BUFFER_OFFSET
    ensures |mem'| == |mem| && HeadWord(mem') == v && TailWord(mem') == TailWord(mem)
    ensures mem'[CONTROL_WORD..] == mem[CONTROL_WORD..]
  {
    var r := Le32(v) + mem[4..];
    assert r[0..4] == Le32(v);
    Le32At(r, 0, v);
    assert r[4..] == mem[4..];
    assert forall k :: 4 <= k < |mem| ==> r[k] == mem[k];
    r
  }

  /** What the host fetches: n bytes at masked positions from cursor `from`. */
  function Fetch(mem: seq<byte>, size: nat, from: u32, n: nat): (s: seq<byte>)
    requires size > 0 && |mem| >= BUFFER_OFFSET + size
    ensures |s| == n
  {
    seq(n, i requires 0 <= i < n => var p := Low32(from as int + i) as int % size; mem[BUFFER_OFFSET + p])
  }

  /** Bytes between the two control words, as either side computes it. */
  function Unread(mem: seq<byte>): (n: u32)
    requires |mem| >= BUFFER_OFFSET
  {
    Low32(TailWord(mem) as int - HeadWord(mem) as int)
  }

  /** Memory represents: everything in `sent` submitted, the first `head` bytes released. */
  ghost predicate Holds(mem: seq<byte>, size: nat, sent: seq<byte>, head: nat) {
    && GoodSize(size)
    && |mem| >= BUFFER_OFFSET + size
    && head <= |sent| <= head + size
    && HeadWord(mem) == Low32(head)
    && TailWord(mem) == Low32(|sent|)
    && forall k :: head <= k < |sent| ==> mem[BUFFER_OFFSET + k % size] == sent[k]
  }

  lemma SlotDistance(k: nat, h: nat, size: nat)
    requires size > 0 && h <= k < h + size
    ensures Beyond(k % size, h % size, size) == k - h
  {
    var q, s := h / size, h % size;
    assert h == q * size + s;
    if s + (k - h) < size {
      ModUnique(k, size, q, s + (k - h));
    } else {
      assert k == (q + 1) * size + (s + (k - h) - size);
      ModUnique(k, size, q + 1, s + (k - h) - size);
    }
  }

  lemma SlotDistanceBack(k: nat, h: nat, size: nat)
    requires size > 0 && k < h <= k + size
    ensures Beyond(k % size, h % size, size) == k + size - h
  {
    assert (k + size) % size == k % size by {
      ModUnique(k + size, size, k / size + 1, k % size);
    }
    SlotDistance(k + size, h, size);
  }

  /** The 32-bit cursor and the unbounded position fall on the same slot. */
  lemma CursorSlot(pos: nat, size: nat)
    requires GoodSize(size)
    ensures size > 0 && Low32(pos) as int % size == pos % size
  {
    var c := DividesTwo32(size);
    ModOfMod(pos, size, c);
  }

  lemma StoredTail(mem: seq<byte>, size: nat, cur: u32, cmd: seq<byte>)
    requires size > 0 && |mem| >= BUFFER_OFFSET + size && |cmd| <= size
    ensures var mem' := Stored(mem, size, cur, cmd);
      && TailWord(mem') == Low32(cur as int + |cmd|)
      && HeadWord(mem') == HeadWord(mem)
  {
    var mem' := Stored(mem, size, cur, cmd);
    assert mem'[TAIL_OFFSET..TAIL_OFFSET + 4] == Le32(Low32(cur as int + |cmd|));
    Le32At(mem', TAIL_OFFSET, Low32(cur as int + |cmd|));
  }

  lemma LowAdd(a: int, n: int)
    ensures Low32(Low32(a) as int + n) == Low32(a + n)
  {
  }

  lemma LowDifference(a: int, b: int)
    requires 0 <= a - b < TWO32
    ensures Low32(Low32(a) as int - Low32(b) as int) == a - b
  {
  }

  /** Until the tail is stored the new bytes are invisible: the copy touches no unread slot. */
  lemma CopyMissesUnread(mem: seq<byte>, size: nat, sent: seq<byte>, head: nat, cmd: seq<byte>, k: nat)
    requires Holds(mem, size, sent, head)
    requires |sent| - head + |cmd| <= size
    requires head <= k < |sent|
    ensures Stored(mem, size, Low32(|sent|), cmd)[BUFFER_OFFSET + k % size] == mem[BUFFER_OFFSET + k % size]
  {
    CursorSlot(|sent|, size);
    SlotDistanceBack(k, |sent|, size);
  }

  lemma CopyPlaces(mem: seq<byte>, size: nat, pos: nat, cmd: seq<byte>, k: nat)
    requires GoodSize(size) && size > 0 && |mem| >= BUFFER_OFFSET + size && |cmd| <= size
    requires pos <= k < pos + |cmd|
    ensures Stored(mem, size, Low32(pos), cmd)[BUFFER_OFFSET + k % size] == cmd[k - pos]
  {
    CursorSlot(pos, size);
    SlotDistance(k, pos, size);
  }

  /** A submit with room for it appends to the history, also across the end of the
      buffer and across the end of the 32-bit cursor range. */
  lemma SubmitAppends(mem: seq<byte>, size: nat, sent: seq<byte>, head: nat, cmd: seq<byte>)
    requires Holds(mem, size, sent, head)
    requires |sent| - head + |cmd| <= size
    ensures Holds(Stored(mem, size, Low32(|sent|), cmd), size, sent + cmd, head)
  {
    var all := sent + cmd;
    var mem' := Stored(mem, size, Low32(|sent|), cmd);
    StoredTail(mem, size, Low32(|sent|), cmd);
    LowAdd(|sent|, |cmd|);
    forall k | head <= k < |all| ensures mem'[BUFFER_OFFSET + k % size] == all[k] {
      if k < |sent| {
        CopyMissesUnread(mem, size, sent, head, cmd, k);
      } else {
        CopyPlaces(mem, size, |sent|, cmd, k);
      }
    }
  }

  lemma FetchAt(mem: seq<byte>, size: nat, from: nat, n: nat, i: nat)
    requires GoodSize(size) && size > 0 && |mem| >= BUFFER_OFFSET + size && i < n
    ensures Fetch(mem, size, Low32(from), n)[i] == mem[BUFFER_OFFSET + (from + i) % size]
  {
    LowAdd(from, i);
    CursorSlot(from + i, size);
  }

  lemma OldestSlot(mem: seq<byte>, size: nat, pos: nat, head: nat, cmd: seq<byte>)
    requires GoodSize(size) && size > 0 && |mem| >= BUFFER_OFFSET + size
    requires |cmd| <= size < pos - head + |cmd| && head < pos <= head + size
    ensures Stored(mem, size, Low32(pos), cmd)[BUFFER_OFFSET + head % size] == cmd[head + size - pos]
  {
    CursorSlot(pos, size);
    SlotDistanceBack(head, pos, size);
  }

  /** The guard is the weakest one on lengths: with too little room, some command of
      that very length destroys the oldest unread byte. */
  lemma OverrunDestroys(mem: seq<byte>, size: nat, sent: seq<byte>, head: nat, cmd: seq<byte>)
    requires Holds(mem, size, sent, head)
    requires |cmd| <= size < |sent| - head + |cmd|
    requires forall i :: 0 <= i < |cmd| ==> cmd[i] != sent[head]
    ensures Fetch(Stored(mem, size, Low32(|sent|), cmd), size, Low32(head), 1) != [sent[head]]
  {
    var mem' := Stored(mem, size, Low32(|sent|), cmd);
    FetchAt(mem', size, head, 1, 0);
    OldestSlot(mem, size, |sent|, head, cmd);
  }

  lemma AdvanceReleases(mem: seq<byte>, size: nat, sent: seq<byte>, head: nat, head': nat)
    requires Holds(mem, size, sent, head)
    requires head <= head' <= |sent|
    ensures Holds(WithHead(mem, Low32(head')), size, sent, head')
  {
    var mem' := WithHead(mem, Low32(head'));
    forall k | head' <= k < |sent| ensures mem'[BUFFER_OFFSET + k % size] == sent[k] {
      assert mem'[BUFFER_OFFSET + k % size] == mem'[CONTROL_WORD..][BUFFER_OFFSET + k % size - CONTROL_WORD];
    }
  }

  /** Both sides compute the true number of unread bytes, whatever wrapped. */
  lemma UnreadExact(mem: seq<byte>, size: nat, sent: seq<byte>, head: nat)
    requires Holds(mem, size, sent, head)
    ensures Unread(mem) == |sent| - head
  {
    LowDifference(|sent|, head);
  }

  /** The host fetches exactly what was sent, from any unreleased position. */
  lemma FetchIsSent(mem: seq<byte>, size: nat, sent: seq<byte>, head: nat, from: nat, n: nat)
    requires Holds(mem, size, sent, head)
    requires head <= from && from + n <= |sent|
    ensures size > 0 && Fetch(mem, size, Low32(from), n) == sent[from..from + n]
  {
    var s := Fetch(mem, size, Low32(from), n);
    forall i | 0 <= i < n ensures s[i] == sent[from..from + n][i] {
      FetchAt(mem, size, from, n, i);
      assert sent[from + i] == mem[BUFFER_OFFSET + (from + i) % size];
    }
  }
}

/** What the create info tells the host about the guest's memory. */
module RingSetup {
  import opened Bytes
  import opened RingLayout
  import opened Ring

  /** Following the offsets of the create info the host reads the guest's own head and tail words
      and fetches from the guest's own buffer; the extra region is what is left. */
  lemma HostFindsTheRing(resID: u32, bufferSize: nat, extraSize: nat, idle: u64, mem: seq<byte>, from: u32, n: nat)
    requires GoodSize(bufferSize) && bufferSize > 0
    requires RingShmemSize(bufferSize, extraSize) == |mem| < 0x8000_0000_0000_0000
    ensures var i := RingCreateInfoForBlob(resID, bufferSize, extraSize, idle);
      && i.resourceID == resID && i.flags == 0 && i.offset == 0 && i.idleTimeout == idle && i.size == |mem|
      && i.headOffset == 0 && i.tailOffset == 64 && i.statusOffset == 128 && i.bufferOffset == 192
      && i.bufferSize == bufferSize && i.extraOffset == 192 + bufferSize && i.extraSize == extraSize
      && U32At(mem, i.headOffset) == HeadWord(mem) && U32At(mem, i.tailOffset) == TailWord(mem)
      && Fetch(mem, bufferSize, from, n) ==
         seq(n, k requires 0 <= k < n =>
           var p := Low32(from as int + k) as int % i.bufferSize; mem[i.bufferOffset as int + p])
  {
    hide U32At, Low32;
  }

  /** The tail word after a run of writes. */
  function CursorAfter(cur: u32, cmds: seq<seq<byte>>): (c: u32)
    decreases |cmds|
  {
    if cmds == [] then cur else CursorAfter(Low32(cur as int + |cmds[0]|), cmds[1..])
  }

  function StoredAll(mem: seq<byte>, size: nat, cur: u32, cmds: seq<seq<byte>>): (mem': seq<byte>)
    requires size > 0 && |mem| >= BUFFER_OFFSET + size
    requires forall i :: 0 <= i < |cmds| ==> |cmds[i]| <= size
    ensures |mem'| == |mem|
    decreases |cmds|
  {
    if cmds == [] then mem
    else StoredAll(Stored(mem, size, cur, cmds[0]), size, Low32(cur as int + |cmds[0]|), cmds[1..])
  }

  /** Over every sequence of writes of at most the buffer's size, head, status and the extra region
      never change, and the tail ends past everything written. */
  lemma {:induction false} WritesKeepTheRest(mem: seq<byte>, size: nat, cur: u32, cmds: seq<seq<byte>>)
    requires size > 0 && |mem| >= BUFFER_OFFSET + size
    requires forall i :: 0 <= i < |cmds| ==> |cmds[i]| <= size
    ensures var mem' := StoredAll(mem, size, cur, cmds);
      && mem'[..TAIL_OFFSET] == mem[..TAIL_OFFSET]
      && mem'[TAIL_OFFSET + CONTROL_WORD..BUFFER_OFFSET] == mem[TAIL_OFFSET + CONTROL_WORD..BUFFER_OFFSET]
      && mem'[BUFFER_OFFSET + size..] == mem[BUFFER_OFFSET + size..]
      && (cmds != [] ==> TailWord(mem') == CursorAfter(cur, cmds))
    decreases |cmds|
  {
    hide Stored, Low32, TailWord;
    if cmds != [] {
      WriteKeepsTheRest(mem, size, cur, cmds[0]);
      StoredTail(mem, size, cur, cmds[0]);
      WritesKeepTheRest(Stored(mem, size, cur, cmds[0]), size, Low32(cur as int + |cmds[0]|), cmds[1..]);
    }
  }

  lemma WriteKeepsTheRest(mem: seq<byte>, size: nat, cur: u32, cmd: seq<byte>)
    requires size > 0 && |mem| >= BUFFER_OFFSET + size && |cmd| <= size
    ensures var mem' := Stored(mem, size, cur, cmd);
      && mem'[..TAIL_OFFSET] == mem[..TAIL_OFFSET]
      && mem'[TAIL_OFFSET + CONTROL_WORD..BUFFER_OFFSET] == mem[TAIL_OFFSET + CONTROL_WORD..BUFFER_OFFSET]
      && mem'[BUFFER_OFFSET + size..] == mem[BUFFER_OFFSET + size..]
  {
    hide Le32, Low32;
  }
}

/** Producer and consumer in any order: the ring is a FIFO of bytes. */
module RingFifo {
  import opened Bytes
  import opened RingLayout
  import opened Ring

  datatype Step = Submit(cmd: seq<byte>) | Consume(n: nat)

  /** `read` collects what the host fetched from memory. */
  datatype System = System(mem: seq<byte>, cur: u32, read: seq<byte>)

  /** A submit with room, or a consume of bytes that are there: both decidable from memory alone. */
  predicate Enabled(s: System, size: nat, step: Step)
    requires |s.mem| >= BUFFER_OFFSET
  {
    match step
    case Submit(cmd) => Unread(s.mem) as int + |cmd| <= size
    case Consume(n) => n <= Unread(s.mem)
  }

  function Apply(s: System, size: nat, step: Step): (s': System)
    requires size > 0 && |s.mem| >= BUFFER_OFFSET + size
    requires Enabled(s, size, step)
    ensures |s'.mem| == |s.mem|
  {
    match step
    case Submit(cmd) =>
      s.(mem := Stored(s.mem, size, s.cur, cmd), cur := Low32(s.cur as int + |cmd|))
    case Consume(n) =>
      var head := HeadWord(s.mem);
      s.(mem := WithHead(s.mem, Low32(head as int + n)), read := s.read + Fetch(s.mem, size, head, n))
  }

  ghost predicate Run(s: System, size: nat, steps: seq<Step>, s': System)
    requires size > 0 && |s.mem| >= BUFFER_OFFSET + size
    decreases |steps|
  {
    if steps == [] then s' == s
    else Enabled(s, size, steps[0]) && Run(Apply(s, size, steps[0]), size, steps[1..], s')
  }

  /** The concatenation of all submitted commands. */
  function Submitted(steps: seq<Step>): (all: seq<byte>) {
    if steps == [] then []
    else Contribution(steps[0]) + Submitted(steps[1..])
  }

  ghost predicate Inv(s: System, size: nat, sent: seq<byte>) {
    && Holds(s.mem, size, sent, |s.read|)
    && s.cur == Low32(|sent|)
    && s.read == sent[..|s.read|]
  }

  function Contribution(step: Step): (s: seq<byte>) {
    if step.Submit? then step.cmd else []
  }

  lemma SubmitKeeps(s: System, size: nat, sent: seq<byte>, cmd: seq<byte>)
    requires Inv(s, size, sent) && size > 0 && Enabled(s, size, Submit(cmd))
    ensures Inv(Apply(s, size, Submit(cmd)), size, sent + cmd)
  {
    UnreadExact(s.mem, size, sent, |s.read|);
    SubmitAppends(s.mem, size, sent, |s.read|, cmd);
    LowAdd(|sent|, |cmd|);
  }

  lemma ConsumeKeeps(s: System, size: nat, sent: seq<byte>, n: nat)
    requires Inv(s, size, sent) && size > 0 && Enabled(s, size, Consume(n))
    ensures Inv(Apply(s, size, Consume(n)), size, sent)
  {
    hide Fetch, WithHead, Low32, HeadWord, TailWord, Unread;
    var h := |s.read|;
    UnreadExact(s.mem, size, sent, h);
    FetchIsSent(s.mem, size, sent, h, h, n);
    AdvanceReleases(s.mem, size, sent, h, h + n);
    LowAdd(h, n);
    assert s.read + sent[h..h + n] == sent[..h + n];
  }

  lemma StepKeeps(s: System, size: nat, sent: seq<byte>, step: Step)
    requires Inv(s, size, sent) && size > 0 && Enabled(s, size, step)
    ensures Inv(Apply(s, size, step), size, sent + Contribution(step))
  {
    match step
    case Submit(cmd) => SubmitKeeps(s, size, sent, cmd);
    case Consume(n) => ConsumeKeeps(s, size, sent, n); assert sent + [] == sent;
  }

  lemma SubmittedUnfolds(sent: seq<byte>, steps: seq<Step>)
    ensures steps == [] ==> sent + Submitted(steps) == sent
    ensures steps != [] ==> sent + Submitted(steps) == sent + Contribution(steps[0]) + Submitted(steps[1..])
  {
  }

  lemma {:induction false} RunKeeps(s: System, size: nat, sent: seq<byte>, steps: seq<Step>, s': System)
    requires Inv(s, size, sent) && size > 0 && Run(s, size, steps, s')
    ensures Inv(s', size, sent + Submitted(steps))
    decreases |steps|
  {
    SubmittedUnfolds(sent, steps);
    if steps != [] {
      var step, rest := steps[0], steps[1..];
      StepKeeps(s, size, sent, step);
      RunKeeps(Apply(s, size, step), size, sent + Contribution(step), rest, s');
    }
  }

  lemma InvMeansFifo(s: System, size: nat, sent: seq<byte>)
    requires Inv(s, size, sent) && size > 0
    ensures s.read <= sent && s.read + Fetch(s.mem, size, HeadWord(s.mem), Unread(s.mem)) == sent
  {
    var h := |s.read|;
    UnreadExact(s.mem, size, sent, h);
    FetchIsSent(s.mem, size, sent, h, h, |sent| - h);
    assert sent[..h] + sent[h..] == sent;
  }

  /** For every interleaving from the zeroed ring in which unread bytes never exceed the
      buffer, what the host read is a prefix of everything submitted, and the rest is still there. */
  lemma FifoForEveryRun(s: System, size: nat, steps: seq<Step>, s': System)
    requires GoodSize(size) && |s.mem| >= BUFFER_OFFSET + size
    requires HeadWord(s.mem) == TailWord(s.mem) == s.cur == 0 && s.read == []
    requires size > 0 && Run(s, size, steps, s')
    ensures |s'.mem| >= BUFFER_OFFSET + size
    ensures s'.read <= Submitted(steps)
    ensures s'.read + Fetch(s'.mem, size, HeadWord(s'.mem), Unread(s'.mem)) == Submitted(steps)
  {
    assert Inv(s, size, []);
    RunKeeps(s, size, [], steps, s');
    assert [] + Submitted(steps) == Submitted(steps);
    InvMeansFifo(s', size, Submitted(steps));
  }
}
