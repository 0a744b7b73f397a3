/** The conditions of the reply protocol are exact. Wherever one of them fails, the host has a
    schedule, allowed by everything the driver assumes of it, that makes the call's answer wrong. */
module ReplyLimits {
  import opened Bytes
  import opened RingLayout
  import opened Ring
  import opened CommandStream
  import opened ReplyProtocol

  // ---- steering the host ---------------------------------------------------------

  /** Some moves of the host lead from w to w'. */
  ghost predicate Reaches(c: Setup, w: World, w': World)
    requires Shaped(c, w)
  {
    exists ms :: Steps(c, w, ms) == w'
  }

  lemma {:induction false} StepsConcat(c: Setup, w: World, a: seq<Move>, b: seq<Move>)
    requires Shaped(c, w)
    ensures Steps(c, w, a + b) == Steps(c, Steps(c, w, a), b)
    decreases |a|
  {
    hide Step;
    if a == [] {
      assert a + b == b;
    } else {
      assert (a + b)[1..] == a[1..] + b;
      StepsConcat(c, Step(c, w, a[0]), a[1..], b);
    }
  }

  lemma ReachesSelf(c: Setup, w: World)
    requires Inv(c, w)
    ensures Reaches(c, w, w)
  {
    assert Steps(c, w, []) == w;
  }

  lemma ReachesStep(c: Setup, w: World, m: Move)
    requires Inv(c, w)
    ensures Reaches(c, w, Step(c, w, m)) && Inv(c, Step(c, w, m))
  {
    hide Step, HostInv, Holds;
    StepKeepsInv(c, w, m);
    assert Steps(c, w, [m]) == Steps(c, Step(c, w, m), [m][1..]) == Step(c, w, m);
  }

  lemma ReachesOn(c: Setup, a: World, b: World, d: World)
    requires Inv(c, a) && Reaches(c, a, b) && Shaped(c, b) && Reaches(c, b, d)
    ensures Reaches(c, a, d)
  {
    hide Steps, HostInv, Holds;
    var ms :| Steps(c, a, ms) == b;
    var ns :| Steps(c, b, ns) == d;
    StepsConcat(c, a, ms, ns);
  }

  /** `s` with `bs` written from offset o on. */
  function Overwrite(s: seq<byte>, o: nat, bs: seq<byte>): (r: seq<byte>)
    requires o + |bs| <= |s|
    ensures |r| == |s|
  {
    s[..o] + bs + s[o + |bs|..]
  }

  /** The busy host writes `bs` behind what it has written. */
  lemma {:induction false} Writes(c: Setup, w: World, bs: seq<byte>) returns (w': World)
    requires Inv(c, w) && w.host.activity.Busy? && w.host.queue[|w.host.log|].wantsReply
    requires |w.host.activity.written| + |bs| <= c.replySize
    ensures Reaches(c, w, w') && Inv(c, w')
    ensures var p := w.host.activity.written;
      w' == w.(reply := Overwrite(w.reply, |p|, bs), host := w.host.(activity := Busy(p + bs)))
    decreases |bs|
  {
    hide Steps, Step, HostInv, Holds, Reaches;
    var p := w.host.activity.written;
    if bs == [] {
      assert p + bs == p && Overwrite(w.reply, |p|, bs) == w.reply;
      ReachesSelf(c, w);
      w' := w;
    } else {
      RepliesLandInWindow(c, w, bs[0]);
      ReachesStep(c, w, WriteByte(bs[0]));
      var w1 := Step(c, w, WriteByte(bs[0]));
      w' := Writes(c, w1, bs[1..]);
      ReachesOn(c, w, w1, w');
      assert p + [bs[0]] + bs[1..] == p + bs;
      assert Overwrite(w.reply[|p| := bs[0]], |p| + 1, bs[1..]) == Overwrite(w.reply, |p|, bs);
    }
  }

  /** The host takes up its next command. */
  lemma Begins(c: Setup, w: World) returns (w': World)
    requires Inv(c, w) && w.host.activity.Idle? && |w.host.log| < |w.host.queue|
    ensures Reaches(c, w, w') && Inv(c, w')
    ensures w'.reply == w.reply && w'.host.queue == w.host.queue && w'.host.head == w.host.head
    ensures w'.host.log == w.host.log && w'.host.activity == Busy([])
  {
    hide Steps, HostInv, Holds, Reaches, Fetched;
    ReachesStep(c, w, Begin);
    w' := Step(c, w, Begin);
  }

  /** The host is done with its command. */
  lemma Finishes(c: Setup, w: World) returns (w': World)
    requires Inv(c, w) && w.host.activity.Busy?
    ensures Reaches(c, w, w') && Inv(c, w')
    ensures w'.reply == w.reply && w'.host.queue == w.host.queue && w'.host.head == w.host.head
    ensures w'.host.log == w.host.log + [w.host.activity.written] && w'.host.activity.Idle?
  {
    hide Steps, Holds, Reaches, Aimed, SetReply, Told, Start;
    ReachesStep(c, w, Finish);
    w' := Step(c, w, Finish);
  }

  /** The host gets to command i, writing nothing on the way. */
  lemma {:induction false} SkipTo(c: Setup, w: World, i: nat) returns (w': World)
    requires Inv(c, w) && |w.host.log| <= i <= |w.host.queue|
    requires w.host.activity.Busy? ==> |w.host.log| < i
    ensures Reaches(c, w, w') && Inv(c, w')
    ensures w'.reply == w.reply && w'.host.queue == w.host.queue && w'.host.head == w.host.head
    ensures |w'.host.log| == i && w.host.log <= w'.host.log && w'.host.activity.Idle?
    ensures forall j :: |w.host.log| <= j < i && (w.host.activity.Busy? ==> |w.host.log| < j) ==> w'.host.log[j] == []
    decreases i - |w.host.log|
  {
    hide Steps, HostInv, Holds, Reaches;
    if |w.host.log| == i {
      ReachesSelf(c, w);
      w' := w;
    } else {
      var w1 := w;
      if w.host.activity.Idle? {
        w1 := Begins(c, w);
      } else {
        ReachesSelf(c, w);
      }
      var w2 := Finishes(c, w1);
      ReachesOn(c, w, w1, w2);
      w' := SkipTo(c, w2, i);
      ReachesOn(c, w, w2, w');
    }
  }

  /** The host answers its next command with `bs`. */
  lemma Replies(c: Setup, w: World, bs: seq<byte>) returns (w': World)
    requires Inv(c, w) && w.host.activity.Idle? && |w.host.log| < |w.host.queue|
    requires w.host.queue[|w.host.log|].wantsReply && |bs| <= c.replySize
    ensures Reaches(c, w, w') && Inv(c, w')
    ensures w'.host.queue == w.host.queue && w'.host.head == w.host.head
    ensures w'.host.activity.Idle? && w'.host.log == w.host.log + [bs] && w'.reply == Overwrite(w.reply, 0, bs)
  {
    hide Steps, HostInv, Holds, Reaches, Overwrite;
    var w1 := Begins(c, w);
    var w2 := Writes(c, w1, bs);
    w' := Finishes(c, w2);
    ReachesOn(c, w, w1, w2);
    ReachesOn(c, w, w2, w');
    assert [] + bs == bs;
  }

  /** With every command finished the host releases everything. */
  lemma Drains(c: Setup, w: World) returns (w': World)
    requires Inv(c, w) && |w.host.log| == |w.host.queue|
    ensures Reaches(c, w, w') && Inv(c, w') && Drained(w')
    ensures w'.reply == w.reply && w'.host.queue == w.host.queue && w'.host.log == w.host.log
  {
    hide Steps, HostInv, Holds, Reaches, Flatten, WithHead;
    var q := w.host.queue;
    assert q[..|q|] == q;
    InvSpace(c, w);
    SpaceIsSmall(c, w, 0);
    var m := Advance(|Flatten(q)| - w.host.head);
    ReachesStep(c, w, m);
    w' := Step(c, w, m);
  }

  lemma InvSpace(c: Setup, w: World)
    requires Inv(c, w)
    ensures Space(c, w, 0)
  {
  }

  // ---- a call with an unhurried host ---------------------------------------------

  /** The host moves only while the guest sleeps. */
  function Unhurried(polls: seq<seq<Move>>): (s: Schedule) {
    Schedule([], [], polls, [], [])
  }

  lemma {:induction false} FillAlone(c: Setup, w: World, i: nat)
    requires Shaped(c, w) && i <= |w.reply| && w.reply[..i] == Sentinels(i)
    ensures Fill(c, w, i, []) == w.(reply := Sentinels(|w.reply|))
    decreases |w.reply| - i
  {
    if i == |w.reply| {
      assert w.reply[..i] == w.reply;
    } else {
      var w1 := w.(reply := w.reply[i := SENTINEL]);
      assert w1.reply[..i + 1] == Sentinels(i + 1);
      FillAlone(c, w1, i + 1);
    }
  }

  /** The world when both commands are in the ring and the host has not moved. */
  lemma PostAlone(c: Setup, w: World, cmd: seq<byte>) returns (w': World)
    requires Inv(c, w) && Space(c, w, ReplyCallBytes(cmd)) && PadDword(cmd) != []
    ensures Fits(c, cmd) && w' == PostBoth(c, w, cmd, []) && Inv(c, w')
    ensures w'.reply == w.reply && w'.host == w.host.(queue := w'.host.queue)
    ensures w'.host.queue == w.host.queue + [SetReply(c), Command(PadDword(cmd), true)]
    ensures SameBlock(w', 0) <==> SameBlock(w, ReplyCallBytes(cmd))
    ensures !Drained(w')
  {
    hide Holds, HostInv, Flatten, SetReply, Stored, PadDword;
    PostKeepsInv(c, w, cmd, []);
    w' := PostBoth(c, w, cmd, []);
    InvSpace(c, w);
    SpaceIsSmall(c, w, 0);
  }

  lemma CallAlone(c: Setup, w: World, want: int, cmd: seq<byte>) returns (w': World)
    requires Inv(c, w) && Space(c, w, ReplyCallBytes(cmd)) && PadDword(cmd) != []
    ensures Fits(c, cmd) && Inv(c, w')
    ensures forall polls ::
      SubmitWithReply(c, w, want, cmd, Unhurried(polls)) == Collect(c, w', want, Unhurried(polls))
    ensures w'.reply == Sentinels(|w.reply|) && w'.host == w.host.(queue := w'.host.queue)
    ensures w'.host.queue == w.host.queue + [SetReply(c), Command(PadDword(cmd), true)]
    ensures SameBlock(w', 0) <==> SameBlock(w, ReplyCallBytes(cmd))
    ensures !Drained(w')
  {
    hide Holds, HostInv, Flatten, SetReply, PadDword, Fill, PostBoth, Collect;
    assert w.reply[..0] == Sentinels(0);
    FillAlone(c, w, 0);
    w' := PostAlone(c, w.(reply := Sentinels(|w.reply|)), cmd);
  }

  function EchoOutcome(c: Setup, w: World, want: int): (o: Outcome)
    requires Shaped(c, w)
  {
    if Int32(U32At(w.reply, 0)) != want then NoReply else Ok(w.reply[..c.replySize])
  }

  /** One sleep in which the host gets to a drained w' ends the call. */
  lemma OneSleep(c: Setup, w: World, w': World, want: int) returns (s: Schedule)
    requires Inv(c, w) && !Drained(w) && SameBlock(w, 0) && Reaches(c, w, w') && Inv(c, w') && Drained(w')
    ensures s == Unhurried(s.polls) && Collect(c, w, want, s) == (w', EchoOutcome(c, w', want))
  {
    hide Steps, Flatten, Holds, HostInv, HeadWord, U32At;
    var ms :| Steps(c, w, ms) == w';
    s := Unhurried([ms]);
    HeadTest(c, w);
    StepsStayInBlock(c, w, ms);
    HeadTest(c, w');
    DrainedStaysPut(c, w', []);
    assert WaitHead(c, w, w.cur, s.polls) == (w', true);
  }

  /** The call's answer is its own command's, under one schedule. */
  ghost predicate Answerable(c: Setup, w: World, want: int, cmd: seq<byte>, s: Schedule)
    requires Shaped(c, w) && Fits(c, cmd)
  {
    var (w', o) := SubmitWithReply(c, w, want, cmd, s);
    Answers(c, w', o, want, |w.host.queue| + 1)
  }

  // ---- where the conditions fail -------------------------------------------------

  /** Past a multiple of 2^32 the call comes back before the host has taken its command. */
  lemma CrossingBreaks(c: Setup, w: World, want: int, cmd: seq<byte>)
    requires Inv(c, w) && Space(c, w, ReplyCallBytes(cmd)) && PadDword(cmd) != []
    requires !SameBlock(w, ReplyCallBytes(cmd))
    ensures Fits(c, cmd) && !Answerable(c, w, want, cmd, Unhurried([]))
  {
    hide Flatten, Holds, HostInv, PadDword, WaitHead, SubmitWithReply, U32At, SetReply, Verdict;
    var w1 := CallAlone(c, w, want, cmd);
    CrossingReturnsAtOnce(c, w1, []);
    assert Steps(c, w1, []) == w1;
  }

  lemma EmptyWindow(n: nat)
    ensures Window([], n) == Sentinels(n)
  {
  }

  /** The sentinel's own value must not be asked for: with it a rejected command passes for answered. */
  lemma SentinelTypeIsUnsound(c: Setup, w: World, cmd: seq<byte>) returns (s: Schedule)
    requires Inv(c, w) && Space(c, w, ReplyCallBytes(cmd)) && SameBlock(w, ReplyCallBytes(cmd)) && PadDword(cmd) != []
    ensures Fits(c, cmd)
    ensures var (w', o) := SubmitWithReply(c, w, NO_REPLY_TYPE, cmd, s);
      var k := |w.host.queue| + 1;
      o.Ok? && k < |w'.host.log| && w'.host.log[k] == []
    ensures !Answerable(c, w, NO_REPLY_TYPE, cmd, s)
  {
    hide Flatten, Holds, PadDword, WaitHead, SubmitWithReply, U32At, SetReply, Collect, Window, Reaches, Aimed, Start;
    var w1 := CallAlone(c, w, NO_REPLY_TYPE, cmd);
    var w2 := SkipTo(c, w1, |w1.host.queue|);
    var w3 := Drains(c, w2);
    ReachesOn(c, w1, w2, w3);
    s := OneSleep(c, w1, w3, NO_REPLY_TYPE);
    SentinelEcho(|w.reply|);
    EmptyWindow(|w.reply|);
  }

  /** A window starts with a type exactly when it starts with that type's four bytes. */
  lemma TypeIsBytes(s: seq<byte>, want: int)
    requires |s| >= 4 && -0x8000_0000 <= want < 0x8000_0000
    ensures Int32(U32At(s, 0)) == want <==> s[..4] == Le32(Low32(want))
  {
    hide U32At, Le32;
    WordDeterminesBytes(s, 0);
    assert s[0..4] == s[..4];
    if s[..4] == Le32(Low32(want)) {
      Le32At(s, 0, Low32(want));
    }
  }

  /** What a command that has n bytes in the window still writes to spoil a call for the type with bytes `t`. */
  function Stale(t: seq<byte>, n: nat): (bs: seq<byte>)
    requires |t| == 4
    ensures |bs| == if n < 4 then 4 - n else 1
  {
    if n >= 4 then [0] else if t[n..] == Sentinels(4 - n) then Zeros(4 - n) else t[n..]
  }

  /** The reply the call's own command then gets. */
  function Partial(t: seq<byte>, n: nat): (bs: seq<byte>)
    requires |t| == 4
    ensures |bs| == if n < 4 then n else 4
  {
    if n < 4 then t[..n] else t
  }

  /** The window after both. */
  function Spoiled(size: nat, t: seq<byte>, n: nat): (r: seq<byte>)
    requires |t| == 4 && 4 <= size && n < size
    ensures |r| == size
  {
    Overwrite(Overwrite(Sentinels(size), n, Stale(t, n)), 0, Partial(t, n))
  }

  /** Early bytes: the type the caller sees is not the type of its command's reply. */
  lemma SpoiledType(size: nat, replySize: nat, want: int, n: nat)
    requires 4 <= replySize <= size && n < 4 && -0x8000_0000 <= want < 0x8000_0000
    ensures var t := Le32(Low32(want));
      (Int32(U32At(Spoiled(size, t, n), 0)) == want) != (Int32(U32At(Window(Partial(t, n), replySize), 0)) == want)
  {
    hide U32At, Le32, Low32;
    var t := Le32(Low32(want));
    var r, v := Spoiled(size, t, n), Window(Partial(t, n), replySize);
    TypeIsBytes(r, want);
    TypeIsBytes(v, want);
    assert r[..4] == t[..n] + Stale(t, n);
    assert v[..4] == t[..n] + Sentinels(4 - n);
    assert t == t[..n] + t[n..];
    assert (t[..n] + Stale(t, n))[n..] == Stale(t, n) && (t[..n] + Sentinels(4 - n))[n..] == Sentinels(4 - n);
    if t[n..] == Sentinels(4 - n) {
      assert Zeros(4 - n)[0] != Sentinels(4 - n)[0];
    }
  }

  /** Late bytes: the type is right and a byte behind it is not the reply's. */
  lemma SpoiledTail(size: nat, replySize: nat, want: int, n: nat)
    requires 4 <= replySize <= size && 4 <= n < replySize && -0x8000_0000 <= want < 0x8000_0000
    ensures var t := Le32(Low32(want));
      && Int32(U32At(Spoiled(size, t, n), 0)) == want
      && Spoiled(size, t, n)[..replySize] != Window(Partial(t, n), replySize)
  {
    hide U32At, Le32, Low32;
    var t := Le32(Low32(want));
    var r := Spoiled(size, t, n);
    TypeIsBytes(r, want);
    assert r[..4] == t;
    assert r[..replySize][n] == 0 && Window(t, replySize)[n] == SENTINEL;
  }

  lemma SpoiledBreaks(c: Setup, w: World, want: int, n: nat, k: nat)
    requires Shaped(c, w) && n < c.replySize && -0x8000_0000 <= want < 0x8000_0000 && want != NO_REPLY_TYPE
    requires w.reply == Spoiled(|w.reply|, Le32(Low32(want)), n)
    requires k < |w.host.log| && w.host.log[k] == Partial(Le32(Low32(want)), n)
    ensures !Verdict(c, w, EchoOutcome(c, w, want), want, k)
  {
    hide U32At, Le32, Low32, Spoiled, Window;
    if n == 0 {
      SentinelEcho(c.replySize);
    }
    if n < 4 {
      SpoiledType(|w.reply|, c.replySize, want, n);
    } else {
      SpoiledTail(|w.reply|, c.replySize, want, n);
    }
  }

  /** The host comes to command i, or is at it already. */
  lemma BusyAt(c: Setup, w: World, i: nat) returns (w': World)
    requires Inv(c, w) && |w.host.log| <= i < |w.host.queue|
    ensures Reaches(c, w, w') && Inv(c, w')
    ensures w'.reply == w.reply && w'.host.queue == w.host.queue && w'.host.head == w.host.head
    ensures |w'.host.log| == i && w'.host.activity.Busy?
    ensures w'.host.activity == (if i == |w.host.log| && w.host.activity.Busy? then w.host.activity else Busy([]))
  {
    hide Steps, HostInv, Holds, Reaches;
    if i == |w.host.log| && w.host.activity.Busy? {
      ReachesSelf(c, w);
      w' := w;
    } else {
      var w1 := SkipTo(c, w, i);
      w' := Begins(c, w1);
      ReachesOn(c, w, w1, w');
    }
  }

  /** From command i, with more to write, to the end: its bytes, nothing in between, the last command's reply. */
  lemma SpoilsTheLast(c: Setup, w: World, t: seq<byte>) returns (w': World)
    requires Inv(c, w) && |t| == 4 && w.host.activity.Busy? && w.reply == Sentinels(|w.reply|)
    requires |w.host.log| + 1 < |w.host.queue| && w.host.queue[|w.host.log|].wantsReply
    requires w.host.queue[|w.host.queue| - 1].wantsReply && |w.host.activity.written| < c.replySize
    ensures Reaches(c, w, w') && Inv(c, w') && Drained(w') && w'.host.queue == w.host.queue
    ensures var n := |w.host.activity.written|; var k := |w.host.queue| - 1;
      && w'.reply == Spoiled(|w.reply|, t, n)
      && |w'.host.log| == k + 1 && w'.host.log[k] == Partial(t, n)
  {
    hide Steps, HostInv, Holds, Reaches, Overwrite, Stale, Partial, Flatten;
    var n, k := |w.host.activity.written|, |w.host.queue| - 1;
    var w1 := Writes(c, w, Stale(t, n));
    var w2 := Finishes(c, w1);
    ReachesOn(c, w, w1, w2);
    var w3 := SkipTo(c, w2, k);
    ReachesOn(c, w, w2, w3);
    var w4 := Replies(c, w3, Partial(t, n));
    ReachesOn(c, w, w3, w4);
    w' := Drains(c, w4);
    ReachesOn(c, w, w4, w');
  }

  /** A reply still to come: if any unfinished command may yet write a byte of a reply, wherever in the
      queue and however far the host has got with it, some schedule makes the answer wrong. */
  lemma PendingReplyBreaks(c: Setup, w: World, want: int, cmd: seq<byte>, i: nat) returns (s: Schedule)
    requires Inv(c, w) && Space(c, w, ReplyCallBytes(cmd)) && SameBlock(w, ReplyCallBytes(cmd)) && PadDword(cmd) != []
    requires -0x8000_0000 <= want < 0x8000_0000 && want != NO_REPLY_TYPE
    requires |w.host.log| <= i < |w.host.queue| && w.host.queue[i].wantsReply
    requires i == |w.host.log| && w.host.activity.Busy? ==> |w.host.activity.written| < c.replySize
    ensures Fits(c, cmd) && !Answerable(c, w, want, cmd, s)
  {
    hide Flatten, Holds, HostInv, PadDword, WaitHead, SubmitWithReply, U32At, SetReply, Collect, Verdict, Reaches;
    hide Spoiled, Partial, EchoOutcome, Le32;
    var w1 := CallAlone(c, w, want, cmd);
    var w2 := BusyAt(c, w1, i);
    var t := Le32(Low32(want));
    var w3 := SpoilsTheLast(c, w2, t);
    ReachesOn(c, w1, w2, w3);
    s := OneSleep(c, w1, w3, want);
    SpoiledBreaks(c, w3, want, |w2.host.activity.written|, |w.host.queue| + 1);
    assert !EchoOutcome(c, w3, want).Timeout? by { NeverTimeout(c, w3, want); }
  }

  lemma NeverTimeout(c: Setup, w: World, want: int)
    requires Shaped(c, w)
    ensures !EchoOutcome(c, w, want).Timeout?
  {
  }

  /** Freshness, exactly: whatever the host does the call's answer is that of its own command if and only
      if head and the call's end lie in the same 2^32 bytes, no unfinished command can still write a
      reply, and the wanted type is not the sentinel's. */
  lemma FreshExact(c: Setup, w: World, want: int, cmd: seq<byte>)
    requires Inv(c, w) && Space(c, w, ReplyCallBytes(cmd)) && PadDword(cmd) != []
    requires -0x8000_0000 <= want < 0x8000_0000
    ensures Fits(c, cmd)
    ensures (forall s :: Answerable(c, w, want, cmd, s))
       <==> SameBlock(w, ReplyCallBytes(cmd)) && Settled(c, w.host) && want != NO_REPLY_TYPE
  {
    hide Flatten, Holds, HostInv, PadDword, SubmitWithReply, Answers, SameBlock;
    SpaceIsSmall(c, w, ReplyCallBytes(cmd));
    if !SameBlock(w, ReplyCallBytes(cmd)) {
      CrossingBreaks(c, w, want, cmd);
    } else if want == NO_REPLY_TYPE {
      var s := SentinelTypeIsUnsound(c, w, cmd);
    } else if !Settled(c, w.host) {
      var i :| |w.host.log| <= i < |w.host.queue| && w.host.queue[i].wantsReply
        && !(i == |w.host.log| && w.host.activity.Busy? && |w.host.activity.written| == c.replySize);
      WrittenFits(c, w);
      var s := PendingReplyBreaks(c, w, want, cmd, i);
    } else {
      forall s ensures Answerable(c, w, want, cmd, s) {
        CallIsFresh(c, w, want, cmd, s);
      }
    }
  }

  lemma WrittenFits(c: Setup, w: World)
    requires Inv(c, w)
    ensures w.host.activity.Busy? ==> |w.host.activity.written| <= c.replySize
  {
  }

  // ---- and can be reached ----------------------------------------------------------

  /** Why a run must stop at a timeout: a host that has not moved yet leaves the next call unsettled. */
  lemma TimeoutUnsettles(c: Setup, w: World, want: int, cmd: seq<byte>)
    requires Inv(c, w) && Space(c, w, ReplyCallBytes(cmd)) && SameBlock(w, ReplyCallBytes(cmd)) && PadDword(cmd) != []
    ensures Fits(c, cmd)
    ensures var (w', o) := SubmitWithReply(c, w, want, cmd, Unhurried([]));
      o == Timeout && Inv(c, w') && !Settled(c, w'.host)
  {
    hide Flatten, Holds, HostInv, PadDword, SubmitWithReply, U32At, SetReply, HeadWord;
    var w1 := CallAlone(c, w, want, cmd);
    HeadTest(c, w1);
    assert Steps(c, w1, []) == w1;
    assert w1.host.queue[|w.host.queue| + 1].wantsReply;
    LogIsShort(c, w);
  }

  lemma LogIsShort(c: Setup, w: World)
    requires Inv(c, w)
    ensures |w.host.log| <= |w.host.queue|
  {
  }

  /** A run of n four-byte commands without reply. */
  function SmallCalls(n: nat): (calls: seq<Call>)
    ensures |calls| == n
  {
    seq(n, _ => WithoutReply(Zeros(4)))
  }

  /** One such call with a host that takes it while the guest sleeps. */
  lemma SmallCall(c: Setup, w: World) returns (s: Schedule)
    requires Inv(c, w) && Drained(w) && c.size >= 4 && SameBlock(w, 4)
    ensures CallFits(c, WithoutReply(Zeros(4)))
    ensures var (w', o) := Apply(c, w, WithoutReply(Zeros(4)), s);
      o.Ok? && Inv(c, w') && Drained(w') && |Flatten(w'.host.queue)| == |Flatten(w.host.queue)| + 4
  {
    hide Flatten, Holds, HostInv, Stored, Low32, WaitHead, PadDword, Reaches;
    var cmd := Command(PadDword(Zeros(4)), false);
    SubmitKeepsInv(c, w, cmd);
    var w1 := Submit(c, w, cmd);
    LogIsShort(c, w);
    DrainedIsDone(c, w);
    var w2 := SkipTo(c, w1, |w1.host.queue|);
    var w3 := Drains(c, w2);
    ReachesOn(c, w1, w2, w3);
    s := OneSleep(c, w1, w3, 0);
    SleepsThrough(c, w1, w3, s);
  }

  /** The last call of a run that gets to 2^32 bytes. */
  lemma SmallCallCrosses(c: Setup, w: World)
    requires Inv(c, w) && Drained(w) && c.size >= 4 && |Flatten(w.host.queue)| + 4 == TWO32
    ensures CallFits(c, WithoutReply(Zeros(4)))
    ensures var (w', o) := Apply(c, w, WithoutReply(Zeros(4)), Unhurried([])); o.Ok? && Inv(c, w') && !Drained(w')
  {
    hide Flatten, Holds, HostInv, Stored, Low32, WaitHead, PadDword;
    var cmd := Command(PadDword(Zeros(4)), false);
    SubmitKeepsInv(c, w, cmd);
    CrossingReturnsAtOnce(c, Submit(c, w, cmd), []);
  }

  lemma SleepsThrough(c: Setup, w: World, w': World, s: Schedule)
    requires Inv(c, w) && SameBlock(w, 0) && Drained(w') && Collect(c, w, 0, s).0 == w' && s == Unhurried(s.polls)
    ensures WaitHead(c, w, w.cur, s.polls) == (w', true)
  {
    hide WaitHead, Flatten, Holds, HostInv, U32At;
    WaitMeansDrained(c, w, s.polls);
    var w1 := WaitHead(c, w, w.cur, s.polls).0;
    assert Steps(c, w1, []) == w1;
  }

  /** On every ring the plain comparison fails in the end: a run of small commands in which each wait
      succeeds gets to 2^32 bytes, and the wait of the call that does returns with it unread. */
  lemma {:induction false} RunReachesCrossing(c: Setup, w: World, n: nat) returns (ss: seq<Schedule>)
    requires Inv(c, w) && Drained(w) && c.size >= 4 && |Flatten(w.host.queue)| + 4 * (n + 1) == TWO32
    ensures var calls := SmallCalls(n + 1);
      && |ss| == |calls| && (forall i :: 0 <= i < |calls| ==> CallFits(c, calls[i]))
      && var (w', os) := Run(c, w, calls, ss);
         |os| == |calls| && (forall i :: 0 <= i < |os| ==> os[i].Ok?) && Inv(c, w') && !Drained(w')
    decreases n
  {
    hide Flatten, Holds, HostInv, Apply, CallFits;
    var calls := SmallCalls(n + 1);
    assert calls[1..] == SmallCalls(n);
    if n == 0 {
      SmallCallCrosses(c, w);
      ss := [Unhurried([])];
    } else {
      var s := SmallCall(c, w);
      var rest := RunReachesCrossing(c, Apply(c, w, calls[0], s).0, n - 1);
      ss := [s] + rest;
      assert ss[1..] == rest;
    }
  }

  /** From the zeroed memory of bring-up that is 2^30 calls. */
  lemma EveryRingReachesCrossing(c: Setup, mem: seq<byte>, reply: seq<byte>) returns (ss: seq<Schedule>)
    requires GoodSize(c.size) && c.size >= 4 && |mem| >= BUFFER_OFFSET + c.size
    requires HeadWord(mem) == TailWord(mem) == 0 && 4 <= c.replySize <= |reply| < TWO64
    ensures var calls := SmallCalls(0x4000_0000);
      && |ss| == |calls| && (forall i :: 0 <= i < |calls| ==> CallFits(c, calls[i]))
      && var (w', os) := Run(c, World(mem, 0, reply, NEW_HOST), calls, ss);
         |os| == |calls| && (forall i :: 0 <= i < |os| ==> os[i].Ok?) && Inv(c, w') && !Drained(w')
  {
    hide Holds, HostInv, Apply, CallFits, HeadWord, TailWord, Run;
    BringUp(c, mem, reply);
    ss := RunReachesCrossing(c, World(mem, 0, reply, NEW_HOST), 0x3fff_ffff);
  }

  // ---- the fill ----------------------------------------------------------------------

  /** Without the fill a rejected command passes for answered: after a successful call, the same call
      again returns the same reply although the host wrote nothing for it. */
  lemma StaleWithoutFill(c: Setup, w: World, want: int, cmd: seq<byte>, s: Schedule, again: seq<byte>)
    returns (t: Schedule)
    requires Inv(c, w) && Settled(c, w.host) && want != NO_REPLY_TYPE
    requires Space(c, w, ReplyCallBytes(cmd)) && SameBlock(w, ReplyCallBytes(cmd)) && Fits(c, cmd)
    requires SubmitWithReply(c, w, want, cmd, s).1.Ok? && Fits(c, again) && PadDword(again) != []
    requires SameBlock(SubmitWithReply(c, w, want, cmd, s).0, ReplyCallBytes(again))
    ensures var (w1, o) := SubmitWithReply(c, w, want, cmd, s);
      var (w2, o2) := Collect(c, PostBoth(c, w1, again, []), want, t);
      var k := |w1.host.queue| + 1;
      o2 == o && k < |w2.host.log| && w2.host.log[k] == []
  {
    hide Flatten, Holds, HostInv, PadDword, WaitHead, SubmitWithReply, U32At, SetReply;
    hide Collect, Window, Reaches, PostBoth;
    CallIsFresh(c, w, want, cmd, s);
    var (w1, o) := SubmitWithReply(c, w, want, cmd, s);
    OkShowsWindow(c, w, want, cmd, s);
    var w2 := PostAlone(c, w1, again);
    LogIsShort(c, w1);
    DrainedIsDone(c, w1);
    var w3 := SkipTo(c, w2, |w2.host.queue|);
    var w4 := Drains(c, w3);
    ReachesOn(c, w2, w3, w4);
    t := OneSleep(c, w2, w4, want);
  }

  /** After a successful call the window still shows what was returned. */
  lemma OkShowsWindow(c: Setup, w: World, want: int, cmd: seq<byte>, s: Schedule)
    requires Inv(c, w) && Settled(c, w.host) && want != NO_REPLY_TYPE
    requires Space(c, w, ReplyCallBytes(cmd)) && SameBlock(w, ReplyCallBytes(cmd)) && Fits(c, cmd)
    requires SubmitWithReply(c, w, want, cmd, s).1.Ok?
    ensures var (w', o) := SubmitWithReply(c, w, want, cmd, s); EchoOutcome(c, w', want) == o
  {
    hide Flatten, Holds, HostInv, PadDword, WaitHead, U32At, SetReply, Window, PostBoth, Steps, Fill;
    CallIsFresh(c, w, want, cmd, s);
    var (w', o) := SubmitWithReply(c, w, want, cmd, s);
    SameWord(w'.reply, o.reply);
  }
}
