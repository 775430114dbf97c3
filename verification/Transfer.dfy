/** The interrupt and the WiFi thread running interleaved over the one shared frame buffer
    (User/ch32v30x_it.c, User/thread_WiFi.c).

    A run is any sequence of actions: the interrupt receives a byte, or the thread does its next step. The
    thread's steps are as fine as its reads of the shared buffer, so a byte may arrive between any two reads.
 */
module Transfer {
  import opened Crc
  import opened Wire
  import opened Framing
  import opened Panel

  /** Where the thread is: waiting in LOS_EventRead, or about to do the named read or output, with the values
      it has copied so far. */
  datatype Pc =
    | Waiting
    | AtType
    | AtCmd
    | AtLen
    | AtTotal
    | AtNum(total: Byte)
    | AtSize(total: Byte, num: Byte)
    | AtStart(total: Byte, num: Byte, len: Word)
    | AtByte(total: Byte, num: Byte, len: Word, i: nat)
    | AtEnd(total: Byte, num: Byte)

  /** `accepted` is a history variable: the frames for which the event was raised. */
  datatype Sys = Sys(rx: Rx, event: bool, pc: Pc, trace: seq<PanelOp>, accepted: seq<Frame>)

  datatype Action = Receive(b: Byte) | Work

  predicate Idle(s: Sys) {
    !s.event && s.pc == Waiting
  }

  /** A read of the shared buffer; the guard is only there for runs that overwrite the length under the thread. */
  function At(buffer: seq<Byte>, i: nat): Byte {
    if i < |buffer| then buffer[i] else 0
  }

  /** The thread's next step: where it goes and what it outputs. */
  function Advance(pc: Pc, rx: Rx): (Pc, seq<PanelOp>) {
    match pc
    case Waiting => (Waiting, [])
    case AtType => (if rx.cmdType == CMD_TYPE_IMAGE then AtCmd else Waiting, [])
    case AtCmd => (if rx.cmd == CMD_IMAGE_TRANSFER then AtLen else Waiting, [])
    case AtLen => (if rx.dataLen > 2 then AtTotal else Waiting, [])
    case AtTotal => (AtNum(At(rx.buffer, 0)), [])
    case AtNum(total) => (AtSize(total, At(rx.buffer, 1)), [])
    case AtSize(total, num) => (AtStart(total, num, (rx.dataLen + 65534) % 65536), [])
    case AtStart(total, num, len) =>
      (AtByte(total, num, len, 0), if num == 1 then WAKE + [WriteCmd(0x10)] else [])
    case AtByte(total, num, len, i) =>
      if i < len then (AtByte(total, num, len, i + 1), [WriteData(Recode(At(rx.buffer, i + 2)))])
      else (AtEnd(total, num), [])
    case AtEnd(total, num) => (Waiting, if num == total then UPDATE + SLEEP else [])
  }

  function Act(sum: Checksum, s: Sys, a: Action): (s': Sys)
    requires s.rx.Valid()
    ensures s'.rx.Valid()
  {
    match a
    case Receive(b) =>
      var next := Step(sum, s.rx, b);
      s.(rx := next.0, event := s.event || next.1,
         accepted := if next.1 then s.accepted + [next.0.Held()] else s.accepted)
    case Work =>
      if s.pc == Waiting then
        if s.event then s.(event := false, pc := AtType) else s
      else
        var next := Advance(s.pc, s.rx);
        s.(pc := next.0, trace := s.trace + next.1)
  }

  function Run(sum: Checksum, s: Sys, actions: seq<Action>): (s': Sys)
    requires s.rx.Valid()
    ensures s'.rx.Valid()
    decreases |actions|
  {
    if actions == [] then s else Run(sum, Act(sum, s, actions[0]), actions[1..])
  }

  /** The timing the design relies on: the thread is done with a frame before the third byte of the next one. */
  predicate Timely(sum: Checksum, s: Sys, actions: seq<Action>)
    requires s.rx.Valid()
    decreases |actions|
  {
    actions != [] ==>
      && (actions[0].Receive? && s.rx.state == CmdType ==> Idle(s))
      && Timely(sum, Act(sum, s, actions[0]), actions[1..])
  }

  // ----- the invariant of timely runs

  /** The values the thread has copied come from the frame `f`. */
  predicate Copied(pc: Pc, f: Frame) {
    match pc
    case Waiting => true
    case AtType => true
    case AtCmd => f.cmdType == CMD_TYPE_IMAGE
    case AtLen => f.cmdType == CMD_TYPE_IMAGE && f.cmd == CMD_IMAGE_TRANSFER
    case AtTotal => IsImage(f)
    case AtNum(total) => IsImage(f) && total == f.payload[0]
    case AtSize(total, num) => IsImage(f) && total == f.payload[0] && num == f.payload[1]
    case AtStart(total, num, len) =>
      IsImage(f) && total == f.payload[0] && num == f.payload[1] && len == |f.payload| - 2
    case AtByte(total, num, len, i) =>
      IsImage(f) && total == f.payload[0] && num == f.payload[1] && i <= len == |f.payload| - 2
    case AtEnd(total, num) => IsImage(f) && total == f.payload[0] && num == f.payload[1]
  }

  /** What the thread still has to output for the frame `f`. */
  function Left(pc: Pc, f: Frame): seq<PanelOp>
    requires Copied(pc, f)
  {
    match pc
    case Waiting => []
    case AtByte(total, num, len, i) =>
      DataOps(f.payload[2 + i..]) + (if num == total then UPDATE + SLEEP else [])
    case AtEnd(total, num) => if num == total then UPDATE + SLEEP else []
    case _ => FrameOps(f)
  }

  /** While a frame is pending or being processed it is the last one accepted, and it is still in the buffer. */
  ghost predicate Pending(s: Sys) {
    && s.accepted != []
    && var f := s.accepted[|s.accepted| - 1];
       && f.Valid() && s.rx.Valid() && s.rx.dataLen <= MAX_DATA_LEN && s.rx.Held() == f
       && s.rx.state in {Header1, Header2, CmdType}
       && (s.event ==> s.pc == Waiting)
       && Copied(s.pc, f)
       && s.trace + (if s.event then FrameOps(f) else Left(s.pc, f)) == AllOps(s.accepted)
  }

  ghost predicate Inv(s: Sys) {
    s.rx.Valid() && if Idle(s) then s.trace == AllOps(s.accepted) else Pending(s)
  }

  lemma AllOpsAppend(fs: seq<Frame>, f: Frame)
    ensures AllOps(fs + [f]) == AllOps(fs) + FrameOps(f)
  {
    assert (fs + [f])[..|fs|] == fs;
  }

  /** Header bytes leave the shared buffer alone. */
  lemma HeaderBytesKeep(sum: Checksum, r: Rx, b: Byte)
    requires r.Valid() && r.state in {Header1, Header2}
    ensures var next := Step(sum, r, b);
            !next.1 && next.0 == r.(state := next.0.state) && next.0.state in {Header1, Header2, CmdType}
  {
  }

  lemma PendingKept(s: Sys, s': Sys)
    requires Inv(s) && !Idle(s) && s'.rx == s.rx.(state := s'.rx.state) && s'.rx.state in {Header1, Header2, CmdType}
    requires s'.event == s.event && s'.pc == s.pc && s'.trace == s.trace && s'.accepted == s.accepted
    ensures Inv(s')
  {
    assert s'.rx.Held() == s.rx.Held();
  }

  lemma PendingStarts(s: Sys, s': Sys)
    requires Inv(s) && Idle(s) && s'.rx.Valid() && s'.rx.state == Header1
    requires s'.rx.dataLen <= MAX_DATA_LEN && s'.rx.Held().Valid()
    requires s' == Sys(s'.rx, true, Waiting, s.trace, s.accepted + [s'.rx.Held()])
    ensures Inv(s')
  {
    AllOpsAppend(s.accepted, s'.rx.Held());
  }

  lemma ReceiveKeeps(sum: Checksum, s: Sys, b: Byte)
    requires Inv(s) && (s.rx.state == CmdType ==> Idle(s))
    ensures Inv(Act(sum, s, Receive(b)))
  {
    var s' := Act(sum, s, Receive(b));
    if !Idle(s) {
      HeaderBytesKeep(sum, s.rx, b);
      PendingKept(s, s');
    } else if Step(sum, s.rx, b).1 {
      PendingStarts(s, s');
    }
  }

  /** One step of the thread outputs the next part of what is left. */
  lemma AdvanceKeeps(pc: Pc, rx: Rx)
    requires rx.Valid() && rx.dataLen <= MAX_DATA_LEN && pc != Waiting && Copied(pc, rx.Held())
    ensures var (pc', out) := Advance(pc, rx);
            Copied(pc', rx.Held()) && out + Left(pc', rx.Held()) == Left(pc, rx.Held())
  {
    if pc.AtByte? {
      AdvanceByte(pc, rx);
    } else if pc.AtStart? {
      AdvanceStart(pc, rx);
    }
  }

  lemma NextDataOp(data: seq<Byte>, i: nat)
    requires i < |data|
    ensures DataOps(data[i..]) == [WriteData(data[i])] + DataOps(data[i + 1..])
  {
  }

  lemma AdvanceByte(pc: Pc, rx: Rx)
    requires rx.Valid() && rx.dataLen <= MAX_DATA_LEN && pc.AtByte? && Copied(pc, rx.Held())
    ensures var (pc', out) := Advance(pc, rx);
            Copied(pc', rx.Held()) && out + Left(pc', rx.Held()) == Left(pc, rx.Held())
  {
    var f, i := rx.Held(), pc.i;
    var end := if pc.num == pc.total then UPDATE + SLEEP else [];
    if i < pc.len {
      assert rx.buffer[i + 2] == f.payload[2 + i];
      RecodeIdentity(rx.buffer[i + 2]);
      NextDataOp(f.payload, 2 + i);
      assert f.payload[2 + (i + 1)..] == f.payload[2 + i + 1..];
      RegroupEnd(WriteData(f.payload[2 + i]), DataOps(f.payload[2 + i + 1..]), end);
    } else {
      assert f.payload[2 + i..] == [];
    }
  }

  lemma RegroupEnd(op: PanelOp, rest: seq<PanelOp>, end: seq<PanelOp>)
    ensures [op] + (rest + end) == [op] + rest + end
  {
  }

  lemma AdvanceStart(pc: Pc, rx: Rx)
    requires rx.Valid() && rx.dataLen <= MAX_DATA_LEN && pc.AtStart? && Copied(pc, rx.Held())
    ensures var (pc', out) := Advance(pc, rx);
            Copied(pc', rx.Held()) && out + Left(pc', rx.Held()) == Left(pc, rx.Held())
  {
    var f := rx.Held();
    assert f.payload[2 + 0..] == f.payload[2..];
  }

  lemma Regroup(trace: seq<PanelOp>, out: seq<PanelOp>, left: seq<PanelOp>)
    ensures trace + out + left == trace + (out + left)
  {
  }

  /** What the trace and the remaining output make together does not change. */
  lemma ThreadTrace(pc: Pc, rx: Rx, trace: seq<PanelOp>, whole: seq<PanelOp>)
    requires rx.Valid() && rx.dataLen <= MAX_DATA_LEN && pc != Waiting && Copied(pc, rx.Held())
    requires trace + Left(pc, rx.Held()) == whole
    ensures Copied(Advance(pc, rx).0, rx.Held())
    ensures trace + Advance(pc, rx).1 + Left(Advance(pc, rx).0, rx.Held()) == whole
  {
    AdvanceKeeps(pc, rx);
    Regroup(trace, Advance(pc, rx).1, Left(Advance(pc, rx).0, rx.Held()));
  }

  lemma PendingMoves(s: Sys, pc: Pc, trace: seq<PanelOp>)
    requires Inv(s) && s.pc != Waiting && Copied(pc, s.rx.Held())
    requires trace + Left(pc, s.rx.Held()) == AllOps(s.accepted)
    ensures Inv(s.(pc := pc, trace := trace))
  {
    if pc == Waiting {
      assert trace + [] == trace;
    }
  }

  lemma ThreadKeeps(sum: Checksum, s: Sys)
    requires Inv(s) && s.pc != Waiting
    ensures Inv(Act(sum, s, Work))
  {
    var next := Advance(s.pc, s.rx);
    ThreadTrace(s.pc, s.rx, s.trace, AllOps(s.accepted));
    PendingMoves(s, next.0, s.trace + next.1);
  }

  lemma WorkKeeps(sum: Checksum, s: Sys)
    requires Inv(s)
    ensures Inv(Act(sum, s, Work))
  {
    if s.pc != Waiting {
      ThreadKeeps(sum, s);
    }
  }

  lemma {:induction false} TimelyKeeps(sum: Checksum, s: Sys, actions: seq<Action>)
    requires Inv(s) && Timely(sum, s, actions)
    ensures Inv(Run(sum, s, actions))
    decreases |actions|
  {
    if actions != [] {
      match actions[0] {
        case Receive(b) => ReceiveKeeps(sum, s, b);
        case Work => WorkKeeps(sum, s);
      }
      TimelyKeeps(sum, Act(sum, s, actions[0]), actions[1..]);
    }
  }

  // ----- the frames processed are the frames of the byte stream

  function Bytes(actions: seq<Action>): seq<Byte> {
    if actions == [] then [] else
      (if actions[0].Receive? then [actions[0].b] else []) + Bytes(actions[1..])
  }

  function FramesOf(reports: seq<Report>): seq<Frame> {
    seq(|reports|, i requires 0 <= i < |reports| => reports[i].frame)
  }

  /** The thread never disturbs the parser, timely or not. */
  lemma {:induction false} ParserUndisturbed(sum: Checksum, s: Sys, actions: seq<Action>)
    requires s.rx.Valid()
    ensures Run(sum, s, actions).rx == Final(sum, s.rx, Bytes(actions))
    decreases |actions|
  {
    if actions != [] {
      ParserUndisturbed(sum, Act(sum, s, actions[0]), actions[1..]);
      if actions[0].Receive? {
        assert Bytes(actions)[1..] == Bytes(actions[1..]);
      } else {
        assert Bytes(actions) == Bytes(actions[1..]);
      }
    }
  }

  lemma {:induction false} AcceptedAreReports(sum: Checksum, s: Sys, actions: seq<Action>, pos: nat)
    requires s.rx.Valid()
    ensures Run(sum, s, actions).accepted == s.accepted + FramesOf(Reports(sum, s.rx, Bytes(actions), pos))
    decreases |actions|
  {
    if actions != [] {
      var s', bs := Act(sum, s, actions[0]), Bytes(actions[1..]);
      if actions[0].Receive? {
        AcceptedAreReports(sum, s', actions[1..], pos + 1);
        ReportsCons(sum, s.rx, actions[0].b, bs, pos);
      } else {
        AcceptedAreReports(sum, s', actions[1..], pos);
        assert Bytes(actions) == bs;
      }
    }
  }

  lemma ReportsCons(sum: Checksum, r: Rx, b: Byte, bs: seq<Byte>, pos: nat)
    requires r.Valid()
    ensures FramesOf(Reports(sum, r, [b] + bs, pos))
         == (if Step(sum, r, b).1 then [Step(sum, r, b).0.Held()] else [])
            + FramesOf(Reports(sum, Step(sum, r, b).0, bs, pos + 1))
  {
    assert ([b] + bs)[1..] == bs;
  }

  function Boot(r: Rx): Sys {
    Sys(r, false, Waiting, [], [])
  }

  /** Interleaving safety: in every timely run, each frame of the byte stream is processed exactly once, in order
      and with its own contents; a run cut short has done so up to a prefix. */
  lemma TimelyRun(sum: Checksum, r: Rx, actions: seq<Action>)
    requires r.Valid() && r.state == Header1 && Timely(sum, Boot(r), actions)
    ensures var s := Run(sum, Boot(r), actions);
            var expected := AllOps(FramesOf(Scan(sum, Bytes(actions), 0)));
            s.trace <= expected && (Idle(s) ==> s.trace == expected)
  {
    var s := Run(sum, Boot(r), actions);
    TimelyKeeps(sum, Boot(r), actions);
    AcceptedAreReports(sum, Boot(r), actions, 0);
    ParserIsScan(sum, r, Bytes(actions), 0);
    assert s.accepted == FramesOf(Scan(sum, Bytes(actions), 0));
  }

  /** After an event the buffer is unchanged until the parser consumes a byte in state CMD_TYPE. */
  lemma {:induction false} FrameKept(sum: Checksum, r: Rx, s: seq<Byte>)
    requires r.Valid() && r.state in {Header1, Header2, CmdType}
    requires forall i :: 0 <= i < |s| ==> Final(sum, r, s[..i]).state != CmdType
    ensures var r' := Final(sum, r, s);
            r' == r.(state := r'.state) && r'.state in {Header1, Header2, CmdType}
    decreases |s|
  {
    if s != [] {
      var r1 := Step(sum, r, s[0]).0;
      assert Final(sum, r, s[..0]) == r;
      forall i | 0 <= i < |s| - 1
        ensures Final(sum, r1, s[1..][..i]).state != CmdType
      {
        assert s[..i + 1][1..] == s[1..][..i];
        assert Final(sum, r, s[..i + 1]).state != CmdType;
      }
      FrameKept(sum, r1, s[1..]);
    }
  }

  // ----- the thread always finishes, so timely runs exist for every byte stream

  function Works(n: nat): (actions: seq<Action>)
    ensures |actions| == n
  {
    seq(n, _ => Work)
  }

  /** A bound on the thread's remaining steps. */
  function Rank(pc: Pc, f: Frame): nat
    requires Copied(pc, f)
  {
    match pc
    case Waiting => 0
    case AtEnd(_, _) => 1
    case AtByte(_, _, len, i) => 2 + len - i
    case AtStart(_, _, len) => 3 + len
    case AtSize(_, _) => 4 + |f.payload|
    case AtNum(_) => 5 + |f.payload|
    case AtTotal => 6 + |f.payload|
    case AtLen => 7 + |f.payload|
    case AtCmd => 8 + |f.payload|
    case AtType => 9 + |f.payload|
  }

  ghost function StepsLeft(s: Sys): nat
    requires Inv(s)
  {
    if s.event then 10 + |s.rx.Held().payload| else if s.pc == Waiting then 0 else Rank(s.pc, s.rx.Held())
  }

  const POLLS: nat := 1040

  lemma StepsBound(s: Sys)
    requires Inv(s)
    ensures StepsLeft(s) <= POLLS
  {
  }

  lemma AdvanceRank(pc: Pc, rx: Rx)
    requires rx.Valid() && rx.dataLen <= MAX_DATA_LEN && pc != Waiting && Copied(pc, rx.Held())
    ensures Copied(Advance(pc, rx).0, rx.Held())
    ensures Rank(Advance(pc, rx).0, rx.Held()) < Rank(pc, rx.Held())
  {
    AdvanceKeeps(pc, rx);
  }

  lemma WorkProgress(sum: Checksum, s: Sys)
    requires Inv(s)
    ensures var s' := Act(sum, s, Work);
            Inv(s') && s'.rx == s.rx && (Idle(s) || StepsLeft(s') < StepsLeft(s)) && (Idle(s) ==> s' == s)
  {
    WorkKeeps(sum, s);
    if s.pc != Waiting {
      AdvanceRank(s.pc, s.rx);
    }
  }

  /** Enough steps of the thread, with no byte in between, bring it back to waiting with nothing pending. */
  lemma {:induction false} Drains(sum: Checksum, s: Sys, n: nat)
    requires Inv(s) && StepsLeft(s) <= n
    ensures Timely(sum, s, Works(n))
    ensures var s' := Run(sum, s, Works(n)); Inv(s') && Idle(s') && s'.rx == s.rx
    decreases n
  {
    StepsZero(s);
    if n > 0 {
      WorkProgress(sum, s);
      assert Works(n)[1..] == Works(n - 1);
      Drains(sum, Act(sum, s, Work), n - 1);
    }
  }

  lemma StepsZero(s: Sys)
    requires Inv(s)
    ensures StepsLeft(s) == 0 <==> Idle(s)
  {
  }

  /** The schedule in which the thread runs to completion after every byte. */
  function Polled(bytes: seq<Byte>): seq<Action> {
    if bytes == [] then [] else [Receive(bytes[0])] + Works(POLLS) + Polled(bytes[1..])
  }

  lemma {:induction false} RunConcat(sum: Checksum, s: Sys, u: seq<Action>, v: seq<Action>)
    requires s.rx.Valid()
    ensures Run(sum, s, u + v) == Run(sum, Run(sum, s, u), v)
    ensures Timely(sum, s, u + v) == (Timely(sum, s, u) && Timely(sum, Run(sum, s, u), v))
    decreases |u|
  {
    if u == [] {
      assert u + v == v;
    } else {
      assert (u + v)[1..] == u[1..] + v;
      RunConcat(sum, Act(sum, s, u[0]), u[1..], v);
    }
  }

  lemma {:induction false} BytesConcat(u: seq<Action>, v: seq<Action>)
    ensures Bytes(u + v) == Bytes(u) + Bytes(v)
  {
    if u == [] {
      assert u + v == v;
    } else {
      var first := if u[0].Receive? then [u[0].b] else [];
      assert (u + v)[1..] == u[1..] + v;
      BytesConcat(u[1..], v);
      assert first + (Bytes(u[1..]) + Bytes(v)) == (first + Bytes(u[1..])) + Bytes(v);
    }
  }

  lemma {:induction false} BytesOfWorks(n: nat)
    ensures Bytes(Works(n)) == []
  {
    if n > 0 {
      assert Works(n)[1..] == Works(n - 1);
      BytesOfWorks(n - 1);
    }
  }

  lemma PollOnce(sum: Checksum, s: Sys, b: Byte)
    requires Inv(s) && Idle(s)
    ensures Bytes([Receive(b)] + Works(POLLS)) == [b]
    ensures Timely(sum, s, [Receive(b)] + Works(POLLS))
    ensures var s' := Run(sum, s, [Receive(b)] + Works(POLLS)); Inv(s') && Idle(s')
  {
    ReceiveKeeps(sum, s, b);
    var s1 := Act(sum, s, Receive(b));
    assert [Receive(b)][1..] == [];
    assert Run(sum, s, [Receive(b)]) == Run(sum, s1, []);
    assert Timely(sum, s1, []);
    RunConcat(sum, s, [Receive(b)], Works(POLLS));
    StepsBound(s1);
    Drains(sum, s1, POLLS);
    assert Bytes([Receive(b)]) == [b] + Bytes([]);
    BytesOfWorks(POLLS);
    BytesConcat([Receive(b)], Works(POLLS));
  }

  lemma {:induction false} PolledIsTimely(sum: Checksum, s: Sys, bytes: seq<Byte>)
    requires Inv(s) && Idle(s)
    ensures Bytes(Polled(bytes)) == bytes
    ensures Timely(sum, s, Polled(bytes))
    ensures var s' := Run(sum, s, Polled(bytes)); Inv(s') && Idle(s')
    decreases |bytes|
  {
    if bytes != [] {
      var first := [Receive(bytes[0])] + Works(POLLS);
      PollOnce(sum, s, bytes[0]);
      PolledIsTimely(sum, Run(sum, s, first), bytes[1..]);
      RunConcat(sum, s, first, Polled(bytes[1..]));
      BytesConcat(first, Polled(bytes[1..]));
    }
  }

  // ----- without timeliness a frame is lost

  function Receives(bytes: seq<Byte>): seq<Action> {
    seq(|bytes|, i requires 0 <= i < |bytes| => Receive(bytes[i]))
  }

  /** Bytes alone never move the thread; the event bit only remembers that something was accepted. */
  lemma {:induction false} RunReceives(sum: Checksum, s: Sys, bytes: seq<Byte>, pos: nat)
    requires s.rx.Valid()
    ensures Bytes(Receives(bytes)) == bytes
    ensures var s' := Run(sum, s, Receives(bytes));
            s'.pc == s.pc && s'.trace == s.trace && (s'.event <==> s.event || Reports(sum, s.rx, bytes, pos) != [])
    decreases |bytes|
  {
    if bytes != [] {
      assert Receives(bytes)[1..] == Receives(bytes[1..]);
      RunReceives(sum, Act(sum, s, Receive(bytes[0])), bytes[1..], pos + 1);
    }
  }

  /** The history variable has no influence. */
  lemma {:induction false} HistoryIrrelevant(sum: Checksum, s: Sys, h: seq<Frame>, n: nat)
    requires s.rx.Valid()
    ensures Run(sum, s.(accepted := h), Works(n)) == Run(sum, s, Works(n)).(accepted := h)
    ensures Run(sum, s, Works(n)).accepted == s.accepted
    decreases n
  {
    if n > 0 {
      assert Works(n)[1..] == Works(n - 1);
      HistoryIrrelevant(sum, Act(sum, s, Work), h, n - 1);
    }
  }

  /** If two frames arrive before the thread runs, both are accepted but only the second is processed. The result
      is right exactly if the first frame is not an image frame. */
  lemma OverrunLosesFrame(sum: Checksum, r: Rx, v: seq<Byte>, f: Frame, w: seq<Byte>, g: Frame, n: nat)
    requires r.Valid() && r.state == Header1 && Encodes(sum, v, f) && Encodes(sum, w, g) && n >= POLLS
    ensures var s := Run(sum, Boot(r), Receives(v + w) + Works(n));
            && Idle(s) && s.accepted == [f, g] && s.trace == FrameOps(g)
            && (s.trace == AllOps(s.accepted) <==> !IsImage(f))
  {
    var s1 := Run(sum, Boot(r), Receives(v + w));
    BothAccepted(sum, r, v, f, w, g);
    LastOnly(sum, s1, g, n);
    RunConcat(sum, Boot(r), Receives(v + w), Works(n));
    ImageHasEffect(f);
    TwoFrames(f, g);
  }

  lemma TwoFrames(f: Frame, g: Frame)
    ensures AllOps([f, g]) == FrameOps(f) + FrameOps(g)
  {
    var none: seq<Frame>, one := [], [f];
    AllOpsAppend(one, g);
    assert one + [g] == [f, g];
    AllOpsAppend(none, f);
    assert none + [f] == one;
    NilLeft(AllOps(none), FrameOps(f));
  }

  lemma NilLeft(none: seq<PanelOp>, ops: seq<PanelOp>)
    requires none == []
    ensures none + ops == ops
  {
  }

  lemma TwoReports(sum: Checksum, r: Rx, v: seq<Byte>, f: Frame, w: seq<Byte>, g: Frame)
    requires r.Valid() && r.state == Header1 && Encodes(sum, v, f) && Encodes(sum, w, g)
    ensures FramesOf(Reports(sum, r, v + w, 0)) == [f, g]
    ensures var r' := Final(sum, r, v + w); r'.state == Header1 && r'.dataLen <= MAX_DATA_LEN && r'.Held() == g
  {
    FoundIsReported(sum, r, v, f, 0);
    FoundIsReported(sum, Final(sum, r, v), w, g, |v|);
    FinalConcat(sum, r, v, w);
    ReportsConcat(sum, r, v, w, 0);
  }

  lemma BothAccepted(sum: Checksum, r: Rx, v: seq<Byte>, f: Frame, w: seq<Byte>, g: Frame)
    requires r.Valid() && r.state == Header1 && Encodes(sum, v, f) && Encodes(sum, w, g)
    ensures var s := Run(sum, Boot(r), Receives(v + w));
            && s.event && s.pc == Waiting && s.trace == [] && s.accepted == [f, g]
            && s.rx.state == Header1 && s.rx.dataLen <= MAX_DATA_LEN && s.rx.Held() == g
  {
    RunReceives(sum, Boot(r), v + w, 0);
    TwoReports(sum, r, v, f, w, g);
    ParserUndisturbed(sum, Boot(r), Receives(v + w));
    AcceptedAreReports(sum, Boot(r), Receives(v + w), 0);
  }

  lemma ImageHasEffect(f: Frame)
    ensures FrameOps(f) == [] <==> !IsImage(f)
  {
    if IsImage(f) {
      assert WriteData(f.payload[2]) in DataOps(f.payload[2..]) by {
        assert DataOps(f.payload[2..])[0] == WriteData(f.payload[2]);
      }
    }
  }

  lemma LastOnly(sum: Checksum, s: Sys, g: Frame, n: nat)
    requires s.rx.Valid() && s.rx.state == Header1 && g.Valid() && s.rx.dataLen <= MAX_DATA_LEN && s.rx.Held() == g
    requires s.event && s.pc == Waiting && s.trace == [] && n >= POLLS
    ensures var s' := Run(sum, s, Works(n)); Idle(s') && s'.trace == FrameOps(g) && s'.accepted == s.accepted
  {
    var s0 := Sys(s.rx, false, Waiting, [], []);
    var s1 := s.(accepted := [] + [g]);
    PendingStarts(s0, s1);
    StepsBound(s1);
    Drains(sum, s1, n);
    HistoryIrrelevant(sum, s, [] + [g], n);
    HistoryIrrelevant(sum, s1, [] + [g], n);
    AllOpsAppend([], g);
  }

  // ----- how many frames are picked up, in every interleaving

  /** How often the thread picks up an event, and how often one is raised while the last is still pending. */
  function PickUps(sum: Checksum, s: Sys, actions: seq<Action>): nat
    requires s.rx.Valid()
    decreases |actions|
  {
    if actions == [] then 0 else
      (if actions[0].Work? && s.pc == Waiting && s.event then 1 else 0)
      + PickUps(sum, Act(sum, s, actions[0]), actions[1..])
  }

  function Overruns(sum: Checksum, s: Sys, actions: seq<Action>): nat
    requires s.rx.Valid()
    decreases |actions|
  {
    if actions == [] then 0 else
      (if actions[0].Receive? && Step(sum, s.rx, actions[0].b).1 && s.event then 1 else 0)
      + Overruns(sum, Act(sum, s, actions[0]), actions[1..])
  }

  function PendingCount(s: Sys): nat {
    if s.event then 1 else 0
  }

  lemma {:induction false} PickUpBalance(sum: Checksum, s: Sys, actions: seq<Action>)
    requires s.rx.Valid()
    ensures var s' := Run(sum, s, actions);
            PickUps(sum, s, actions) + PendingCount(s') + Overruns(sum, s, actions) + |s.accepted|
            == |s'.accepted| + PendingCount(s)
    decreases |actions|
  {
    if actions != [] {
      PickUpBalance(sum, Act(sum, s, actions[0]), actions[1..]);
    }
  }

  /** In every interleaving, timely or not: the frames picked up or still pending are the frames of the byte stream less
      one for each event raised while the bit was still set, so none is missed exactly if that never happens. */
  lemma PickedUpExactly(sum: Checksum, r: Rx, actions: seq<Action>)
    requires r.Valid() && r.state == Header1
    ensures var picked, pending := PickUps(sum, Boot(r), actions), PendingCount(Run(sum, Boot(r), actions));
            var frames, overruns := |Scan(sum, Bytes(actions), 0)|, Overruns(sum, Boot(r), actions);
            picked + pending == frames - overruns && (picked + pending == frames <==> overruns == 0)
  {
    PickUpBalance(sum, Boot(r), actions);
    AcceptedAreReports(sum, Boot(r), actions, 0);
    ParserIsScan(sum, r, Bytes(actions), 0);
  }
}
