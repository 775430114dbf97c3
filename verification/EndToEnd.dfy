/** From an image to the panel: packer, serial line, interrupt, thread and panel put together. */
module EndToEnd {
  import opened Arith
  import opened Crc
  import opened Wire
  import opened Framing
  import opened Receiver
  import opened Panel
  import opened Transfer
  import opened Packer
  import opened Spi

  /** The whole transfer as the panel should see it: one wake, command 0x10, the image bytes unchanged and in
      order, one update, one sleep. An empty image has no packets, and the panel sees nothing. */
  function ImageTrace(image: seq<Byte>): seq<PanelOp> {
    if image == [] then []
    else
      [ResetLow, ResetHigh, CheckBusy, WriteCmd(0xE0), WriteData(0x02), WriteCmd(0x04), CheckBusy, WriteCmd(0x10)]
      + DataOps(image)
      + [WriteCmd(0x12), WriteData(0x00), CheckBusy, WriteCmd(0x02), WriteData(0x00), CheckBusy, WriteCmd(0x07),
         WriteData(0xA5)]
  }

  // ----- what the packets do to the panel, one after the other

  lemma DataOpsConcat(u: seq<Byte>, v: seq<Byte>)
    ensures DataOps(u + v) == DataOps(u) + DataOps(v)
  {
  }

  lemma PacketEffect(image: seq<Byte>, i: nat)
    requires |image| <= MAX_IMAGE && i < TotalPackets(|image|)
    ensures FrameOps(Packet(image, i))
         == (if i == 0 then WAKE + [WriteCmd(0x10)] else []) + DataOps(Chunk(image, i))
            + (if i + 1 == TotalPackets(|image|) then UPDATE + SLEEP else [])
  {
    OffsetInside(|image|, i);
    PacketCountIsByte(|image|);
    var f := Packet(image, i);
    assert f.payload[2..] == Chunk(image, i);
  }

  /** The part of the image the first `k` packets carry. */
  function Sent(image: seq<Byte>, k: nat): seq<Byte> {
    image[..Min(Offset(k), |image|)]
  }

  lemma SentNext(image: seq<Byte>, k: nat)
    requires k < TotalPackets(|image|)
    ensures Sent(image, k + 1) == Sent(image, k) + Chunk(image, k)
    ensures k + 1 == TotalPackets(|image|) ==> Sent(image, k + 1) == image
  {
    OffsetInside(|image|, k);
    OffsetInside(|image|, k + 1);
  }

  lemma AppendEffect(first: bool, start: seq<PanelOp>, sent: seq<Byte>, chunk: seq<Byte>, end: seq<PanelOp>)
    requires first ==> sent == []
    ensures (if first then [] else start + DataOps(sent)) + ((if first then start else []) + DataOps(chunk) + end)
         == start + DataOps(sent + chunk) + end
  {
    DataOpsConcat(sent, chunk);
    if first {
      assert sent + chunk == chunk;
      assert [] + (start + DataOps(chunk) + end) == start + DataOps(chunk) + end;
    } else {
      assert [] + DataOps(chunk) + end == DataOps(chunk) + end;
      assert start + DataOps(sent) + (DataOps(chunk) + end) == start + (DataOps(sent) + DataOps(chunk)) + end;
    }
  }

  lemma {:induction false} FirstPackets(image: seq<Byte>, k: nat)
    requires |image| <= MAX_IMAGE && k < TotalPackets(|image|)
    ensures AllOps(Packets(image)[..k])
         == if k == 0 then [] else WAKE + [WriteCmd(0x10)] + DataOps(Sent(image, k))
  {
    if k > 0 {
      FirstPackets(image, k - 1);
      NextPacket(image, k - 1);
    }
  }

  lemma NextPacket(image: seq<Byte>, k: nat)
    requires |image| <= MAX_IMAGE && k < TotalPackets(|image|)
    requires AllOps(Packets(image)[..k]) == if k == 0 then [] else WAKE + [WriteCmd(0x10)] + DataOps(Sent(image, k))
    ensures AllOps(Packets(image)[..k + 1])
         == WAKE + [WriteCmd(0x10)] + DataOps(Sent(image, k + 1))
            + (if k + 1 == TotalPackets(|image|) then UPDATE + SLEEP else [])
  {
    var end := if k + 1 == TotalPackets(|image|) then UPDATE + SLEEP else [];
    PacketsSnoc(image, k);
    PacketEffect(image, k);
    SentNext(image, k);
    Combine(AllOps(Packets(image)[..k]), FrameOps(Packet(image, k)), k == 0, WAKE + [WriteCmd(0x10)],
            Sent(image, k), Chunk(image, k), Sent(image, k + 1), end);
  }

  lemma PacketsSnoc(image: seq<Byte>, k: nat)
    requires |image| <= MAX_IMAGE && k < TotalPackets(|image|)
    ensures AllOps(Packets(image)[..k + 1]) == AllOps(Packets(image)[..k]) + FrameOps(Packet(image, k))
  {
    assert Packets(image)[..k + 1] == Packets(image)[..k] + [Packet(image, k)];
    AllOpsAppend(Packets(image)[..k], Packet(image, k));
  }

  lemma Combine(before: seq<PanelOp>, effect: seq<PanelOp>, first: bool, start: seq<PanelOp>,
                sent: seq<Byte>, chunk: seq<Byte>, sent': seq<Byte>, end: seq<PanelOp>)
    requires before == (if first then [] else start + DataOps(sent)) && (first ==> sent == [])
    requires effect == (if first then start else []) + DataOps(chunk) + end && sent' == sent + chunk
    ensures before + effect == start + DataOps(sent') + end
  {
    AppendEffect(first, start, sent, chunk, end);
  }

  lemma AllPackets(image: seq<Byte>)
    requires |image| <= MAX_IMAGE
    ensures AllOps(Packets(image)) == ImageTrace(image)
  {
    OffsetInside(|image|, 0);
    if image != [] {
      var n := TotalPackets(|image|);
      FirstPackets(image, n - 1);
      PacketsWhole(image, n);
      LastPacket(image, n - 1, Packets(image));
    }
  }

  lemma PacketsWhole(image: seq<Byte>, n: nat)
    requires |image| <= MAX_IMAGE && n == TotalPackets(|image|)
    ensures Packets(image)[..n] == Packets(image)
  {
  }

  lemma LastPacket(image: seq<Byte>, k: nat, fs: seq<Frame>)
    requires |image| <= MAX_IMAGE && k + 1 == TotalPackets(|image|) && fs == Packets(image)[..k + 1]
    requires AllOps(Packets(image)[..k]) == if k == 0 then [] else WAKE + [WriteCmd(0x10)] + DataOps(Sent(image, k))
    ensures AllOps(fs) == ImageTrace(image)
  {
    NextPacket(image, k);
    SentNext(image, k);
    StartAndEnd();
  }

  // ----- the byte stream of the frames

  function Flatten(frames: seq<seq<Byte>>): seq<Byte> {
    if frames == [] then [] else frames[0] + Flatten(frames[1..])
  }

  lemma {:induction false} ScanFlat(sum: Checksum, ws: seq<seq<Byte>>, fs: seq<Frame>, pos: nat)
    requires |ws| == |fs| && forall i :: 0 <= i < |ws| ==> Encodes(sum, ws[i], fs[i])
    ensures FramesOf(Scan(sum, Flatten(ws), pos)) == fs
    decreases |ws|
  {
    if ws != [] {
      ScanFlat(sum, ws[1..], fs[1..], pos + fs[0].Size());
      ScanFlatStep(sum, ws[0], fs[0], Flatten(ws[1..]), fs[1..], pos);
      assert [fs[0]] + fs[1..] == fs;
    }
  }

  lemma ScanFlatStep(sum: Checksum, w: seq<Byte>, f: Frame, rest: seq<Byte>, fs: seq<Frame>, pos: nat)
    requires Encodes(sum, w, f) && FramesOf(Scan(sum, rest, pos + f.Size())) == fs
    ensures FramesOf(Scan(sum, w + rest, pos)) == [f] + fs
  {
    ScanFrame(sum, w, f, rest, pos);
    FramesCons(Report(pos + f.Size(), f), Scan(sum, rest, pos + f.Size()));
  }

  lemma FramesCons(report: Report, reports: seq<Report>)
    ensures FramesOf([report] + reports) == [report.frame] + FramesOf(reports)
  {
  }

  /** `frames` is what PackImageToFrames returns for `image`. */
  ghost predicate Packed(image: seq<Byte>, frames: seq<seq<Byte>>) {
    && |image| <= MAX_IMAGE && |frames| == |Packets(image)|
    && forall i :: 0 <= i < |frames| ==> frames[i] == Encode(Crc16, Packets(image)[i])
  }

  lemma PackedStream(image: seq<Byte>, frames: seq<seq<Byte>>)
    requires Packed(image, frames)
    ensures FramesOf(Scan(Crc16, Flatten(frames), 0)) == Packets(image)
  {
    var fs := Packets(image);
    forall i | 0 <= i < |frames|
      ensures Encodes(Crc16, frames[i], fs[i])
    {
      EncodeParts(Crc16, fs[i]);
    }
    ScanFlat(Crc16, frames, fs, 0);
  }

  // ----- end to end

  /** Every timely run that delivers the packed image has put a prefix of the intended trace on the panel, and
      exactly that trace once the thread is idle again. */
  lemma ImageArrives(image: seq<Byte>, frames: seq<seq<Byte>>, r: Rx, actions: seq<Action>)
    requires Packed(image, frames)
    requires r.Valid() && r.state == Header1
    requires Bytes(actions) == Flatten(frames) && Timely(Crc16, Boot(r), actions)
    ensures var s := Run(Crc16, Boot(r), actions);
            s.trace <= ImageTrace(image) && (Idle(s) ==> s.trace == ImageTrace(image))
  {
    TimelyRun(Crc16, r, actions);
    PackedStream(image, frames);
    AllPackets(image);
  }

  /** With the thread run after every byte the transfer completes. */
  lemma ImageArrivesPolled(image: seq<Byte>, frames: seq<seq<Byte>>, r: Rx)
    requires Packed(image, frames)
    requires r.Valid() && r.state == Header1
    ensures Run(Crc16, Boot(r), Polled(Flatten(frames))).trace == ImageTrace(image)
  {
    PolledIsTimely(Crc16, Boot(r), Flatten(frames));
    ImageArrives(image, frames, r, Polled(Flatten(frames)));
  }

  // ----- down to the pins

  lemma {:induction false} TransfersConcat(u: seq<PanelOp>, v: seq<PanelOp>)
    ensures Transfers(u + v) == Transfers(u) + Transfers(v)
  {
    if u == [] {
      assert u + v == v;
    } else {
      var first := if u[0].WriteCmd? || u[0].WriteData? then [u[0]] else [];
      assert (u + v)[1..] == u[1..] + v;
      TransfersConcat(u[1..], v);
      assert first + (Transfers(u[1..]) + Transfers(v)) == (first + Transfers(u[1..])) + Transfers(v);
    }
  }

  lemma {:induction false} TransfersOfData(data: seq<Byte>)
    ensures Transfers(DataOps(data)) == DataOps(data)
  {
    if data != [] {
      assert DataOps(data)[1..] == DataOps(data[1..]);
      TransfersOfData(data[1..]);
    }
  }

  /** The bytes of a transfer on the serial link, with the image in the middle. */
  lemma TransfersOfImage(image: seq<Byte>)
    requires image != []
    ensures Transfers(ImageTrace(image))
         == [WriteCmd(0xE0), WriteData(0x02), WriteCmd(0x04), WriteCmd(0x10)] + DataOps(image)
            + [WriteCmd(0x12), WriteData(0x00), WriteCmd(0x02), WriteData(0x00), WriteCmd(0x07), WriteData(0xA5)]
  {
    var start, end := StartOps(), EndOps();
    TransfersConcat(start + DataOps(image), end);
    TransfersConcat(start, DataOps(image));
    TransfersOfData(image);
    TransfersOfStart();
    TransfersOfEnd();
  }

  predicate Heard(op: PanelOp) {
    op.WriteCmd? || op.WriteData?
  }

  lemma {:induction false} TransfersLoud(ops: seq<PanelOp>)
    requires forall i :: 0 <= i < |ops| ==> Heard(ops[i])
    ensures Transfers(ops) == ops
  {
    if ops != [] {
      TransfersLoud(ops[1..]);
    }
  }

  lemma {:induction false} TransfersSilent(ops: seq<PanelOp>)
    requires forall i :: 0 <= i < |ops| ==> !Heard(ops[i])
    ensures Transfers(ops) == []
  {
    if ops != [] {
      TransfersSilent(ops[1..]);
    }
  }

  /** Silent and loud operations in turn. */
  lemma TransfersOfFour(a: seq<PanelOp>, b: seq<PanelOp>, c: seq<PanelOp>, d: seq<PanelOp>)
    requires (forall i :: 0 <= i < |a| ==> !Heard(a[i])) && (forall i :: 0 <= i < |b| ==> Heard(b[i]))
    requires (forall i :: 0 <= i < |c| ==> !Heard(c[i])) && (forall i :: 0 <= i < |d| ==> Heard(d[i]))
    ensures Transfers(a + b + c + d) == b + d
  {
    TransfersOfTwo(a, b);
    TransfersOfTwo(c, d);
    TransfersConcat(a + b, c + d);
    OpsRegroup(a + b, c, d);
  }

  lemma TransfersOfTwo(a: seq<PanelOp>, b: seq<PanelOp>)
    requires (forall i :: 0 <= i < |a| ==> !Heard(a[i])) && (forall i :: 0 <= i < |b| ==> Heard(b[i]))
    ensures Transfers(a + b) == b
  {
    TransfersConcat(a, b);
    TransfersSilent(a);
    TransfersLoud(b);
  }

  lemma OpsRegroup(a: seq<PanelOp>, b: seq<PanelOp>, c: seq<PanelOp>)
    ensures a + b + c == a + (b + c)
  {
  }

  lemma TransfersOfStart()
    ensures Transfers(StartOps()) == [WriteCmd(0xE0), WriteData(0x02), WriteCmd(0x04), WriteCmd(0x10)]
  {
    var b, d := [WriteCmd(0xE0), WriteData(0x02), WriteCmd(0x04)], [WriteCmd(0x10)];
    TransfersOfFour([ResetLow, ResetHigh, CheckBusy], b, [CheckBusy], d);
    assert StartOps() == [ResetLow, ResetHigh, CheckBusy] + b + [CheckBusy] + d;
  }

  lemma TransfersOfEnd()
    ensures Transfers(EndOps())
         == [WriteCmd(0x12), WriteData(0x00), WriteCmd(0x02), WriteData(0x00), WriteCmd(0x07), WriteData(0xA5)]
  {
    var b: seq<PanelOp>, d: seq<PanelOp> := [WriteCmd(0x12), WriteData(0x00)], [WriteCmd(0x02), WriteData(0x00)];
    var e := [WriteCmd(0x07), WriteData(0xA5)];
    TransfersOfFour([], b, [CheckBusy], d);
    TransfersOfFour([], [], [CheckBusy], e);
    TransfersConcat([] + b + [CheckBusy] + d, [] + [] + [CheckBusy] + e);
    assert EndOps() == ([] + b + [CheckBusy] + d) + ([] + [] + [CheckBusy] + e);
  }

  /** A listener on the pins hears every image byte, as data, in order and unchanged, between the start-up bytes
      and the update and sleep bytes. */
  lemma ImageOnTheWires(image: seq<Byte>, frames: seq<seq<Byte>>, r: Rx, p: Pins)
    requires 0 < |image| && Packed(image, frames)
    requires r.Valid() && r.state == Header1
    ensures var trace := Run(Crc16, Boot(r), Polled(Flatten(frames))).trace;
            Hear(Listener(p.clk, 0, 0, []), TraceWave(p, trace)).heard
            == [WriteCmd(0xE0), WriteData(0x02), WriteCmd(0x04), WriteCmd(0x10)] + DataOps(image)
               + [WriteCmd(0x12), WriteData(0x00), WriteCmd(0x02), WriteData(0x00), WriteCmd(0x07), WriteData(0xA5)]
  {
    ImageArrivesPolled(image, frames, r);
    RoundTrip(Listener(p.clk, 0, 0, []), p, ImageTrace(image));
    TransfersOfImage(image);
  }

  // ----- the same chain run by the program's own objects

  lemma ReportsSnoc(sum: Checksum, r: Rx, s: seq<Byte>, b: Byte)
    requires r.Valid()
    ensures Final(sum, r, s + [b]) == Step(sum, Final(sum, r, s), b).0
    ensures FramesOf(Reports(sum, r, s + [b], 0))
         == FramesOf(Reports(sum, r, s, 0))
            + (if Step(sum, Final(sum, r, s), b).1 then [Step(sum, Final(sum, r, s), b).0.Held()] else [])
  {
    var r1 := Final(sum, r, s);
    FinalConcat(sum, r, s, [b]);
    ReportsConcat(sum, r, s, [b], 0);
    assert Final(sum, r1, [b]) == Final(sum, Step(sum, r1, b).0, [b][1..]);
    assert [b] + [] == [b];
    ReportsCons(sum, r1, b, [], |s|);
  }

  /** What one more byte makes the panel see. */
  function Effect(sum: Checksum, r: Rx, b: Byte): seq<PanelOp>
    requires r.Valid()
  {
    var next := Step(sum, r, b);
    if next.1 then FrameOps(next.0.Held()) else []
  }

  /** What a byte stream makes the panel see. */
  function StreamOps(sum: Checksum, r: Rx, s: seq<Byte>): seq<PanelOp>
    requires r.Valid()
  {
    AllOps(FramesOf(Reports(sum, r, s, 0)))
  }

  lemma OpsSnoc(sum: Checksum, r: Rx, s: seq<Byte>, b: Byte)
    requires r.Valid()
    ensures StreamOps(sum, r, s + [b]) == StreamOps(sum, r, s) + Effect(sum, Final(sum, r, s), b)
  {
    var before, next := FramesOf(Reports(sum, r, s, 0)), Step(sum, Final(sum, r, s), b);
    ReportsSnoc(sum, r, s, b);
    if next.1 {
      AllOpsAppend(before, next.0.Held());
    } else {
      assert before + [] == before;
    }
  }

  lemma FeedNext(sum: Checksum, r: Rx, stream: seq<Byte>, i: nat, start: seq<PanelOp>, trace: seq<PanelOp>)
    requires r.Valid() && i < |stream| && trace == start + StreamOps(sum, r, stream[..i])
    ensures Final(sum, r, stream[..i + 1]) == Step(sum, Final(sum, r, stream[..i]), stream[i]).0
    ensures trace + Effect(sum, Final(sum, r, stream[..i]), stream[i]) == start + StreamOps(sum, r, stream[..i + 1])
  {
    TakeNext(stream, i);
    FinalSnoc(sum, r, stream[..i], stream[i]);
    OpsSnoc(sum, r, stream[..i], stream[i]);
    Append3(start, StreamOps(sum, r, stream[..i]), Effect(sum, Final(sum, r, stream[..i]), stream[i]),
            StreamOps(sum, r, stream[..i + 1]));
  }

  lemma TakeNext(stream: seq<Byte>, i: nat)
    requires i < |stream|
    ensures stream[..i + 1] == stream[..i] + [stream[i]]
  {
  }

  lemma FinalSnoc(sum: Checksum, r: Rx, s: seq<Byte>, b: Byte)
    requires r.Valid()
    ensures Final(sum, r, s + [b]) == Step(sum, Final(sum, r, s), b).0
  {
    var r1 := Final(sum, r, s);
    FinalConcat(sum, r, s, [b]);
    assert Final(sum, r1, [b]) == Final(sum, Step(sum, r1, b).0, [b][1..]);
  }

  lemma Append3(start: seq<PanelOp>, u: seq<PanelOp>, v: seq<PanelOp>, uv: seq<PanelOp>)
    requires uv == u + v
    ensures start + u + v == start + uv
  {
  }

  /** One byte: the interrupt, then the thread if the event was raised. */
  method Deliver(b: Byte, parser: Parser, epd: Epd)
    requires parser.Abs().Valid()
    modifies parser, parser.buffer, epd
    ensures parser.Abs() == Step(Crc16, old(parser.Abs()), b).0
    ensures epd.trace == old(epd.trace) + Effect(Crc16, old(parser.Abs()), b)
  {
    var raised := parser.RecDataProcessing(b);
    if raised {
      epd.ProcessFrame(Frame(parser.cmdType, parser.cmd, parser.buffer[..parser.dataLen]));
    }
  }

  method Feed(stream: seq<Byte>, parser: Parser, epd: Epd)
    requires parser.Abs().Valid()
    modifies parser, parser.buffer, epd
    ensures epd.trace == old(epd.trace) + StreamOps(Crc16, old(parser.Abs()), stream)
    ensures parser.Abs() == Final(Crc16, old(parser.Abs()), stream)
  {
    ghost var r, start := parser.Abs(), epd.trace;
    for i := 0 to |stream|
      invariant parser.Abs() == Final(Crc16, r, stream[..i])
      invariant epd.trace == start + StreamOps(Crc16, r, stream[..i])
    {
      FeedNext(Crc16, r, stream, i, start, epd.trace);
      Deliver(stream[i], parser, epd);
    }
    assert stream[..|stream|] == stream;
  }

  /** Pack an image, feed the frames to the parser byte by byte and process each frame when its event is raised. */
  method SendImage(image: seq<Byte>, parser: Parser, epd: Epd)
    requires |image| <= MAX_IMAGE && parser.Abs().Valid() && parser.state == Header1
    modifies parser, parser.buffer, epd
    ensures epd.trace == old(epd.trace) + ImageTrace(image)
  {
    var lists := PackImageToFrames(image);
    assert forall i, k :: 0 <= i < |lists| && 0 <= k < |lists[i]| ==> AreBytes(lists[i]) && lists[i][k] < 256;
    var frames: seq<seq<Byte>> := lists;
    ParserIsScan(Crc16, parser.Abs(), Flatten(frames), 0);
    PackedStream(image, frames);
    AllPackets(image);
    Feed(Flatten(frames), parser, epd);
  }
}
