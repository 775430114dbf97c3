/** What the firmware sends to the e-paper panel (Device/EPD.c) and how frames drive it (User/thread_WiFi.c). */
module Panel {
  import opened Crc
  import opened Wire

  /** One effect on the panel: a command or data byte, a change of the reset line, or a wait for the busy line. */
  datatype PanelOp = WriteCmd(b: Byte) | WriteData(b: Byte) | ResetLow | ResetHigh | CheckBusy

  const BUFFER_SIZE: nat := 8000

  const WAKE: seq<PanelOp> :=
    [ResetLow, ResetHigh, CheckBusy, WriteCmd(0xE0), WriteData(0x02), WriteCmd(0x04), CheckBusy]
  const UPDATE: seq<PanelOp> := [WriteCmd(0x12), WriteData(0x00), CheckBusy]
  const SLEEP: seq<PanelOp> := [WriteCmd(0x02), WriteData(0x00), CheckBusy, WriteCmd(0x07), WriteData(0xA5)]

  /** The given bytes, unchanged and in order, as data writes. */
  function DataOps(data: seq<Byte>): seq<PanelOp> {
    seq(|data|, i requires 0 <= i < |data| => WriteData(data[i]))
  }

  /** What packet `num` of `total` makes the panel see. */
  function PacketOps(total: Byte, num: Byte, data: seq<Byte>): seq<PanelOp> {
    (if num == 1 then WAKE + [WriteCmd(0x10)] else []) + DataOps(data) + (if num == total then UPDATE + SLEEP else [])
  }

  predicate IsImage(f: Frame) {
    f.cmdType == CMD_TYPE_IMAGE && f.cmd == CMD_IMAGE_TRANSFER && |f.payload| > 2
  }

  /** What one frame makes the panel see. */
  function FrameOps(f: Frame): seq<PanelOp> {
    if IsImage(f) then PacketOps(f.payload[0], f.payload[1], f.payload[2..]) else []
  }

  function AllOps(fs: seq<Frame>): seq<PanelOp> {
    if fs == [] then [] else AllOps(fs[..|fs| - 1]) + FrameOps(fs[|fs| - 1])
  }

  /** The driver's sequences, byte by byte: what comes before an image and what comes after it. */
  function StartOps(): seq<PanelOp> {
    [ResetLow, ResetHigh, CheckBusy, WriteCmd(0xE0), WriteData(0x02), WriteCmd(0x04), CheckBusy, WriteCmd(0x10)]
  }

  function EndOps(): seq<PanelOp> {
    [WriteCmd(0x12), WriteData(0x00), CheckBusy, WriteCmd(0x02), WriteData(0x00), CheckBusy, WriteCmd(0x07),
     WriteData(0xA5)]
  }

  lemma StartAndEnd()
    ensures WAKE + [WriteCmd(0x10)] == StartOps() && UPDATE + SLEEP == EndOps()
  {
  }

  // ----- colour codes

  const BLACK: Byte := 0
  const WHITE: Byte := 1
  const YELLOW: Byte := 2
  const RED: Byte := 3

  function ColorGet(color: Byte): Byte {
    match color
    case 0 => BLACK
    case 1 => WHITE
    case 2 => YELLOW
    case 3 => RED
    case _ => WHITE
  }

  /** A byte of four 2-bit pixels, each passed through ColorGet. */
  function Recode(b: Byte): Byte {
    ColorGet(b / 64 % 4) as int * 64 + ColorGet(b / 16 % 4) as int * 16
    + ColorGet(b / 4 % 4) as int * 4 + ColorGet(b % 4) as int
  }

  lemma ColorGetIdentity(color: Byte)
    requires color < 4
    ensures ColorGet(color) == color
  {
  }

  /** The panel's colour codes are the buffer's: recoding changes no byte. */
  lemma RecodeIdentity(b: Byte)
    ensures Recode(b) == b
  {
    var q1, q2, q3 := b / 4, b / 16, b / 64;
    assert q2 == q1 / 4 && q3 == q2 / 4;
    ColorGetIdentity(q3 % 4);
    ColorGetIdentity(q2 % 4);
    ColorGetIdentity(q1 % 4);
    ColorGetIdentity(b % 4);
  }

  class Epd {
    var trace: seq<PanelOp>

    method InitFast()
      modifies this
      ensures trace == old(trace) + WAKE
    {
      trace := trace + [ResetLow, ResetHigh, CheckBusy];
      trace := trace + [WriteCmd(0xE0), WriteData(0x02)];
      trace := trace + [WriteCmd(0x04), CheckBusy];
    }

    method Update()
      modifies this
      ensures trace == old(trace) + UPDATE
    {
      trace := trace + [WriteCmd(0x12), WriteData(0x00), CheckBusy];
    }

    method Sleep()
      modifies this
      ensures trace == old(trace) + SLEEP
    {
      trace := trace + [WriteCmd(0x02), WriteData(0x00), CheckBusy];
      trace := trace + [WriteCmd(0x07), WriteData(0xA5)];
    }

    /** The loop shared by EPD_DisplayImage and EPD_DisplayImage_Paragraph. */
    method SendPixels(picData: seq<Byte>, len: nat)
      requires len <= |picData|
      modifies this
      ensures trace == old(trace) + DataOps(picData[..len])
    {
      for i := 0 to len
        invariant trace == old(trace) + DataOps(picData[..i])
      {
        RecodeIdentity(picData[i]);
        trace := trace + [WriteData(Recode(picData[i]))];
        assert DataOps(picData[..i + 1]) == DataOps(picData[..i]) + [WriteData(picData[i])];
      }
    }

    method DisplayImage(picData: seq<Byte>)
      requires |picData| >= BUFFER_SIZE
      modifies this
      ensures trace == old(trace) + [WriteCmd(0x10)] + DataOps(picData[..BUFFER_SIZE]) + UPDATE
    {
      trace := trace + [WriteCmd(0x10)];
      SendPixels(picData, BUFFER_SIZE);
      Update();
    }

    method DisplayImageParagraph(picData: seq<Byte>, number: Byte)
      modifies this
      ensures trace == old(trace) + (if number == 1 then [WriteCmd(0x10)] else []) + DataOps(picData)
    {
      if number == 1 {
        trace := trace + [WriteCmd(0x10)];
      }
      SendPixels(picData, |picData|);
      assert picData[..|picData|] == picData;
    }

    method ProcessImageData(totalPackets: Byte, packetNum: Byte, data: seq<Byte>)
      modifies this
      ensures trace == old(trace) + PacketOps(totalPackets, packetNum, data)
    {
      if packetNum == 1 {
        InitFast();
      }
      DisplayImageParagraph(data, packetNum);
      if packetNum == totalPackets {
        Update();
        Sleep();
      }
    }

    method ProcessFrame(frame: Frame)
      modifies this
      ensures trace == old(trace) + FrameOps(frame)
      ensures var p := frame.payload;
              if frame.cmdType == 0xD1 && frame.cmd == 0x01 && |p| > 2 then
                trace == old(trace) + ((if p[1] == 1 then StartOps() else []) + DataOps(p[2..])
                                       + (if p[1] == p[0] then EndOps() else []))
              else trace == old(trace)
    {
      StartAndEnd();
      if frame.cmdType == CMD_TYPE_IMAGE {
        if frame.cmd == CMD_IMAGE_TRANSFER {
          if |frame.payload| > 2 {
            ProcessImageData(frame.payload[0], frame.payload[1], frame.payload[2..]);
          }
        }
      }
    }
  }
}
