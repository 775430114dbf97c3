/** The frame format shared by the packer and the firmware (User/user.h, tools/image_frame_packer.py). */
module Wire {
  import opened Crc

  const HEADER1: Byte := 0xA5
  const HEADER2: Byte := 0x5A
  const CMD_TYPE_IMAGE: Byte := 0xD1
  const CMD_IMAGE_TRANSFER: Byte := 0x01
  const MAX_DATA_LEN: nat := 1024

  function High(w: Word): Byte { w / 256 }
  function Low(w: Word): Byte { w % 256 }
  function Join(high: Byte, low: Byte): Word { high as int * 256 + low as int }

  datatype Frame = Frame(cmdType: Byte, cmd: Byte, payload: seq<Byte>) {
    predicate Valid() {
      0 < |payload| <= MAX_DATA_LEN
    }

    /** The number of bytes on the wire. */
    function Size(): nat {
      8 + |payload|
    }
  }

  /** The part of a frame that the CRC covers: everything but the two header bytes. */
  function Guarded(f: Frame): seq<Byte>
    requires f.Valid()
  {
    [f.cmdType, f.cmd, High(|f.payload|), Low(|f.payload|)] + f.payload
  }

  type Checksum = seq<Byte> -> Word

  /** The wire format: `w` is the frame `f`, with its length and checksum sent high byte first. */
  predicate Encodes(sum: Checksum, w: seq<Byte>, f: Frame) {
    && f.Valid() && |w| == f.Size()
    && w[0] == HEADER1 && w[1] == HEADER2 && w[2] == f.cmdType && w[3] == f.cmd
    && var n := |f.payload|;
       Join(w[4], w[5]) == n && w[6..6 + n] == f.payload && Join(w[6 + n], w[7 + n]) == sum(Guarded(f))
  }

  function Encode(sum: Checksum, f: Frame): (w: seq<Byte>)
    requires f.Valid()
    ensures |w| == f.Size()
  {
    var crc := sum(Guarded(f));
    [HEADER1, HEADER2] + Guarded(f) + [High(crc), Low(crc)]
  }

  lemma JoinSplit(high: Byte, low: Byte, w: Word)
    ensures Join(high, low) == w <==> high == High(w) && low == Low(w)
  {
  }

  lemma GuardedShape(f: Frame)
    requires f.Valid()
    ensures var g, n := Guarded(f), |f.payload|;
            |g| == 4 + n && g[0] == f.cmdType && g[1] == f.cmd && Join(g[2], g[3]) == n && g[4..] == f.payload
  {
    JoinSplit(High(|f.payload|), Low(|f.payload|), |f.payload|);
  }

  lemma WrapShape(g: seq<Byte>, high: Byte, low: Byte)
    ensures var w := [HEADER1, HEADER2] + g + [high, low];
            && |w| == |g| + 4 && w[0] == HEADER1 && w[1] == HEADER2
            && w[2..2 + |g|] == g && w[2 + |g|] == high && w[3 + |g|] == low
  {
  }

  lemma EncodeParts(sum: Checksum, f: Frame)
    requires f.Valid()
    ensures Encodes(sum, Encode(sum, f), f)
  {
    var g, n, crc := Guarded(f), |f.payload|, sum(Guarded(f));
    var w := Encode(sum, f);
    GuardedShape(f);
    WrapShape(g, High(crc), Low(crc));
    JoinSplit(High(crc), Low(crc), crc);
    assert w[2] == w[2..6 + n][0] && w[3] == w[2..6 + n][1] && w[4] == w[2..6 + n][2] && w[5] == w[2..6 + n][3];
    assert w[6..6 + n] == w[2..6 + n][4..];
  }

  lemma GuardedPart(sum: Checksum, w: seq<Byte>, f: Frame)
    requires Encodes(sum, w, f)
    ensures w[2..6 + |f.payload|] == Guarded(f)
  {
    JoinSplit(w[4], w[5], |f.payload|);
    FourThenRest(w, |f.payload|);
  }

  lemma FourThenRest(w: seq<Byte>, n: nat)
    requires |w| >= 6 + n
    ensures w[2..6 + n] == [w[2], w[3], w[4], w[5]] + w[6..6 + n]
  {
  }

  /** A frame has exactly one encoding. */
  lemma EncodingUnique(sum: Checksum, w: seq<Byte>, f: Frame)
    requires f.Valid()
    ensures Encodes(sum, w, f) <==> w == Encode(sum, f)
  {
    EncodeParts(sum, f);
    if Encodes(sum, w, f) {
      var n, crc := |f.payload|, sum(Guarded(f));
      GuardedPart(sum, w, f);
      JoinSplit(w[6 + n], w[7 + n], crc);
      TwoEnds(w, n);
    }
  }

  lemma TwoEnds(w: seq<Byte>, n: nat)
    requires |w| == 8 + n
    ensures w == [w[0], w[1]] + w[2..6 + n] + [w[6 + n], w[7 + n]]
  {
  }
}
