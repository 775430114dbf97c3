/** Splitting an image into frames (tools/image_frame_packer.py). */
module Packer {
  import opened Arith
  import opened Crc
  import opened Wire
  import opened Framing

  const MAX_IMAGE_DATA_LEN: nat := 1022

  /** The largest image whose packet count still fits the one byte the format gives it. */
  const MAX_IMAGE: nat := 255 * MAX_IMAGE_DATA_LEN

  function TotalPackets(size: nat): nat {
    (size + MAX_IMAGE_DATA_LEN - 1) / MAX_IMAGE_DATA_LEN
  }

  /** The packet count is a byte exactly up to that size. */
  lemma PacketCountIsByte(size: nat)
    ensures TotalPackets(size) < 256 <==> size <= MAX_IMAGE
    ensures MAX_IMAGE == 260610
  {
  }

  /** Where packet `i` (counted from 0) starts. */
  function Offset(i: nat): nat {
    i * MAX_IMAGE_DATA_LEN
  }

  lemma OffsetInside(size: nat, i: nat)
    ensures i < TotalPackets(size) <==> Offset(i) < size
  {
  }

  function Chunk(image: seq<Byte>, i: nat): seq<Byte>
    requires i < TotalPackets(|image|)
  {
    OffsetInside(|image|, i);
    image[Offset(i)..Min(Offset(i + 1), |image|)]
  }

  function ImageFrame(total: Byte, num: Byte, data: seq<Byte>): Frame {
    Frame(CMD_TYPE_IMAGE, CMD_IMAGE_TRANSFER, [total, num] + data)
  }

  /** Packet `i` as a frame: the count and the packet's number, from 1, come before the image bytes. */
  function Packet(image: seq<Byte>, i: nat): (f: Frame)
    requires |image| <= MAX_IMAGE && i < TotalPackets(|image|)
    ensures f.Valid()
  {
    OffsetInside(|image|, i);
    PacketCountIsByte(|image|);
    var total: Byte := TotalPackets(|image|);
    var num: Byte := i + 1;
    ImageFrame(total, num, Chunk(image, i))
  }

  function Packets(image: seq<Byte>): seq<Frame>
    requires |image| <= MAX_IMAGE
  {
    seq(TotalPackets(|image|), i requires 0 <= i < TotalPackets(|image|) => Packet(image, i))
  }

  // ----- the frames of the script, as lists of numbers

  /** A frame's list for a packet of any length and number; the length field keeps the low sixteen bits. */
  function RawFrame(totalPackets: nat, packetNum: nat, data: seq<Byte>): seq<nat> {
    var body := RawBody(totalPackets, packetNum, data, (|data| + 2) % 65536);
    Wrapped(body, CrcOfFirst(body, |body|))
  }

  function RawBody(totalPackets: nat, packetNum: nat, data: seq<Byte>, n: Word): seq<nat> {
    [CMD_TYPE_IMAGE, CMD_IMAGE_TRANSFER, High(n), Low(n)] + ([totalPackets, packetNum] + data)
  }

  function Wrapped(body: seq<nat>, crc: nat): seq<nat> {
    [HEADER1, HEADER2] + body + [crc / 256 % 256, crc % 256]
  }

  lemma RawBodyIsGuarded(totalPackets: Byte, packetNum: Byte, data: seq<Byte>, n: Word)
    requires |data| <= MAX_IMAGE_DATA_LEN && n == |data| + 2
    ensures RawBody(totalPackets, packetNum, data, n) == Guarded(ImageFrame(totalPackets, packetNum, data))
  {
  }

  lemma EncodeIsWrapped(sum: Checksum, f: Frame, body: seq<nat>, crc: nat)
    requires f.Valid() && body == Guarded(f) && crc == sum(Guarded(f))
    ensures Wrapped(body, crc) == Encode(sum, f)
  {
  }

  /** For data that fits a packet, and a count and number that are bytes, it is the frame format. */
  lemma RawFrameIsFrame(totalPackets: Byte, packetNum: Byte, data: seq<Byte>)
    requires |data| <= MAX_IMAGE_DATA_LEN
    ensures RawFrame(totalPackets, packetNum, data) == Encode(Crc16, ImageFrame(totalPackets, packetNum, data))
  {
    var f, n := ImageFrame(totalPackets, packetNum, data), |data| + 2;
    var body := RawBody(totalPackets, packetNum, data, n);
    RawFrameOf(totalPackets, packetNum, data, n, body);
    RawBodyIsGuarded(totalPackets, packetNum, data, n);
    CrcOfBytes(body, Guarded(f));
    EncodeIsWrapped(Crc16, f, body, CrcOfFirst(body, |body|));
  }

  lemma RawFrameOf(totalPackets: nat, packetNum: nat, data: seq<Byte>, n: Word, body: seq<nat>)
    requires n == (|data| + 2) % 65536 && body == RawBody(totalPackets, packetNum, data, n)
    ensures RawFrame(totalPackets, packetNum, data) == Wrapped(body, CrcOfFirst(body, |body|))
  {
  }

  lemma RawFrameStart(totalPackets: nat, packetNum: nat, data: seq<Byte>, n: Word)
    requires n == (|data| + 2) % 65536
    ensures var w := RawFrame(totalPackets, packetNum, data);
            |w| >= 10 && w[0] == HEADER1 && w[1] == HEADER2 && w[4] == High(n) && w[5] == Low(n) && w[6] == totalPackets
  {
    var body := RawBody(totalPackets, packetNum, data, n);
    assert body[2] == High(n) && body[3] == Low(n) && body[4] == totalPackets;
    AroundBody(body, CrcOfFirst(body, |body|));
  }

  lemma AroundBody(body: seq<nat>, crc: nat)
    ensures var w := Wrapped(body, crc);
            && |w| == |body| + 4 && w[0] == HEADER1 && w[1] == HEADER2
            && forall k :: 0 <= k < |body| ==> w[k + 2] == body[k]
  {
  }

  lemma BadLengthSkipped(sum: Checksum, s: seq<Byte>, n: Word)
    requires |s| >= 6 && s[0] == HEADER1 && s[1] == HEADER2 && s[4] == High(n) && s[5] == Low(n)
    requires !(0 < n <= MAX_DATA_LEN)
    ensures Classify(sum, s) == Skip(6)
  {
    JoinSplit(High(n), Low(n), n);
  }

  /** Longer data makes a frame that the receiver gives up after its length field. */
  lemma LongFrameSkipped(totalPackets: nat, packetNum: nat, data: seq<Byte>, w: seq<Byte>, rest: seq<Byte>)
    requires MAX_IMAGE_DATA_LEN < |data| <= 65534 && w == RawFrame(totalPackets, packetNum, data)
    ensures Classify(Crc16, w + rest) == Skip(6)
  {
    var n: Word := (|data| + 2) % 65536;
    RawFrameStart(totalPackets, packetNum, data, n);
    BadLengthSkipped(Crc16, w + rest, n);
  }

  /** What stands where in a frame. */
  lemma RawFrameLayout(totalPackets: nat, packetNum: nat, data: seq<Byte>, n: Word)
    requires n == (|data| + 2) % 65536
    ensures var w := RawFrame(totalPackets, packetNum, data);
            && |w| == |data| + 10 && w[..4] == [0xA5, 0x5A, 0xD1, 0x01] && w[4] * 256 + w[5] == n
            && w[6] == totalPackets && w[7] == packetNum && w[8..8 + |data|] == data
  {
    var body := RawBody(totalPackets, packetNum, data, n);
    AroundBody(body, CrcOfFirst(body, |body|));
    BodyLayout(totalPackets, packetNum, data, n);
    var w := RawFrame(totalPackets, packetNum, data);
    FourFirst(w);
    forall i | 0 <= i < |data|
      ensures w[8..8 + |data|][i] == data[i]
    {
      assert w[6 + i + 2] == body[6 + i];
    }
  }

  lemma BodyLayout(totalPackets: nat, packetNum: nat, data: seq<Byte>, n: Word)
    ensures var body := RawBody(totalPackets, packetNum, data, n);
            && |body| == |data| + 6 && body[0] == 0xD1 && body[1] == 0x01 && body[2] * 256 + body[3] == n
            && body[4] == totalPackets && body[5] == packetNum
            && forall i :: 0 <= i < |data| ==> body[6 + i] == data[i]
  {
  }

  lemma FourFirst(w: seq<nat>)
    requires |w| >= 4
    ensures w[..4] == [w[0], w[1], w[2], w[3]]
  {
  }

  /** create_frame */
  method CreateFrame(totalPackets: nat, packetNum: nat, data: seq<Byte>) returns (frame: seq<nat>)
    ensures frame == RawFrame(totalPackets, packetNum, data)
    ensures totalPackets < 256 && packetNum < 256 && |data| <= MAX_IMAGE_DATA_LEN ==>
              frame == Encode(Crc16, ImageFrame(totalPackets, packetNum, data))
    ensures |frame| == |data| + 10 && frame[..4] == [0xA5, 0x5A, 0xD1, 0x01]
    ensures frame[4] * 256 + frame[5] == (|data| + 2) % 65536
    ensures frame[6] == totalPackets && frame[7] == packetNum && frame[8..8 + |data|] == data
  {
    frame := AppendParts(totalPackets, packetNum, data);
    RawFrameLayout(totalPackets, packetNum, data, (|data| + 2) % 65536);
    if totalPackets < 256 && packetNum < 256 && |data| <= MAX_IMAGE_DATA_LEN {
      RawFrameIsFrame(totalPackets, packetNum, data);
    }
  }

  /** Its list, appended part by part. */
  method AppendParts(totalPackets: nat, packetNum: nat, data: seq<Byte>) returns (frame: seq<nat>)
    ensures frame == RawFrame(totalPackets, packetNum, data)
  {
    frame := [];
    frame := frame + [HEADER1];
    frame := frame + [HEADER2];
    frame := frame + [CMD_TYPE_IMAGE];
    frame := frame + [CMD_IMAGE_TRANSFER];
    var payloadLen := (|data| + 2) % 65536;
    frame := frame + [High(payloadLen)];
    frame := frame + [Low(payloadLen)];
    frame := frame + [totalPackets];
    frame := frame + [packetNum];
    frame := frame + data;
    var crcData: seq<nat> := [CMD_TYPE_IMAGE, CMD_IMAGE_TRANSFER, High(payloadLen), Low(payloadLen)];
    crcData := crcData + frame[6..];
    assert frame[6..] == [totalPackets, packetNum] + data;
    assert crcData == RawBody(totalPackets, packetNum, data, payloadLen);
    assert frame == [HEADER1, HEADER2] + crcData;
    var crcValue := Calculate(crcData);
    frame := frame + [crcValue / 256 % 256];
    frame := frame + [crcValue % 256];
  }

  predicate AreBytes(w: seq<nat>) {
    forall k :: 0 <= k < |w| ==> w[k] < 256
  }

  /** pack_image_to_frames, for an image of any size. Up to the largest image the frames are the packets' encodings; the
      lists are lists of bytes if and only if the image is not larger. */
  method PackImageToFrames(image: seq<Byte>) returns (frames: seq<seq<nat>>)
    ensures |frames| == TotalPackets(|image|)
    ensures forall i :: 0 <= i < |frames| ==> frames[i] == RawFrame(|frames|, i + 1, Chunk(image, i))
    ensures |image| <= MAX_IMAGE ==> forall i :: 0 <= i < |frames| ==> frames[i] == Encode(Crc16, Packets(image)[i])
    ensures (forall i :: 0 <= i < |frames| ==> AreBytes(frames[i])) <==> |image| <= 260610
  {
    var totalSize := |image|;
    var totalPackets := (totalSize + MAX_IMAGE_DATA_LEN - 1) / MAX_IMAGE_DATA_LEN;
    frames := [];
    for i := 0 to totalPackets
      invariant |frames| == i
      invariant forall j :: 0 <= j < i ==> frames[j] == RawFrame(totalPackets, j + 1, Chunk(image, j))
    {
      var packetNum := i + 1;
      var offset := i * MAX_IMAGE_DATA_LEN;
      OffsetInside(totalSize, i);
      var dataLen := Min(MAX_IMAGE_DATA_LEN, totalSize - offset);
      ChunkIs(image, i, offset, dataLen);
      var packetData := image[offset..offset + dataLen];
      var frame := CreateFrame(totalPackets, packetNum, packetData);
      frames := frames + [frame];
    }
    PackedExactly(image, frames);
  }

  /** What its loop cuts out of the image is the packet's chunk. */
  lemma ChunkIs(image: seq<Byte>, i: nat, offset: nat, dataLen: int)
    requires i < TotalPackets(|image|) && offset == Offset(i) && dataLen == Min(MAX_IMAGE_DATA_LEN, |image| - offset)
    ensures 0 < dataLen <= MAX_IMAGE_DATA_LEN && offset + dataLen <= |image|
    ensures image[offset..offset + dataLen] == Chunk(image, i)
  {
    OffsetInside(|image|, i);
    assert Min(Offset(i + 1), |image|) == offset + dataLen;
  }

  lemma PacketEncoded(image: seq<Byte>, i: nat)
    requires |image| <= MAX_IMAGE && i < TotalPackets(|image|)
    ensures RawFrame(TotalPackets(|image|), i + 1, Chunk(image, i)) == Encode(Crc16, Packets(image)[i])
  {
    PacketCountIsByte(|image|);
    OffsetInside(|image|, i);
    var total: Byte, num: Byte, data := TotalPackets(|image|), i + 1, Chunk(image, i);
    PacketIs(image, i, total, num, data);
    RawFrameIsFrame(total, num, data);
  }

  lemma PacketIs(image: seq<Byte>, i: nat, total: Byte, num: Byte, data: seq<Byte>)
    requires |image| <= MAX_IMAGE && i < TotalPackets(|image|) && total == TotalPackets(|image|) && num == i + 1
    requires data == Chunk(image, i)
    ensures Packets(image)[i] == ImageFrame(total, num, data)
  {
    assert Packets(image)[i] == Packet(image, i);
  }

  lemma BytesAreBytes(w: seq<nat>, b: seq<Byte>)
    requires w == b
    ensures AreBytes(w)
  {
    forall k | 0 <= k < |w|
      ensures w[k] < 256
    {
      assert w[k] == b[k];
    }
  }

  lemma PackedExactly(image: seq<Byte>, frames: seq<seq<nat>>)
    requires |frames| == TotalPackets(|image|)
    requires forall i :: 0 <= i < |frames| ==> frames[i] == RawFrame(|frames|, i + 1, Chunk(image, i))
    ensures |image| <= MAX_IMAGE ==> forall i :: 0 <= i < |frames| ==> frames[i] == Encode(Crc16, Packets(image)[i])
    ensures (forall i :: 0 <= i < |frames| ==> AreBytes(frames[i])) <==> |image| <= MAX_IMAGE
  {
    PacketCountIsByte(|image|);
    if |image| <= MAX_IMAGE {
      forall i | 0 <= i < |frames|
        ensures frames[i] == Encode(Crc16, Packets(image)[i]) && AreBytes(frames[i])
      {
        PacketEncoded(image, i);
        BytesAreBytes(frames[i], Encode(Crc16, Packets(image)[i]));
      }
    } else {
      var n: Word := (|Chunk(image, 0)| + 2) % 65536;
      RawFrameStart(|frames|, 1, Chunk(image, 0), n);
      assert !AreBytes(frames[0]);
    }
  }
}
