/** Corrupted frames at the receiver: no event is raised (User/ch32v30x_it.c). */
module Corruption {
  import opened Crc
  import opened ErrorDetection
  import opened Wire
  import opened Framing

  /** `w'` is the encoding `w` of `f` with errors that leave the header and the length alone. */
  ghost predicate Damaged(w: seq<Byte>, f: Frame, w': seq<Byte>) {
    && Encodes(Crc16, w, f) && |w'| == |w| && w' != w
    && w'[0] == w[0] && w'[1] == w[1] && w'[4] == w[4] && w'[5] == w[5]
  }

  function Covered(w: seq<Byte>): seq<Byte>
    requires |w| >= 8
  {
    w[2..|w| - 2]
  }

  function Received(w: seq<Byte>): Word
    requires |w| >= 8
  {
    Join(w[|w| - 2], w[|w| - 1])
  }

  /** The parser stays aligned, so the event depends on the checksum alone. */
  lemma DamagedRun(r: Rx, w: seq<Byte>, f: Frame, w': seq<Byte>, pos: nat)
    requires r.Valid() && r.state == Header1 && Damaged(w, f, w')
    ensures Received(w) == Crc16(Covered(w))
    ensures Final(Crc16, r, w').state == Header1
    ensures Reports(Crc16, r, w', pos) != [] ==> Received(w') == Crc16(Covered(w'))
  {
    var n := |f.payload|;
    var f' := Frame(w'[2], w'[3], w'[6..6 + n]);
    GuardedPart(Crc16, w, f);
    RunFrame(Crc16, r, w', pos, n);
    if Encodes(Crc16, w', f') {
      GuardedPart(Crc16, w', f');
    }
  }

  lemma CoveredDetermines(w: seq<Byte>, w': seq<Byte>)
    requires |w| == |w'| >= 8 && Covered(w) == Covered(w')
    requires w'[0] == w[0] && w'[1] == w[1] && w'[|w| - 2] == w[|w| - 2] && w'[|w| - 1] == w[|w| - 1]
    ensures w == w'
  {
    forall i | 0 <= i < |w|
      ensures w[i] == w'[i]
    {
      if 2 <= i < |w| - 2 {
        assert w[i] == Covered(w)[i - 2];
      }
    }
  }

  /** A burst of at most sixteen wire bits in the covered bytes raises no event. */
  lemma BurstRaisesNoEvent(r: Rx, w: seq<Byte>, f: Frame, w': seq<Byte>, start: nat, pos: nat)
    requires r.Valid() && r.state == Header1 && Damaged(w, f, w')
    requires w'[|w| - 2] == w[|w| - 2] && w'[|w| - 1] == w[|w| - 1]
    requires DifferWithin(MessageBits(Covered(w)), MessageBits(Covered(w')), start)
    ensures Reports(Crc16, r, w', pos) == [] && Final(Crc16, r, w').state == Header1
  {
    DamagedRun(r, w, f, w', pos);
    BurstDetected(Covered(w), Covered(w'), start);
    if Covered(w) == Covered(w') {
      CoveredDetermines(w, w');
    }
  }

  /** An odd number of wrong bits in the covered bytes and the checksum raises no event. */
  lemma OddErrorsRaiseNoEvent(r: Rx, w: seq<Byte>, f: Frame, w': seq<Byte>, pos: nat)
    requires r.Valid() && r.state == Header1 && Damaged(w, f, w')
    requires Odd(Distance(Codeword(Covered(w), Received(w)), Codeword(Covered(w'), Received(w'))))
    ensures Reports(Crc16, r, w', pos) == [] && Final(Crc16, r, w').state == Header1
  {
    DamagedRun(r, w, f, w', pos);
    OddErrorsDetected(Covered(w), Covered(w'), Received(w'));
  }

  lemma BitOfByte(data: seq<Byte>, i: nat, bits: seq<bool>)
    requires i < 8 * |data| && bits == Bits(data[i / 8], 8)
    ensures MessageBits(data)[i] == bits[i % 8]
  {
    var k := i / 8;
    ByteBitsAt(data, k, bits);
    assert MessageBits(data)[8 * k..8 * k + 8][i - 8 * k] == MessageBits(data)[i];
  }

  lemma AdjacentBytes(data: seq<Byte>, data': seq<Byte>, k: nat)
    requires |data| == |data'|
    requires forall i :: 0 <= i < |data| && i != k && i != k + 1 ==> data[i] == data'[i]
    ensures DifferWithin(MessageBits(data), MessageBits(data'), 8 * k)
  {
    forall i | 0 <= i < 8 * |data| && MessageBits(data)[i] != MessageBits(data')[i]
      ensures 8 * k <= i < 8 * k + 16
    {
      BitOfByte(data, i, Bits(data[i / 8], 8));
      BitOfByte(data', i, Bits(data'[i / 8], 8));
    }
  }

  /** Changing any one byte, or any two adjacent bytes, of the type, the command or the payload raises no event. */
  lemma ChangedBytesRaiseNoEvent(r: Rx, w: seq<Byte>, f: Frame, w': seq<Byte>, k: nat, pos: nat)
    requires r.Valid() && r.state == Header1 && Damaged(w, f, w')
    requires 2 <= k < |w| - 2
    requires forall i :: 0 <= i < |w| && i != k && i != k + 1 ==> w'[i] == w[i]
    requires w'[|w| - 2] == w[|w| - 2]
    ensures Reports(Crc16, r, w', pos) == [] && Final(Crc16, r, w').state == Header1
  {
    AdjacentBytes(Covered(w), Covered(w'), k - 2);
    BurstRaisesNoEvent(r, w, f, w', 8 * (k - 2), pos);
  }
}
