/** The CRC-16 that guards a frame (User/ch32v30x_it.c and tools/image_frame_packer.py).

    Bytes and 16-bit words are bounded integers: `crc & 1` is `crc % 2`, `crc >> 1` is `crc / 2`, and `^` is
    the bitwise `Xor` below.
 */
module Crc {
  import opened Arith

  type Byte = b: int | 0 <= b < 256
  type Word = w: int | 0 <= w < 65536

  // ----- bitwise exclusive or

  predicate Odd(a: nat) {
    a % 2 == 1
  }

  function Xor(a: nat, b: nat): nat
    decreases a + b
  {
    if a == 0 then b else if b == 0 then a else 2 * Xor(a / 2, b / 2) + (if Odd(a) == Odd(b) then 0 else 1)
  }

  lemma XorStep(a: nat, b: nat)
    ensures Odd(Xor(a, b)) == (Odd(a) != Odd(b)) && Xor(a, b) / 2 == Xor(a / 2, b / 2)
  {
  }

  lemma SameHalves(x: nat, y: nat)
    requires Odd(x) == Odd(y) && x / 2 == y / 2
    ensures x == y
  {
  }

  lemma XorTwice(a: nat, b: nat, p: nat)
    ensures Odd(Xor(Xor(a, b), p)) == ((Odd(a) != Odd(b)) != Odd(p))
    ensures Xor(Xor(a, b), p) / 2 == Xor(Xor(a / 2, b / 2), p / 2)
  {
    XorStep(a, b);
    XorStep(Xor(a, b), p);
  }

  lemma {:induction false} XorSwap(a: nat, b: nat, p: nat)
    ensures Xor(Xor(a, b), p) == Xor(Xor(a, p), b)
    decreases a + b + p
  {
    if a != 0 || b != 0 || p != 0 {
      XorTwice(a, b, p);
      XorTwice(a, p, b);
      XorSwap(a / 2, b / 2, p / 2);
      SameHalves(Xor(Xor(a, b), p), Xor(Xor(a, p), b));
    }
  }

  lemma {:induction false} XorBound(a: nat, b: nat, n: nat)
    requires a < Pow2(n) && b < Pow2(n)
    ensures Xor(a, b) < Pow2(n)
    decreases n
  {
    if n != 0 {
      XorStep(a, b);
      XorBound(a / 2, b / 2, n - 1);
    }
  }

  lemma XorWord(a: Word, b: Word)
    ensures Xor(a, b) < 65536
  {
    Pow2Of16();
    XorBound(a, b, 16);
  }

  // ----- the algorithm

  /** One shift of the CRC register. The register is a number here: in the script nothing confines it to sixteen bits,
      in C it stays there because it is fed bytes, see CrcIsWord. */
  function BitStep(c: nat): (c': nat)
    ensures c < 65536 ==> c' < 65536
  {
    StepWord(c);
    if Odd(c) then Xor(c / 2, 0xA001) else c / 2
  }

  lemma StepWord(c: nat)
    ensures c < 65536 ==> Xor(c / 2, 0xA001) < 65536
  {
    if c < 65536 {
      XorWord(c / 2, 0xA001);
    }
  }

  function BitSteps(c: nat, n: nat): (c': nat)
    ensures c < 65536 ==> c' < 65536
    decreases n
  {
    if n == 0 then c else BitSteps(BitStep(c), n - 1)
  }

  function ByteStep(c: nat, b: nat): nat {
    BitSteps(Xor(c, b), 8)
  }

  lemma ByteStepWord(c: Word, b: Byte)
    ensures ByteStep(c, b) < 65536
  {
    XorWord(c, b);
  }

  /** The register after the first `n` numbers. */
  function CrcOfFirst(data: seq<nat>, n: nat): nat
    requires n <= |data|
  {
    if n == 0 then 0xFFFF else ByteStep(CrcOfFirst(data, n - 1), data[n - 1])
  }

  lemma {:induction false} CrcIsWord(data: seq<Byte>, n: nat)
    requires n <= |data|
    ensures CrcOfFirst(data, n) < 65536
  {
    if n > 0 {
      CrcIsWord(data, n - 1);
      ByteStepWord(CrcOfFirst(data, n - 1), data[n - 1]);
    }
  }

  /** The CRC of a byte sequence. */
  function Crc16(data: seq<Byte>): Word {
    CrcIsWord(data, |data|);
    CrcOfFirst(data, |data|)
  }

  lemma CrcOfBytes(list: seq<nat>, data: seq<Byte>)
    requires list == data
    ensures CrcOfFirst(list, |list|) == Crc16(data)
  {
  }

  /** CRC16_Calculate and crc16_calculate: the same two nested loops in C and in Python. */
  method Calculate(data: seq<nat>) returns (crc: nat)
    ensures crc == CrcOfFirst(data, |data|)
  {
    crc := 0xFFFF;
    for i := 0 to |data|
      invariant crc == CrcOfFirst(data, i)
    {
      crc := Xor(crc, data[i]);
      crc := ShiftOut(crc, 8);
    }
  }

  /** The inner loop. */
  method ShiftOut(start: nat, n: nat) returns (crc: nat)
    ensures crc == BitSteps(start, n)
  {
    crc := start;
    for j := 0 to n
      invariant BitSteps(crc, n - j) == BitSteps(start, n)
    {
      if Odd(crc) {
        crc := Xor(crc / 2, 0xA001);
      } else {
        crc := crc / 2;
      }
    }
  }

  // ----- the bits on the wire

  /** The `n` low bits of `w`, least significant first. */
  function Bits(w: nat, n: nat): (bits: seq<bool>)
    ensures |bits| == n
    decreases n
  {
    if n == 0 then [] else [Odd(w)] + Bits(w / 2, n - 1)
  }

  /** The bits of a byte sequence in the order a UART sends them. */
  function MessageBits(data: seq<Byte>): (bits: seq<bool>)
    ensures |bits| == 8 * |data|
  {
    if data == [] then []
    else
      var n := |data| - 1;
      MessageBits(data[..n]) + Bits(data[n], 8)
  }

  /** The register after one message bit: the bit-serial reference definition of the CRC. */
  function FeedBit(c: Word, bit: bool): Word {
    XorWord(c, 1);
    BitStep(if bit then Xor(c, 1) else c)
  }

  function FeedBits(c: Word, bits: seq<bool>): Word
    decreases |bits|
  {
    if bits == [] then c else FeedBits(FeedBit(c, bits[0]), bits[1..])
  }

  lemma FeedBitValue(c: Word, bit: bool)
    ensures FeedBit(c, bit) == if Odd(c) != bit then Xor(c / 2, 0xA001) else c / 2
  {
    XorStep(c, 1);
  }

  lemma FeedLowBit(c: Word, w: Word)
    requires Xor(c, w) < 65536
    ensures BitStep(Xor(c, w)) == Xor(FeedBit(c, Odd(w)), w / 2)
  {
    FeedBitValue(c, Odd(w));
    XorStep(c, w);
    XorSwap(c / 2, w / 2, 0xA001);
  }

  lemma {:induction false} BitSerial(c: Word, w: Word, n: nat)
    requires w < Pow2(n) && Xor(c, w) < 65536
    ensures BitSteps(Xor(c, w), n) == FeedBits(c, Bits(w, n))
    decreases n
  {
    if n != 0 {
      FeedLowBit(c, w);
      BitSerial(FeedBit(c, Odd(w)), w / 2, n - 1);
      assert Bits(w, n)[1..] == Bits(w / 2, n - 1);
    }
  }

  lemma {:induction false} FeedConcat(c: Word, u: seq<bool>, v: seq<bool>)
    ensures FeedBits(c, u + v) == FeedBits(FeedBits(c, u), v)
    decreases |u|
  {
    if u == [] {
      assert u + v == v;
    } else {
      FeedConcat(FeedBit(c, u[0]), u[1..], v);
      assert (u + v)[1..] == u[1..] + v;
    }
  }

  lemma ByteIsSerial(c: Word, b: Byte, bits: seq<bool>)
    requires bits == Bits(b, 8)
    ensures ByteStep(c, b) == FeedBits(c, bits)
  {
    Pow2Of16();
    XorWord(c, b);
    BitSerial(c, b, 8);
  }

  lemma MessageBitsNext(data: seq<Byte>, n: nat, bits: seq<bool>)
    requires n < |data| && bits == Bits(data[n], 8)
    ensures MessageBits(data[..n + 1]) == MessageBits(data[..n]) + bits
  {
    assert data[..n + 1][..n] == data[..n];
  }

  lemma {:induction false} FirstIsBitSerial(data: seq<Byte>, n: nat)
    requires n <= |data|
    ensures CrcOfFirst(data, n) == FeedBits(0xFFFF, MessageBits(data[..n]))
  {
    if n != 0 {
      FirstIsBitSerial(data, n - 1);
      NextByteSerial(data, n - 1, Bits(data[n - 1], 8));
    }
  }

  lemma NextByteSerial(data: seq<Byte>, n: nat, bits: seq<bool>)
    requires n < |data| && bits == Bits(data[n], 8)
    requires CrcOfFirst(data, n) == FeedBits(0xFFFF, MessageBits(data[..n]))
    ensures CrcOfFirst(data, n + 1) == FeedBits(0xFFFF, MessageBits(data[..n + 1]))
  {
    CrcIsWord(data, n);
    ByteIsSerial(CrcOfFirst(data, n), data[n], bits);
    MessageBitsNext(data, n, bits);
    FeedConcat(0xFFFF, MessageBits(data[..n]), bits);
  }

  /** The byte-wise loops compute the bit-serial CRC of the wire bits. */
  lemma CrcIsBitSerial(data: seq<Byte>)
    ensures Crc16(data) == FeedBits(0xFFFF, MessageBits(data))
  {
    FirstIsBitSerial(data, |data|);
    assert data[..|data|] == data;
  }
}
