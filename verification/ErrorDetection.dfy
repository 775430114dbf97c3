/** What the CRC detects: every burst of at most sixteen wire bits, and every odd number of wrong bits.

    The register is viewed as its sixteen bits, least significant first. Reading one message bit then means:
    drop position 0, append `low` (the dropped bit combined with the message bit), and flip positions 0 and 13
    by `low`.
 */
module ErrorDetection {
  import opened Arith
  import opened Crc

  type Register = s: seq<bool> | |s| == 16 witness seq(16, _ => false)

  function Flip(s: seq<bool>, i: nat, flip: bool): (r: seq<bool>)
    requires i < |s|
    ensures |r| == |s|
  {
    s[i := s[i] != flip]
  }

  function Shift(s: Register, bit: bool): Register {
    var low := s[0] != bit;
    Flip(Flip(s[1..] + [low], 0, low), 13, low)
  }

  function ShiftAll(s: Register, bits: seq<bool>): Register
    decreases |bits|
  {
    if bits == [] then s else ShiftAll(Shift(s, bits[0]), bits[1..])
  }

  // ----- the program's register has these bits

  lemma {:induction false} BitsXor(a: nat, b: nat, n: nat)
    ensures forall i :: 0 <= i < n ==> Bits(Xor(a, b), n)[i] == (Bits(a, n)[i] != Bits(b, n)[i])
    decreases n
  {
    if n != 0 {
      XorStep(a, b);
      BitsXor(a / 2, b / 2, n - 1);
    }
  }

  lemma {:induction false} BitsExtend(w: nat, n: nat)
    requires w < Pow2(n)
    ensures Bits(w, n + 1) == Bits(w, n) + [false]
    decreases n
  {
    if n != 0 {
      BitsExtend(w / 2, n - 1);
    }
  }

  lemma {:induction false} BitsInjective(a: nat, b: nat, n: nat)
    requires a < Pow2(n) && b < Pow2(n) && Bits(a, n) == Bits(b, n)
    ensures a == b
    decreases n
  {
    if n != 0 {
      assert Bits(a, n)[0] == Bits(b, n)[0];
      assert Bits(a, n)[1..] == Bits(a / 2, n - 1) && Bits(b, n)[1..] == Bits(b / 2, n - 1);
      BitsInjective(a / 2, b / 2, n - 1);
    }
  }

  lemma PolynomialBits()
    ensures forall i :: 0 <= i < 16 ==> Bits(0xA001, 16)[i] == (i == 0 || i == 13 || i == 15)
  {
    assert Bits(1, 1) == [true];
    assert Bits(2, 2) == [false] + Bits(1, 1);
    assert Bits(5, 3) == [true] + Bits(2, 2);
    assert Bits(10, 4) == [false] + Bits(5, 3);
    assert Bits(20, 5) == [false] + Bits(10, 4);
    assert Bits(40, 6) == [false] + Bits(20, 5);
    assert Bits(80, 7) == [false] + Bits(40, 6);
    assert Bits(160, 8) == [false] + Bits(80, 7);
    assert Bits(320, 9) == [false] + Bits(160, 8);
    assert Bits(640, 10) == [false] + Bits(320, 9);
    assert Bits(1280, 11) == [false] + Bits(640, 10);
    assert Bits(2560, 12) == [false] + Bits(1280, 11);
    assert Bits(5120, 13) == [false] + Bits(2560, 12);
    assert Bits(10240, 14) == [false] + Bits(5120, 13);
    assert Bits(20480, 15) == [false] + Bits(10240, 14);
    assert Bits(40961, 16) == [true] + Bits(20480, 15);
  }

  lemma HalfBits(c: Word, n: nat)
    requires n == 15
    ensures Bits(c / 2, n + 1) == Bits(c, n + 1)[1..] + [false]
    ensures Bits(c, n + 1)[0] == Odd(c)
  {
    Pow2Of16();
    BitsExtend(c / 2, n);
    assert Bits(c, n + 1)[1..] == Bits(c / 2, n);
  }

  lemma PolynomialXor(h: Word, n: nat)
    requires n == 16
    ensures forall i :: 0 <= i < n ==> Bits(Xor(h, 0xA001), n)[i] == (Bits(h, n)[i] != (i == 0 || i == 13 || i == 15))
  {
    PolynomialBits();
    BitsXor(h, 0xA001, n);
  }

  lemma ShiftCases(s: Register, h: Register, x: Register, bit: bool)
    requires h == s[1..] + [false]
    requires forall i :: 0 <= i < 16 ==> x[i] == (h[i] != (i == 0 || i == 13 || i == 15))
    ensures Shift(s, bit) == if s[0] != bit then x else h
  {
  }

  lemma FeedIsShift(c: Word, bit: bool, n: nat)
    requires n == 16
    ensures Bits(FeedBit(c, bit), n) == Shift(Bits(c, n), bit)
  {
    FeedBitValue(c, bit);
    HalfBits(c, n - 1);
    PolynomialXor(c / 2, n);
    ShiftCases(Bits(c, n), Bits(c / 2, n), Bits(Xor(c / 2, 0xA001), n), bit);
  }

  lemma {:induction false} FeedAllIsShift(c: Word, bits: seq<bool>)
    ensures Bits(FeedBits(c, bits), 16) == ShiftAll(Bits(c, 16), bits)
    decreases |bits|
  {
    if bits != [] {
      FeedIsShift(c, bits[0], 16);
      FeedAllIsShift(FeedBit(c, bits[0]), bits[1..]);
    }
  }

  // ----- burst errors

  /** If two registers end equal after reading `u` and `v` (at most sixteen bits), then they differed before
      exactly where `u` and `v` differ: the top bit of each register shows the last `low`, so both took the
      same branch at every step. */
  lemma {:induction false} CancelledDifference(s: Register, t: Register, u: seq<bool>, v: seq<bool>)
    requires |u| == |v| <= 16 && ShiftAll(s, u) == ShiftAll(t, v)
    ensures forall i :: 0 <= i < 16 ==> (s[i] != t[i]) == (i < |u| && u[i] != v[i])
    decreases |u|
  {
    if u != [] {
      var s1, t1 := Shift(s, u[0]), Shift(t, v[0]);
      CancelledDifference(s1, t1, u[1..], v[1..]);
      assert s1[15] == t1[15];
      forall i | 0 <= i < 15
        ensures (s[i + 1] != t[i + 1]) == (s1[i] != t1[i])
      {
      }
      forall i | 0 <= i < 16
        ensures (s[i] != t[i]) == (i < |u| && u[i] != v[i])
      {
        if i > 0 {
          assert (s[i - 1 + 1] != t[i - 1 + 1]) == (s1[i - 1] != t1[i - 1]);
        }
      }
    }
  }

  lemma {:induction false} ShiftInjective(s: Register, t: Register, bits: seq<bool>)
    requires ShiftAll(s, bits) == ShiftAll(t, bits)
    ensures s == t
    decreases |bits|
  {
    if bits != [] {
      var s1, t1 := Shift(s, bits[0]), Shift(t, bits[0]);
      ShiftInjective(s1, t1, bits[1..]);
      CancelledDifference(s, t, [bits[0]], [bits[0]]);
    }
  }

  /** `u` and `v` differ only inside the sixteen positions from `start` on. */
  ghost predicate DifferWithin(u: seq<bool>, v: seq<bool>, start: nat) {
    |u| == |v| && forall i :: 0 <= i < |u| && u[i] != v[i] ==> start <= i < start + 16
  }

  lemma {:induction false} ShiftConcat(s: Register, u: seq<bool>, v: seq<bool>)
    ensures ShiftAll(s, u + v) == ShiftAll(ShiftAll(s, u), v)
    decreases |u|
  {
    if u == [] {
      assert u + v == v;
    } else {
      ShiftConcat(Shift(s, u[0]), u[1..], v);
      assert (u + v)[1..] == u[1..] + v;
    }
  }

  lemma EqualAfterWindow(s: Register, head: seq<bool>, u: seq<bool>, v: seq<bool>, tail: seq<bool>)
    requires |u| == |v| <= 16 && ShiftAll(s, head + (u + tail)) == ShiftAll(s, head + (v + tail))
    ensures u == v
  {
    var m := ShiftAll(s, head);
    ShiftConcat(s, head, u + tail);
    ShiftConcat(s, head, v + tail);
    ShiftConcat(m, u, tail);
    ShiftConcat(m, v, tail);
    ShiftInjective(ShiftAll(m, u), ShiftAll(m, v), tail);
    CancelledDifference(m, m, u, v);
  }

  lemma SplitWindow(u: seq<bool>, v: seq<bool>, start: nat) returns (lo: nat, hi: nat)
    requires DifferWithin(u, v, start)
    ensures lo <= hi <= |u| && hi - lo <= 16
    ensures u == u[..lo] + (u[lo..hi] + u[hi..])
    ensures v == u[..lo] + (v[lo..hi] + u[hi..])
  {
    lo := if start < |u| then start else |u|;
    hi := if start + 16 < |u| then start + 16 else |u|;
  }

  lemma EqualAfterBurst(s: Register, u: seq<bool>, v: seq<bool>, start: nat)
    requires DifferWithin(u, v, start) && ShiftAll(s, u) == ShiftAll(s, v)
    ensures u == v
  {
    var lo, hi := SplitWindow(u, v, start);
    EqualAfterWindow(s, u[..lo], u[lo..hi], v[lo..hi], u[hi..]);
  }

  /** Every burst of at most sixteen wire bits changes the CRC, in messages of any length. */
  lemma BurstDetected(data: seq<Byte>, data': seq<Byte>, start: nat)
    requires DifferWithin(MessageBits(data), MessageBits(data'), start)
    ensures Crc16(data) == Crc16(data') <==> data == data'
  {
    var u, v := MessageBits(data), MessageBits(data');
    CrcIsBitSerial(data);
    CrcIsBitSerial(data');
    FeedAllIsShift(0xFFFF, u);
    FeedAllIsShift(0xFFFF, v);
    if Crc16(data) == Crc16(data') {
      EqualAfterBurst(Bits(0xFFFF, 16), u, v, start);
      MessageBitsInjective(data, data');
    }
  }

  lemma SliceOfConcat(w: seq<bool>, u: seq<bool>, v: seq<bool>, lo: nat, hi: nat)
    requires w == u + v && lo <= hi <= |w|
    ensures hi <= |u| ==> w[lo..hi] == u[lo..hi]
    ensures lo == |u| && hi == |w| ==> w[lo..hi] == v
  {
  }

  /** Blocks of eight bits one after the other. */
  function Joined(blocks: seq<seq<bool>>): (bits: seq<bool>)
    requires forall i :: 0 <= i < |blocks| ==> |blocks[i]| == 8
    ensures |bits| == 8 * |blocks|
  {
    if blocks == [] then [] else Joined(blocks[..|blocks| - 1]) + blocks[|blocks| - 1]
  }

  lemma {:induction false} BlockAt(blocks: seq<seq<bool>>, k: nat)
    requires k < |blocks| && forall i :: 0 <= i < |blocks| ==> |blocks[i]| == 8
    ensures Joined(blocks)[8 * k..8 * k + 8] == blocks[k]
    decreases |blocks|
  {
    var n := |blocks| - 1;
    SliceOfConcat(Joined(blocks), Joined(blocks[..n]), blocks[n], 8 * k, 8 * k + 8);
    if k < n {
      BlockAt(blocks[..n], k);
    }
  }

  function BlocksOf(data: seq<Byte>): (blocks: seq<seq<bool>>)
    ensures |blocks| == |data| && forall i :: 0 <= i < |blocks| ==> |blocks[i]| == 8
  {
    seq(|data|, i requires 0 <= i < |data| => Bits(data[i], 8))
  }

  lemma {:induction false} MessageIsBlocks(data: seq<Byte>)
    ensures MessageBits(data) == Joined(BlocksOf(data))
    decreases |data|
  {
    if data != [] {
      var n := |data| - 1;
      MessageIsBlocks(data[..n]);
      assert BlocksOf(data)[..n] == BlocksOf(data[..n]);
    }
  }

  /** The bits of byte `k` stand at positions 8k to 8k+7. */
  lemma ByteBitsAt(data: seq<Byte>, k: nat, bits: seq<bool>)
    requires k < |data| && bits == Bits(data[k], 8)
    ensures MessageBits(data)[8 * k..8 * k + 8] == bits
  {
    MessageIsBlocks(data);
    BlockAt(BlocksOf(data), k);
  }

  lemma MessageBitsInjective(data: seq<Byte>, data': seq<Byte>)
    requires |data| == |data'| && MessageBits(data) == MessageBits(data')
    ensures data == data'
  {
    MessageIsBlocks(data);
    MessageIsBlocks(data');
    forall k | 0 <= k < |data|
      ensures data[k] == data'[k]
    {
      BlockAt(BlocksOf(data), k);
      BlockAt(BlocksOf(data'), k);
      assert BlocksOf(data)[k] == BlocksOf(data')[k];
      ByteOfBits(data[k], data'[k], 8);
    }
  }

  lemma ByteOfBits(a: Byte, b: Byte, n: nat)
    requires n == 8 && Bits(a, n) == Bits(b, n)
    ensures a == b
  {
    Pow2Of16();
    BitsInjective(a, b, n);
  }

  // ----- odd numbers of wrong bits

  function Parity(bits: seq<bool>): bool {
    if bits == [] then false else bits[0] != Parity(bits[1..])
  }

  lemma {:induction false} ParityConcat(u: seq<bool>, v: seq<bool>)
    ensures Parity(u + v) == (Parity(u) != Parity(v))
  {
    if u == [] {
      assert u + v == v;
    } else {
      ParityConcat(u[1..], v);
      assert (u + v)[1..] == u[1..] + v;
    }
  }

  lemma ParityFlip(s: seq<bool>, i: nat, flip: bool)
    requires i < |s|
    ensures Parity(Flip(s, i, flip)) == (Parity(s) != flip)
  {
    var r := Flip(s, i, flip);
    assert s == s[..i] + ([s[i]] + s[i + 1..]);
    assert r == s[..i] + ([s[i] != flip] + s[i + 1..]);
    ParityConcat(s[..i], [s[i]] + s[i + 1..]);
    ParityConcat(s[..i], [s[i] != flip] + s[i + 1..]);
    assert ([s[i]] + s[i + 1..])[1..] == s[i + 1..] == ([s[i] != flip] + s[i + 1..])[1..];
  }

  /** The generator polynomial has an even number of terms, so the register carries the message parity. */
  lemma {:induction false} RegisterParity(s: Register, bits: seq<bool>)
    ensures Parity(ShiftAll(s, bits)) == (Parity(s) != Parity(bits))
    decreases |bits|
  {
    if bits != [] {
      var low := s[0] != bits[0];
      var rotated := s[1..] + [low];
      ParityConcat(s[1..], [low]);
      assert Parity([low]) == low;
      ParityFlip(rotated, 0, low);
      ParityFlip(Flip(rotated, 0, low), 13, low);
      RegisterParity(Shift(s, bits[0]), bits[1..]);
    }
  }

  /** The number of positions where `u` and `v` differ. */
  function Distance(u: seq<bool>, v: seq<bool>): nat
    requires |u| == |v|
  {
    if u == [] then 0 else (if u[0] != v[0] then 1 else 0) + Distance(u[1..], v[1..])
  }

  lemma {:induction false} DistanceParity(u: seq<bool>, v: seq<bool>)
    requires |u| == |v|
    ensures Odd(Distance(u, v)) == (Parity(u) != Parity(v))
  {
    if u != [] {
      DistanceParity(u[1..], v[1..]);
    }
  }

  /** A message followed by its checksum, as bits. */
  function Codeword(data: seq<Byte>, crc: Word): (bits: seq<bool>)
    ensures |bits| == 8 * |data| + 16
  {
    MessageBits(data) + Bits(crc, 16)
  }

  /** All codewords with a correct checksum have the same parity. */
  lemma CodewordParity(data: seq<Byte>)
    ensures Parity(Codeword(data, Crc16(data))) == Parity(Bits(0xFFFF, 16))
  {
    CrcIsBitSerial(data);
    FeedAllIsShift(0xFFFF, MessageBits(data));
    RegisterParity(Bits(0xFFFF, 16), MessageBits(data));
    ParityConcat(MessageBits(data), Bits(Crc16(data), 16));
  }

  /** An odd number of wrong bits, spread over the message and its checksum in any way, is always detected. */
  lemma OddErrorsDetected(data: seq<Byte>, data': seq<Byte>, crc': Word)
    requires |data| == |data'|
    requires Odd(Distance(Codeword(data, Crc16(data)), Codeword(data', crc')))
    ensures crc' != Crc16(data')
  {
    CodewordParity(data);
    CodewordParity(data');
    DistanceParity(Codeword(data, Crc16(data)), Codeword(data', crc'));
  }
}
