/** The bit-banged serial link to the panel (Device/EPD_SPI.c): what a listener on the wires recovers. */
module Spi {
  import opened Crc
  import opened Panel
  import opened Arith

  /** The levels of the four output pins. */
  datatype Pins = Pins(cs: bool, dc: bool, clk: bool, mosi: bool)

  // ----- the levels each write produces, one snapshot per pin change

  /** 2^n for n <= 8. */
  function Weight(n: nat): (w: nat)
    requires n <= 8
    ensures 1 <= w <= 256
  {
    if n == 0 then 1 else if n == 1 then 2 else if n == 2 then 4 else if n == 3 then 8 else if n == 4 then 16
    else if n == 5 then 32 else if n == 6 then 64 else if n == 7 then 128 else 256
  }

  /** Bit `j` of a byte, counted from the most significant. */
  predicate BitAt(b: Byte, j: nat)
    requires j < 8
  {
    b / Weight(7 - j) % 2 == 1
  }

  /** The bits of a byte, most significant first. */
  function Msb(b: Byte): (bits: seq<bool>)
    ensures |bits| == 8
  {
    seq(8, j requires 0 <= j < 8 => BitAt(b, j))
  }

  /** Clock down, data out, clock up. */
  function BitWave(p: Pins, bit: bool): seq<Pins> {
    [p.(clk := false), p.(clk := false, mosi := bit), p.(clk := true, mosi := bit)]
  }

  function AfterBits(p: Pins, bits: seq<bool>): Pins {
    if bits == [] then p else p.(clk := true, mosi := bits[|bits| - 1])
  }

  function BitsWave(p: Pins, bits: seq<bool>): seq<Pins> {
    if bits == [] then []
    else
      var n := |bits| - 1;
      BitsWave(p, bits[..n]) + BitWave(AfterBits(p, bits[..n]), bits[n])
  }

  lemma BitsWaveNext(p: Pins, bits: seq<bool>, i: nat)
    requires i < |bits|
    ensures BitsWave(p, bits[..i + 1]) == BitsWave(p, bits[..i]) + BitWave(AfterBits(p, bits[..i]), bits[i])
    ensures AfterBits(p, bits[..i + 1]) == AfterBits(p, bits[..i]).(clk := true, mosi := bits[i])
  {
    assert bits[..i + 1][..i] == bits[..i];
  }

  function ByteWave(p: Pins, dc: bool, b: Byte): seq<Pins> {
    var q := p.(cs := false, dc := dc);
    [p.(cs := false), q] + BitsWave(q, Msb(b)) + [AfterByte(p, dc, b)]
  }

  function AfterByte(p: Pins, dc: bool, b: Byte): Pins {
    AfterBits(p.(cs := false, dc := dc), Msb(b)).(cs := true)
  }

  function Shl(data: Byte): Byte { data * 2 % 256 }

  /** A byte shifted left `i` times. */
  function Shifted(b: Byte, i: nat): Byte
    requires i <= 8
  {
    b * Weight(i) % 256
  }

  lemma WeightProduct(i: nat)
    requires i < 8
    ensures Weight(i) * Weight(7 - i) == 128
  {
  }

  lemma ShiftedTop(b: Byte, i: nat)
    requires i < 8
    ensures Shifted(b, i) >= 128 <==> BitAt(b, i)
  {
    var w, v := Weight(i), Weight(7 - i);
    var q, r := b / v, b % v;
    WeightProduct(i);
    assert b * w == 128 * q + r * w by {
      assert b == v * q + r;
      assert (v * q + r) * w == (w * v) * q + r * w;
    }
    assert 0 <= r * w < 128 by {
      assert r * w <= (v - 1) * w;
    }
    TopBit(q, r * w);
  }

  lemma TopBit(q: nat, low: nat)
    requires low < 128
    ensures (128 * q + low) % 256 >= 128 <==> q % 2 == 1
  {
  }

  lemma ShiftedNext(b: Byte, i: nat)
    requires i < 8
    ensures Shl(Shifted(b, i)) == Shifted(b, i + 1)
  {
    var w := Weight(i);
    assert Weight(i + 1) == 2 * w;
    assert b * w == 256 * (b * w / 256) + Shifted(b, i);
    assert 2 * Shifted(b, i) == 2 * (b * w) - 256 * (2 * (b * w / 256));
    ModShift(2 * Shifted(b, i), 2 * (b * w / 256));
    assert b * (2 * w) == 2 * (b * w);
  }

  lemma ModShift(x: int, k: int)
    ensures (x + 256 * k) % 256 == x % 256
  {
  }

  lemma FourParts(before: seq<Pins>, a: Pins, b: Pins, body: seq<Pins>, end: Pins)
    ensures before + [a] + [b] + body + [end] == before + ([a, b] + body + [end])
  {
  }

  class Bus {
    var pins: Pins
    var wave: seq<Pins>

    method Set(p: Pins)
      modifies this
      ensures pins == p && wave == old(wave) + [p]
    {
      pins := p;
      wave := wave + [p];
    }

    /** One turn of the loop in EPD_Write. */
    method WriteBit(bit: bool)
      modifies this
      ensures wave == old(wave) + BitWave(old(pins), bit) && pins == old(pins).(clk := true, mosi := bit)
    {
      Set(pins.(clk := false));
      if bit {
        Set(pins.(mosi := true));
      } else {
        Set(pins.(mosi := false));
      }
      Set(pins.(clk := true));
    }

    /** EPD_Write */
    method Write(b: Byte)
      modifies this
      ensures wave == old(wave) + BitsWave(old(pins), Msb(b)) && pins == AfterBits(old(pins), Msb(b))
    {
      var data := b;
      ghost var bits, p0 := Msb(b), pins;
      for i := 0 to 8
        invariant wave == old(wave) + BitsWave(p0, bits[..i]) && pins == AfterBits(p0, bits[..i])
        invariant data == Shifted(b, i)
      {
        ShiftedTop(b, i);
        ShiftedNext(b, i);
        BitsWaveNext(p0, bits, i);
        WriteBit(data >= 128);
        data := Shl(data);
      }
      assert bits[..8] == bits;
    }

    method WriteByte(dc: bool, b: Byte)
      modifies this
      ensures wave == old(wave) + ByteWave(old(pins), dc, b) && pins == AfterByte(old(pins), dc, b) && pins.cs
    {
      ghost var p, before := pins, wave;
      Set(pins.(cs := false));
      Set(pins.(dc := dc));
      Write(b);
      Set(pins.(cs := true));
      FourParts(before, p.(cs := false), p.(cs := false, dc := dc), BitsWave(p.(cs := false, dc := dc), Msb(b)), pins);
    }

    /** EPD_WriteCMD */
    method WriteCommand(b: Byte)
      modifies this
      ensures wave == old(wave) + ByteWave(old(pins), false, b) && pins == AfterByte(old(pins), false, b) && pins.cs
    {
      WriteByte(false, b);
    }

    /** EPD_WriteDATA */
    method WriteDatum(b: Byte)
      modifies this
      ensures wave == old(wave) + ByteWave(old(pins), true, b) && pins == AfterByte(old(pins), true, b) && pins.cs
    {
      WriteByte(true, b);
    }
  }

  method PlayOp(bus: Bus, op: PanelOp)
    modifies bus
    ensures bus.wave == old(bus.wave) + OpWave(old(bus.pins), op) && bus.pins == AfterOp(old(bus.pins), op)
    ensures bus.pins.cs || (bus.pins == old(bus.pins) && !op.WriteCmd? && !op.WriteData?)
  {
    match op {
      case WriteCmd(b) => bus.WriteCommand(b);
      case WriteData(b) => bus.WriteDatum(b);
      case _ =>
    }
  }

  /** A whole trace played on the bus, byte after byte; the other operations do not use it. */
  method Play(bus: Bus, ops: seq<PanelOp>)
    modifies bus
    ensures bus.wave == old(bus.wave) + TraceWave(old(bus.pins), ops)
    ensures old(bus.pins).cs ==> bus.pins.cs
  {
    ghost var whole := bus.wave + TraceWave(bus.pins, ops);
    var i := 0;
    while i < |ops|
      invariant 0 <= i <= |ops| && bus.wave + TraceWave(bus.pins, ops[i..]) == whole
      invariant old(bus.pins).cs ==> bus.pins.cs
    {
      ghost var wave, pins := bus.wave, bus.pins;
      WaveNext(wave, pins, ops[i..], whole);
      assert ops[i..][1..] == ops[i + 1..];
      PlayOp(bus, ops[i]);
      i := i + 1;
    }
    assert ops[i..] == [];
  }

  function OpWave(p: Pins, op: PanelOp): seq<Pins> {
    match op
    case WriteCmd(b) => ByteWave(p, false, b)
    case WriteData(b) => ByteWave(p, true, b)
    case _ => []
  }

  function AfterOp(p: Pins, op: PanelOp): Pins {
    match op
    case WriteCmd(b) => AfterByte(p, false, b)
    case WriteData(b) => AfterByte(p, true, b)
    case _ => p
  }

  /** One operation moves the front of the remaining wave to the end of the wave made. */
  lemma WaveNext(wave: seq<Pins>, p: Pins, ops: seq<PanelOp>, whole: seq<Pins>)
    requires ops != [] && wave + TraceWave(p, ops) == whole
    ensures wave + OpWave(p, ops[0]) + TraceWave(AfterOp(p, ops[0]), ops[1..]) == whole
  {
    TraceFirst(p, ops);
    WaveRegroup(wave, OpWave(p, ops[0]), TraceWave(AfterOp(p, ops[0]), ops[1..]));
  }

  lemma TraceFirst(p: Pins, ops: seq<PanelOp>)
    requires ops != []
    ensures TraceWave(p, ops) == OpWave(p, ops[0]) + TraceWave(AfterOp(p, ops[0]), ops[1..])
  {
  }

  lemma WaveRegroup(wave: seq<Pins>, first: seq<Pins>, rest: seq<Pins>)
    ensures wave + (first + rest) == wave + first + rest
  {
  }

  // ----- a listener that samples MOSI and DC on rising clock edges while CS is low

  datatype Listener = Listener(clk: bool, count: nat, acc: nat, heard: seq<PanelOp>)

  function Sample(l: Listener, p: Pins): Listener {
    if p.cs then l.(clk := p.clk, count := 0, acc := 0)
    else if !l.clk && p.clk then
      var acc := 2 * l.acc + (if p.mosi then 1 else 0);
      if l.count == 7 && acc < 256 then
        Listener(true, 0, 0, l.heard + [if p.dc then WriteData(acc) else WriteCmd(acc)])
      else l.(clk := true, count := l.count + 1, acc := acc)
    else l.(clk := p.clk)
  }

  function Hear(l: Listener, wave: seq<Pins>): Listener
    decreases |wave|
  {
    if wave == [] then l else Hear(Sample(l, wave[0]), wave[1..])
  }

  lemma {:induction false} HearConcat(l: Listener, u: seq<Pins>, v: seq<Pins>)
    ensures Hear(l, u + v) == Hear(Hear(l, u), v)
    decreases |u|
  {
    if u == [] {
      assert u + v == v;
    } else {
      HearConcat(Sample(l, u[0]), u[1..], v);
      assert (u + v)[1..] == u[1..] + v;
    }
  }

  /** The number whose bits are `bits`, most significant first. */
  function Value(bits: seq<bool>): nat {
    if bits == [] then 0
    else
      var n := |bits| - 1;
      2 * Value(bits[..n]) + (if bits[n] then 1 else 0)
  }

  /** One bit: no edge until the clock rises, then MOSI is sampled. */
  lemma HearBit(l: Listener, p: Pins, bit: bool)
    requires !p.cs && l.clk == p.clk
    ensures Hear(l, BitWave(p, bit)) == Sample(l.(clk := false), p.(clk := true, mosi := bit))
  {
    var w := BitWave(p, bit);
    var l1 := l.(clk := false);
    assert w[1..][1..] == [w[2]] && [w[2]][1..] == [];
    assert Hear(l, w) == Hear(l1, w[1..]);
    assert Hear(l1, w[1..]) == Hear(l1, w[1..][1..]);
    assert Hear(l1, [w[2]]) == Hear(Sample(l1, w[2]), []);
  }

  function Op(dc: bool, b: Byte): PanelOp {
    if dc then WriteData(b) else WriteCmd(b)
  }

  /** What is heard of the first bits of a byte: nothing before the eighth, then the byte, tagged by DC. */
  lemma {:induction false} HearBits(l: Listener, p: Pins, bits: seq<bool>)
    requires !p.cs && l.clk == p.clk && l.count == 0 && l.acc == 0 && |bits| <= 8
    ensures Value(bits) < Pow2(|bits|) && Pow2(8) == 256
    ensures Hear(l, BitsWave(p, bits))
         == if |bits| < 8 then Listener(AfterBits(p, bits).clk, |bits|, Value(bits), l.heard)
            else Listener(true, 0, 0, l.heard + [Op(p.dc, Value(bits))])
  {
    Pow2Of16();
    if bits != [] {
      var n := |bits| - 1;
      HearBits(l, p, bits[..n]);
      HearConcat(l, BitsWave(p, bits[..n]), BitWave(AfterBits(p, bits[..n]), bits[n]));
      HearBit(Hear(l, BitsWave(p, bits[..n])), AfterBits(p, bits[..n]), bits[n]);
    }
  }

  lemma HalfWeight(b: Byte, k: nat)
    requires k < 8
    ensures b / Weight(7 - k) == 2 * (b / Weight(8 - k)) + (if BitAt(b, k) then 1 else 0)
  {
    assert Weight(8 - k) == 2 * Weight(7 - k);
    DivDouble(b, Weight(7 - k));
  }

  lemma {:induction false} MsbValue(b: Byte, k: nat)
    requires k <= 8
    ensures Value(Msb(b)[..k]) == b / Weight(8 - k)
  {
    if k != 0 {
      MsbValue(b, k - 1);
      HalfWeight(b, k - 1);
      assert Msb(b)[..k][..k - 1] == Msb(b)[..k - 1];
    }
  }

  lemma HearByte(l: Listener, p: Pins, dc: bool, b: Byte)
    requires l.clk == p.clk && l.count == 0 && l.acc == 0
    ensures Hear(l, ByteWave(p, dc, b)) == Listener(AfterByte(p, dc, b).clk, 0, 0, l.heard + [Op(dc, b)])
  {
    var q := p.(cs := false, dc := dc);
    var start, body, end := [p.(cs := false), q], BitsWave(q, Msb(b)), AfterByte(p, dc, b);
    HearConcat(l, start + body, [end]);
    HearConcat(l, start, body);
    HearQuiet(l, start[0], start[1]);
    HearBits(l, q, Msb(b));
    MsbValue(b, 8);
    assert Msb(b)[..8] == Msb(b);
    HearDeselect(Hear(l, start + body), end);
  }

  lemma HearQuiet(l: Listener, a: Pins, b: Pins)
    requires !a.cs && !b.cs && a.clk == b.clk == l.clk
    ensures Hear(l, [a, b]) == l
  {
    assert [a, b][1..] == [b];
    assert Hear(l, [b]) == Hear(Sample(l, b), [b][1..]);
  }

  lemma HearDeselect(l: Listener, a: Pins)
    requires a.cs && l.count == 0 && l.acc == 0 && a.clk == l.clk
    ensures Hear(l, [a]) == l
  {
    assert Hear(l, [a]) == Hear(Sample(l, a), [a][1..]);
  }

  // ----- whole traces

  /** The wave of a panel trace; reset pulses and busy waits do not move these four pins. */
  function TraceWave(p: Pins, ops: seq<PanelOp>): seq<Pins>
    decreases |ops|
  {
    if ops == [] then [] else
      match ops[0]
      case WriteCmd(b) => ByteWave(p, false, b) + TraceWave(AfterByte(p, false, b), ops[1..])
      case WriteData(b) => ByteWave(p, true, b) + TraceWave(AfterByte(p, true, b), ops[1..])
      case _ => TraceWave(p, ops[1..])
  }

  /** The command and data bytes of a trace. */
  function Transfers(ops: seq<PanelOp>): seq<PanelOp> {
    if ops == [] then [] else
      (if ops[0].WriteCmd? || ops[0].WriteData? then [ops[0]] else []) + Transfers(ops[1..])
  }

  lemma HearTransfer(l: Listener, p: Pins, op: PanelOp, rest: seq<PanelOp>)
    requires l.clk == p.clk && l.count == 0 && l.acc == 0 && (op.WriteCmd? || op.WriteData?)
    ensures var q := AfterByte(p, op.WriteData?, op.b);
            Hear(l, TraceWave(p, [op] + rest)) == Hear(Listener(q.clk, 0, 0, l.heard + [op]), TraceWave(q, rest))
  {
    var dc, b := op.WriteData?, op.b;
    assert ([op] + rest)[1..] == rest;
    HearByte(l, p, dc, b);
    HearConcat(l, ByteWave(p, dc, b), TraceWave(AfterByte(p, dc, b), rest));
  }

  /** SPI round trip: the listener recovers exactly the bytes written, in order and correctly tagged. */
  lemma {:induction false} RoundTrip(l: Listener, p: Pins, ops: seq<PanelOp>)
    requires l.clk == p.clk && l.count == 0 && l.acc == 0
    ensures Hear(l, TraceWave(p, ops)).heard == l.heard + Transfers(ops)
    decreases |ops|
  {
    if ops != [] {
      var op, rest := ops[0], ops[1..];
      if op.WriteCmd? || op.WriteData? {
        var q := AfterByte(p, op.WriteData?, op.b);
        assert ops == [op] + rest;
        HearTransfer(l, p, op, rest);
        RoundTrip(Listener(q.clk, 0, 0, l.heard + [op]), q, rest);
      } else {
        RoundTrip(l, p, rest);
      }
    }
  }

  /** CS goes high after every byte: whatever a listener had counted before, it is aligned afterwards. */
  lemma AlignedAfterByte(l: Listener, p: Pins, dc: bool, b: Byte)
    ensures var l' := Hear(l, ByteWave(p, dc, b)); l'.count == 0 && l'.acc == 0 && l'.clk == AfterByte(p, dc, b).clk
  {
    var q := p.(cs := false, dc := dc);
    var body, end := [p.(cs := false), q] + BitsWave(q, Msb(b)), AfterByte(p, dc, b);
    HearConcat(l, body, [end]);
    HearLast(Hear(l, body), end);
  }

  lemma HearLast(l: Listener, a: Pins)
    ensures Hear(l, [a]) == Sample(l, a)
  {
    assert Hear(l, [a]) == Hear(Sample(l, a), [a][1..]);
  }

  /** A listener that has seen CS high before the first byte recovers the whole trace, whatever it had counted. */
  lemma RoundTripFromIdle(l: Listener, p: Pins, ops: seq<PanelOp>)
    requires p.cs
    ensures Hear(l, [p] + TraceWave(p, ops)).heard == l.heard + Transfers(ops)
  {
    HearConcat(l, [p], TraceWave(p, ops));
    HearLast(l, p);
    RoundTrip(Sample(l, p), p, ops);
  }
}
