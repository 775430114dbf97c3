/** The packed-pixel canvas (Device/GUI_Paint.c): two-, four- or sixteen-valued pixels packed in bytes, seen
    through a rotation and a mirror.
 */
module Canvas {
  import opened Arith
  import opened Digits

  // ----- one byte of pixels

  /** Pixels per byte: 8 in scale 2, 4 in scale 4, 2 in scales 6 and 7. */
  predicate LegalScale(scale: nat) {
    scale == 2 || scale == 4 || scale == 6 || scale == 7
  }

  function PerByte(scale: nat): nat
    requires LegalScale(scale)
  {
    if scale == 2 then 8 else if scale == 4 then 4 else 2
  }

  function Truncate(v: bv16): bv8 {
    (v & 0xFF) as bv8
  }

  /** The byte after Paint_SetPixel has written pixel number `sub` of it, in scale 2, 4, and 6 or 7. */
  function Store2(b: bv8, sub: nat, color: bv16): bv8
    requires sub < 8
  {
    if color == 0 then b & !(0x80 >> sub) else b | (0x80 >> sub)
  }

  function Store4(b: bv8, sub: nat, color: bv16): bv8
    requires sub < 4
  {
    (b & !(0xC0 >> (sub * 2))) | Truncate(((color % 4) << 6) >> (sub * 2))
  }

  function Store6(b: bv8, sub: nat, color: bv16): bv8
    requires sub < 2
  {
    (b & !(0xF0 >> (sub * 4))) | Truncate((color << 4) >> (sub * 4))
  }

  function Store(scale: nat, b: bv8, sub: nat, color: bv16): bv8
    requires LegalScale(scale) && sub < PerByte(scale)
  {
    if scale == 2 then Store2(b, sub, color)
    else if scale == 4 then Store4(b, sub, color)
    else Store6(b, sub, color)
  }

  /** Pixel number `sub` of a byte. */
  function Load(scale: nat, b: bv8, sub: nat): bv8
    requires LegalScale(scale) && sub < PerByte(scale)
  {
    if scale == 2 then (b >> (7 - sub)) & 1
    else if scale == 4 then (b >> (6 - sub * 2)) & 3
    else (b >> (4 - sub * 4)) & 15
  }

  /** The value a colour has as a pixel: black or not, colour mod 4, colour mod 16. */
  function Shade(scale: nat, color: bv16): bv8
    requires LegalScale(scale)
  {
    if scale == 2 then (if color == 0 then 0 else 1)
    else if scale == 4 then Truncate(color % 4)
    else Truncate(color & 15)
  }

  lemma StoreLoad2(b: bv8, sub: nat, color: bv16)
    requires sub < 8
    ensures Load(2, Store(2, b, sub, color), sub) == Shade(2, color)
  {
  }

  lemma StoreLoad4(b: bv8, sub: nat, color: bv16)
    requires sub < 4
    ensures Load(4, Store(4, b, sub, color), sub) == Shade(4, color)
  {
  }

  lemma StoreLoad6(b: bv8, sub: nat, color: bv16)
    requires sub < 2
    ensures Load(6, Store(6, b, sub, color), sub) == Shade(6, color)
  {
  }

  lemma ClearOther2(b: bv8, sub: nat, other: nat)
    requires sub < 8 && other < 8 && sub != other
    ensures Load(2, b & !(0x80 >> sub), other) == Load(2, b, other)
  {
  }

  lemma SetOther2(b: bv8, sub: nat, other: nat)
    requires sub < 8 && other < 8 && sub != other
    ensures Load(2, b | (0x80 >> sub), other) == Load(2, b, other)
  {
  }

  lemma ClearOther4(b: bv8, sub: nat, other: nat)
    requires sub < 4 && other < 4 && sub != other
    ensures Load(4, b & !(0xC0 >> (sub * 2)), other) == Load(4, b, other)
  {
  }

  lemma SetOther4(b: bv8, sub: nat, v: bv8, other: nat)
    requires sub < 4 && other < 4 && sub != other && v & !(0xC0 >> (sub * 2)) == 0
    ensures Load(4, b | v, other) == Load(4, b, other)
  {
  }

  lemma FieldOf4(sub: nat, color: bv16)
    requires sub < 4 && color < 4
    ensures Truncate((color << 6) >> (sub * 2)) & !(0xC0 >> (sub * 2)) == 0
  {
  }

  lemma SetOther6(b: bv8, sub: nat, color: bv16, other: nat)
    requires sub < 2 && other < 2 && sub != other && color < 16
    ensures Load(6, b | Truncate((color << 4) >> (sub * 4)), other) == Load(6, b, other)
  {
  }

  lemma ClearOther6(b: bv8, sub: nat, other: nat)
    requires sub < 2 && other < 2 && sub != other
    ensures Load(6, b & !(0xF0 >> (sub * 4)), other) == Load(6, b, other)
  {
  }

  /** The condition under which a write leaves the other pixels of its byte alone: in scales 6 and 7 the colour
      must fit its four bits unless the pixel is the upper one. */
  predicate Fits(scale: nat, sub: nat, color: bv16) {
    scale < 6 || sub == 0 || color < 16
  }

  lemma StoreOther2(b: bv8, sub: nat, color: bv16, other: nat)
    requires sub < 8 && other < 8 && sub != other
    ensures Load(2, Store(2, b, sub, color), other) == Load(2, b, other)
  {
    ClearOther2(b, sub, other);
    SetOther2(b, sub, other);
  }

  lemma WriteOther4(b: bv8, sub: nat, v: bv8, other: nat)
    requires sub < 4 && other < 4 && sub != other && v & !(0xC0 >> (sub * 2)) == 0
    ensures Load(4, (b & !(0xC0 >> (sub * 2))) | v, other) == Load(4, b, other)
  {
    ClearOther4(b, sub, other);
    SetOther4(b & !(0xC0 >> (sub * 2)), sub, v, other);
  }

  lemma StoreOther4(b: bv8, sub: nat, color: bv16, other: nat)
    requires sub < 4 && other < 4 && sub != other
    ensures Load(4, Store4(b, sub, color), other) == Load(4, b, other)
  {
    FieldOf4(sub, color % 4);
    WriteOther4(b, sub, Truncate(((color % 4) << 6) >> (sub * 2)), other);
  }

  lemma StoreUpper6(b: bv8, color: bv16)
    ensures Load(6, Store(6, b, 0, color), 1) == Load(6, b, 1)
  {
  }

  lemma StoreOther6(b: bv8, sub: nat, color: bv16, other: nat)
    requires sub < 2 && other < 2 && sub != other && Fits(6, sub, color)
    ensures Load(6, Store(6, b, sub, color), other) == Load(6, b, other)
  {
    if sub == 0 {
      StoreUpper6(b, color);
    } else {
      ClearOther6(b, sub, other);
      SetOther6(b & !(0xF0 >> (sub * 4)), sub, color, other);
    }
  }

  lemma Scale7Is6(b: bv8, sub: nat, color: bv16)
    requires sub < 2
    ensures Load(7, b, sub) == Load(6, b, sub) && Store(7, b, sub, color) == Store(6, b, sub, color)
    ensures Shade(7, color) == Shade(6, color)
  {
  }

  lemma StoreThenLoad7(b: bv8, sub: nat, color: bv16, other: nat)
    requires sub < 2 && other < 2
    ensures Load(7, Store(7, b, sub, color), sub) == Shade(7, color)
    ensures sub != other && Fits(7, sub, color) ==> Load(7, Store(7, b, sub, color), other) == Load(7, b, other)
  {
    Scale7Is6(b, sub, color);
    Scale7Is6(b, other, color);
    Scale7Is6(Store(6, b, sub, color), sub, color);
    Scale7Is6(Store(6, b, sub, color), other, color);
    StoreLoad6(b, sub, color);
    if sub != other && Fits(7, sub, color) {
      StoreOther6(b, sub, color, other);
    }
  }

  /** Write a pixel of a byte: it reads back as its shade, and the other pixels keep their values. */
  lemma StoreThenLoad(scale: nat, b: bv8, sub: nat, color: bv16, other: nat)
    requires LegalScale(scale) && sub < PerByte(scale) && other < PerByte(scale)
    ensures Load(scale, Store(scale, b, sub, color), sub) == Shade(scale, color)
    ensures sub != other && Fits(scale, sub, color) ==>
              Load(scale, Store(scale, b, sub, color), other) == Load(scale, b, other)
  {
    if scale == 2 {
      StoreLoad2(b, sub, color);
      if sub != other { StoreOther2(b, sub, color, other); }
    } else if scale == 4 {
      StoreLoad4(b, sub, color);
      if sub != other { StoreOther4(b, sub, color, other); }
    } else if scale == 6 {
      StoreLoad6(b, sub, color);
      if sub != other && Fits(6, sub, color) { StoreOther6(b, sub, color, other); }
    } else {
      StoreThenLoad7(b, sub, color, other);
    }
  }

  /** A wider colour written to the lower pixel is or-ed into the upper one, so that pixel survives exactly if it
      already has those bits. */
  lemma WideColorSpills(b: bv8, color: bv16)
    ensures Load(6, Store(6, b, 1, color), 0) == Load(6, b, 0) | Truncate((color >> 4) & 15)
  {
  }

  // ----- the same in numbers

  /** Pixel number `s` of a byte: a digit of its binary, quaternary or hexadecimal numeral, the first the highest. */
  function PixelValue(scale: nat, b: bv8, s: nat): int
    requires LegalScale(scale) && s < PerByte(scale)
  {
    if scale == 2 then b as int / Pow2(7 - s) % 2
    else if scale == 4 then b as int / Pow2(6 - 2 * s) % 4
    else b as int / Pow2(4 - 4 * s) % 16
  }

  /** What a colour is as a pixel. */
  function ColorValue(scale: nat, color: bv16): int
    requires LegalScale(scale)
  {
    if scale == 2 then (if color == 0 then 0 else 1) else if scale == 4 then color as int % 4 else color as int % 16
  }

  lemma LoadIsValue(scale: nat, b: bv8, s: nat)
    requires LegalScale(scale) && s < PerByte(scale)
    ensures Load(scale, b, s) as int == PixelValue(scale, b, s)
  {
    if scale == 2 {
      LoadIsValue2(b, s);
    } else if scale == 4 {
      LoadIsValue4(b, s);
    } else {
      LoadIsValue6(scale, b, s);
    }
  }

  lemma LoadIsValue2(b: bv8, s: nat)
    requires s < 8
    ensures Load(2, b, s) as int == b as int / Pow2(7 - s) % 2
  {
    ShiftDivides(b, 7 - s);
    LowBit(b >> (7 - s));
  }

  lemma LoadIsValue4(b: bv8, s: nat)
    requires s < 4
    ensures Load(4, b, s) as int == b as int / Pow2(6 - 2 * s) % 4
  {
    ShiftDivides(b, 6 - s * 2);
    LowTwoBits(b >> (6 - s * 2));
  }

  lemma LoadIsValue6(scale: nat, b: bv8, s: nat)
    requires (scale == 6 || scale == 7) && s < 2
    ensures Load(scale, b, s) as int == b as int / Pow2(4 - 4 * s) % 16
  {
    ShiftDivides(b, 4 - s * 4);
    LowFourBits(b >> (4 - s * 4));
  }

  lemma WordSplit(v: bv16)
    ensures v as int == 256 * ((v >> 8) as int) + (v & 0xFF) as int && Truncate(v) as int == (v & 0xFF) as int
  {
  }

  lemma TruncateMasks(color: bv16)
    ensures Truncate(color % 4) == Truncate(color) & 3 && Truncate(color & 15) == Truncate(color) & 15
  {
  }

  lemma Mod4(color: bv16)
    ensures Truncate(color % 4) as int == color as int % 4
  {
    WordSplit(color);
    TruncateMasks(color);
    LowTwoBits(Truncate(color));
    ModSplit((color >> 8) as int, Truncate(color) as int);
  }

  lemma Mod16(color: bv16)
    ensures Truncate(color & 15) as int == color as int % 16
  {
    WordSplit(color);
    TruncateMasks(color);
    LowFourBits(Truncate(color));
    ModSplit((color >> 8) as int, Truncate(color) as int);
  }

  lemma ModSplit(high: nat, low: nat)
    ensures (256 * high + low) % 4 == low % 4 && (256 * high + low) % 16 == low % 16
  {
    DivModUnique(256 * high + low, 4, 64 * high + low / 4, low % 4);
    DivModUnique(256 * high + low, 16, 16 * high + low / 16, low % 16);
  }

  lemma ShadeIsValue(scale: nat, color: bv16)
    requires LegalScale(scale)
    ensures Shade(scale, color) as int == ColorValue(scale, color)
  {
    Mod4(color);
    Mod16(color);
  }

  /** The byte `b'` is `b` with pixel `sub` set to the colour. */
  ghost predicate SetsPixel(scale: nat, b: bv8, b': bv8, sub: nat, color: bv16)
    requires LegalScale(scale) && sub < PerByte(scale)
  {
    && PixelValue(scale, b', sub) == ColorValue(scale, color)
    && forall s :: 0 <= s < PerByte(scale) && s != sub ==> PixelValue(scale, b', s) == PixelValue(scale, b, s)
  }

  lemma StoreSetsPixel(scale: nat, b: bv8, sub: nat, color: bv16)
    requires LegalScale(scale) && sub < PerByte(scale) && Fits(scale, sub, color)
    ensures SetsPixel(scale, b, Store(scale, b, sub, color), sub, color)
  {
    var b' := Store(scale, b, sub, color);
    StoreThenLoad(scale, b, sub, color, sub);
    LoadIsValue(scale, b', sub);
    ShadeIsValue(scale, color);
    forall s | 0 <= s < PerByte(scale) && s != sub
      ensures PixelValue(scale, b', s) == PixelValue(scale, b, s)
    {
      StoreThenLoad(scale, b, sub, color, s);
      LoadIsValue(scale, b', s);
      LoadIsValue(scale, b, s);
    }
  }

  // ----- the canvas

  /** The settings of a canvas; all numbers are 16 bits wide. */
  datatype Config = Config(widthMemory: nat, heightMemory: nat, rotate: nat, mirror: nat, scale: nat) {
    predicate Valid() {
      && widthMemory < 65536 && heightMemory < 65536 && LegalScale(scale)
      && (rotate == 0 || rotate == 90 || rotate == 180 || rotate == 270) && mirror < 4
    }

    /** The logical size, as Paint_NewImage derives it from the rotation. */
    function Width(): nat { if rotate == 0 || rotate == 180 then widthMemory else heightMemory }
    function Height(): nat { if rotate == 0 || rotate == 180 then heightMemory else widthMemory }

    predicate In(x: nat, y: nat) { x < Width() && y < Height() }
  }

  /** The number of bytes in a row. */
  function RowBytes(scale: nat, width: nat): nat
    requires LegalScale(scale)
  {
    if scale == 2 then (if width % 8 == 0 then width / 8 else width / 8 + 1)
    else if scale == 4 then (if width % 4 == 0 then width / 4 else width / 4 + 1)
    else (if width % 2 == 0 then width / 2 else width / 2 + 1)
  }

  function Column(scale: nat, x: nat): nat
    requires LegalScale(scale)
  {
    if scale == 2 then x / 8 else if scale == 4 then x / 4 else x / 2
  }

  function Sub(scale: nat, x: nat): (sub: nat)
    requires LegalScale(scale)
    ensures sub < PerByte(scale)
  {
    if scale == 2 then x % 8 else if scale == 4 then x % 4 else x % 2
  }

  /** A row has the bytes its pixels need and no more. */
  lemma RowBytesTight(scale: nat, width: nat)
    requires LegalScale(scale)
    ensures width <= PerByte(scale) * RowBytes(scale, width) < width + PerByte(scale)
    ensures RowBytes(scale, width) == (width + PerByte(scale) - 1) / PerByte(scale)
  {
  }

  lemma ColumnInside(scale: nat, x: nat, width: nat)
    requires LegalScale(scale) && x < width
    ensures Column(scale, x) < RowBytes(scale, width)
  {
  }

  lemma ColumnSub(scale: nat, x: nat, x': nat)
    requires LegalScale(scale) && Column(scale, x) == Column(scale, x') && Sub(scale, x) == Sub(scale, x')
    ensures x == x'
  {
  }

  function Size(c: Config): nat
    requires c.Valid()
  {
    c.heightMemory * RowBytes(c.scale, c.widthMemory)
  }

  function Address(c: Config, p: (nat, nat)): nat
    requires c.Valid()
  {
    Column(c.scale, p.0) + p.1 * RowBytes(c.scale, c.widthMemory)
  }

  // ----- rotation and mirror

  /** `size - k - 1`, stored in a UWORD. */
  function Flip(size: nat, k: nat): nat {
    (size - k - 1) % 65536
  }

  lemma FlipInvolution(size: nat, k: nat)
    requires k < size < 65536
    ensures Flip(size, k) == size - k - 1 && Flip(size, Flip(size, k)) == k
  {
  }

  function Rotated(c: Config, x: nat, y: nat): (nat, nat) {
    if c.rotate == 0 then (x, y)
    else if c.rotate == 90 then (Flip(c.widthMemory, y), x)
    else if c.rotate == 180 then (Flip(c.widthMemory, x), Flip(c.heightMemory, y))
    else (y, Flip(c.heightMemory, x))
  }

  function Mirrored(c: Config, p: (nat, nat)): (nat, nat) {
    if c.mirror == 0 then p
    else if c.mirror == 1 then (Flip(c.widthMemory, p.0), p.1)
    else if c.mirror == 2 then (p.0, Flip(c.heightMemory, p.1))
    else (Flip(c.widthMemory, p.0), Flip(c.heightMemory, p.1))
  }

  /** The memory position of a logical pixel. */
  function Place(c: Config, x: nat, y: nat): (nat, nat) {
    Mirrored(c, Rotated(c, x, y))
  }

  /** The turn back. */
  function Turned(c: Config, p: (nat, nat)): (nat, nat) {
    if c.rotate == 0 then p
    else if c.rotate == 90 then (p.1, Flip(c.widthMemory, p.0))
    else if c.rotate == 180 then (Flip(c.widthMemory, p.0), Flip(c.heightMemory, p.1))
    else (Flip(c.heightMemory, p.1), p.0)
  }

  /** The logical pixel at a memory position. */
  function Logical(c: Config, p: (nat, nat)): (nat, nat) {
    Turned(c, Mirrored(c, p))
  }

  predicate InMemory(c: Config, p: (nat, nat)) {
    p.0 < c.widthMemory && p.1 < c.heightMemory
  }

  lemma MirrorInvolution(c: Config, p: (nat, nat))
    requires c.Valid() && InMemory(c, p)
    ensures InMemory(c, Mirrored(c, p)) && Mirrored(c, Mirrored(c, p)) == p
  {
    FlipInvolution(c.widthMemory, p.0);
    FlipInvolution(c.heightMemory, p.1);
  }

  lemma RotateThenTurn(c: Config, x: nat, y: nat)
    requires c.Valid() && c.In(x, y)
    ensures InMemory(c, Rotated(c, x, y)) && Turned(c, Rotated(c, x, y)) == (x, y)
  {
    if c.rotate == 0 || c.rotate == 180 {
      FlipInvolution(c.widthMemory, x);
      FlipInvolution(c.heightMemory, y);
    } else {
      FlipInvolution(c.widthMemory, y);
      FlipInvolution(c.heightMemory, x);
    }
  }

  lemma TurnThenRotate(c: Config, p: (nat, nat))
    requires c.Valid() && InMemory(c, p)
    ensures var q := Turned(c, p); c.In(q.0, q.1) && Rotated(c, q.0, q.1) == p
  {
    FlipInvolution(c.widthMemory, p.0);
    FlipInvolution(c.heightMemory, p.1);
  }

  /** The coordinate map is a bijection between the logical canvas and the memory rectangle. */
  lemma PlaceBijection(c: Config, x: nat, y: nat)
    requires c.Valid()
    ensures c.In(x, y) ==> InMemory(c, Place(c, x, y)) && Logical(c, Place(c, x, y)) == (x, y)
    ensures InMemory(c, (x, y)) ==> var q := Logical(c, (x, y)); c.In(q.0, q.1) && Place(c, q.0, q.1) == (x, y)
  {
    if c.In(x, y) {
      RotateThenTurn(c, x, y);
      MirrorInvolution(c, Rotated(c, x, y));
    }
    if InMemory(c, (x, y)) {
      MirrorInvolution(c, (x, y));
      TurnThenRotate(c, Mirrored(c, (x, y)));
    }
  }

  /** Where a rotation and a mirror put a pixel. */
  lemma PlaceGeometry(c: Config, x: nat, y: nat)
    requires c.Valid() && c.In(x, y)
    ensures var w, h := c.widthMemory, c.heightMemory;
            var px := if c.rotate == 0 then x else if c.rotate == 90 then w - 1 - y
                      else if c.rotate == 180 then w - 1 - x else y;
            var py := if c.rotate == 0 then y else if c.rotate == 90 then x
                      else if c.rotate == 180 then h - 1 - y else h - 1 - x;
            Place(c, x, y) == (if c.mirror == 1 || c.mirror == 3 then w - 1 - px else px,
                               if c.mirror == 2 || c.mirror == 3 then h - 1 - py else py)
  {
    RotateThenTurn(c, x, y);
    var p := Rotated(c, x, y);
    FlipInvolution(c.widthMemory, p.0);
    FlipInvolution(c.heightMemory, p.1);
    if c.rotate == 0 || c.rotate == 180 {
      FlipInvolution(c.widthMemory, x);
      FlipInvolution(c.heightMemory, y);
    } else {
      FlipInvolution(c.widthMemory, y);
      FlipInvolution(c.heightMemory, x);
    }
  }

  /** A half turn is two quarter turns, three quarters are a quarter turn after a half turn; the turns in between are
      those of the canvas with its sides exchanged. */
  lemma QuarterTurns(c: Config, x: nat, y: nat)
    requires c.Valid() && c.mirror == 0
    ensures var quarter, other := c.(rotate := 90), Config(c.heightMemory, c.widthMemory, 90, 0, c.scale);
            && (c.rotate == 180 && c.In(x, y) ==>
                  var q := Place(other, x, y); Place(c, x, y) == Place(quarter, q.0, q.1))
            && (c.rotate == 270 && c.In(x, y) ==>
                  var q := Place(other.(rotate := 180), x, y); Place(c, x, y) == Place(quarter, q.0, q.1))
  {
    if c.In(x, y) {
      var quarter, other := c.(rotate := 90), Config(c.heightMemory, c.widthMemory, 90, 0, c.scale);
      PlaceGeometry(c, x, y);
      if c.rotate == 180 {
        PlaceGeometry(other, x, y);
        PlaceGeometry(quarter, Place(other, x, y).0, Place(other, x, y).1);
      } else if c.rotate == 270 {
        var half := other.(rotate := 180);
        PlaceGeometry(half, x, y);
        PlaceGeometry(quarter, Place(half, x, y).0, Place(half, x, y).1);
      }
    }
  }

  lemma AddressInside(c: Config, p: (nat, nat))
    requires c.Valid() && p.0 < c.widthMemory && p.1 < c.heightMemory
    ensures Address(c, p) < Size(c)
  {
    ColumnInside(c.scale, p.0, c.widthMemory);
    RowMajor(Column(c.scale, p.0), p.1, RowBytes(c.scale, c.widthMemory), c.heightMemory);
  }

  /** Positions whose columns lie in the row, padding included, differ in address or in their place within the byte. */
  lemma AddressInjective(c: Config, p: (nat, nat), q: (nat, nat))
    requires c.Valid() && InRow(c, p) && InRow(c, q)
    requires Address(c, p) == Address(c, q) && Sub(c.scale, p.0) == Sub(c.scale, q.0)
    ensures p == q
  {
    var row := RowBytes(c.scale, c.widthMemory);
    DivModUnique(Address(c, p), row, p.1, Column(c.scale, p.0));
    DivModUnique(Address(c, q), row, q.1, Column(c.scale, q.0));
    ColumnSub(c.scale, p.0, q.0);
  }

  // ----- pixels

  /** The pixel at a memory position, and the buffer after it has been written. */
  function LoadAt(c: Config, image: seq<bv8>, p: (nat, nat)): bv8
    requires c.Valid() && Address(c, p) < |image|
  {
    Load(c.scale, image[Address(c, p)], Sub(c.scale, p.0))
  }

  function StoreAt(c: Config, image: seq<bv8>, p: (nat, nat), color: bv16): (image': seq<bv8>)
    requires c.Valid() && Address(c, p) < |image|
    ensures |image'| == |image|
  {
    image[Address(c, p) := Store(c.scale, image[Address(c, p)], Sub(c.scale, p.0), color)]
  }

  function Get(c: Config, image: seq<bv8>, x: nat, y: nat): bv8
    requires c.Valid() && c.In(x, y) && |image| >= Size(c)
  {
    PlaceBijection(c, x, y);
    AddressInside(c, Place(c, x, y));
    LoadAt(c, image, Place(c, x, y))
  }

  function Put(c: Config, image: seq<bv8>, x: nat, y: nat, color: bv16): (image': seq<bv8>)
    requires c.Valid() && c.In(x, y) && |image| >= Size(c)
    ensures |image'| == |image|
  {
    PlaceBijection(c, x, y);
    AddressInside(c, Place(c, x, y));
    StoreAt(c, image, Place(c, x, y), color)
  }

  /** Colours that a scale can show: below 16 in scales 6 and 7, any colour otherwise. */
  predicate Showable(scale: nat, color: bv16) {
    scale < 6 || color < 16
  }

  /** The position's column lies in the row, padding included. */
  predicate InRow(c: Config, p: (nat, nat))
    requires c.Valid()
  {
    Column(c.scale, p.0) < RowBytes(c.scale, c.widthMemory)
  }

  lemma StoreAtThenLoadAt(c: Config, image: seq<bv8>, p: (nat, nat), color: bv16, q: (nat, nat))
    requires c.Valid() && InRow(c, p) && InRow(c, q) && Showable(c.scale, color)
    requires Address(c, p) < |image| && Address(c, q) < |image|
    ensures LoadAt(c, StoreAt(c, image, p, color), q) == if p == q then Shade(c.scale, color) else LoadAt(c, image, q)
  {
    if Address(c, p) == Address(c, q) {
      if Sub(c.scale, p.0) == Sub(c.scale, q.0) {
        AddressInjective(c, p, q);
      }
      StoreThenLoad(c.scale, image[Address(c, p)], Sub(c.scale, p.0), color, Sub(c.scale, q.0));
    }
  }

  lemma OnCanvas(c: Config, x: nat, y: nat)
    requires c.Valid() && c.In(x, y)
    ensures InRow(c, Place(c, x, y)) && Address(c, Place(c, x, y)) < Size(c)
  {
    PlaceBijection(c, x, y);
    AddressInside(c, Place(c, x, y));
    ColumnInside(c.scale, Place(c, x, y).0, c.widthMemory);
  }

  /** Writing a logical pixel changes that pixel and no other, in every rotation, mirror and scale. */
  lemma PutThenGet(c: Config, image: seq<bv8>, x: nat, y: nat, color: bv16, x': nat, y': nat)
    requires c.Valid() && c.In(x, y) && c.In(x', y') && |image| >= Size(c) && Showable(c.scale, color)
    ensures Get(c, Put(c, image, x, y, color), x', y')
         == if (x, y) == (x', y') then Shade(c.scale, color) else Get(c, image, x', y')
  {
    PlaceBijection(c, x, y);
    PlaceBijection(c, x', y');
    OnCanvas(c, x, y);
    OnCanvas(c, x', y');
    StoreAtThenLoadAt(c, image, Place(c, x, y), color, Place(c, x', y'));
  }

  // ----- clearing

  /** The byte Paint_Clear stores everywhere. */
  function ClearByte(scale: nat, color: bv16): bv8 {
    if scale == 2 then Truncate(color)
    else if scale == 4 then Truncate((color << 6) | (color << 4) | (color << 2) | color)
    else Truncate((color << 4) | color)
  }

  /** Its pixels: in scale 2 the byte is the colour's low byte; in the other scales each pixel is the colour's low digit
      or-ed with the digits that the shifted copies put there. */
  lemma ClearBytePixels(color: bv16)
    ensures ClearByte(2, color) as int == color as int % 256
    ensures Load(4, ClearByte(4, color), 3) == Truncate(color & 3)
    ensures Load(4, ClearByte(4, color), 2) == Truncate((color | (color >> 2)) & 3)
    ensures Load(4, ClearByte(4, color), 1) == Truncate((color | (color >> 2) | (color >> 4)) & 3)
    ensures Load(4, ClearByte(4, color), 0) == Truncate((color | (color >> 2) | (color >> 4) | (color >> 6)) & 3)
    ensures Load(6, ClearByte(6, color), 1) == Truncate(color & 15)
    ensures Load(6, ClearByte(6, color), 0) == Truncate((color | (color >> 4)) & 15)
    ensures ClearByte(7, color) == ClearByte(6, color)
  {
    WordSplit(color);
    ModByte((color >> 8) as int, Truncate(color) as int);
  }

  lemma ModByte(high: nat, low: nat)
    requires low < 256
    ensures (256 * high + low) % 256 == low
  {
  }

  /** The colours for which that byte holds the same shade in every pixel. */
  predicate ClearsEvenly(scale: nat, color: bv16) {
    if scale == 2 then color == 0 || Truncate(color) == 0xFF
    else if scale == 4 then ((color >> 2) | (color >> 4) | (color >> 6)) & 3 & !color == 0
    else (color >> 4) & 15 & !color == 0
  }

  lemma ClearsEvenly2(color: bv16)
    ensures ClearsEvenly(2, color) <==>
      forall sub :: 0 <= sub < 8 ==> Load(2, ClearByte(2, color), sub) == Shade(2, color)
  {
    var b := ClearByte(2, color);
    if forall sub :: 0 <= sub < 8 ==> Load(2, b, sub) == Shade(2, color) {
      assert Load(2, b, 0) == Load(2, b, 1) == Load(2, b, 2) == Load(2, b, 3) == Shade(2, color);
      assert Load(2, b, 4) == Load(2, b, 5) == Load(2, b, 6) == Load(2, b, 7) == Shade(2, color);
    }
  }

  lemma ClearsEvenly4(color: bv16)
    ensures ClearsEvenly(4, color) <==>
      forall sub :: 0 <= sub < 4 ==> Load(4, ClearByte(4, color), sub) == Shade(4, color)
  {
    var b := ClearByte(4, color);
    if forall sub :: 0 <= sub < 4 ==> Load(4, b, sub) == Shade(4, color) {
      assert Load(4, b, 0) == Shade(4, color);
    }
  }

  lemma ClearsEvenly6(scale: nat, color: bv16)
    requires scale == 6 || scale == 7
    ensures ClearsEvenly(scale, color) <==>
      forall sub :: 0 <= sub < 2 ==> Load(scale, ClearByte(scale, color), sub) == Shade(scale, color)
  {
    var b := ClearByte(scale, color);
    if forall sub :: 0 <= sub < 2 ==> Load(scale, b, sub) == Shade(scale, color) {
      assert Load(scale, b, 0) == Shade(scale, color);
    }
  }

  /** The first `n` pixels of the stored byte show the colour. */
  predicate EvenTo(scale: nat, color: bv16, n: nat)
    requires LegalScale(scale) && n <= PerByte(scale)
  {
    forall sub :: 0 <= sub < n ==> Load(scale, ClearByte(scale, color), sub) == Shade(scale, color)
  }

  lemma ClearsEvenlyExactly(scale: nat, color: bv16)
    requires LegalScale(scale)
    ensures ClearsEvenly(scale, color) <==> EvenTo(scale, color, PerByte(scale))
  {
    if scale == 2 { ClearsEvenly2(color); }
    else if scale == 4 { ClearsEvenly4(color); }
    else { ClearsEvenly6(scale, color); }
  }

  lemma ShowableClears(scale: nat, color: bv16)
    requires scale == 4 || scale == 6 || scale == 7
    requires scale == 4 ==> color < 4
    requires scale >= 6 ==> color < 16
    ensures ClearsEvenly(scale, color)
  {
  }

  /** After Paint_Clear every logical pixel has the colour's shade. */
  lemma ClearedPixel(c: Config, image: seq<bv8>, color: bv16, x: nat, y: nat)
    requires c.Valid() && c.In(x, y) && |image| >= Size(c) && ClearsEvenly(c.scale, color)
    requires forall i :: 0 <= i < Size(c) ==> image[i] == ClearByte(c.scale, color)
    ensures Get(c, image, x, y) == Shade(c.scale, color)
  {
    var p := Place(c, x, y);
    PlaceBijection(c, x, y);
    AddressInside(c, p);
    ClearsEvenlyExactly(c.scale, color);
  }

  /** In scale 2 white, which is 1, does not clear evenly: already the first pixel of the byte is black. */
  lemma WhiteClearsUnevenly()
    ensures !ClearsEvenly(2, 1) && Load(2, ClearByte(2, 1), 0) != Shade(2, 1)
  {
  }

  // ----- the guards of Paint_SetPixel

  /** A coordinate that both guards let through, `>` being used where `>=` is meant. */
  predicate Admitted(c: Config, x: nat, y: nat) {
    && x <= c.Width() && y <= c.Height()
    && Passes(c, Place(c, x, y))
  }

  /** The second guard. */
  predicate Passes(c: Config, p: (nat, nat)) {
    p.0 <= c.widthMemory && p.1 <= c.heightMemory
  }

  /** Where the rotation and the mirror put any coordinate that the first guard lets through, and when the second one
      does too: a coordinate one past the canvas is reflected to -1, which as a UWORD is larger than every size below
      65535, unless it is reflected twice or not at all. */
  lemma GuardsExactly(c: Config, x: nat, y: nat)
    requires c.Valid() && x <= c.Width() && y <= c.Height()
    ensures var w, h := c.widthMemory, c.heightMemory;
            var px := if c.rotate == 0 then x else if c.rotate == 90 then w - 1 - y
                      else if c.rotate == 180 then w - 1 - x else y;
            var py := if c.rotate == 0 then y else if c.rotate == 90 then x
                      else if c.rotate == 180 then h - 1 - y else h - 1 - x;
            var column := if c.mirror == 1 || c.mirror == 3 then w - 1 - px else px;
            var row := if c.mirror == 2 || c.mirror == 3 then h - 1 - py else py;
            && Place(c, x, y) == (Uword(column), Uword(row))
            && (Admitted(c, x, y) <==> (column >= 0 || w == 65535) && (row >= 0 || h == 65535))
  {
    var w, h := c.widthMemory, c.heightMemory;
    var px := if c.rotate == 0 then x else if c.rotate == 90 then w - 1 - y
              else if c.rotate == 180 then w - 1 - x else y;
    var py := if c.rotate == 0 then y else if c.rotate == 90 then x
              else if c.rotate == 180 then h - 1 - y else h - 1 - x;
    RotatedWraps(c, x, y, px, py);
    MirroredWraps(c, px, py);
    PassesExactly(c, if c.mirror == 1 || c.mirror == 3 then w - 1 - px else px,
                  if c.mirror == 2 || c.mirror == 3 then h - 1 - py else py);
  }

  lemma PassesExactly(c: Config, column: int, row: int)
    requires c.Valid() && -1 <= column <= c.widthMemory && -1 <= row <= c.heightMemory
    ensures Passes(c, (Uword(column), Uword(row))) <==>
              (column >= 0 || c.widthMemory == 65535) && (row >= 0 || c.heightMemory == 65535)
  {
  }

  /** A value from -1 to 65535 as a UWORD. */
  function Uword(v: int): int {
    if v < 0 then v + 65536 else v
  }

  lemma Wraps(size: nat, v: int)
    requires -1 <= v <= size < 65536
    ensures Flip(size, Uword(v)) == Uword(size - 1 - v)
  {
    if v < 0 {
      DivModUnique(size - 65536, 65536, -1, size);
    } else if v == size {
      DivModUnique(-1, 65536, -1, 65535);
    } else {
      DivModUnique(size - v - 1, 65536, 0, size - v - 1);
    }
  }

  lemma RotatedWraps(c: Config, x: nat, y: nat, px: int, py: int)
    requires c.Valid() && x <= c.Width() && y <= c.Height()
    requires px == if c.rotate == 0 then x else if c.rotate == 90 then c.widthMemory - 1 - y
                   else if c.rotate == 180 then c.widthMemory - 1 - x else y
    requires py == if c.rotate == 0 then y else if c.rotate == 90 then x
                   else if c.rotate == 180 then c.heightMemory - 1 - y else c.heightMemory - 1 - x
    ensures Rotated(c, x, y) == (Uword(px), Uword(py)) && -1 <= px <= c.widthMemory && -1 <= py <= c.heightMemory
  {
    if c.rotate == 90 { Wraps(c.widthMemory, y); }
    if c.rotate == 180 { Wraps(c.widthMemory, x); Wraps(c.heightMemory, y); }
    if c.rotate == 270 { Wraps(c.heightMemory, x); }
  }

  lemma MirroredWraps(c: Config, px: int, py: int)
    requires c.Valid() && -1 <= px <= c.widthMemory && -1 <= py <= c.heightMemory
    ensures Mirrored(c, (Uword(px), Uword(py)))
         == (Uword(if c.mirror == 1 || c.mirror == 3 then c.widthMemory - 1 - px else px),
             Uword(if c.mirror == 2 || c.mirror == 3 then c.heightMemory - 1 - py else py))
  {
    Wraps(c.widthMemory, px);
    Wraps(c.heightMemory, py);
  }

  /** An admitted position is inside the buffer exactly if it is not in the row below the last one and does not
      run over the end of the last row. */
  lemma AdmittedInside(c: Config, p: (nat, nat))
    requires c.Valid() && p.0 <= c.widthMemory && p.1 <= c.heightMemory && 0 < c.widthMemory
    ensures var row := RowBytes(c.scale, c.widthMemory);
            Address(c, p) < Size(c) <==>
              p.1 < c.heightMemory && (Column(c.scale, p.0) < row || p.1 + 1 < c.heightMemory)
  {
    var row := RowBytes(c.scale, c.widthMemory);
    ColumnInside(c.scale, 0, c.widthMemory);
    if p.1 == c.heightMemory {
    } else if p.1 + 1 < c.heightMemory {
      ColumnNear(c.scale, p.0, c.widthMemory);
      MulMono(row, p.1 + 2, c.heightMemory);
      assert (p.1 + 2) * row == p.1 * row + 2 * row;
    } else {
      assert (p.1 + 1) * row == p.1 * row + row;
    }
  }

  lemma ColumnNear(scale: nat, x: nat, width: nat)
    requires LegalScale(scale) && x <= width
    ensures Column(scale, x) <= RowBytes(scale, width)
  {
  }

  /** The coordinate one below the canvas passes the guards and addresses the byte after the buffer. */
  lemma GuardAdmitsOverrun(c: Config)
    requires c.Valid() && c.rotate == 0 && c.mirror == 0
    ensures Admitted(c, 0, c.Height()) && Address(c, Place(c, 0, c.Height())) == Size(c)
  {
  }

  /** The coordinate does not lead outside a buffer of `size` bytes. */
  predicate Safe(c: Config, x: nat, y: nat, size: nat)
    requires c.Valid()
  {
    Admitted(c, x, y) ==> Address(c, Place(c, x, y)) < size
  }

  /** The buffer after Paint_SetPixel, for any coordinates that do not lead outside it. */
  function Write(c: Config, image: seq<bv8>, x: nat, y: nat, color: bv16): (image': seq<bv8>)
    requires c.Valid()
    ensures |image'| == |image|
  {
    if Admitted(c, x, y) && Safe(c, x, y, |image|) then StoreAt(c, image, Place(c, x, y), color) else image
  }

  /** On the canvas it writes the one pixel. */
  lemma WriteIsPut(c: Config, image: seq<bv8>, x: nat, y: nat, color: bv16)
    requires c.Valid() && c.In(x, y) && |image| >= Size(c)
    ensures Admitted(c, x, y) && Address(c, Place(c, x, y)) < |image|
    ensures Write(c, image, x, y, color) == Put(c, image, x, y, color)
  {
    PlaceBijection(c, x, y);
    AddressInside(c, Place(c, x, y));
  }

  /** One past the end of a full row is the start of the next row; of a padded row it is padding. */
  lemma EndOfRow(scale: nat, width: nat)
    requires LegalScale(scale)
    ensures width % PerByte(scale) == 0 ==> Column(scale, width) == RowBytes(scale, width) && Sub(scale, width) == 0
    ensures width % PerByte(scale) != 0 ==> Column(scale, width) < RowBytes(scale, width)
  {
  }

  lemma FullRowWraps(c: Config, y: nat)
    requires c.Valid() && c.widthMemory % PerByte(c.scale) == 0
    ensures Address(c, (c.widthMemory, y)) == Address(c, (0, y + 1))
    ensures Sub(c.scale, c.widthMemory) == Sub(c.scale, 0) == 0
  {
    EndOfRow(c.scale, c.widthMemory);
    var row := RowBytes(c.scale, c.widthMemory);
    assert (y + 1) * row == y * row + row;
  }

  /** A write one past a row hits the first pixel of the next row if the row has no padding, and no pixel otherwise. */
  lemma StrayWrite(c: Config, image: seq<bv8>, x: nat, y: nat, color: bv16, x': nat, y': nat)
    requires c.Valid() && |image| >= Size(c) && Showable(c.scale, color) && c.In(x', y')
    requires Admitted(c, x, y) && Place(c, x, y).0 == c.widthMemory && Address(c, Place(c, x, y)) < Size(c)
    ensures Get(c, Write(c, image, x, y, color), x', y')
         == if c.widthMemory % PerByte(c.scale) == 0 && Place(c, x', y') == (0, Place(c, x, y).1 + 1)
            then Shade(c.scale, color) else Get(c, image, x', y')
  {
    var p := Place(c, x, y);
    OnCanvas(c, x', y');
    EndOfRow(c.scale, c.widthMemory);
    if c.widthMemory % PerByte(c.scale) == 0 {
      FullRowWraps(c, p.1);
      ColumnInside(c.scale, 0, c.widthMemory);
      StoreAtThenLoadAt(c, image, (0, p.1 + 1), color, Place(c, x', y'));
    } else {
      StoreAtThenLoadAt(c, image, p, color, Place(c, x', y'));
      PlaceBijection(c, x', y');
    }
  }

  /** A canvas of 2 by 1 pixels turned from 0 to 90 degrees while its logical size stays 2 by 1: the logical pixel
      (1, 0) passes the guards and lies after the buffer. */
  lemma TurnedOverrun()
    ensures var c := Config(2, 1, 90, 0, 4);
            c.Valid() && c.Width() != 2 && Place(c, 1, 0) == (1, 1) && Address(c, Place(c, 1, 0)) == Size(c)
  {
  }

  // ----- what Paint_SetPixel draws, in numbers

  /** `after` is `before` with the one pixel drawn, at the place in memory that the rotation and the mirror give it. */
  ghost predicate DrawsPixel(c: Config, before: seq<bv8>, after: seq<bv8>, x: nat, y: nat, color: bv16)
    requires c.Valid()
  {
    var w, h := c.widthMemory, c.heightMemory;
    var px := if c.rotate == 0 then x else if c.rotate == 90 then w - 1 - y
              else if c.rotate == 180 then w - 1 - x else y;
    var py := if c.rotate == 0 then y else if c.rotate == 90 then x
              else if c.rotate == 180 then h - 1 - y else h - 1 - x;
    DrawsAt(c, before, after, if c.mirror == 1 || c.mirror == 3 then w - 1 - px else px,
            if c.mirror == 2 || c.mirror == 3 then h - 1 - py else py, color)
  }

  /** The byte with that place, found from the row length, has the colour in its pixel and its other pixels as before;
      no other byte changes. */
  ghost predicate DrawsAt(c: Config, before: seq<bv8>, after: seq<bv8>, column: int, row: int, color: bv16)
    requires c.Valid()
  {
    var per := if c.scale == 2 then 8 else if c.scale == 4 then 4 else 2;
    var k := column / per + row * ((c.widthMemory + per - 1) / per);
    && 0 <= k < |before| == |after|
    && after == before[k := after[k]]
    && PixelValue(c.scale, after[k], column % per) == ColorValue(c.scale, color)
    && (Showable(c.scale, color) ==> SetsPixel(c.scale, before[k], after[k], column % per, color))
  }

  lemma ColumnIs(scale: nat, x: nat, per: nat)
    requires LegalScale(scale) && per == if scale == 2 then 8 else if scale == 4 then 4 else 2
    ensures per == PerByte(scale) && Column(scale, x) == x / per && Sub(scale, x) == x % per
  {
  }

  lemma StoreSetsOne(scale: nat, b: bv8, sub: nat, color: bv16)
    requires LegalScale(scale) && sub < PerByte(scale)
    ensures PixelValue(scale, Store(scale, b, sub, color), sub) == ColorValue(scale, color)
  {
    StoreThenLoad(scale, b, sub, color, sub);
    LoadIsValue(scale, Store(scale, b, sub, color), sub);
    ShadeIsValue(scale, color);
  }

  lemma StoreAtDraws(c: Config, image: seq<bv8>, p: (nat, nat), color: bv16, per: nat)
    requires c.Valid() && Address(c, p) < |image|
    requires per == if c.scale == 2 then 8 else if c.scale == 4 then 4 else 2
    ensures DrawsAt(c, image, StoreAt(c, image, p, color), p.0, p.1, color)
  {
    ColumnIs(c.scale, p.0, per);
    RowBytesTight(c.scale, c.widthMemory);
    StoreSetsOne(c.scale, image[Address(c, p)], Sub(c.scale, p.0), color);
    if Showable(c.scale, color) {
      StoreSetsPixel(c.scale, image[Address(c, p)], Sub(c.scale, p.0), color);
    }
  }

  /** On the canvas, Paint_SetPixel draws the one pixel. */
  lemma WriteDraws(c: Config, image: seq<bv8>, x: nat, y: nat, color: bv16)
    requires c.Valid() && c.In(x, y) && |image| >= Size(c)
    ensures DrawsPixel(c, image, Write(c, image, x, y, color), x, y, color)
  {
    WriteIsPut(c, image, x, y, color);
    PlaceGeometry(c, x, y);
    StoreAtDraws(c, image, Place(c, x, y), color, if c.scale == 2 then 8 else if c.scale == 4 then 4 else 2);
  }
}
