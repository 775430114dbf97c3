/** The image converter's byte packing (tools/彩图转四色距离法和灰度法合成big.py) against the canvas. */
module Encoder {
  import opened Arith
  import opened Canvas
  import opened Paint

  datatype Rgb = Rgb(r: int, g: int, b: int)

  /** COLOR_MAP, with black for any other colour. */
  function ColorBits(p: Rgb): (bits: string)
    ensures |bits| == 2 && (bits[0] == '0' || bits[0] == '1') && (bits[1] == '0' || bits[1] == '1')
  {
    if p == Rgb(0, 0, 0) then "00"
    else if p == Rgb(255, 255, 255) then "01"
    else if p == Rgb(255, 255, 0) then "10"
    else if p == Rgb(255, 0, 0) then "11"
    else "00"
  }

  function Joined(group: seq<string>): string {
    if group == [] then "" else group[0] + Joined(group[1..])
  }

  /** A binary numeral of at most eight digits. */
  function Numeral(s: string): bv8 {
    if s == "" then 0 else (Numeral(s[..|s| - 1]) << 1) | (if s[|s| - 1] == '1' then 1 else 0)
  }

  /** pixels_to_byte */
  function PixelsToByte(group: seq<string>): bv8 {
    Numeral(Joined(group))
  }

  /** image_array_to_c_array: the pixels in row-major order, four to a byte. */
  function EncodeImage(pixels: seq<Rgb>): seq<bv8> {
    var codes := seq(|pixels|, i requires 0 <= i < |pixels| => ColorBits(pixels[i]));
    seq((|pixels| + 3) / 4, i requires 0 <= i < (|pixels| + 3) / 4 =>
      PixelsToByte(codes[4 * i..Min(4 * i + 4, |pixels|)]))
  }

  /** The colour constants of the drawing library. */
  function ColorOf(p: Rgb): (c: bv16)
    ensures c < 4
  {
    if p == Rgb(255, 255, 255) then 1
    else if p == Rgb(255, 255, 0) then 2
    else if p == Rgb(255, 0, 0) then 3
    else 0
  }

  // ----- four codes in a byte

  function Digit(c: char): bv8 { if c == '1' then 1 else 0 }

  lemma NumeralStep(s: string, c: char)
    ensures Numeral(s + [c]) == (Numeral(s) << 1) | Digit(c)
  {
    assert (s + [c])[..|s|] == s;
  }

  lemma NumeralPair(s: string, p: string)
    requires |p| == 2
    ensures Numeral(s + p) == (((Numeral(s) << 1) | Digit(p[0])) << 1) | Digit(p[1])
  {
    assert s + p == (s + [p[0]]) + [p[1]];
    NumeralStep(s, p[0]);
    NumeralStep(s + [p[0]], p[1]);
  }

  lemma PairValue(n: bv8, p: Rgb)
    ensures (((n << 1) | Digit(ColorBits(p)[0])) << 1) | Digit(ColorBits(p)[1]) == (n << 2) | Truncate(ColorOf(p))
  {
  }

  /** Four pixels become their colour codes, the first in the top bits. */
  lemma FourPixels(a: Rgb, b: Rgb, c: Rgb, d: Rgb)
    ensures PixelsToByte([ColorBits(a), ColorBits(b), ColorBits(c), ColorBits(d)])
         == (((((Truncate(ColorOf(a)) << 2) | Truncate(ColorOf(b))) << 2) | Truncate(ColorOf(c))) << 2)
            | Truncate(ColorOf(d))
  {
    var s1, s2, s3, s4 := ColorBits(a), ColorBits(b), ColorBits(c), ColorBits(d);
    assert Joined([s1, s2, s3, s4]) == "" + s1 + s2 + s3 + s4 by {
      assert [s1, s2, s3, s4][1..] == [s2, s3, s4] && [s2, s3, s4][1..] == [s3, s4] && [s3, s4][1..] == [s4];
      assert Joined([s4]) == s4 + Joined([]) && Joined([s3, s4]) == s3 + Joined([s4]);
      assert Joined([s2, s3, s4]) == s2 + Joined([s3, s4]);
    }
    NumeralPair("", s1);
    NumeralPair("" + s1, s2);
    NumeralPair("" + s1 + s2, s3);
    NumeralPair("" + s1 + s2 + s3, s4);
    PairValue(0, a);
    PairValue(Numeral("" + s1), b);
    PairValue(Numeral("" + s1 + s2), c);
    PairValue(Numeral("" + s1 + s2 + s3), d);
  }

  /** Black, white, yellow and red are 0, 1, 2 and 3. */
  lemma FourColors()
    ensures PixelsToByte([ColorBits(Rgb(0, 0, 0)), ColorBits(Rgb(255, 255, 255)), ColorBits(Rgb(255, 255, 0)),
                          ColorBits(Rgb(255, 0, 0))]) == 0x1B
  {
    FourPixels(Rgb(0, 0, 0), Rgb(255, 255, 255), Rgb(255, 255, 0), Rgb(255, 0, 0));
  }

  // ----- groups of any length, so also the last one

  /** The byte of a group: its codes in base four, the last in the lowest bits. */
  function GroupByte(group: seq<Rgb>): bv8 {
    if group == [] then 0
    else (GroupByte(group[..|group| - 1]) << 2) | Truncate(ColorOf(group[|group| - 1]))
  }

  function Codes(pixels: seq<Rgb>): (codes: seq<string>)
    ensures |codes| == |pixels|
  {
    seq(|pixels|, i requires 0 <= i < |pixels| => ColorBits(pixels[i]))
  }

  lemma {:induction false} JoinedSnoc(group: seq<string>, s: string)
    ensures Joined(group + [s]) == Joined(group) + s
  {
    if group == [] {
      assert [s][1..] == [] && Joined([s]) == s + Joined([]);
      assert group + [s] == [s];
    } else {
      JoinedSnoc(group[1..], s);
      assert (group + [s])[1..] == group[1..] + [s];
      JoinThree(group[0], Joined(group[1..]), s);
    }
  }

  lemma JoinThree(a: string, b: string, c: string)
    ensures a + (b + c) == a + b + c
  {
  }

  lemma {:induction false} GroupIs(group: seq<Rgb>)
    ensures PixelsToByte(Codes(group)) == GroupByte(group)
  {
    if group != [] {
      var n := |group| - 1;
      GroupIs(group[..n]);
      assert Codes(group) == Codes(group[..n]) + [ColorBits(group[n])];
      JoinedSnoc(Codes(group[..n]), ColorBits(group[n]));
      NumeralPair(Joined(Codes(group[..n])), ColorBits(group[n]));
      PairValue(PixelsToByte(Codes(group[..n])), group[n]);
    }
  }

  /** Every byte of the converter is that of its group of four pixels, or of the fewer that are left at the end. */
  lemma EncodedGroup(pixels: seq<Rgb>, i: nat)
    requires 4 * i < |pixels|
    ensures |EncodeImage(pixels)| == (|pixels| + 3) / 4 && i < |EncodeImage(pixels)|
    ensures EncodeImage(pixels)[i] == GroupByte(pixels[4 * i..Min(4 * i + 4, |pixels|)])
  {
    var hi := Min(4 * i + 4, |pixels|);
    assert Codes(pixels)[4 * i..hi] == Codes(pixels[4 * i..hi]);
    GroupIs(pixels[4 * i..hi]);
  }

  /** A byte is determined by its four pixels. */
  lemma ByteOfPixels(b: bv8, p: bv8, q: bv8, r: bv8, s: bv8)
    requires Load(4, b, 0) == p && Load(4, b, 1) == q && Load(4, b, 2) == r && Load(4, b, 3) == s
    ensures b == (((((p << 2) | q) << 2) | r) << 2) | s
  {
  }

  lemma EncodedByte(pixels: seq<Rgb>, i: nat)
    requires 4 * i + 3 < |pixels|
    ensures EncodeImage(pixels)[i] == PixelsToByte([ColorBits(pixels[4 * i]), ColorBits(pixels[4 * i + 1]),
                                                    ColorBits(pixels[4 * i + 2]), ColorBits(pixels[4 * i + 3])])
  {
    var codes := seq(|pixels|, j requires 0 <= j < |pixels| => ColorBits(pixels[j]));
    assert codes[4 * i..4 * i + 4] == [codes[4 * i], codes[4 * i + 1], codes[4 * i + 2], codes[4 * i + 3]];
  }

  // ----- painting the same picture

  /** A four-colour canvas of the given size, not rotated and not mirrored. */
  function Flat(w: nat, h: nat): Config {
    Config(w, h, 0, 0, 4)
  }

  /** The canvas shows the pixel in every place, `pixels` being in row-major order. */
  ghost predicate ShowsPicture(w: nat, h: nat, image: seq<bv8>, pixels: seq<Rgb>) {
    && w < 65536 && h < 65536 && |image| >= Size(Flat(w, h)) && |pixels| == h * w
    && forall x: nat, y: nat :: x < w && y < h ==> ShowsPixel(w, h, image, pixels, x, y)
  }

  ghost predicate ShowsPixel(w: nat, h: nat, image: seq<bv8>, pixels: seq<Rgb>, x: nat, y: nat)
    requires w < 65536 && h < 65536 && |image| >= Size(Flat(w, h)) && |pixels| == h * w && x < w && y < h
  {
    Get(Flat(w, h), image, x, y) == Truncate(ColorOf(PixelAt(w, h, pixels, x, y)))
  }

  /** The pixel in column `x` of row `y`. */
  function PixelAt(w: nat, h: nat, pixels: seq<Rgb>, x: nat, y: nat): Rgb
    requires |pixels| == h * w && x < w && y < h
  {
    RowMajor(x, y, w, h);
    pixels[x + y * w]
  }

  lemma ShadeOf(p: Rgb)
    ensures Shade(4, ColorOf(p)) == Truncate(ColorOf(p))
  {
  }

  /** Pixel (4*col + sub, y) of a flat canvas whose width is 4*row is pixel `sub` of byte col + y*row. */
  lemma FlatPixel(row: nat, h: nat, image: seq<bv8>, col: nat, y: nat, sub: nat)
    requires col < row && y < h < 65536 && 4 * row < 65536 && sub < 4 && |image| >= Size(Flat(4 * row, h))
    ensures col + y * row < |image|
    ensures Get(Flat(4 * row, h), image, 4 * col + sub, y) == Load(4, image[col + y * row], sub)
  {
    RowMajor(col, y, row, h);
    DivModUnique(4 * col + sub, 4, col, sub);
  }

  lemma Spread(row: nat, h: nat, col: nat, y: nat, i: nat, sub: nat)
    requires col < row && y < h && i == col + y * row && sub < 4
    ensures (4 * col + sub) + y * (4 * row) == 4 * i + sub < h * (4 * row)
  {
    RowMajor(col, y, row, h);
    assert y * (4 * row) == 4 * (y * row);
    assert h * (4 * row) == 4 * (h * row);
  }

  lemma PixelOfByte(row: nat, h: nat, image: seq<bv8>, pixels: seq<Rgb>, col: nat, y: nat, i: nat, sub: nat)
    requires ShowsPicture(4 * row, h, image, pixels) && col < row && y < h && sub < 4 && i == col + y * row
    ensures i < |image| && 4 * i + sub < |pixels|
    ensures Load(4, image[i], sub) == Truncate(ColorOf(pixels[4 * i + sub]))
  {
    Spread(row, h, col, y, i, sub);
    assert ShowsPixel(4 * row, h, image, pixels, 4 * col + sub, y);
    FlatPixel(row, h, image, col, y, sub);
  }

  lemma SameByte(row: nat, h: nat, image: seq<bv8>, pixels: seq<Rgb>, col: nat, y: nat, i: nat)
    requires ShowsPicture(4 * row, h, image, pixels) && col < row && y < h && i == col + y * row
    ensures i < |image| && 4 * i + 3 < |pixels| && image[i] == EncodeImage(pixels)[i]
  {
    PixelOfByte(row, h, image, pixels, col, y, i, 0);
    PixelOfByte(row, h, image, pixels, col, y, i, 1);
    PixelOfByte(row, h, image, pixels, col, y, i, 2);
    PixelOfByte(row, h, image, pixels, col, y, i, 3);
    GroupMatches(image[i], pixels, i);
  }

  lemma GroupMatches(b: bv8, pixels: seq<Rgb>, i: nat)
    requires 4 * i + 3 < |pixels|
    requires Load(4, b, 0) == Truncate(ColorOf(pixels[4 * i])) && Load(4, b, 1) == Truncate(ColorOf(pixels[4 * i + 1]))
    requires Load(4, b, 2) == Truncate(ColorOf(pixels[4 * i + 2]))
    requires Load(4, b, 3) == Truncate(ColorOf(pixels[4 * i + 3]))
    ensures b == EncodeImage(pixels)[i]
  {
    ByteOfPixels(b, Truncate(ColorOf(pixels[4 * i])), Truncate(ColorOf(pixels[4 * i + 1])),
                 Truncate(ColorOf(pixels[4 * i + 2])), Truncate(ColorOf(pixels[4 * i + 3])));
    EncodedByte(pixels, i);
    FourPixels(pixels[4 * i], pixels[4 * i + 1], pixels[4 * i + 2], pixels[4 * i + 3]);
  }

  lemma RowOf(k: nat, w: nat, h: nat)
    requires 0 < w && k < h * w
    ensures k / w < h && k % w < w && k == k % w + k / w * w
  {
    var q := k / w;
    assert k == w * q + k % w;
    if q >= h {
      MulMono(w, h, q);
    }
  }

  lemma ByteAt(row: nat, h: nat, image: seq<bv8>, pixels: seq<Rgb>, i: nat)
    requires 0 < row && ShowsPicture(4 * row, h, image, pixels) && i < h * row
    ensures i < |image| && 4 * i + 3 < |pixels| && image[i] == EncodeImage(pixels)[i]
  {
    RowOf(i, row, h);
    SameByte(row, h, image, pixels, i % row, i / row, i);
  }

  lemma EncodedLength(pixels: seq<Rgb>, n: nat)
    requires |pixels| == 4 * n
    ensures |EncodeImage(pixels)| == n
  {
  }

  /** Two encoders agree: for every image whose width is a multiple of 4, the converter's bytes are the one buffer in
      which the canvas shows the picture. */
  lemma EncodersAgree(row: nat, h: nat, image: seq<bv8>, pixels: seq<Rgb>)
    requires 0 < row && ShowsPicture(4 * row, h, image, pixels) && |image| == h * row
    ensures image == EncodeImage(pixels)
  {
    assert h * (4 * row) == 4 * (h * row);
    EncodedLength(pixels, h * row);
    forall i | 0 <= i < |image|
      ensures image[i] == EncodeImage(pixels)[i]
    {
      ByteAt(row, h, image, pixels, i);
    }
  }

  // ----- the painting itself

  /** Every pixel before (`x`, `y`) in row-major order shows the picture. */
  ghost predicate PaintedTo(w: nat, h: nat, image: seq<bv8>, pixels: seq<Rgb>, x: nat, y: nat) {
    && w < 65536 && h < 65536 && |image| >= Size(Flat(w, h)) && |pixels| == h * w
    && forall x': nat, y': nat :: x' < w && y' < h && (y' < y || (y' == y && x' < x)) ==>
         ShowsPixel(w, h, image, pixels, x', y')
  }

  lemma FlatPut(w: nat, h: nat, image: seq<bv8>, x: nat, y: nat, p: Rgb, x': nat, y': nat)
    requires w < 65536 && h < 65536 && |image| >= Size(Flat(w, h)) && x < w && y < h && x' < w && y' < h
    ensures Get(Flat(w, h), Put(Flat(w, h), image, x, y, ColorOf(p)), x', y')
         == if (x', y') == (x, y) then Truncate(ColorOf(p)) else Get(Flat(w, h), image, x', y')
  {
    PutThenGet(Flat(w, h), image, x, y, ColorOf(p), x', y');
    ShadeOf(p);
  }

  lemma PixelOneMore(w: nat, h: nat, image: seq<bv8>, image': seq<bv8>, pixels: seq<Rgb>, x: nat, y: nat,
                     x': nat, y': nat)
    requires w < 65536 && h < 65536 && |image| == |image'| >= Size(Flat(w, h)) && |pixels| == h * w
    requires x < w && y < h && x' < w && y' < h
    requires Get(Flat(w, h), image', x', y')
          == if (x', y') == (x, y) then Truncate(ColorOf(PixelAt(w, h, pixels, x, y)))
             else Get(Flat(w, h), image, x', y')
    requires (x', y') == (x, y) || ShowsPixel(w, h, image, pixels, x', y')
    ensures ShowsPixel(w, h, image', pixels, x', y')
  {
  }

  lemma PixelStep(w: nat, h: nat, image: seq<bv8>, pixels: seq<Rgb>, x: nat, y: nat, c: bv16, x': nat, y': nat)
    requires w < 65536 && h < 65536 && |image| >= Size(Flat(w, h)) && |pixels| == h * w
    requires x < w && y < h && x' < w && y' < h && c == ColorOf(PixelAt(w, h, pixels, x, y))
    requires (x', y') == (x, y) || ShowsPixel(w, h, image, pixels, x', y')
    ensures ShowsPixel(w, h, Put(Flat(w, h), image, x, y, c), pixels, x', y')
  {
    FlatPut(w, h, image, x, y, PixelAt(w, h, pixels, x, y), x', y');
    PixelOneMore(w, h, image, Put(Flat(w, h), image, x, y, c), pixels, x, y, x', y');
  }

  lemma PaintedOneMore(w: nat, h: nat, image: seq<bv8>, pixels: seq<Rgb>, x: nat, y: nat, c: bv16)
    requires PaintedTo(w, h, image, pixels, x, y) && x < w && y < h
    requires c == ColorOf(PixelAt(w, h, pixels, x, y))
    ensures PaintedTo(w, h, Put(Flat(w, h), image, x, y, c), pixels, x + 1, y)
  {
    var image' := Put(Flat(w, h), image, x, y, c);
    forall x': nat, y': nat | x' < w && y' < h && (y' < y || (y' == y && x' < x + 1))
      ensures ShowsPixel(w, h, image', pixels, x', y')
    {
      PixelStep(w, h, image, pixels, x, y, c, x', y');
    }
  }

  /** Painting every pixel with Paint_SetPixel leaves exactly the converter's bytes, whatever the buffer held. */
  method PaintPicture(p: Painter, pixels: seq<Rgb>)
    requires p.Valid() && p.Cfg() == Flat(p.width, p.height) && |pixels| == p.height * p.width
    modifies p.image
    ensures ShowsPicture(p.width, p.height, p.image[..], pixels)
    ensures p.width % 4 == 0 && p.width > 0 && p.image.Length == Size(p.Cfg()) ==> p.image[..] == EncodeImage(pixels)
  {
    var w, h := p.width, p.height;
    for y := 0 to h
      invariant PaintedTo(w, h, p.image[..], pixels, 0, y)
    {
      for x := 0 to w
        invariant PaintedTo(w, h, p.image[..], pixels, x, y)
      {
        RowMajor(x, y, w, h);
        var c := ColorOf(pixels[x + y * w]);
        PaintedOneMore(w, h, p.image[..], pixels, x, y, c);
        WriteIsPut(p.Cfg(), p.image[..], x, y, c);
        p.SetPixel(x, y, c);
      }
    }
    if w % 4 == 0 && w > 0 && p.image.Length == Size(p.Cfg()) {
      EncodersAgree(w / 4, h, p.image[..], pixels);
    }
  }
}
