/** The global `Paint` record and the operations that update it and its image buffer in place
    (Device/GUI_Paint.c).
 */
module Paint {
  import opened Arith
  import opened Canvas

  class Painter {
    var image: array<bv8>
    var width: nat
    var height: nat
    var widthMemory: nat
    var heightMemory: nat
    var color: bv16
    var rotate: nat
    var mirror: nat
    var widthByte: nat
    var heightByte: nat
    var scale: nat

    ghost function Cfg(): Config
      reads this
    {
      Config(widthMemory, heightMemory, rotate, mirror, scale)
    }

    /** The derived fields agree with the settings, and the buffer is large enough. */
    ghost predicate Valid()
      reads this
    {
      var c := Cfg();
      && c.Valid() && width == c.Width() && height == c.Height()
      && widthByte == RowBytes(scale, widthMemory) && heightByte == heightMemory
      && image.Length >= Size(c)
    }

    /** Paint_NewImage */
    constructor NewImage(image: array<bv8>, w: nat, h: nat, rotate: nat, color: bv16)
      requires w < 65536 && h < 65536
      ensures this.image == image && Cfg() == Config(w, h, rotate, 0, 2)
      ensures Valid() <==> Cfg().Valid() && image.Length >= Size(Cfg())
    {
      this.image := image;
      widthMemory := w;
      heightMemory := h;
      this.color := color;
      scale := 2;
      widthByte := if w % 8 == 0 then w / 8 else w / 8 + 1;
      heightByte := h;
      this.rotate := rotate;
      mirror := 0;
      if rotate == 0 || rotate == 180 {
        width, height := w, h;
      } else {
        width, height := h, w;
      }
    }

    /** Paint_SetRotate leaves the logical size alone, so the canvas stays consistent exactly if the new rotation
        swaps the axes as the old one did, or the canvas is square. */
    method SetRotate(r: nat)
      requires Valid()
      modifies this`rotate
      ensures rotate == if r == 0 || r == 90 || r == 180 || r == 270 then r else old(rotate)
      ensures Valid() <==> ((rotate == 0 || rotate == 180) <==> (old(rotate) == 0 || old(rotate) == 180))
                           || widthMemory == heightMemory
    {
      if r == 0 || r == 90 || r == 180 || r == 270 {
        rotate := r;
      }
    }

    /** Paint_SetMirroring */
    method SetMirroring(m: nat)
      requires Valid()
      modifies this`mirror
      ensures Valid() && mirror == if m < 4 then m else old(mirror)
    {
      if m == 0 || m == 1 || m == 2 || m == 3 {
        mirror := m;
      }
    }

    /** Paint_SetScale; the record stays consistent exactly if the buffer is large enough for the new scale. */
    method SetScale(s: nat)
      requires Valid()
      modifies this`scale, this`widthByte
      ensures scale == if LegalScale(s) then s else old(scale)
      ensures Valid() <==> image.Length >= Size(Cfg())
    {
      if s == 2 {
        scale := s;
        widthByte := if widthMemory % 8 == 0 then widthMemory / 8 else widthMemory / 8 + 1;
      } else if s == 4 {
        scale := s;
        widthByte := if widthMemory % 4 == 0 then widthMemory / 4 else widthMemory / 4 + 1;
      } else if s == 6 || s == 7 {
        scale := s;
        widthByte := if widthMemory % 2 == 0 then widthMemory / 2 else widthMemory / 2 + 1;
      }
    }

    /** The rotation and mirror switches of Paint_SetPixel. */
    method Locate(xpoint: nat, ypoint: nat) returns (x: nat, y: nat)
      requires Valid()
      ensures (x, y) == Place(Cfg(), xpoint, ypoint)
      ensures Cfg().In(xpoint, ypoint) ==>
                var w, h := widthMemory, heightMemory;
                var px := if rotate == 0 then xpoint else if rotate == 90 then w - 1 - ypoint
                          else if rotate == 180 then w - 1 - xpoint else ypoint;
                var py := if rotate == 0 then ypoint else if rotate == 90 then xpoint
                          else if rotate == 180 then h - 1 - ypoint else h - 1 - xpoint;
                && x == (if mirror == 1 || mirror == 3 then w - 1 - px else px)
                && y == (if mirror == 2 || mirror == 3 then h - 1 - py else py)
    {
      if Cfg().In(xpoint, ypoint) {
        PlaceGeometry(Cfg(), xpoint, ypoint);
      }
      if rotate == 0 {
        x, y := xpoint, ypoint;
      } else if rotate == 90 {
        x, y := Flip(widthMemory, ypoint), xpoint;
      } else if rotate == 180 {
        x, y := Flip(widthMemory, xpoint), Flip(heightMemory, ypoint);
      } else {
        x, y := ypoint, Flip(heightMemory, xpoint);
      }
      if mirror == 1 {
        x := Flip(widthMemory, x);
      } else if mirror == 2 {
        y := Flip(heightMemory, y);
      } else if mirror == 3 {
        x, y := Flip(widthMemory, x), Flip(heightMemory, y);
      }
    }

    /** Paint_SetPixel, for any coordinates that do not lead outside the buffer: a pixel of the canvas is written, and
        what the guards let through besides is as Canvas.StrayWrite says. */
    method SetPixel(xpoint: nat, ypoint: nat, c: bv16)
      requires Valid() && Safe(Cfg(), xpoint, ypoint, image.Length)
      modifies image
      ensures image[..] == Write(Cfg(), old(image[..]), xpoint, ypoint, c)
      ensures Cfg().In(xpoint, ypoint) ==> DrawsPixel(Cfg(), old(image[..]), image[..], xpoint, ypoint, c)
    {
      if Cfg().In(xpoint, ypoint) {
        WriteDraws(Cfg(), image[..], xpoint, ypoint, c);
      }
      if xpoint > width || ypoint > height {
        return;
      }
      var x, y := Locate(xpoint, ypoint);
      if x > widthMemory || y > heightMemory {
        return;
      }
      if scale == 2 {
        var addr := x / 8 + y * widthByte;
        image[addr] := Store2(image[addr], x % 8, c);
      } else if scale == 4 {
        var addr := x / 4 + y * widthByte;
        image[addr] := Store4(image[addr], x % 4, c);
      } else if scale == 6 || scale == 7 {
        var addr := x / 2 + y * widthByte;
        image[addr] := Store6(image[addr], x % 2, c);
      }
    }

    /** The inner loop of Paint_ClearWindows. */
    method SweepRow(xstart: nat, xend: nat, y: nat, c: bv16)
      requires Valid() && forall x: nat :: xstart <= x < xend ==> Safe(Cfg(), x, y, image.Length)
      modifies image
      ensures image[..] == SweptRow(Cfg(), old(image[..]), xstart, Max(0, xend - xstart), y, c)
    {
      ghost var cfg, now := Cfg(), image[..];
      var x := xstart;
      while x < xend
        invariant xstart <= x <= Max(xstart, xend)
        invariant image[..] == SweptRow(cfg, now, xstart, x - xstart, y, c)
      {
        SetPixel(x, y, c);
        SweptNext(cfg, now, xstart, x - xstart, y, c);
        x := x + 1;
      }
    }

    /** Paint_ClearWindows, for any window that does not lead outside the buffer; a window of the canvas is painted
        exactly. */
    method ClearWindows(xstart: nat, ystart: nat, xend: nat, yend: nat, c: bv16)
      requires Valid()
      requires forall x: nat, y: nat :: InWindow(x, y, xstart, ystart, xend, yend) ==> Safe(Cfg(), x, y, image.Length)
      modifies image
      ensures image[..] == Swept(Cfg(), old(image[..]), xstart, ystart, xend, yend, c)
      ensures xend <= width && yend <= height && Showable(scale, c) ==>
                WindowPainted(Cfg(), old(image[..]), image[..], xstart, ystart, xend, yend, c)
    {
      ghost var cfg, before := Cfg(), image[..];
      var y := ystart;
      while y < yend
        invariant ystart <= y <= Max(ystart, yend)
        invariant image[..] == SweptRows(cfg, before, xstart, Max(0, xend - xstart), ystart, y - ystart, c)
      {
        assert forall x: nat :: xstart <= x < xend ==> InWindow(x, y, xstart, ystart, xend, yend);
        SweepRow(xstart, xend, y, c);
        y := y + 1;
      }
      if xend <= width && yend <= height && Showable(scale, c) {
        SweptIsWindow(cfg, before, xstart, ystart, xend, yend, c);
      }
    }

    method ClearRow(y: nat, b: bv8, ghost base: nat)
      requires base == y * widthByte && base + widthByte <= image.Length
      modifies image
      ensures forall i :: base <= i < base + widthByte ==> image[i] == b
      ensures forall i :: 0 <= i < image.Length && !(base <= i < base + widthByte) ==> image[i] == old(image[i])
    {
      for x := 0 to widthByte
        invariant forall i :: base <= i < base + x ==> image[i] == b
        invariant forall i :: 0 <= i < image.Length && !(base <= i < base + x) ==> image[i] == old(image[i])
      {
        var addr := x + y * widthByte;
        image[addr] := b;
      }
    }

    method Fill(b: bv8, ghost size: nat)
      requires size == heightByte * widthByte <= image.Length
      modifies image
      ensures forall i :: 0 <= i < size ==> image[i] == b
      ensures forall i :: size <= i < image.Length ==> image[i] == old(image[i])
    {
      ghost var done := 0;
      for y := 0 to heightByte
        invariant done == y * widthByte <= size
        invariant forall i :: 0 <= i < done ==> image[i] == b
        invariant forall i :: done <= i < image.Length ==> image[i] == old(image[i])
      {
        assert (y + 1) * widthByte == done + widthByte;
        MulMono(widthByte, y + 1, heightByte);
        ClearRow(y, b, done);
        done := done + widthByte;
      }
    }

    /** Paint_Clear stores one byte everywhere. Every pixel then has the colour's shade if and only if the byte shows it
        in as many pixels as a row uses of it; with a whole byte in a row, if and only if the colour clears evenly. */
    method Clear(c: bv16)
      requires Valid()
      modifies image
      ensures forall i :: 0 <= i < Size(Cfg()) ==> image[i] == ClearByte(scale, c)
      ensures forall i :: Size(Cfg()) <= i < image.Length ==> image[i] == old(image[i])
      ensures Shows(Cfg(), image[..], Shade(scale, c)) <==>
                heightMemory == 0 || EvenTo(scale, c, Min(widthMemory, PerByte(scale)))
      ensures ClearsEvenly(scale, c) ==> Shows(Cfg(), image[..], Shade(scale, c))
      ensures heightMemory > 0 && widthMemory >= PerByte(scale) ==>
                (Shows(Cfg(), image[..], Shade(scale, c)) <==> ClearsEvenly(scale, c))
    {
      Fill(ClearByte(scale, c), Size(Cfg()));
      ClearedExactly(Cfg(), image[..], c);
      ClearsEvenlyExactly(scale, c);
    }
  }

  /** Every logical pixel has the same value. */
  ghost predicate Shows(c: Config, image: seq<bv8>, shade: bv8) {
    c.Valid() && |image| >= Size(c) && forall x: nat, y: nat :: c.In(x, y) ==> Get(c, image, x, y) == shade
  }

  lemma ClearedLoad(c: Config, image: seq<bv8>, color: bv16, p: (nat, nat))
    requires c.Valid() && |image| >= Size(c) && InMemory(c, p)
    requires forall i :: 0 <= i < Size(c) ==> image[i] == ClearByte(c.scale, color)
    ensures Address(c, p) < |image|
    ensures LoadAt(c, image, p) == Load(c.scale, ClearByte(c.scale, color), Sub(c.scale, p.0))
  {
    AddressInside(c, p);
  }

  lemma SubOf(scale: nat, x: nat, width: nat)
    requires LegalScale(scale) && x < width
    ensures Sub(scale, x) < Min(width, PerByte(scale)) && (x < PerByte(scale) ==> Sub(scale, x) == x)
  {
  }

  /** Every pixel of a canvas filled with the stored byte shows the colour, if the byte does in the pixels used. */
  lemma ClearedShows(c: Config, image: seq<bv8>, color: bv16)
    requires c.Valid() && |image| >= Size(c) && EvenTo(c.scale, color, Min(c.widthMemory, PerByte(c.scale)))
    requires forall i :: 0 <= i < Size(c) ==> image[i] == ClearByte(c.scale, color)
    ensures Shows(c, image, Shade(c.scale, color))
  {
    forall x: nat, y: nat | c.In(x, y)
      ensures Get(c, image, x, y) == Shade(c.scale, color)
    {
      var p := Place(c, x, y);
      PlaceBijection(c, x, y);
      ClearedLoad(c, image, color, p);
      SubOf(c.scale, p.0, c.widthMemory);
    }
  }

  /** Conversely, each of those pixels is somewhere on the canvas. */
  lemma ShownByte(c: Config, image: seq<bv8>, color: bv16, sub: nat)
    requires c.Valid() && |image| >= Size(c) && Shows(c, image, Shade(c.scale, color))
    requires forall i :: 0 <= i < Size(c) ==> image[i] == ClearByte(c.scale, color)
    requires c.heightMemory > 0 && sub < c.widthMemory && sub < PerByte(c.scale)
    ensures Load(c.scale, ClearByte(c.scale, color), sub) == Shade(c.scale, color)
  {
    var p: (nat, nat) := (sub, 0);
    var q := Logical(c, p);
    PlaceBijection(c, sub, 0);
    ClearedLoad(c, image, color, p);
    SubOf(c.scale, sub, c.widthMemory);
    assert Get(c, image, q.0, q.1) == LoadAt(c, image, p);
  }

  lemma ClearedExactly(c: Config, image: seq<bv8>, color: bv16)
    requires c.Valid() && |image| >= Size(c)
    requires forall i :: 0 <= i < Size(c) ==> image[i] == ClearByte(c.scale, color)
    ensures Shows(c, image, Shade(c.scale, color)) <==>
              c.heightMemory == 0 || EvenTo(c.scale, color, Min(c.widthMemory, PerByte(c.scale)))
  {
    var n := Min(c.widthMemory, PerByte(c.scale));
    if c.heightMemory > 0 && EvenTo(c.scale, color, n) {
      ClearedShows(c, image, color);
    }
    if c.heightMemory > 0 && Shows(c, image, Shade(c.scale, color)) {
      forall sub | 0 <= sub < n
        ensures Load(c.scale, ClearByte(c.scale, color), sub) == Shade(c.scale, color)
      {
        ShownByte(c, image, color, sub);
      }
    }
  }

  /** In scale 2 clearing with white, which is 1, does not show a white canvas. */
  lemma WhiteClearFails(c: Config, image: seq<bv8>)
    requires c.Valid() && c.scale == 2 && c.widthMemory > 0 && c.heightMemory > 0 && |image| >= Size(c)
    requires forall i :: 0 <= i < Size(c) ==> image[i] == ClearByte(2, 1)
    ensures !Shows(c, image, Shade(2, 1))
  {
    WhiteClearsUnevenly();
    if Shows(c, image, Shade(2, 1)) {
      ShownByte(c, image, 1, 0);
    }
  }

  /** A quarter turn of a canvas of 2 by 1 pixels leaves the record inconsistent, see also Canvas.TurnedOverrun. */
  method QuarterTurn(p: Painter)
    requires p.Valid() && p.widthMemory == 2 && p.heightMemory == 1 && p.rotate == 0
    modifies p`rotate
    ensures p.rotate == 90 && !p.Valid()
  {
    p.SetRotate(90);
  }

  // ----- windows, row by row

  predicate InWindow(x: nat, y: nat, xstart: nat, ystart: nat, xend: nat, yend: nat) {
    xstart <= x < xend && ystart <= y < yend
  }

  /** The pixels of the window have the colour's shade and all others are as before. */
  ghost predicate WindowPainted(c: Config, before: seq<bv8>, now: seq<bv8>,
                                xstart: nat, ystart: nat, xend: nat, yend: nat, color: bv16)
  {
    && c.Valid() && |before| == |now| >= Size(c)
    && forall x: nat, y: nat {:trigger Get(c, now, x, y)} :: c.In(x, y) ==>
         Get(c, now, x, y)
         == if InWindow(x, y, xstart, ystart, xend, yend) then Shade(c.scale, color) else Get(c, before, x, y)
  }

  /** The window has been painted up to, and not including, the pixel (`xdone`, `ydone`). */
  ghost predicate Painted(c: Config, before: seq<bv8>, now: seq<bv8>, xstart: nat, ystart: nat, xend: nat, yend: nat,
                          xdone: nat, ydone: nat, color: bv16)
  {
    && c.Valid() && |before| == |now| >= Size(c)
    && forall x: nat, y: nat {:trigger Get(c, now, x, y)} :: c.In(x, y) ==>
         Get(c, now, x, y)
         == if InWindow(x, y, xstart, ystart, xend, yend) && (y < ydone || (y == ydone && x < xdone))
            then Shade(c.scale, color) else Get(c, before, x, y)
  }

  lemma PaintedNext(c: Config, before: seq<bv8>, now: seq<bv8>, xstart: nat, ystart: nat, xend: nat, yend: nat,
                    xdone: nat, ydone: nat, color: bv16)
    requires Painted(c, before, now, xstart, ystart, xend, yend, xdone, ydone, color)
    requires Showable(c.scale, color) && c.In(xdone, ydone) && InWindow(xdone, ydone, xstart, ystart, xend, yend)
    ensures Painted(c, before, Put(c, now, xdone, ydone, color), xstart, ystart, xend, yend, xdone + 1, ydone, color)
  {
    forall x: nat, y: nat | c.In(x, y)
      ensures Get(c, Put(c, now, xdone, ydone, color), x, y)
           == if InWindow(x, y, xstart, ystart, xend, yend) && (y < ydone || (y == ydone && x < xdone + 1))
              then Shade(c.scale, color) else Get(c, before, x, y)
    {
      PutThenGet(c, now, xdone, ydone, color, x, y);
    }
  }

  /** The buffer after `n` writes from `xstart` on in row `y`, and after `m` such rows. */
  function SweptRow(c: Config, image: seq<bv8>, xstart: nat, n: nat, y: nat, color: bv16): seq<bv8>
    requires c.Valid()
  {
    if n == 0 then image else Write(c, SweptRow(c, image, xstart, n - 1, y, color), xstart + n - 1, y, color)
  }

  lemma SweptNext(c: Config, image: seq<bv8>, xstart: nat, n: nat, y: nat, color: bv16)
    requires c.Valid()
    ensures SweptRow(c, image, xstart, n + 1, y, color)
         == Write(c, SweptRow(c, image, xstart, n, y, color), xstart + n, y, color)
  {
  }

  function SweptRows(c: Config, image: seq<bv8>, xstart: nat, n: nat, ystart: nat, m: nat, color: bv16): seq<bv8>
    requires c.Valid()
  {
    if m == 0 then image
    else SweptRow(c, SweptRows(c, image, xstart, n, ystart, m - 1, color), xstart, n, ystart + m - 1, color)
  }

  /** The buffer after writing the coordinates of the window one after the other. */
  function Swept(c: Config, image: seq<bv8>, xstart: nat, ystart: nat, xend: nat, yend: nat, color: bv16): seq<bv8>
    requires c.Valid()
  {
    SweptRows(c, image, xstart, Max(0, xend - xstart), ystart, Max(0, yend - ystart), color)
  }

  lemma {:induction false} RowPainted(c: Config, before: seq<bv8>, now: seq<bv8>, xstart: nat, ystart: nat, xend: nat,
                                      yend: nat, n: nat, y: nat, color: bv16)
    requires Painted(c, before, now, xstart, ystart, xend, yend, xstart, y, color) && Showable(c.scale, color)
    requires xstart + n <= xend <= c.Width() && ystart <= y < yend <= c.Height()
    ensures Painted(c, before, SweptRow(c, now, xstart, n, y, color), xstart, ystart, xend, yend, xstart + n, y, color)
    decreases n
  {
    if n > 0 {
      var x, row := xstart + n - 1, SweptRow(c, now, xstart, n - 1, y, color);
      RowPainted(c, before, now, xstart, ystart, xend, yend, n - 1, y, color);
      WriteIsPut(c, row, x, y, color);
      PaintedNext(c, before, row, xstart, ystart, xend, yend, x, y, color);
    }
  }

  lemma {:induction false} RowsPainted(c: Config, before: seq<bv8>, xstart: nat, ystart: nat, xend: nat, yend: nat,
                                       n: nat, m: nat, color: bv16)
    requires c.Valid() && |before| >= Size(c) && Showable(c.scale, color)
    requires xstart + n == xend <= c.Width() && ystart + m <= yend <= c.Height()
    ensures var now := SweptRows(c, before, xstart, n, ystart, m, color);
            Painted(c, before, now, xstart, ystart, xend, yend, xstart, ystart + m, color)
    decreases m
  {
    if m > 0 {
      RowsPainted(c, before, xstart, ystart, xend, yend, n, m - 1, color);
      var now := SweptRows(c, before, xstart, n, ystart, m - 1, color);
      RowPainted(c, before, now, xstart, ystart, xend, yend, n, ystart + m - 1, color);
    }
  }

  lemma {:induction false} NothingSwept(c: Config, image: seq<bv8>, xstart: nat, ystart: nat, m: nat, color: bv16)
    requires c.Valid()
    ensures SweptRows(c, image, xstart, 0, ystart, m, color) == image
  {
    if m > 0 {
      NothingSwept(c, image, xstart, ystart, m - 1, color);
    }
  }

  /** Inside the canvas, exactly the pixels of the window get the colour. */
  lemma SweptIsWindow(c: Config, before: seq<bv8>, xstart: nat, ystart: nat, xend: nat, yend: nat, color: bv16)
    requires c.Valid() && |before| >= Size(c) && Showable(c.scale, color) && xend <= c.Width() && yend <= c.Height()
    ensures WindowPainted(c, before, Swept(c, before, xstart, ystart, xend, yend, color),
                          xstart, ystart, xend, yend, color)
  {
    if xend <= xstart {
      NothingSwept(c, before, xstart, ystart, Max(0, yend - ystart), color);
    } else if ystart < yend {
      RowsPainted(c, before, xstart, ystart, xend, yend, xend - xstart, yend - ystart, color);
    }
  }

  /** Fast clear refines slow clear: an image filled by Clear and one painted pixel by pixel over the whole canvas
      show the same picture, in every rotation and mirror. */
  lemma ClearIsClearWindows(c: Config, fast: seq<bv8>, before: seq<bv8>, slow: seq<bv8>, color: bv16, x: nat, y: nat)
    requires c.Valid() && |fast| >= Size(c) && c.In(x, y) && ClearsEvenly(c.scale, color)
    requires forall i :: 0 <= i < Size(c) ==> fast[i] == ClearByte(c.scale, color)
    requires WindowPainted(c, before, slow, 0, 0, c.Width(), c.Height(), color)
    ensures Get(c, fast, x, y) == Get(c, slow, x, y)
  {
    ClearedPixel(c, fast, color, x, y);
  }
}
