/** Paint_DrawString_EN and Paint_DrawChar (Device/GUI_Paint.c): where characters go, and which font bits they show. */
module Text {
  import opened Arith
  import opened Digits

  /** An ASCII font: the bitmaps of the characters from the space on, row by row. */
  datatype Font = Font(table: seq<bv8>, width: nat, height: nat) {
    predicate Valid() { 0 < width < 65536 && 0 < height < 65536 }

    /** Bytes in a bitmap row. */
    function RowBytes(): nat { width / 8 + (if width % 8 != 0 then 1 else 0) }
  }

  const FONT_BACKGROUND: nat := 1

  // ----- one character

  /** One call of Paint_SetPixel. */
  datatype Pixel = Pixel(x: int, y: int, color: nat)

  /** The table index of the byte that holds column `col` of row `row` of character number `n`. */
  function GlyphIndex(f: Font, n: nat, row: nat, col: nat): nat {
    n * f.height * f.RowBytes() + row * f.RowBytes() + col / 8
  }

  predicate GlyphInside(f: Font, n: nat) {
    n * f.height * f.RowBytes() + f.height * f.RowBytes() <= |f.table|
  }

  lemma GlyphIndexInside(f: Font, n: nat, row: nat, col: nat)
    requires f.Valid() && GlyphInside(f, n) && row < f.height && col < f.width
    ensures GlyphIndex(f, n, row, col) < |f.table|
  {
    assert col / 8 < f.RowBytes();
    RowMajor(col / 8, row, f.RowBytes(), f.height);
  }

  function Bit(b: bv8, k: nat): bool
    requires k < 8
  {
    b & (0x80 >> k) != 0
  }

  /** Whether the bitmap has the pixel set; for a character of the font the index is inside, see GlyphIndexInside. */
  predicate Set(f: Font, n: nat, row: nat, col: nat) {
    GlyphIndex(f, n, row, col) < |f.table| && Bit(f.table[GlyphIndex(f, n, row, col)], col % 8)
  }

  /** What one bitmap pixel draws: the foreground if set, else the background unless that is the font's own. */
  function Cell(f: Font, n: nat, x: int, y: int, row: nat, col: nat, fg: nat, bg: nat): seq<Pixel> {
    if Set(f, n, row, col) then [Pixel(x + col, y + row, fg)]
    else if bg == FONT_BACKGROUND then [] else [Pixel(x + col, y + row, bg)]
  }

  /** The first `col` columns of a row, and the first `row` rows. */
  function RowPixels(f: Font, n: nat, x: int, y: int, row: nat, col: nat, fg: nat, bg: nat): seq<Pixel>
    decreases col
  {
    if col == 0 then [] else RowPixels(f, n, x, y, row, col - 1, fg, bg) + Cell(f, n, x, y, row, col - 1, fg, bg)
  }

  function GlyphPixels(f: Font, n: nat, x: int, y: int, rows: nat, fg: nat, bg: nat): seq<Pixel>
    decreases rows
  {
    if rows == 0 then []
    else GlyphPixels(f, n, x, y, rows - 1, fg, bg) + RowPixels(f, n, x, y, rows - 1, f.width, fg, bg)
  }

  /** The colour decision for one bitmap pixel, given the byte under the pointer. */
  method DrawCell(f: Font, n: nat, x: int, y: int, row: nat, col: nat, fg: nat, bg: nat, b: bv8)
    returns (pixels: seq<Pixel>)
    requires f.Valid() && GlyphInside(f, n) && row < f.height && col < f.width
    requires GlyphIndex(f, n, row, col) < |f.table| && b == f.table[GlyphIndex(f, n, row, col)]
    ensures pixels == Cell(f, n, x, y, row, col, fg, bg)
  {
    pixels := [];
    if FONT_BACKGROUND == bg {
      if Bit(b, col % 8) {
        pixels := [Pixel(x + col, y + row, fg)];
      }
    } else {
      if Bit(b, col % 8) {
        pixels := [Pixel(x + col, y + row, fg)];
      } else {
        pixels := [Pixel(x + col, y + row, bg)];
      }
    }
  }

  lemma EighthColumn(col: nat)
    ensures (col + 1) / 8 == if col % 8 == 7 then col / 8 + 1 else col / 8
  {
  }

  /** One row of Paint_DrawChar, with the table pointer walking along it: it advances after every eighth column and,
      when the width is not a multiple of 8, once more at the end. */
  method DrawCharRow(f: Font, n: nat, x: int, y: int, row: nat, fg: nat, bg: nat, start: nat)
    returns (pixels: seq<Pixel>, ptr: nat)
    requires f.Valid() && GlyphInside(f, n) && row < f.height && start == GlyphIndex(f, n, row, 0)
    ensures pixels == RowPixels(f, n, x, y, row, f.width, fg, bg)
    ensures ptr == start + f.RowBytes()
  {
    pixels, ptr := [], start;
    for col := 0 to f.width
      invariant ptr == start + col / 8
      invariant pixels == RowPixels(f, n, x, y, row, col, fg, bg)
    {
      GlyphIndexInside(f, n, row, col);
      EighthColumn(col);
      var cell := DrawCell(f, n, x, y, row, col, fg, bg, f.table[ptr]);
      pixels := pixels + cell;
      if col % 8 == 7 {
        ptr := ptr + 1;
      }
    }
    if f.width % 8 != 0 {
      ptr := ptr + 1;
    }
  }

  /** Paint_DrawChar: the pointer walk reads every bitmap byte at its closed-form index. */
  method DrawChar(width: nat, height: nat, f: Font, ch: char, x: nat, y: nat, fg: nat, bg: nat)
    returns (pixels: seq<Pixel>)
    requires f.Valid() && ch >= ' ' && GlyphInside(f, ch as int - ' ' as int)
    ensures x > width || y > height ==> pixels == []
    ensures !(x > width || y > height) ==> pixels == GlyphPixels(f, ch as int - ' ' as int, x, y, f.height, fg, bg)
    ensures !(x > width || y > height) ==> ShowsGlyph(f, ch as int - 32, x, y, fg, bg, pixels)
  {
    pixels := [];
    if x > width || y > height {
      return;
    }
    var n := ch as int - ' ' as int;
    var ptr := n * f.height * f.RowBytes();
    for page := 0 to f.height
      invariant ptr == GlyphIndex(f, n, page, 0)
      invariant pixels == GlyphPixels(f, n, x, y, page, fg, bg)
    {
      var row;
      row, ptr := DrawCharRow(f, n, x, y, page, fg, bg, ptr);
      pixels := pixels + row;
      assert (page + 1) * f.RowBytes() == page * f.RowBytes() + f.RowBytes();
    }
    GlyphPicture(f, n, x, y, fg, bg, pixels);
  }

  // ----- what a drawn character looks like

  /** The pixel is one that the cell of its column draws, in row `row` and before column `col`. */
  predicate InRow(f: Font, n: nat, x: int, y: int, row: nat, col: nat, fg: nat, bg: nat, p: Pixel)
  {
    p.y == y + row && x <= p.x < x + col && p in Cell(f, n, x, y, row, p.x - x, fg, bg)
  }

  lemma CellInRow(f: Font, n: nat, x: int, y: int, row: nat, col: nat, fg: nat, bg: nat, p: Pixel)
    ensures p in Cell(f, n, x, y, row, col, fg, bg) ==> p.x == x + col && p.y == y + row
  {
  }

  lemma {:induction false} RowHas(f: Font, n: nat, x: int, y: int, row: nat, col: nat, fg: nat, bg: nat, p: Pixel)
    ensures p in RowPixels(f, n, x, y, row, col, fg, bg) <==> InRow(f, n, x, y, row, col, fg, bg, p)
    decreases col
  {
    if col > 0 {
      RowHas(f, n, x, y, row, col - 1, fg, bg, p);
      NextColumn(f, n, x, y, row, col, fg, bg, p);
      InConcat(p, RowPixels(f, n, x, y, row, col - 1, fg, bg), Cell(f, n, x, y, row, col - 1, fg, bg));
    }
  }

  lemma NextColumn(f: Font, n: nat, x: int, y: int, row: nat, col: nat, fg: nat, bg: nat, p: Pixel)
    requires col > 0
    ensures InRow(f, n, x, y, row, col, fg, bg, p) <==>
              InRow(f, n, x, y, row, col - 1, fg, bg, p) || p in Cell(f, n, x, y, row, col - 1, fg, bg)
  {
    CellInRow(f, n, x, y, row, col - 1, fg, bg, p);
  }

  /** The pixel is one that the cell of its place draws, in the first `rows` rows. */
  predicate InGlyph(f: Font, n: nat, x: int, y: int, rows: nat, fg: nat, bg: nat, p: Pixel)
  {
    y <= p.y < y + rows && InRow(f, n, x, y, p.y - y, f.width, fg, bg, p)
  }

  /** The pixels of a character are those of its cells: nothing is drawn outside its rectangle. */
  lemma {:induction false} GlyphHas(f: Font, n: nat, x: int, y: int, rows: nat, fg: nat, bg: nat, p: Pixel)
    ensures p in GlyphPixels(f, n, x, y, rows, fg, bg) <==> InGlyph(f, n, x, y, rows, fg, bg, p)
    decreases rows
  {
    if rows > 0 {
      GlyphHas(f, n, x, y, rows - 1, fg, bg, p);
      RowHas(f, n, x, y, rows - 1, f.width, fg, bg, p);
      NextRow(f, n, x, y, rows, fg, bg, p);
      InConcat(p, GlyphPixels(f, n, x, y, rows - 1, fg, bg), RowPixels(f, n, x, y, rows - 1, f.width, fg, bg));
    }
  }

  lemma InConcat(p: Pixel, u: seq<Pixel>, v: seq<Pixel>)
    ensures p in u + v <==> p in u || p in v
  {
  }

  lemma NextRow(f: Font, n: nat, x: int, y: int, rows: nat, fg: nat, bg: nat, p: Pixel)
    requires rows > 0
    ensures InGlyph(f, n, x, y, rows, fg, bg, p) <==>
              InGlyph(f, n, x, y, rows - 1, fg, bg, p) || InRow(f, n, x, y, rows - 1, f.width, fg, bg, p)
  {
    if p.y == y + (rows - 1) {
      assert p.y - y == rows - 1;
    }
  }

  /** A pixel of the rectangle is drawn in the foreground if and only if its bit is set; if not, it is drawn in the
      background unless that is white. */
  lemma GlyphShows(f: Font, n: nat, x: int, y: int, row: nat, col: nat, fg: nat, bg: nat)
    requires row < f.height && col < f.width && fg != bg
    ensures var pixels := GlyphPixels(f, n, x, y, f.height, fg, bg);
            && (Pixel(x + col, y + row, fg) in pixels <==> TableBit(f, n, row, col))
            && (Pixel(x + col, y + row, bg) in pixels <==> !TableBit(f, n, row, col) && bg != 1)
  {
    SetIsTableBit(f, n, row, col);
    GlyphHas(f, n, x, y, f.height, fg, bg, Pixel(x + col, y + row, fg));
    GlyphHas(f, n, x, y, f.height, fg, bg, Pixel(x + col, y + row, bg));
  }

  /** The bit of the table that stands for a pixel, found by arithmetic: characters follow each other from the space on,
      each with `height` rows of as many bytes as the width needs, the leftmost pixel in the highest bit. */
  predicate TableBit(f: Font, n: nat, row: nat, col: nat) {
    var bytes := (f.width + 7) / 8;
    var i := n * f.height * bytes + row * bytes + col / 8;
    i < |f.table| && f.table[i] as int / Pow2(7 - col % 8) % 2 == 1
  }

  lemma BitIsShift(b: bv8, k: nat)
    requires k < 8
    ensures Bit(b, k) <==> (b >> (7 - k)) & 1 == 1
  {
  }

  lemma BitIsDigit(b: bv8, k: nat)
    requires k < 8
    ensures Bit(b, k) <==> b as int / Pow2(7 - k) % 2 == 1
  {
    BitIsShift(b, k);
    ShiftDivides(b, 7 - k);
    LowBit(b >> (7 - k));
  }

  lemma SetIsTableBit(f: Font, n: nat, row: nat, col: nat)
    ensures Set(f, n, row, col) <==> TableBit(f, n, row, col)
  {
    var i := GlyphIndex(f, n, row, col);
    RowBytesIs(f);
    if i < |f.table| {
      BitIsDigit(f.table[i], col % 8);
    }
  }

  lemma RowBytesIs(f: Font)
    ensures f.RowBytes() == (f.width + 7) / 8
  {
  }

  /** What a pixel of the character's rectangle looks like: the foreground where the bit of the table is set, else the
      background, and nothing if that is white. */
  ghost predicate ShowsBit(f: Font, n: nat, x: int, y: int, row: nat, col: nat, fg: nat, bg: nat, pixels: seq<Pixel>) {
    forall p: Pixel :: p.x == x + col && p.y == y + row ==>
      (p in pixels <==> if TableBit(f, n, row, col) then p.color == fg else p.color == bg && bg != 1)
  }

  /** The picture of a character: every pixel of its rectangle, and nothing outside. */
  ghost predicate ShowsGlyph(f: Font, n: nat, x: int, y: int, fg: nat, bg: nat, pixels: seq<Pixel>) {
    && (forall row, col :: 0 <= row < f.height && 0 <= col < f.width ==> ShowsBit(f, n, x, y, row, col, fg, bg, pixels))
    && (forall p :: p in pixels ==> x <= p.x < x + f.width && y <= p.y < y + f.height)
  }

  lemma GlyphBit(f: Font, n: nat, x: int, y: int, row: nat, col: nat, fg: nat, bg: nat)
    requires row < f.height && col < f.width
    ensures ShowsBit(f, n, x, y, row, col, fg, bg, GlyphPixels(f, n, x, y, f.height, fg, bg))
  {
    var pixels := GlyphPixels(f, n, x, y, f.height, fg, bg);
    SetIsTableBit(f, n, row, col);
    forall p: Pixel | p.x == x + col && p.y == y + row
      ensures p in pixels <==> if TableBit(f, n, row, col) then p.color == fg else p.color == bg && bg != 1
    {
      GlyphHas(f, n, x, y, f.height, fg, bg, p);
      CellShows(f, n, x, y, row, col, fg, bg, p);
    }
  }

  lemma CellShows(f: Font, n: nat, x: int, y: int, row: nat, col: nat, fg: nat, bg: nat, p: Pixel)
    requires p.x == x + col && p.y == y + row
    ensures p in Cell(f, n, x, y, row, col, fg, bg) <==>
              if Set(f, n, row, col) then p.color == fg else p.color == bg && bg != 1
  {
  }

  lemma GlyphPicture(f: Font, n: nat, x: int, y: int, fg: nat, bg: nat, pixels: seq<Pixel>)
    requires pixels == GlyphPixels(f, n, x, y, f.height, fg, bg)
    ensures ShowsGlyph(f, n, x, y, fg, bg, pixels)
  {
    forall row, col | 0 <= row < f.height && 0 <= col < f.width
      ensures ShowsBit(f, n, x, y, row, col, fg, bg, pixels)
    {
      GlyphBit(f, n, x, y, row, col, fg, bg);
    }
    forall p | p in pixels
      ensures x <= p.x < x + f.width && y <= p.y < y + f.height
    {
      GlyphHas(f, n, x, y, f.height, fg, bg, p);
    }
  }

  // ----- a string

  /** One call of Paint_DrawChar. */
  datatype Placement = Placement(x: nat, y: nat, ch: char, fg: nat, bg: nat)

  datatype Page = Page(width: nat, height: nat, xs: nat, ys: nat, fw: nat, fh: nat) {
    predicate Valid() { width < 65536 && height < 65536 && 0 < fw && 0 < fh }

    /** A character cell at this position is wholly on screen. */
    predicate Holds(x: nat, y: nat) { x + fw <= width && y + fh <= height }

    function Cols(): int
      requires Valid()
    {
      (width - xs) / fw
    }

    function Rows(): int
      requires Valid()
    {
      (height - ys) / fh
    }
  }

  /** `base` plus `k` steps. */
  function Stride(base: nat, step: nat, k: nat): nat {
    if k == 0 then base else Stride(base, step, k - 1) + step
  }

  lemma {:induction false} StrideIs(base: nat, step: nat, k: nat)
    ensures Stride(base, step, k) == base + k * step
  {
    if k > 0 {
      StrideIs(base, step, k - 1);
      assert k * step == (k - 1) * step + step;
    }
  }

  /** The place of character number `n`: columns fill first, then rows, then the page starts over. */
  function Slot(g: Page, n: nat): (nat, nat)
    requires g.Valid() && g.Cols() > 0 && g.Rows() > 0
  {
    SlotIn(g, n, g.Cols(), g.Rows())
  }

  function SlotIn(g: Page, n: nat, cols: nat, rows: nat): (nat, nat)
    requires cols > 0 && rows > 0
  {
    (Stride(g.xs, g.fw, n % cols), Stride(g.ys, g.fh, n / cols % rows))
  }

  lemma FitsExactly(k: int, m: nat, t: int)
    requires m > 0
    ensures k * m <= t <==> k <= t / m
  {
    var q := t / m;
    assert t == m * q + t % m;
    if k <= q {
      MulMono(m, k, q);
    } else {
      MulMono(m, q + 1, k);
      assert (q + 1) * m == m * q + m;
    }
  }

  lemma NextMod(k: nat, m: nat)
    requires m > 0
    ensures if k % m + 1 == m then (k + 1) % m == 0 && (k + 1) / m == k / m + 1
            else (k + 1) % m == k % m + 1 && (k + 1) / m == k / m
  {
    var q, r := k / m, k % m;
    assert k == m * q + r;
    if r + 1 == m {
      assert k + 1 == m * (q + 1) + 0;
      DivModUnique(k + 1, m, q + 1, 0);
    } else {
      DivModUnique(k + 1, m, q, r + 1);
    }
  }

  /** The k-th cell, counted from 0, ends within the limit exactly if k + 1 cells fit. */
  lemma StrideFits(base: nat, step: nat, k: nat, limit: nat)
    requires step > 0
    ensures Stride(base, step, k) + step <= limit <==> k + 1 <= (limit - base) / step
  {
    StrideIs(base, step, k);
    FitsExactly(k + 1, step, limit - base);
    assert (k + 1) * step == k * step + step;
  }

  lemma PageHolds(g: Page)
    requires g.Valid()
    ensures g.Holds(g.xs, g.ys) <==> g.Cols() > 0 && g.Rows() > 0
  {
    StrideFits(g.xs, g.fw, 0, g.width);
    StrideFits(g.ys, g.fh, 0, g.height);
  }

  /** Every slot is wholly on screen, at column n mod cols and row (n div cols) mod rows. */
  lemma SlotOnScreen(g: Page, n: nat)
    requires g.Valid() && g.Holds(g.xs, g.ys)
    ensures g.Cols() > 0 && g.Rows() > 0 && g.Holds(Slot(g, n).0, Slot(g, n).1)
    ensures Slot(g, n) == (g.xs + n % g.Cols() * g.fw, g.ys + n / g.Cols() % g.Rows() * g.fh)
  {
    PageHolds(g);
    var c, r := n % g.Cols(), n / g.Cols() % g.Rows();
    StrideFits(g.xs, g.fw, c, g.width);
    StrideFits(g.ys, g.fh, r, g.height);
    StrideIs(g.xs, g.fw, c);
    StrideIs(g.ys, g.fh, r);
  }

  /** The two overflow tests before a character is drawn. */
  function Wrapped(g: Page, x: nat, y: nat): (nat, nat) {
    var (x1, y1) := if x + g.fw > g.width then (g.xs, (y + g.fh) % 65536) else (x, y);
    if y1 + g.fh > g.height then (g.xs, g.ys) else (x1, y1)
  }

  /** They lead from the right edge of slot `n` to slot `n + 1`. */
  lemma WrapToNext(g: Page, n: nat)
    requires g.Valid() && g.Holds(g.xs, g.ys) && g.Cols() > 0 && g.Rows() > 0
    ensures Slot(g, n).0 + g.fw < 65536
    ensures Wrapped(g, Slot(g, n).0 + g.fw, Slot(g, n).1) == Slot(g, n + 1)
  {
    SlotOnScreen(g, n);
    SlotNext(g, n);
    StrideFits(g.xs, g.fw, n % g.Cols() + 1, g.width);
    StrideFits(g.ys, g.fh, n / g.Cols() % g.Rows() + 1, g.height);
    WrapCases(g, Slot(g, n).0, Slot(g, n).1);
  }

  /** The next slot: one column on, or the start of the next row, or the start of the page. */
  lemma SlotNext(g: Page, n: nat)
    requires g.Valid() && g.Cols() > 0 && g.Rows() > 0
    ensures var c, r := n % g.Cols(), n / g.Cols() % g.Rows();
            && Stride(g.xs, g.fw, c + 1) == Slot(g, n).0 + g.fw && Stride(g.ys, g.fh, r + 1) == Slot(g, n).1 + g.fh
            && Slot(g, n + 1) == if c + 1 < g.Cols() then (Slot(g, n).0 + g.fw, Slot(g, n).1)
                                 else if r + 1 < g.Rows() then (g.xs, Slot(g, n).1 + g.fh) else (g.xs, g.ys)
  {
    SlotInNext(g, n, g.Cols(), g.Rows());
  }

  lemma SlotInNext(g: Page, n: nat, cols: nat, rows: nat)
    requires cols > 0 && rows > 0
    ensures var c, r, slot := n % cols, n / cols % rows, SlotIn(g, n, cols, rows);
            && Stride(g.xs, g.fw, c + 1) == slot.0 + g.fw && Stride(g.ys, g.fh, r + 1) == slot.1 + g.fh
            && SlotIn(g, n + 1, cols, rows) == if c + 1 < cols then (slot.0 + g.fw, slot.1)
                                               else if r + 1 < rows then (g.xs, slot.1 + g.fh) else (g.xs, g.ys)
  {
    var q := n / cols;
    NextMod(n, cols);
    NextMod(q, rows);
    NextPair(g, n % cols, q % rows, (n + 1) % cols, (n + 1) / cols % rows, cols, rows);
  }

  lemma NextPair(g: Page, c: nat, r: nat, c': nat, r': nat, cols: nat, rows: nat)
    requires c < cols && r < rows
    requires if c + 1 == cols then c' == 0 && r' == (if r + 1 == rows then 0 else r + 1) else c' == c + 1 && r' == r
    ensures Stride(g.xs, g.fw, c + 1) == Stride(g.xs, g.fw, c) + g.fw
    ensures Stride(g.ys, g.fh, r + 1) == Stride(g.ys, g.fh, r) + g.fh
    ensures (Stride(g.xs, g.fw, c'), Stride(g.ys, g.fh, r'))
         == if c + 1 < cols then (Stride(g.xs, g.fw, c) + g.fw, Stride(g.ys, g.fh, r))
            else if r + 1 < rows then (g.xs, Stride(g.ys, g.fh, r) + g.fh) else (g.xs, g.ys)
  {
  }

  lemma WrapCases(g: Page, x: nat, y: nat)
    requires g.Valid() && g.Holds(g.xs, g.ys) && g.Holds(x, y)
    ensures Wrapped(g, x + g.fw, y)
         == if x + g.fw + g.fw <= g.width then (x + g.fw, y)
            else if y + g.fh + g.fh <= g.height then (g.xs, y + g.fh) else (g.xs, g.ys)
  {
  }

  /** The position kept before character `n` is drawn, when the start cell fits. */
  ghost predicate Before(g: Page, n: nat, x: nat, y: nat)
    requires g.Valid()
  {
    && g.Cols() > 0 && g.Rows() > 0
    && if n == 0 then (x, y) == (g.xs, g.ys) else (x, y) == (Slot(g, n - 1).0 + g.fw, Slot(g, n - 1).1)
  }

  lemma FirstSlot(g: Page)
    requires g.Valid() && g.Holds(g.xs, g.ys) && g.Cols() > 0 && g.Rows() > 0
    ensures Wrapped(g, g.xs, g.ys) == (g.xs, g.ys) == Slot(g, 0)
  {
  }

  lemma BeforeNext(g: Page, n: nat, x: nat, y: nat)
    requires g.Valid() && g.Holds(g.xs, g.ys) && Before(g, n, x, y)
    ensures Wrapped(g, x, y) == Slot(g, n)
  {
    if n == 0 {
      FirstSlot(g);
    } else {
      WrapToNext(g, n - 1);
    }
  }

  lemma AfterSlot(g: Page, n: nat)
    requires g.Valid() && g.Holds(g.xs, g.ys) && g.Cols() > 0 && g.Rows() > 0
    ensures Before(g, n + 1, (Slot(g, n).0 + g.fw) % 65536, Slot(g, n).1)
  {
    WrapToNext(g, n);
  }

  /** The placements are the characters in their slots. */
  ghost predicate Placed(g: Page, str: string, out: seq<Placement>, fg: nat, bg: nat)
    requires g.Valid()
  {
    && g.Cols() > 0 && g.Rows() > 0 && |out| <= |str|
    && forall n :: 0 <= n < |out| ==> out[n] == Placement(Slot(g, n).0, Slot(g, n).1, str[n], fg, bg)
  }

  /** Paint_DrawString_EN; it hands the two colours to Paint_DrawChar in exchanged order. Character n of any string
      is drawn in slot n, wholly on screen, if the start cell fits; if it does not, already the first character is
      drawn partly off screen. */
  method DrawString(g: Page, str: string, fg: nat, bg: nat) returns (out: seq<Placement>)
    requires g.Valid() && g.xs < 65536 && g.ys < 65536
    ensures if g.xs > g.width || g.ys > g.height then out == [] else |out| == |str|
    ensures g.Holds(g.xs, g.ys) ==> Placed(g, str, out, bg, fg)
    ensures !g.Holds(g.xs, g.ys) && out != [] ==> !g.Holds(out[0].x, out[0].y)
  {
    out := [];
    PageHolds(g);
    var x: nat, y: nat := g.xs, g.ys;
    if g.xs > g.width || g.ys > g.height {
      return;
    }
    var n: nat := 0;
    while n < |str|
      invariant n <= |str| && |out| == n && (n == 0 ==> (x, y) == (g.xs, g.ys))
      invariant g.Holds(g.xs, g.ys) ==> Before(g, n, x, y) && Placed(g, str, out, bg, fg)
      invariant !g.Holds(g.xs, g.ys) && n > 0 ==> !g.Holds(out[0].x, out[0].y)
    {
      ghost var p := Wrapped(g, x, y);
      if g.Holds(g.xs, g.ys) {
        BeforeNext(g, n, x, y);
        AfterSlot(g, n);
      }
      if x + g.fw > g.width {
        x, y := g.xs, (y + g.fh) % 65536;
      }
      if y + g.fh > g.height {
        x, y := g.xs, g.ys;
      }
      assert (x, y) == p;
      out := out + [Placement(x, y, str[n], bg, fg)];
      x := (x + g.fw) % 65536;
      n := n + 1;
    }
  }
}
