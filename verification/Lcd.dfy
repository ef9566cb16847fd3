/** Drawing into the frame buffer of task04/demo_lcd.c: glyphs, text lines and filled rectangles in
    a flat array of 320 x 240 pixels, and the splitting of what is sent to the display. */
module Lcd {
  import opened Basics

  const LCD_WIDTH := 320
  const LCD_HEIGHT := 240
  const SIZE := 76800      // LCD_WIDTH * LCD_HEIGHT
  const DATA_SIZE := 1000

  type Word = x: int | 0 <= x < 65536
  type Frame = s: seq<Word> | |s| == SIZE witness seq(SIZE, _ => 0)

  /** `(color >> 8) | (color << 8)`, stored in 16 bits: the two bytes exchanged. */
  function Swapped(color: Word): (w: Word)
    ensures w / 256 == color % 256 && w % 256 == color / 256
  {
    color / 256 + (color % 256) * 256
  }

  /** The pixel in column `c` of row `r`. */
  function Pixel(s: Frame, c: nat, r: nat): Word
    requires c < LCD_WIDTH && r < LCD_HEIGHT
  {
    s[c + 320 * r]
  }

  // ----- Rectangles -----

  /** The test of lines 368 and 372 on one axis: `start + size - 1 > limit`, one too lenient. */
  function Clipped(start: nat, size: nat, limit: nat): nat
    requires start < limit
  {
    if start + size - 1 > limit then limit - start else size
  }

  /** Offset `q` from the first pixel lies among the first `w` cells counted from row `j`'s start. */
  predicate InRow(q: int, w: nat, j: nat) {
    LCD_WIDTH * j <= q < LCD_WIDTH * j + w
  }

  ghost predicate InRows(q: int, w: nat, h: nat) {
    exists j: nat :: j < h && InRow(q, w, j)
  }

  /** Every cell that the loops of `lcd_fill_rectangle` reach is inside the frame buffer. */
  ghost predicate StaysInside(x: nat, y: nat, w: nat, h: nat) {
    x < LCD_WIDTH && y < LCD_HEIGHT ==>
      forall i: nat, j: nat :: i < Clipped(x, w, LCD_WIDTH) && j < Clipped(y, h, LCD_HEIGHT) ==>
        Offset(x, y, i, j) < SIZE
  }

  /** `(x + LCD_WIDTH * y) + (i + LCD_WIDTH * j)`. */
  function Offset(x: nat, y: nat, i: nat, j: nat): nat {
    (x + LCD_WIDTH * y) + (i + LCD_WIDTH * j)
  }

  /** What a caller has to check: a fill of something must not end one row below the screen, nor,
      if it reaches the last row, one column to the right of it. */
  predicate FillIsSafe(x: nat, y: nat, w: nat, h: nat) {
    || x >= 320 || y >= 240 || w == 0 || h == 0
    || (y + h != 241 && !(x + w == 321 && y + h >= 240))
  }

  lemma LastCellDecides(x: nat, y: nat, cw: nat, ch: nat)
    ensures (forall i: nat, j: nat :: i < cw && j < ch ==> Offset(x, y, i, j) < SIZE)
            <==> cw == 0 || ch == 0 || Offset(x, y, cw - 1, ch - 1) < SIZE
  {
    if cw > 0 && ch > 0 {
      assert forall i: nat, j: nat :: i < cw && j < ch ==> Offset(x, y, i, j) <= Offset(x, y, cw - 1, ch - 1);
    }
  }

  /** The fills that stay inside the frame buffer are the safe ones. */
  lemma SafeFillsExactly(x: nat, y: nat, w: nat, h: nat)
    ensures StaysInside(x, y, w, h) <==> FillIsSafe(x, y, w, h)
  {
    if x < LCD_WIDTH && y < LCD_HEIGHT {
      LastCellDecides(x, y, Clipped(x, w, LCD_WIDTH), Clipped(y, h, LCD_HEIGHT));
    }
  }

  /** From column 1, the full width and height write the pixel behind the last one. */
  lemma FillBehindTheBuffer()
    ensures !StaysInside(1, 0, 320, 240) && !FillIsSafe(1, 0, 320, 240)
    ensures Offset(1, 0, 319, 239) == 76800 == SIZE
  {
    SafeFillsExactly(1, 0, LCD_WIDTH, LCD_HEIGHT);
  }

  /** What `lcd_fill_rectangle` writes to. */
  ghost predicate Filled(p: nat, x: nat, y: nat, w: nat, h: nat) {
    && x < LCD_WIDTH && y < LCD_HEIGHT
    && InRows(p - (x + LCD_WIDTH * y), Clipped(x, w, LCD_WIDTH), Clipped(y, h, LCD_HEIGHT))
  }

  /** `lcd_fill_rectangle`, without the update of the display; `inside` is false when it comes to
      write behind the frame buffer. */
  method FillRectangle(frame: array<Word>, x: Word, y: Word, w: Word, h: Word, color: Word) returns (inside: bool)
    requires frame.Length == SIZE
    modifies frame
    ensures inside <==> FillIsSafe(x, y, w, h)
    ensures inside ==> forall p :: 0 <= p < SIZE ==>
              frame[p] == if Filled(p, x, y, w, h) then Swapped(color) else old(frame[p])
  {
    if x >= LCD_WIDTH || y >= LCD_HEIGHT {
      return true;
    }
    var cw, ch := w, h;
    if x + w - 1 > LCD_WIDTH {
      cw := LCD_WIDTH - x;
    }
    if y + h - 1 > LCD_HEIGHT {
      ch := LCD_HEIGHT - y;
    }
    ghost var base := x + LCD_WIDTH * y;
    SafeFillsExactly(x, y, w, h);
    var j := 0;
    while j < ch
      invariant 0 <= j <= ch
      invariant j > 0 && cw > 0 ==> Offset(x, y, cw - 1, j - 1) < SIZE
      invariant forall p :: 0 <= p < SIZE ==>
                  frame[p] == if InRows(p - base, cw, j) then Swapped(color) else old(frame[p])
    {
      var i := 0;
      while i < cw
        invariant 0 <= i <= cw
        invariant i > 0 ==> Offset(x, y, i - 1, j) < SIZE
        invariant forall p :: 0 <= p < SIZE ==>
                    frame[p] == if InRows(p - base, cw, j) || InRow(p - base, i, j) then Swapped(color) else old(frame[p])
      {
        if Offset(x, y, i, j) >= SIZE {
          return false;
        }
        frame[Offset(x, y, i, j)] := Swapped(color);
        i := i + 1;
      }
      OneMoreRow(cw, j);
      j := j + 1;
    }
    LastCellDecides(x, y, cw, ch);
    return true;
  }

  lemma OneMoreRow(w: nat, j: nat)
    ensures forall q :: InRows(q, w, j + 1) <==> InRows(q, w, j) || InRow(q, w, j)
  {
    forall q
      ensures InRows(q, w, j + 1) <==> InRows(q, w, j) || InRow(q, w, j)
    {
      if InRows(q, w, j + 1) {
        var k: nat :| k < j + 1 && InRow(q, w, k);
        assert k < j || k == j;
      }
    }
  }

  /** The part of the rectangle that is on the screen. */
  predicate OnScreenPart(c: nat, r: nat, x: nat, y: nat, w: nat, h: nat) {
    x <= c < x + w && c < 320 && y <= r < y + h && r < 240
  }

  /** Pixel by pixel: the fill covers the part of the rectangle that is on the screen; one column
      too many, when `x + w` is 321, comes out in column 0 of the next rows. */
  lemma FilledPixel(c: nat, r: nat, x: nat, y: nat, w: nat, h: nat)
    requires c < 320 && r < 240
    ensures Filled(c + 320 * r, x, y, w, h) <==>
              (OnScreenPart(c, r, x, y, w, h)
               || (x < 320 && x + w == 321 && c == 0 && y < r <= y + h))
  {
    if x < LCD_WIDTH && y < LCD_HEIGHT {
      var cw, ch := Clipped(x, w, LCD_WIDTH), Clipped(y, h, LCD_HEIGHT);
      var q := c + LCD_WIDTH * r - (x + LCD_WIDTH * y);
      if InRows(q, cw, ch) {
        var j: nat :| j < ch && InRow(q, cw, j);
        assert (r == y + j && x <= c < x + cw) || (r == y + j + 1 && c == 0 && x + cw == LCD_WIDTH + 1);
      }
      if y <= r < y + ch && x <= c < x + cw {
        assert InRow(q, cw, r - y);
      }
      if x + w == LCD_WIDTH + 1 && c == 0 && y < r <= y + ch {
        assert InRow(q, cw, r - y - 1);
      }
    }
  }

  /** The fill stays inside the buffer and covers the part of the rectangle that is on the screen,
      and nothing else, exactly when it is empty or ends neither one column nor one row behind the
      screen. */
  lemma FillIsExactlyTheRectangle(x: nat, y: nat, w: nat, h: nat)
    ensures StaysInside(x, y, w, h)
            && (forall c: nat, r: nat :: c < 320 && r < 240 ==>
                  (Filled(c + 320 * r, x, y, w, h) <==> OnScreenPart(c, r, x, y, w, h)))
            <==> x >= 320 || y >= 240 || w == 0 || h == 0 || (x + w != 321 && y + h != 241)
  {
    SafeFillsExactly(x, y, w, h);
    forall c: nat, r: nat | c < LCD_WIDTH && r < LCD_HEIGHT
      ensures Filled(c + LCD_WIDTH * r, x, y, w, h) <==>
                (OnScreenPart(c, r, x, y, w, h)
                 || (x < 320 && x + w == 321 && c == 0 && y < r <= y + h))
    {
      FilledPixel(c, r, x, y, w, h);
    }
    if x < LCD_WIDTH && x + w == LCD_WIDTH + 1 && h > 0 && y + h < LCD_HEIGHT {
      assert !OnScreenPart(0, y + h, x, y, w, h);
      assert Filled(0 + LCD_WIDTH * (y + h), x, y, w, h);
    }
  }

  /** `lcd_fill_screen` asks for one column and one row less than the screen has, and those keep
      what they showed. */
  method FillScreen(frame: array<Word>, color: Word)
    requires frame.Length == SIZE
    modifies frame
    ensures forall c: nat, r: nat :: c < 320 && r < 240 ==>
              Pixel(frame[..], c, r)
              == if c < 319 && r < 239 then Swapped(color) else Pixel(old(frame[..]), c, r)
  {
    ghost var before := frame[..];
    var inside := FillRectangle(frame, 0, 0, LCD_WIDTH - 1, LCD_HEIGHT - 1, color);
    assert inside;
    forall c: nat, r: nat | c < LCD_WIDTH && r < LCD_HEIGHT
      ensures Pixel(frame[..], c, r)
           == if c < LCD_WIDTH - 1 && r < LCD_HEIGHT - 1 then Swapped(color) else Pixel(before, c, r)
    {
      FilledPixel(c, r, 0, 0, LCD_WIDTH - 1, LCD_HEIGHT - 1);
    }
  }

  // ----- Text -----

  /** A `FontDef`: for each character from 32 on, `height` rows of pixels from the high bit down. */
  datatype Font = Font(width: nat, height: nat, data: seq<bv16>)

  /** Row `i` of the glyph is in the table. */
  predicate HasRow(font: Font, ch: int, i: nat) {
    0 <= (ch - 32) * font.height + i < |font.data|
  }

  /** The whole glyph is, or it has no rows. */
  predicate Printable(font: Font, ch: int) {
    font.height == 0 || (32 <= ch && (ch - 32) * font.height + font.height <= |font.data|)
  }

  lemma RowsOfGlyph(font: Font, ch: int, i: nat)
    requires i < font.height
    ensures Printable(font, ch) ==> HasRow(font, ch, i)
    ensures HasRow(font, ch, 0) && HasRow(font, ch, font.height - 1) ==> Printable(font, ch)
  {
    if 32 <= ch {
      Product(ch - 32, font.height);
    } else {
      Product(31 - ch, font.height);
      assert (ch - 32) * font.height == -((31 - ch) * font.height) - font.height;
    }
  }

  lemma Product(a: nat, b: nat)
    ensures 0 <= a * b
  {
  }

  /** The test of line 398. */
  predicate TestBit(row: bv16, j: nat)
    requires j < 16
  {
    ((row as bv32) << j) & 0x8000 != 0
  }

  /** Bit `15 - j`. */
  function Mask(j: nat): bv16
    requires j < 16
  {
    [0x8000, 0x4000, 0x2000, 0x1000, 0x0800, 0x0400, 0x0200, 0x0100,
     0x0080, 0x0040, 0x0020, 0x0010, 0x0008, 0x0004, 0x0002, 0x0001][j]
  }

  /** From bit 15 down to bit 0. */
  lemma MaskIs(j: nat)
    requires j < 16
    ensures Mask(0) == 0x8000 && Mask(15) == 0x0001 && (j < 15 ==> Mask(j + 1) == Mask(j) >> 1)
  {
  }

  lemma LeftColumns(row: bv16, j: nat)
    requires j < 7
    ensures TestBit(row, j) <==> row & Mask(j) != 0
  {
    assert TestBit(row, 0) <==> row & 0x8000 != 0;
    assert TestBit(row, 1) <==> row & 0x4000 != 0;
    assert TestBit(row, 2) <==> row & 0x2000 != 0;
    assert TestBit(row, 3) <==> row & 0x1000 != 0;
    assert TestBit(row, 4) <==> row & 0x0800 != 0;
    assert TestBit(row, 5) <==> row & 0x0400 != 0;
    assert TestBit(row, 6) <==> row & 0x0200 != 0;
  }

  lemma MiddleColumns(row: bv16, j: nat)
    requires 7 <= j < 12
    ensures TestBit(row, j) <==> row & Mask(j) != 0
  {
    assert TestBit(row, 7) <==> row & 0x0100 != 0;
    assert TestBit(row, 8) <==> row & 0x0080 != 0;
    assert TestBit(row, 9) <==> row & 0x0040 != 0;
    assert TestBit(row, 10) <==> row & 0x0020 != 0;
    assert TestBit(row, 11) <==> row & 0x0010 != 0;
  }

  lemma RightColumns(row: bv16, j: nat)
    requires 12 <= j < 16
    ensures TestBit(row, j) <==> row & Mask(j) != 0
  {
    assert TestBit(row, 12) <==> row & 0x0008 != 0;
    assert TestBit(row, 13) <==> row & 0x0004 != 0;
    assert TestBit(row, 14) <==> row & 0x0002 != 0;
    assert TestBit(row, 15) <==> row & 0x0001 != 0;
  }

  function RowOf(font: Font, ch: int, i: nat): bv16
    requires HasRow(font, ch, i)
  {
    font.data[(ch - 32) * font.height + i]
  }

  /** The color of column `j` in row `i` of a glyph: the foreground where bit `15 - j` is set. */
  function Shade(font: Font, ch: int, i: nat, j: nat, color: Word, bgcolor: Word): (v: Word)
    requires HasRow(font, ch, i) && j < font.width <= 16
    ensures v == Swapped(if RowOf(font, ch, i) & Mask(j) != 0 then color else bgcolor)
  {
    var row := RowOf(font, ch, i);
    if j < 7 then LeftColumns(row, j); Ink(row, j, color, bgcolor)
    else if j < 12 then MiddleColumns(row, j); Ink(row, j, color, bgcolor)
    else RightColumns(row, j); Ink(row, j, color, bgcolor)
  }

  function Ink(row: bv16, j: nat, color: Word, bgcolor: Word): Word
    requires j < 16
  {
    if TestBit(row, j) then Swapped(color) else Swapped(bgcolor)
  }

  /** Offset `q` from the corner of a cell of `w` columns and `h` rows lies in the cell; a cell that
      reaches over the right edge goes on in column 0 of the next rows. */
  predicate InCell(q: int, w: nat, h: nat) {
    0 <= q && q % LCD_WIDTH < w && q / LCD_WIDTH < h
  }

  lemma InCellIs(i: int, j: nat, w: nat, h: nat)
    requires j < LCD_WIDTH
    ensures InCell(j + LCD_WIDTH * i, w, h) <==> 0 <= i < h && j < w
    ensures (j + LCD_WIDTH * i) / LCD_WIDTH == i && (j + LCD_WIDTH * i) % LCD_WIDTH == j
  {
  }

  /** What the pixel at `p` shows once the glyph of `ch` is drawn with its corner in column `x` and
      row `y`. */
  function GlyphPixel(s: Frame, x: nat, y: nat, ch: int, font: Font, color: Word, bgcolor: Word, p: nat): Word
    requires Printable(font, ch) && font.width <= 16 && p < SIZE
  {
    var q := p - Offset(x, y, 0, 0);
    if InCell(q, font.width, font.height) then
      RowsOfGlyph(font, ch, q / LCD_WIDTH);
      Shade(font, ch, q / LCD_WIDTH, q % LCD_WIDTH, color, bgcolor)
    else s[p]
  }

  /** The frame with the glyph of `ch` drawn. */
  ghost function WithGlyph(s: Frame, x: nat, y: nat, ch: int, font: Font, color: Word, bgcolor: Word): (t: Frame)
    requires Printable(font, ch) && font.width <= 16
    ensures forall p :: 0 <= p < SIZE ==> t[p] == GlyphPixel(s, x, y, ch, font, color, bgcolor, p)
  {
    seq(SIZE, p requires 0 <= p < SIZE => GlyphPixel(s, x, y, ch, font, color, bgcolor, p))
  }

  /** The cell of a glyph ends inside the frame buffer. */
  predicate CellInside(x: nat, y: nat, font: Font) {
    font.width == 0 || font.height == 0 || Offset(x, y, font.width - 1, font.height - 1) < SIZE
  }

  /** `lcd_put_char`; `ok` is false when it comes to read outside the font table or to write behind
      the frame buffer. */
  method PutChar(frame: array<Word>, x: nat, y: nat, ch: int, font: Font, color: Word, bgcolor: Word) returns (ok: bool)
    requires frame.Length == SIZE && font.width <= 16
    modifies frame
    ensures ok <==> Printable(font, ch) && CellInside(x, y, font)
    ensures ok ==> frame[..] == WithGlyph(old(frame[..]), x, y, ch, font, color, bgcolor)
    ensures ok ==> ShowsGlyph(frame[..], x, y, ch, font, color, bgcolor)
    ensures ok ==> SameOutside(old(frame[..]), frame[..], x, y, font.width, font.height)
  {
    ghost var s := frame[..];
    var i := 0;
    while i < font.height
      invariant 0 <= i <= font.height
      invariant i > 0 && font.width > 0 ==> Offset(x, y, font.width - 1, i - 1) < SIZE
      invariant i > 0 ==> HasRow(font, ch, 0) && HasRow(font, ch, i - 1)
      invariant Printable(font, ch) ==> PartDrawn(s, frame[..], x, y, ch, font, color, bgcolor, i, 0)
    {
      RowsOfGlyph(font, ch, i);
      ok := PutRow(frame, x, y, ch, font, color, bgcolor, i, s);
      if !ok {
        return;
      }
      i := i + 1;
    }
    if font.height > 0 {
      RowsOfGlyph(font, ch, 0);
    }
    GlyphShown(s, x, y, ch, font, color, bgcolor);
    OutsideKept(s, s, x, y, x, font.width, ch, font, color, bgcolor);
    return true;
  }

  /** The first `i` rows of the glyph, and the first `j` pixels of the next, are drawn. */
  ghost predicate PartDrawn(s: Frame, t: Frame, x: nat, y: nat, ch: int, font: Font, color: Word, bgcolor: Word, i: nat, j: nat)
    requires Printable(font, ch) && font.width <= 16 && i <= font.height && j <= font.width
    requires i == font.height ==> j == 0
  {
    forall p :: 0 <= p < SIZE ==>
      var q := p - Offset(x, y, 0, 0);
      t[p] == if InCell(q, font.width, i) || (InCell(q, j, i + 1) && q / LCD_WIDTH == i)
              then GlyphPixel(s, x, y, ch, font, color, bgcolor, p) else s[p]
  }

  /** One round of the outer loop of `lcd_put_char`. */
  method PutRow(frame: array<Word>, x: nat, y: nat, ch: int, font: Font, color: Word, bgcolor: Word, i: nat, ghost s: Frame)
    returns (ok: bool)
    requires frame.Length == SIZE && font.width <= 16 && i < font.height
    requires Printable(font, ch) ==> PartDrawn(s, frame[..], x, y, ch, font, color, bgcolor, i, 0)
    modifies frame
    ensures ok <==> HasRow(font, ch, i) && (font.width == 0 || Offset(x, y, font.width - 1, i) < SIZE)
    ensures ok && Printable(font, ch) ==> PartDrawn(s, frame[..], x, y, ch, font, color, bgcolor, i + 1, 0)
  {
    if !HasRow(font, ch, i) {
      return false;
    }
    var b := RowOf(font, ch, i);
    var j := 0;
    while j < font.width
      invariant 0 <= j <= font.width
      invariant j > 0 ==> Offset(x, y, j - 1, i) < SIZE
      invariant Printable(font, ch) ==> PartDrawn(s, frame[..], x, y, ch, font, color, bgcolor, i, j)
    {
      ghost var t := frame[..];
      if Offset(x, y, j, i) >= SIZE {
        return false;
      }
      var v := if TestBit(b, j) then Swapped(color) else Swapped(bgcolor);
      frame[Offset(x, y, j, i)] := v;
      if Printable(font, ch) {
        PixelDrawn(s, t, frame[..], x, y, ch, font, color, bgcolor, i, j);
      }
      j := j + 1;
    }
    return true;
  }

  lemma PixelDrawn(s: Frame, t: Frame, u: Frame, x: nat, y: nat, ch: int, font: Font, color: Word, bgcolor: Word, i: nat, j: nat)
    requires Printable(font, ch) && font.width <= 16 && i < font.height && j < font.width && Offset(x, y, j, i) < SIZE
    requires HasRow(font, ch, i) && PartDrawn(s, t, x, y, ch, font, color, bgcolor, i, j)
    requires u == t[Offset(x, y, j, i) := Ink(RowOf(font, ch, i), j, color, bgcolor)]
    ensures PartDrawn(s, u, x, y, ch, font, color, bgcolor, i, j + 1)
  {
    forall p | 0 <= p < SIZE
      ensures var q := p - Offset(x, y, 0, 0);
              u[p] == if InCell(q, font.width, i) || (InCell(q, j + 1, i + 1) && q / LCD_WIDTH == i)
                      then GlyphPixel(s, x, y, ch, font, color, bgcolor, p) else s[p]
    {
      var q := p - Offset(x, y, 0, 0);
      assert p == Offset(x, y, j, i) <==> q == j + LCD_WIDTH * i;
      assert q == j + LCD_WIDTH * i <==> q % LCD_WIDTH == j && q / LCD_WIDTH == i;
    }
  }

  /** The characters that `lcd_put_string` draws: up to a newline or the end. */
  function Drawn(s: seq<int>): seq<int> {
    if s == [] || s[0] == 10 then [] else [s[0]] + Drawn(s[1..])
  }

  /** The beginning of `s` without a newline, as long as it can be. */
  lemma {:induction false} DrawnIs(s: seq<int>)
    ensures Drawn(s) <= s && 10 !in Drawn(s) && (|Drawn(s)| == |s| || s[|Drawn(s)|] == 10)
  {
    if s != [] && s[0] != 10 {
      DrawnIs(s[1..]);
    }
  }

  /** The left edge of the k-th cell: the column counter has 16 bits. */
  function Left(x: nat, w: nat, k: nat): nat {
    if k == 0 then x else (Left(x, w, k - 1) + w) % 65536
  }

  /** The frame with the text `d` drawn glyph by glyph. */
  ghost function WithLine(s: Frame, x: nat, y: nat, d: seq<int>, font: Font, color: Word, bgcolor: Word): Frame
    requires font.width <= 16 && AllPrintable(font, d)
  {
    if d == [] then s
    else
      var k := |d| - 1;
      WithGlyph(WithLine(s, x, y, d[..k], font, color, bgcolor), Left(x, font.width, k), y, d[k], font, color, bgcolor)
  }

  predicate LineInside(x: nat, y: nat, n: nat, font: Font) {
    forall k :: 0 <= k < n ==> CellInside(Left(x, font.width, k), y, font)
  }

  /** `lcd_put_string`; `ok` is false when it comes to read outside the font table or to write behind
      the frame buffer. */
  method PutString(frame: array<Word>, x: nat, y: nat, s: seq<int>, font: Font, color: Word, bgcolor: Word) returns (ok: bool)
    requires frame.Length == SIZE && font.width <= 16
    modifies frame
    ensures ok <==> LineInside(x, y, |Drawn(s)|, font) && AllPrintable(font, Drawn(s))
    ensures ok ==> frame[..] == WithLine(old(frame[..]), x, y, Drawn(s), font, color, bgcolor)
    ensures ok && Narrow(x, |Drawn(s)|, font) ==> LineShown(frame[..], x, y, Drawn(s), font, color, bgcolor)
  {
    ghost var before, d := frame[..], Drawn(s);
    var ix, p := x, 0;
    assert s[0..] == s;
    while p < |s| && s[p] != 10
      invariant 0 <= p <= |s| && p <= |d| && ix == Left(x, font.width, p)
      invariant d[p..] == Drawn(s[p..])
      invariant LineInside(x, y, p, font) && AllPrintable(font, d[..p])
      invariant frame[..] == WithLine(before, x, y, d[..p], font, color, bgcolor)
    {
      NextDrawn(s, p, d);
      ghost var t := frame[..];
      ok := PutChar(frame, ix, y, s[p], font, color, bgcolor);
      if !ok {
        return;
      }
      WithNext(before, t, x, y, d, p, font, color, bgcolor);
      p := p + 1;
      ix := (ix + font.width) % 65536;
    }
    assert d[..p] == d by {
      assert Drawn(s[p..]) == [];
    }
    if Narrow(x, |d|, font) {
      NarrowLine(before, x, y, d, |d|, font, color, bgcolor);
      LineShownIs(frame[..], x, y, d, font, color, bgcolor);
    }
    return true;
  }

  predicate AllPrintable(font: Font, d: seq<int>) {
    forall c :: c in d ==> Printable(font, c)
  }

  lemma WithNext(s: Frame, t: Frame, x: nat, y: nat, d: seq<int>, p: nat, font: Font, color: Word, bgcolor: Word)
    requires p < |d| && font.width <= 16 && AllPrintable(font, d[..p]) && Printable(font, d[p])
    requires t == WithLine(s, x, y, d[..p], font, color, bgcolor)
    ensures AllPrintable(font, d[..p + 1])
    ensures WithLine(s, x, y, d[..p + 1], font, color, bgcolor)
         == WithGlyph(t, Left(x, font.width, p), y, d[p], font, color, bgcolor)
  {
    assert d[..p + 1][..p] == d[..p];
  }

  lemma NextDrawn(s: seq<int>, p: nat, d: seq<int>)
    requires p < |s| && s[p] != 10 && p <= |d| && d[p..] == Drawn(s[p..])
    ensures p < |d| && d[p] == s[p] && d[p + 1..] == Drawn(s[p + 1..])
  {
    assert s[p..][1..] == s[p + 1..];
    assert d[p] == d[p..][0];
    assert d[p + 1..] == d[p..][1..];
  }

  // ----- Lines at most as wide as the screen -----

  /** Pixel `j` of row `i` of the glyph of `ch`, in the cell at `x`, `y`, has the color if bit
      `15 - j` of word `i` of the glyph is set in the font table, and the background color if not. */
  predicate PixelIs(t: Frame, x: nat, y: nat, ch: int, font: Font, color: Word, bgcolor: Word, i: nat, j: nat)
    requires Printable(font, ch) && i < font.height && j < font.width <= 16
  {
    RowsOfGlyph(font, ch, i);
    && x + 320 * y + j + 320 * i < 76800
    && t[x + 320 * y + j + 320 * i]
       == Swapped(if font.data[(ch - 32) * font.height + i] & Mask(j) != 0 then color else bgcolor)
  }

  /** `t` shows the glyph of `ch` in the cell at `x`, `y`. */
  ghost predicate ShowsGlyph(t: Frame, x: nat, y: nat, ch: int, font: Font, color: Word, bgcolor: Word)
    requires Printable(font, ch) && font.width <= 16
  {
    forall i: nat, j: nat :: i < font.height && j < font.width ==> PixelIs(t, x, y, ch, font, color, bgcolor, i, j)
  }

  /** `t` shows the text `d` in a line of cells. */
  ghost predicate ShowsLine(t: Frame, x: nat, y: nat, d: seq<int>, font: Font, color: Word, bgcolor: Word)
    requires font.width <= 16 && LineInside(x, y, |d|, font) && AllPrintable(font, d)
  {
    forall k :: 0 <= k < |d| ==> ShowsGlyph(t, Left(x, font.width, k), y, d[k], font, color, bgcolor)
  }

  /** Pixel `j` of row `i` of the k-th character, whose cell begins in column `x + k * font.width`. */
  predicate LinePixelIs(t: Frame, x: nat, y: nat, d: seq<int>, font: Font, color: Word, bgcolor: Word, k: nat, i: nat, j: nat)
    requires k < |d| && AllPrintable(font, d) && i < font.height && j < font.width <= 16
  {
    PixelIs(t, x + k * font.width, y, d[k], font, color, bgcolor, i, j)
  }

  /** The same in numbers. */
  ghost predicate LineShown(t: Frame, x: nat, y: nat, d: seq<int>, font: Font, color: Word, bgcolor: Word)
    requires font.width <= 16 && AllPrintable(font, d)
  {
    forall k: nat, i: nat, j: nat :: k < |d| && i < font.height && j < font.width ==>
      LinePixelIs(t, x, y, d, font, color, bgcolor, k, i, j)
  }

  lemma LineShownIs(t: Frame, x: nat, y: nat, d: seq<int>, font: Font, color: Word, bgcolor: Word)
    requires font.width <= 16 && AllPrintable(font, d) && LineInside(x, y, |d|, font) && Narrow(x, |d|, font)
    requires ShowsLine(t, x, y, d, font, color, bgcolor)
    ensures LineShown(t, x, y, d, font, color, bgcolor)
  {
    forall k: nat, i: nat, j: nat | k < |d| && i < font.height && j < font.width
      ensures LinePixelIs(t, x, y, d, font, color, bgcolor, k, i, j)
    {
      LeftIs(x, font.width, k, |d|);
      CellShown(t, x, y, d, k, font, color, bgcolor, i, j, x + k * font.width);
    }
  }

  lemma CellShown(t: Frame, x: nat, y: nat, d: seq<int>, k: nat, font: Font, color: Word, bgcolor: Word, i: nat, j: nat, l: nat)
    requires font.width <= 16 && AllPrintable(font, d) && LineInside(x, y, |d|, font)
    requires ShowsLine(t, x, y, d, font, color, bgcolor)
    requires k < |d| && i < font.height && j < font.width && l == Left(x, font.width, k)
    ensures PixelIs(t, l, y, d[k], font, color, bgcolor, i, j)
  {
    assert ShowsGlyph(t, l, y, d[k], font, color, bgcolor);
  }

  /** The second character of a font of two one-row glyphs, the first empty and the second with its
      leftmost pixel set: that pixel gets the color and the other 15 the background color. */
  lemma SecondGlyph(t: Frame, color: Word, bgcolor: Word)
    ensures var u := WithGlyph(t, 0, 0, 33, Font(16, 1, [0x0000, 0x8000]), color, bgcolor);
            u[0] == Swapped(color) && forall j :: 1 <= j < 16 ==> u[j] == Swapped(bgcolor)
  {
    var font := Font(16, 1, [0x0000, 0x8000]);
    var u := WithGlyph(t, 0, 0, 33, font, color, bgcolor);
    GlyphShown(t, 0, 0, 33, font, color, bgcolor);
    forall j: nat | j < 16
      ensures u[j] == Swapped(if j == 0 then color else bgcolor)
    {
      assert PixelIs(u, 0, 0, 33, font, color, bgcolor, 0, j);
      LeftmostOnly(j);
    }
  }

  lemma LeftmostOnly(j: nat)
    requires j < 16
    ensures 0x8000 & Mask(j) != 0 <==> j == 0
  {
  }

  /** `n` cells side by side take no more than the width of the screen, and the column counter
      does not wrap. */
  predicate Narrow(x: nat, n: nat, font: Font) {
    x < 65536 && n * font.width <= LCD_WIDTH && x + n * font.width <= 65536
  }

  /** `s` and `t` differ only in a line of cells. */
  ghost predicate SameOutside(s: Frame, t: Frame, x: nat, y: nat, w: nat, h: nat) {
    forall p :: 0 <= p < SIZE && !InCell(p - Offset(x, y, 0, 0), w, h) ==> t[p] == s[p]
  }

  lemma {:induction false} LeftIs(x: nat, w: nat, k: nat, n: nat)
    requires k < n && x < 65536 && x + n * w <= 65536
    ensures Left(x, w, k) == x + k * w && k * w + w <= n * w
  {
    ProductGrows(k + 1, n, w);
    assert (k + 1) * w == k * w + w;
    if k > 0 {
      LeftIs(x, w, k - 1, n);
      assert (k - 1) * w + w == k * w;
    }
  }

  lemma ProductGrows(k: nat, n: nat, w: nat)
    requires k <= n
    ensures k * w <= n * w
  {
  }

  /** A glyph drawn behind a cell, and not so far that it meets it again round the edge, leaves the
      cell alone. */
  lemma GlyphKept(t: Frame, x: nat, x': nat, y: nat, c: int, ch: int, font: Font, color: Word, bgcolor: Word)
    requires Printable(font, c) && Printable(font, ch) && font.width <= 16
    requires ShowsGlyph(t, x, y, c, font, color, bgcolor)
    requires x + font.width <= x' && x' + font.width <= x + LCD_WIDTH
    ensures ShowsGlyph(WithGlyph(t, x', y, ch, font, color, bgcolor), x, y, c, font, color, bgcolor)
  {
    forall i: nat, j: nat | i < font.height && j < font.width
      ensures PixelIs(WithGlyph(t, x', y, ch, font, color, bgcolor), x, y, c, font, color, bgcolor, i, j)
    {
      assert PixelIs(t, x, y, c, font, color, bgcolor, i, j);
      PixelKept(t, x, x', y, ch, font, color, bgcolor, i, j);
    }
  }

  lemma PixelKept(t: Frame, x: nat, x': nat, y: nat, ch: int, font: Font, color: Word, bgcolor: Word, i: nat, j: nat)
    requires Printable(font, ch) && j < font.width <= 16 && Offset(x, y, j, i) < SIZE
    requires x + font.width <= x' && x' + font.width <= x + LCD_WIDTH
    ensures WithGlyph(t, x', y, ch, font, color, bgcolor)[Offset(x, y, j, i)] == t[Offset(x, y, j, i)]
  {
    InCellIs(i - 1, x + LCD_WIDTH + j - x', font.width, font.height);
    assert Offset(x, y, j, i) - Offset(x', y, 0, 0) == (x + LCD_WIDTH + j - x') + LCD_WIDTH * (i - 1);
    assert GlyphPixel(t, x', y, ch, font, color, bgcolor, Offset(x, y, j, i)) == t[Offset(x, y, j, i)];
  }

  lemma GlyphShown(t: Frame, x: nat, y: nat, ch: int, font: Font, color: Word, bgcolor: Word)
    requires Printable(font, ch) && font.width <= 16 && CellInside(x, y, font)
    ensures ShowsGlyph(WithGlyph(t, x, y, ch, font, color, bgcolor), x, y, ch, font, color, bgcolor)
  {
    forall i: nat, j: nat | i < font.height && j < font.width
      ensures PixelIs(WithGlyph(t, x, y, ch, font, color, bgcolor), x, y, ch, font, color, bgcolor, i, j)
    {
      PixelShown(t, x, y, ch, font, color, bgcolor, i, j);
      RowsOfGlyph(font, ch, i);
    }
  }

  lemma PixelShown(t: Frame, x: nat, y: nat, ch: int, font: Font, color: Word, bgcolor: Word, i: nat, j: nat)
    requires Printable(font, ch) && font.width <= 16 && CellInside(x, y, font) && i < font.height && j < font.width
    ensures HasRow(font, ch, i) && Offset(x, y, j, i) < SIZE
    ensures WithGlyph(t, x, y, ch, font, color, bgcolor)[Offset(x, y, j, i)] == Shade(font, ch, i, j, color, bgcolor)
  {
    RowsOfGlyph(font, ch, i);
    InCellIs(i, j, font.width, font.height);
    assert Offset(x, y, j, i) - Offset(x, y, 0, 0) == j + LCD_WIDTH * i;
    assert GlyphPixel(t, x, y, ch, font, color, bgcolor, Offset(x, y, j, i)) == Shade(font, ch, i, j, color, bgcolor);
  }

  /** Two cells of a narrow line do not overlap, not even round the edge. */
  lemma CellsApart(x: nat, w: nat, k: nat, n: nat)
    requires k < n && x < 65536 && x + (n + 1) * w <= 65536 && (n + 1) * w <= LCD_WIDTH
    ensures Left(x, w, k) + w <= Left(x, w, n) && Left(x, w, n) + w <= Left(x, w, k) + LCD_WIDTH
  {
    LeftIs(x, w, k, n + 1);
    LeftIs(x, w, n, n + 1);
    ProductGrows(k + 1, n, w);
    assert (k + 1) * w == k * w + w;
  }

  /** One more glyph behind a line leaves the cells before it as they are. */
  lemma NextGlyph(t: Frame, x: nat, y: nat, d: seq<int>, ch: int, font: Font, color: Word, bgcolor: Word)
    requires font.width <= 16 && Narrow(x, |d| + 1, font) && LineInside(x, y, |d| + 1, font)
    requires Printable(font, ch) && AllPrintable(font, d)
    requires ShowsLine(t, x, y, d, font, color, bgcolor)
    ensures ShowsLine(WithGlyph(t, Left(x, font.width, |d|), y, ch, font, color, bgcolor), x, y, d + [ch], font, color, bgcolor)
  {
    var ix := Left(x, font.width, |d|);
    var u := WithGlyph(t, ix, y, ch, font, color, bgcolor);
    GlyphShown(t, ix, y, ch, font, color, bgcolor);
    forall k | 0 <= k < |d|
      ensures ShowsGlyph(u, Left(x, font.width, k), y, d[k], font, color, bgcolor)
    {
      CellsApart(x, font.width, k, |d|);
      GlyphKept(t, Left(x, font.width, k), ix, y, d[k], ch, font, color, bgcolor);
    }
  }

  lemma CellInLine(q: int, off: nat, cw: nat, w: nat, h: nat)
    requires off + cw <= w <= LCD_WIDTH
    ensures InCell(q, cw, h) ==> InCell(q + off, w, h)
  {
    if InCell(q, cw, h) {
      InCellIs(q / LCD_WIDTH, q % LCD_WIDTH + off, w, h);
    }
  }

  /** A glyph inside a line of `w` columns changes nothing outside the line. */
  lemma OutsideKept(s: Frame, t: Frame, x: nat, y: nat, x': nat, w: nat, ch: int, font: Font, color: Word, bgcolor: Word)
    requires Printable(font, ch) && font.width <= 16 && x <= x' && x' - x + font.width <= w <= LCD_WIDTH
    requires SameOutside(s, t, x, y, w, font.height)
    ensures SameOutside(s, WithGlyph(t, x', y, ch, font, color, bgcolor), x, y, w, font.height)
  {
    var u := WithGlyph(t, x', y, ch, font, color, bgcolor);
    forall p | 0 <= p < SIZE && !InCell(p - Offset(x, y, 0, 0), w, font.height)
      ensures u[p] == s[p]
    {
      CellInLine(p - Offset(x', y, 0, 0), x' - x, font.width, w, font.height);
      assert u[p] == GlyphPixel(t, x', y, ch, font, color, bgcolor, p);
    }
  }

  /** A line that is at most as wide as the screen, wherever it begins: every pixel of every cell
      is the foreground or the background as the glyph says, and no other pixel changes.  A cell
      that reaches over the right edge comes out in column 0 of the next rows. */
  lemma {:induction false} NarrowLine(s: Frame, x: nat, y: nat, d: seq<int>, n: nat, font: Font, color: Word, bgcolor: Word)
    requires font.width <= 16 && |d| <= n && Narrow(x, n, font) && LineInside(x, y, n, font)
    requires AllPrintable(font, d)
    ensures ShowsLine(WithLine(s, x, y, d, font, color, bgcolor), x, y, d, font, color, bgcolor)
    ensures SameOutside(s, WithLine(s, x, y, d, font, color, bgcolor), x, y, n * font.width, font.height)
    decreases |d|
  {
    if d != [] {
      var k := |d| - 1;
      NarrowLine(s, x, y, d[..k], n, font, color, bgcolor);
      var t := WithLine(s, x, y, d[..k], font, color, bgcolor);
      StillNarrow(x, k, n, font);
      NextInLine(s, t, x, y, d[..k], d[k], n * font.width, font, color, bgcolor);
      assert d[..k] + [d[k]] == d;
    }
  }

  lemma NextInLine(s: Frame, t: Frame, x: nat, y: nat, d: seq<int>, ch: int, w: nat, font: Font, color: Word, bgcolor: Word)
    requires font.width <= 16 && Narrow(x, |d| + 1, font) && LineInside(x, y, |d| + 1, font)
    requires Printable(font, ch) && AllPrintable(font, d)
    requires x <= Left(x, font.width, |d|) && Left(x, font.width, |d|) - x + font.width <= w <= LCD_WIDTH
    requires ShowsLine(t, x, y, d, font, color, bgcolor) && SameOutside(s, t, x, y, w, font.height)
    ensures AllPrintable(font, d + [ch])
    ensures var u := WithGlyph(t, Left(x, font.width, |d|), y, ch, font, color, bgcolor);
            ShowsLine(u, x, y, d + [ch], font, color, bgcolor) && SameOutside(s, u, x, y, w, font.height)
  {
    NextGlyph(t, x, y, d, ch, font, color, bgcolor);
    OutsideKept(s, t, x, y, Left(x, font.width, |d|), w, ch, font, color, bgcolor);
  }

  lemma StillNarrow(x: nat, k: nat, n: nat, font: Font)
    requires k < n && Narrow(x, n, font)
    ensures Narrow(x, k + 1, font)
    ensures x <= Left(x, font.width, k) && Left(x, font.width, k) - x + font.width <= n * font.width
  {
    NarrowPrefix(x, k + 1, n, font);
    RoomForOne(x, font.width, k, n);
  }

  lemma NarrowPrefix(x: nat, k: nat, n: nat, font: Font)
    requires k <= n && Narrow(x, n, font)
    ensures Narrow(x, k, font)
  {
    ProductGrows(k, n, font.width);
  }

  lemma RoomForOne(x: nat, w: nat, k: nat, n: nat)
    requires k < n && x < 65536 && x + n * w <= 65536
    ensures x <= Left(x, w, k) && Left(x, w, k) - x + w <= n * w
  {
    LeftIs(x, w, k, n);
  }

  // ----- Sending -----

  /** `lcd_write_data`: the chunks given to `spi_write` make up the buffer; all but the last have
      1000 bytes, and the last has at most that many and is empty only if the buffer is. */
  method WriteData(buff: seq<int>) returns (chunks: seq<seq<int>>)
    ensures Concat(chunks) == buff
    ensures chunks != [] && forall k :: 0 <= k < |chunks| - 1 ==> |chunks[k]| == 1000
    ensures |chunks[|chunks| - 1]| <= 1000
    ensures chunks[|chunks| - 1] == [] ==> buff == []
  {
    chunks := [];
    var i, left := 0, |buff|;
    while left > DATA_SIZE
      invariant 0 <= i && i + left == |buff| && (i > 0 ==> left > 0)
      invariant Concat(chunks) == buff[..i]
      invariant forall k :: 0 <= k < |chunks| ==> |chunks[k]| == DATA_SIZE
    {
      OneMoreChunk(buff, chunks, i, DATA_SIZE);
      chunks := chunks + [buff[i..i + DATA_SIZE]];
      i := i + DATA_SIZE;
      left := left - DATA_SIZE;
    }
    OneMoreChunk(buff, chunks, i, left);
    chunks := chunks + [buff[i..i + left]];
    assert buff[..i + left] == buff;
  }

  lemma OneMoreChunk(buff: seq<int>, chunks: seq<seq<int>>, i: nat, n: nat)
    requires i + n <= |buff| && Concat(chunks) == buff[..i]
    ensures Concat(chunks + [buff[i..i + n]]) == buff[..i + n]
  {
    ConcatAppend(chunks, buff[i..i + n]);
  }
}
