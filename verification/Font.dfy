/** Measuring text against drawing it, as in `font.c`: what `font_draw_string` writes lies
    in the box that `font_measure_string` gives. */
module Font {
  import opened Machine

  /** A loaded font: one bit a pixel, row by row, each glyph starting at its own byte. */
  datatype Font = Font(glyphs: seq<Byte>, numGlyphs: nat, bytesPerGlyph: nat, glyphWidth: nat, glyphHeight: nat,
      advance: nat)
  {
    /** As `font_load_psf2` sets it up, with all glyph data there. */
    predicate Valid() {
      && advance == glyphWidth && numGlyphs > 0
      && numGlyphs * bytesPerGlyph <= |glyphs|
      && glyphWidth * glyphHeight <= bytesPerGlyph * 8
    }

    function Index(codepoint: nat): nat {
      if codepoint >= numGlyphs then 0 else codepoint
    }
  }

  const NEWLINE: Byte := 10
  const TAB: Byte := 9

  predicate Measured(c: Byte) {
    c >= 32
  }

  /** A `char` is signed: the bytes from 128 on are negative. */
  function SignedChar(c: Byte): int {
    if c < 128 then c else c - 256
  }

  predicate Drawn(c: Byte) {
    SignedChar(c) >= 32
  }

  // ---------- Measuring ----------

  /** The width of the last line of a text. */
  function LineWidth(f: Font, text: seq<Byte>): nat {
    if text == [] then 0
    else
      var w, c := LineWidth(f, text[..|text| - 1]), text[|text| - 1];
      if c == NEWLINE then 0
      else if c == TAB then w + f.advance * 4
      else if Measured(c) then w + f.advance
      else w
  }

  function Lines(text: seq<Byte>): (n: nat)
    ensures n >= 1
  {
    if text == [] then 1 else Lines(text[..|text| - 1]) + if text[|text| - 1] == NEWLINE then 1 else 0
  }

  /** The width of the widest line so far. */
  function Width(f: Font, text: seq<Byte>): (w: nat)
    ensures w >= LineWidth(f, text)
  {
    if text == [] then 0 else Max(Width(f, text[..|text| - 1]), LineWidth(f, text))
  }

  function Height(f: Font, text: seq<Byte>): nat {
    f.glyphHeight * Lines(text)
  }

  lemma {:induction false} WidthGrows(f: Font, text: seq<Byte>, i: nat, j: nat)
    requires i <= j <= |text|
    ensures LineWidth(f, text[..i]) <= Width(f, text[..i]) <= Width(f, text[..j])
    ensures Lines(text[..i]) <= Lines(text[..j])
  {
    if i < j {
      WidthGrows(f, text, i, j - 1);
      assert text[..j][..j - 1] == text[..j - 1];
    }
  }

  method MeasureString(f: Font, text: seq<Byte>) returns (width: nat, height: nat)
    ensures width == Width(f, text) && height == Height(f, text)
  {
    var maxW, curW, lines := 0, 0, 1;
    ghost var widest := 0;
    var i := 0;
    while i < |text|
      invariant i <= |text|
      invariant curW == LineWidth(f, text[..i]) && lines == Lines(text[..i])
      invariant Max(maxW, curW) == Width(f, text[..i])
    {
      assert text[..i + 1][..i] == text[..i];
      if text[i] == NEWLINE {
        if curW > maxW { maxW := curW; }
        curW := 0;
        lines := lines + 1;
      } else if text[i] == TAB {
        curW := curW + f.advance * 4;
      } else if text[i] >= 32 {
        curW := curW + f.advance;
      }
      i := i + 1;
    }
    assert text[..i] == text;
    if curW > maxW { maxW := curW; }
    return maxW, f.glyphHeight * lines;
  }

  // ---------- Drawing ----------

  /** Where the cursor stands after a text, from the left edge and in lines. */
  function CursorX(f: Font, text: seq<Byte>): nat {
    if text == [] then 0
    else
      var x, c := CursorX(f, text[..|text| - 1]), text[|text| - 1];
      if c == NEWLINE then 0
      else if c == TAB then x + f.advance * 4
      else if Drawn(c) then x + f.advance
      else x
  }

  /** The cursor never gets ahead of the measure. */
  lemma {:induction false} CursorBehind(f: Font, text: seq<Byte>)
    ensures CursorX(f, text) <= LineWidth(f, text)
  {
    if text != [] { CursorBehind(f, text[..|text| - 1]); }
  }

  predicate HighBit(c: Byte) {
    c >= 128
  }

  /** A line is as wide as it is measured exactly when it has no byte from 128 on. */
  predicate PlainLine(text: seq<Byte>) {
    if text == [] then true
    else text[|text| - 1] == NEWLINE || (!HighBit(text[|text| - 1]) && PlainLine(text[..|text| - 1]))
  }

  lemma {:induction false} MeasuredAsDrawn(f: Font, text: seq<Byte>)
    requires f.advance > 0
    ensures CursorX(f, text) == LineWidth(f, text) <==> PlainLine(text)
  {
    if text != [] {
      MeasuredAsDrawn(f, text[..|text| - 1]);
      CursorBehind(f, text[..|text| - 1]);
    }
  }

  /** One glyph on its way to the screen: its place from the origin of the text, and its index. */
  datatype Cell = Cell(x: nat, y: nat, glyph: nat)

  function Cells(f: Font, text: seq<Byte>): seq<Cell> {
    if text == [] then []
    else
      var before, c := text[..|text| - 1], text[|text| - 1];
      Cells(f, before) + if c != NEWLINE && c != TAB && Drawn(c)
                         then [Cell(CursorX(f, before), f.glyphHeight * (Lines(before) - 1), f.Index(c))] else []
  }

  /** Every cell lies in the measured box. */
  lemma {:induction false} CellsInBox(f: Font, text: seq<Byte>, k: nat)
    requires f.advance == f.glyphWidth && k < |Cells(f, text)|
    ensures Cells(f, text)[k].x + f.glyphWidth <= Width(f, text)
    ensures Cells(f, text)[k].y + f.glyphHeight <= Height(f, text)
  {
    var before := text[..|text| - 1];
    CursorBehind(f, before);
    WidthGrows(f, text, |before|, |text|);
    assert text[..|text|] == text;
    RowsWithin(f.glyphHeight, Lines(before), Lines(text));
    if k < |Cells(f, before)| { CellsInBox(f, before, k); }
  }

  lemma RowsWithin(h: nat, a: nat, b: nat)
    requires 1 <= a <= b
    ensures h * (a - 1) + h <= h * b && h * a <= h * b && 0 <= h * (a - 1)
  {
    assert h * b == h * (a - 1) + h + h * (b - a);
  }

  /** `d` stands on a later line than `c`, or right of it. */
  predicate Beyond(f: Font, c: Cell, d: Cell) {
    c.y + f.glyphHeight <= d.y || (c.y == d.y && c.x + f.glyphWidth <= d.x)
  }

  /** No two glyphs touch the same pixel: the later stands right of the earlier, or on a later line. */
  lemma {:induction false} CellsApart(f: Font, text: seq<Byte>, a: nat, b: nat)
    requires f.advance == f.glyphWidth && a < b < |Cells(f, text)|
    ensures Beyond(f, Cells(f, text)[a], Cells(f, text)[b])
  {
    var before := text[..|text| - 1];
    if b < |Cells(f, before)| {
      CellsApart(f, before, a, b);
    } else {
      CellBehindCursor(f, before, a);
    }
  }

  /** What is drawn already stands on an earlier line than the cursor, or left of it. */
  lemma {:induction false} CellBehindCursor(f: Font, text: seq<Byte>, a: nat)
    requires f.advance == f.glyphWidth && a < |Cells(f, text)|
    ensures var c, y := Cells(f, text)[a], f.glyphHeight * (Lines(text) - 1);
            c.y + f.glyphHeight <= y || (c.y == y && c.x + f.glyphWidth <= CursorX(f, text))
  {
    var before := text[..|text| - 1];
    RowsWithin(f.glyphHeight, Lines(before), Lines(text));
    if a < |Cells(f, before)| {
      CellBehindCursor(f, before, a);
      RowsWithin(f.glyphHeight, Lines(before), Lines(before));
    }
  }

  // ---------- Pixels ----------

  function PowerOfTwo(k: nat): nat
    requires k < 8
  {
    [1, 2, 4, 8, 16, 32, 64, 128][k]
  }

  lemma BitInGlyphs(f: Font, glyph: nat, row: nat, col: nat)
    requires f.Valid() && glyph < f.numGlyphs && row < f.glyphHeight && col < f.glyphWidth
    ensures 0 <= glyph * f.bytesPerGlyph + (row * f.glyphWidth + col) / 8 < |f.glyphs|
  {
    PlaceBefore(row, col, f.glyphHeight, f.glyphWidth);
    PlaceBefore(glyph, (row * f.glyphWidth + col) / 8, f.numGlyphs, f.bytesPerGlyph);
  }

  lemma PlaceBefore(row: nat, col: nat, rows: nat, width: nat)
    requires row < rows && col < width
    ensures 0 <= row * width + col < rows * width
  {
    assert rows * width == row * width + width + (rows - row - 1) * width;
    assert (rows - row - 1) * width >= 0;
  }

  /** Whether a glyph has a pixel set: the highest bit of a byte comes first. */
  function Bit(f: Font, glyph: nat, row: nat, col: nat): bool
    requires f.Valid() && glyph < f.numGlyphs && row < f.glyphHeight && col < f.glyphWidth
  {
    BitInGlyphs(f, glyph, row, col);
    var k := row * f.glyphWidth + col;
    f.glyphs[glyph * f.bytesPerGlyph + k / 8] / PowerOfTwo(7 - k % 8) % 2 == 1
  }

  datatype Ink = Ink(fg: int, bg: int)

  predicate Inside(f: Font, x: int, y: int, px: int, py: int) {
    x <= px < x + f.glyphWidth && y <= py < y + f.glyphHeight
  }

  /** The pixel at `(px, py)`, once `was`, after a glyph drawn at `(x, y)`. */
  function Over(f: Font, glyph: nat, x: int, y: int, ink: Ink, px: int, py: int, was: int): int
    requires f.Valid() && glyph < f.numGlyphs
  {
    if !Inside(f, x, y, px, py) then was else if Bit(f, glyph, py - y, px - x) then ink.fg else ink.bg
  }

  /** ... and after all of `cells`, in turn, of a text at `(x, y)`. */
  function Painted(f: Font, cells: seq<Cell>, x: int, y: int, ink: Ink, px: int, py: int, was: int): int
    requires f.Valid() && forall k {:trigger cells[k]} :: 0 <= k < |cells| ==> cells[k].glyph < f.numGlyphs
  {
    if cells == [] then was
    else
      var c := cells[|cells| - 1];
      Over(f, c.glyph, x + c.x, y + c.y, ink, px, py, Painted(f, cells[..|cells| - 1], x, y, ink, px, py, was))
  }

  lemma {:induction false} GlyphsValid(f: Font, text: seq<Byte>)
    requires f.Valid()
    ensures forall k {:trigger Cells(f, text)[k]} :: 0 <= k < |Cells(f, text)| ==> Cells(f, text)[k].glyph < f.numGlyphs
  {
    if text != [] { GlyphsValid(f, text[..|text| - 1]); }
  }

  lemma {:induction false} PaintedElsewhere(f: Font, cells: seq<Cell>, x: int, y: int, ink: Ink, px: int, py: int,
      was: int)
    requires f.Valid() && forall k {:trigger cells[k]} :: 0 <= k < |cells| ==> cells[k].glyph < f.numGlyphs
    requires forall k {:trigger cells[k]} :: 0 <= k < |cells| ==> !Inside(f, x + cells[k].x, y + cells[k].y, px, py)
    ensures Painted(f, cells, x, y, ink, px, py, was) == was
  {
    if cells != [] { PaintedElsewhere(f, cells[..|cells| - 1], x, y, ink, px, py, was); }
  }

  /** Outside the measured box nothing changes. */
  lemma PaintedInBox(f: Font, text: seq<Byte>, x: int, y: int, ink: Ink, px: int, py: int, was: int)
    requires f.Valid()
    requires !(x <= px < x + Width(f, text) && y <= py < y + Height(f, text))
    ensures forall k {:trigger Cells(f, text)[k]} :: 0 <= k < |Cells(f, text)| ==> Cells(f, text)[k].glyph < f.numGlyphs
    ensures Painted(f, Cells(f, text), x, y, ink, px, py, was) == was
  {
    GlyphsValid(f, text);
    forall k {:trigger Cells(f, text)[k]} | 0 <= k < |Cells(f, text)|
      ensures !Inside(f, x + Cells(f, text)[k].x, y + Cells(f, text)[k].y, px, py)
    {
      CellsInBox(f, text, k);
    }
    PaintedElsewhere(f, Cells(f, text), x, y, ink, px, py, was);
  }

  lemma {:induction false} PaintedLast(f: Font, cells: seq<Cell>, k: nat, x: int, y: int, ink: Ink, px: int, py: int,
      was: int)
    requires f.Valid() && forall j {:trigger cells[j]} :: 0 <= j < |cells| ==> cells[j].glyph < f.numGlyphs
    requires k < |cells| && Inside(f, x + cells[k].x, y + cells[k].y, px, py)
    requires forall j {:trigger cells[j]} :: k < j < |cells| ==> Beyond(f, cells[k], cells[j])
    ensures Painted(f, cells, x, y, ink, px, py, was) ==
            Over(f, cells[k].glyph, x + cells[k].x, y + cells[k].y, ink, px, py, was)
  {
    var last := |cells| - 1;
    if k < last {
      assert !Inside(f, x + cells[last].x, y + cells[last].y, px, py);
      PaintedLast(f, cells[..last], k, x, y, ink, px, py, was);
    }
  }

  /** In the cell of a glyph the screen shows that glyph alone, whatever is drawn before and after it. */
  lemma PaintedCell(f: Font, text: seq<Byte>, k: nat, x: int, y: int, ink: Ink, px: int, py: int, was: int)
    requires f.Valid() && k < |Cells(f, text)|
    requires Inside(f, x + Cells(f, text)[k].x, y + Cells(f, text)[k].y, px, py)
    ensures forall i {:trigger Cells(f, text)[i]} :: 0 <= i < |Cells(f, text)| ==> Cells(f, text)[i].glyph < f.numGlyphs
    ensures var c := Cells(f, text)[k];
            Painted(f, Cells(f, text), x, y, ink, px, py, was) == Over(f, c.glyph, x + c.x, y + c.y, ink, px, py, was)
  {
    GlyphsValid(f, text);
    var cells := Cells(f, text);
    forall j | k < j < |cells| ensures Beyond(f, cells[k], cells[j]) {
      CellsApart(f, text, k, j);
    }
    PaintedLast(f, cells, k, x, y, ink, px, py, was);
  }

  // ---------- Drawing into a buffer ----------

  /** Where a row of a buffer starts. */
  function RowStart(stride: nat, py: nat): nat {
    if py == 0 then 0 else RowStart(stride, py - 1) + stride
  }

  /** The place of a pixel in a buffer with rows of `stride`. */
  function At(stride: nat, px: nat, py: nat): nat {
    RowStart(stride, py) + px
  }

  lemma {:induction false} RowStartIs(stride: nat, py: nat)
    ensures RowStart(stride, py) == py * stride
  {
    if py > 0 { RowStartIs(stride, py - 1); }
  }

  lemma {:induction false} RowsInOrder(stride: nat, a: nat, b: nat)
    requires a < b
    ensures RowStart(stride, a) + stride <= RowStart(stride, b)
  {
    if a < b - 1 { RowsInOrder(stride, a, b - 1); }
  }

  /** Every pixel has a place of its own. */
  lemma AtInjective(stride: nat, px: nat, py: nat)
    requires px < stride
    ensures forall cx: nat, cy: nat {:trigger At(stride, cx, cy)} :: cx < stride ==>
              (At(stride, cx, cy) == At(stride, px, py) <==> cx == px && cy == py)
  {
    forall cx: nat, cy: nat {:trigger At(stride, cx, cy)} | cx < stride
      ensures At(stride, cx, cy) == At(stride, px, py) <==> cx == px && cy == py
    {
      if cy < py { RowsInOrder(stride, cy, py); } else if py < cy { RowsInOrder(stride, py, cy); }
    }
  }

  /** ... and every place has a pixel. */
  lemma {:induction false} PixelAt(stride: nat, q: nat) returns (px: nat, py: nat)
    requires stride > 0
    ensures px < stride && At(stride, px, py) == q
  {
    if q < stride {
      px, py := q, 0;
    } else {
      px, py := PixelAt(stride, q - stride);
      py := py + 1;
    }
  }

  /** A buffer of `length` has all rows before `n`. */
  ghost predicate HasRows(stride: nat, length: nat, n: int) {
    forall py: nat {:trigger RowStart(stride, py)} :: py < n ==> RowStart(stride, py) + stride <= length
  }

  lemma HasRowsIs(stride: nat, length: nat, n: int)
    ensures HasRows(stride, length, n) <==> n <= 0 || n * stride <= length
  {
    if n > 0 {
      RowStartIs(stride, n - 1);
      assert (n - 1) * stride + stride == n * stride;
      forall py: nat {:trigger RowStart(stride, py)} | py < n ensures RowStart(stride, py) <= RowStart(stride, n - 1) {
        if py < n - 1 { RowsInOrder(stride, py, n - 1); }
      }
    }
  }

  method RenderRow(f: Font, glyph: nat, row: nat, pixels: array<int>, stride: nat, x: int, y: int, ink: Ink)
    requires f.Valid() && glyph < f.numGlyphs && row < f.glyphHeight
    requires x + f.glyphWidth <= stride && HasRows(stride, pixels.Length, y + f.glyphHeight)
    modifies pixels
    ensures forall px: nat, py: nat {:trigger At(stride, px, py)} ::
        px < stride && At(stride, px, py) < pixels.Length ==>
              pixels[At(stride, px, py)] == if py == y + row && x <= px < x + f.glyphWidth
                then if Bit(f, glyph, row, px - x) then ink.fg else ink.bg else old(pixels[At(stride, px, py)])
    ensures stride == 0 ==> pixels[..] == old(pixels[..])
  {
    var col := 0;
    while col < f.glyphWidth
      invariant col <= f.glyphWidth
      invariant stride == 0 ==> pixels[..] == old(pixels[..])
      invariant forall px: nat, py: nat {:trigger At(stride, px, py)} ::
          px < stride && At(stride, px, py) < pixels.Length ==>
                  pixels[At(stride, px, py)] == if py == y + row && x <= px < x + col
                    then if Bit(f, glyph, row, px - x) then ink.fg else ink.bg else old(pixels[At(stride, px, py)])
    {
      var dstX, dstY := x + col, y + row;
      if dstX >= 0 && dstY >= 0 {
        RowStartIs(stride, dstY);
        AtInjective(stride, dstX, dstY);
        assert dstY * stride + dstX == At(stride, dstX, dstY);
        pixels[dstY * stride + dstX] := if Bit(f, glyph, row, col) then ink.fg else ink.bg;
      }
      col := col + 1;
    }
  }

  /** Draws the glyph of a code point; what lies left of or above the buffer is not drawn. */
  method RenderGlyph(f: Font, codepoint: nat, pixels: array<int>, stride: nat, x: int, y: int, ink: Ink)
    requires f.Valid()
    requires x + f.glyphWidth <= stride && HasRows(stride, pixels.Length, y + f.glyphHeight)
    modifies pixels
    ensures forall px: nat, py: nat {:trigger At(stride, px, py)} ::
        px < stride && At(stride, px, py) < pixels.Length ==>
              pixels[At(stride, px, py)] ==
                Over(f, f.Index(codepoint), x, y, ink, px, py, old(pixels[At(stride, px, py)]))
    ensures stride == 0 ==> pixels[..] == old(pixels[..])
  {
    var glyph := codepoint;
    if glyph >= f.numGlyphs { glyph := 0; }
    var row := 0;
    while row < f.glyphHeight
      invariant row <= f.glyphHeight
      invariant stride == 0 ==> pixels[..] == old(pixels[..])
      invariant forall px: nat, py: nat {:trigger At(stride, px, py)} ::
          px < stride && At(stride, px, py) < pixels.Length ==>
                  pixels[At(stride, px, py)] == if py < y + row
                      then Over(f, glyph, x, y, ink, px, py, old(pixels[At(stride, px, py)]))
                                                else old(pixels[At(stride, px, py)])
    {
      RenderRow(f, glyph, row, pixels, stride, x, y, ink);
      row := row + 1;
    }
  }

  /** The pixels of a buffer are those it had, painted over with the cells of a text. */
  ghost predicate Shows(f: Font, text: seq<Byte>, stride: nat, x: int, y: int, ink: Ink, before: seq<int>,
      after: seq<int>)
    requires f.Valid() && |before| == |after|
  {
    GlyphsValid(f, text);
    && (stride == 0 ==> after == before)
    && forall px: nat, py: nat {:trigger At(stride, px, py)} :: px < stride && At(stride, px, py) < |after| ==>
         after[At(stride, px, py)] == Painted(f, Cells(f, text), x, y, ink, px, py, before[At(stride, px, py)])
  }

  /** A place in a buffer that belongs to a pixel of the measured box. */
  ghost predicate InBox(f: Font, text: seq<Byte>, stride: nat, x: int, y: int, q: nat) {
    exists px: nat, py: nat {:trigger At(stride, px, py)} :: px < stride && At(stride, px, py) == q
      && x <= px < x + Width(f, text) && y <= py < y + Height(f, text)
  }

  /** What a drawn text changes in a buffer lies in the measured box. */
  lemma ShownInBox(f: Font, text: seq<Byte>, stride: nat, x: int, y: int, ink: Ink,
                   before: seq<int>, after: seq<int>, q: nat)
    requires f.Valid() && |before| == |after| && Shows(f, text, stride, x, y, ink, before, after)
    requires q < |after| && after[q] != before[q]
    ensures InBox(f, text, stride, x, y, q)
  {
    var px, py := PixelAt(stride, q);
    if !(x <= px < x + Width(f, text) && y <= py < y + Height(f, text)) {
      PaintedInBox(f, text, x, y, ink, px, py, before[q]);
    }
  }

  /** Draws a text. A caller that has measured it and found room for the box keeps every
      write within the buffer. */
  method DrawString(f: Font, text: seq<Byte>, pixels: array<int>, stride: nat, x: int, y: int, ink: Ink)
    requires f.Valid()
    requires x + Width(f, text) <= stride
    requires y + Height(f, text) <= 0 || (y + Height(f, text)) * stride <= pixels.Length
    modifies pixels
    ensures Shows(f, text, stride, x, y, ink, old(pixels[..]), pixels[..])
    ensures forall q :: 0 <= q < pixels.Length && pixels[q] != old(pixels[q]) ==> InBox(f, text, stride, x, y, q)
  {
    HasRowsIs(stride, pixels.Length, y + Height(f, text));
    ghost var before := pixels[..];
    var cursorX, cursorY, i := x, y, 0;
    while i < |text|
      invariant i <= |text|
      invariant cursorX == x + CursorX(f, text[..i]) && cursorY == y + f.glyphHeight * (Lines(text[..i]) - 1)
      invariant Shows(f, text[..i], stride, x, y, ink, before, pixels[..])
    {
      assert text[..i + 1][..i] == text[..i];
      if text[i] == NEWLINE {
        NextLine(f.glyphHeight, Lines(text[..i]));
        ShowsStill(f, text, i, stride, x, y, ink, before, pixels[..]);
        cursorX := x;
        cursorY := cursorY + f.glyphHeight;
      } else if text[i] == TAB {
        ShowsStill(f, text, i, stride, x, y, ink, before, pixels[..]);
        cursorX := cursorX + f.advance * 4;
      } else if SignedChar(text[i]) >= 32 {
        RoomForCell(f, text, i, stride, pixels.Length, x, y);
        ghost var was := pixels[..];
        RenderGlyph(f, text[i], pixels, stride, cursorX, cursorY, ink);
        ShowsNext(f, text, i, stride, x, y, ink, before, was, pixels[..]);
        cursorX := cursorX + f.advance;
      } else {
        ShowsStill(f, text, i, stride, x, y, ink, before, pixels[..]);
      }
      i := i + 1;
    }
    assert text[..i] == text;
    forall q | 0 <= q < pixels.Length && pixels[q] != before[q] ensures InBox(f, text, stride, x, y, q) {
      ShownInBox(f, text, stride, x, y, ink, before, pixels[..], q);
    }
  }

  lemma ShowsStill(f: Font, text: seq<Byte>, i: nat, stride: nat, x: int, y: int, ink: Ink, before: seq<int>,
      now: seq<int>)
    requires f.Valid() && i < |text| && (text[i] == NEWLINE || text[i] == TAB || !Drawn(text[i]))
    requires |before| == |now| && Shows(f, text[..i], stride, x, y, ink, before, now)
    ensures Shows(f, text[..i + 1], stride, x, y, ink, before, now)
  {
    assert text[..i + 1][..i] == text[..i];
    assert Cells(f, text[..i + 1]) == Cells(f, text[..i]);
  }

  lemma NextLine(h: nat, n: nat)
    ensures h * (n + 1 - 1) == h * (n - 1) + h
  {
  }

  lemma ShowsNext(f: Font, text: seq<Byte>, i: nat, stride: nat, x: int, y: int, ink: Ink, before: seq<int>,
      was: seq<int>, now: seq<int>)
    requires f.Valid() && i < |text| && text[i] != NEWLINE && text[i] != TAB && Drawn(text[i])
    requires |before| == |was| == |now| && Shows(f, text[..i], stride, x, y, ink, before, was)
    requires forall px: nat, py: nat {:trigger At(stride, px, py)} :: px < stride && At(stride, px, py) < |now| ==>
               now[At(stride, px, py)] ==
               Over(f, f.Index(text[i]), x + CursorX(f, text[..i]), y + f.glyphHeight * (Lines(text[..i]) - 1),
                    ink, px, py, was[At(stride, px, py)])
    requires stride == 0 ==> now == was
    ensures Shows(f, text[..i + 1], stride, x, y, ink, before, now)
  {
    GlyphsValid(f, text[..i]);
    GlyphsValid(f, text[..i + 1]);
    forall px: nat, py: nat {:trigger At(stride, px, py)} | px < stride && At(stride, px, py) < |now|
      ensures now[At(stride, px, py)] ==
              Painted(f, Cells(f, text[..i + 1]), x, y, ink, px, py, before[At(stride, px, py)])
    {
      PaintedNext(f, text, i, x, y, ink, px, py, before[At(stride, px, py)]);
    }
  }

  lemma PaintedNext(f: Font, text: seq<Byte>, i: nat, x: int, y: int, ink: Ink, px: int, py: int, was: int)
    requires f.Valid() && i < |text| && text[i] != NEWLINE && text[i] != TAB && Drawn(text[i])
    requires forall k {:trigger Cells(f, text[..i])[k]} ::
               0 <= k < |Cells(f, text[..i])| ==> Cells(f, text[..i])[k].glyph < f.numGlyphs
    requires forall k {:trigger Cells(f, text[..i + 1])[k]} ::
               0 <= k < |Cells(f, text[..i + 1])| ==> Cells(f, text[..i + 1])[k].glyph < f.numGlyphs
    ensures Painted(f, Cells(f, text[..i + 1]), x, y, ink, px, py, was) ==
            Over(f, f.Index(text[i]), x + CursorX(f, text[..i]), y + f.glyphHeight * (Lines(text[..i]) - 1),
                 ink, px, py, Painted(f, Cells(f, text[..i]), x, y, ink, px, py, was))
  {
    var cells, cells' := Cells(f, text[..i]), Cells(f, text[..i + 1]);
    assert text[..i + 1][..i] == text[..i];
    assert cells'[..|cells|] == cells && |cells'| == |cells| + 1;
  }

  lemma RoomForCell(f: Font, text: seq<Byte>, i: nat, stride: nat, length: nat, x: int, y: int)
    requires f.Valid() && i < |text| && text[i] != NEWLINE && text[i] != TAB && Drawn(text[i])
    requires x + Width(f, text) <= stride && HasRows(stride, length, y + Height(f, text))
    ensures x + CursorX(f, text[..i]) + f.glyphWidth <= stride
    ensures HasRows(stride, length, y + f.glyphHeight * (Lines(text[..i]) - 1) + f.glyphHeight)
  {
    var t := text[..i + 1];
    assert t[..i] == text[..i] && text[..|text|] == text;
    CellsInBox(f, t, |Cells(f, t)| - 1);
    WidthGrows(f, text, i + 1, |text|);
    RowsWithin(f.glyphHeight, Lines(t), Lines(text));
  }
}
