/** The character-cell text renderer `display_write_char`: a persistent cursor
    on a 30 x 20 grid of 8 x 16 pixel cells, one static pixel buffer `char_buf`
    that a glyph is rasterised into, and one display write per drawn glyph. */
module Terminal {
  import opened Board

  const FontWidth := 8
  const FontHeight := 16
  /** `CHAR_BUF_SIZE` is `FONT_WIDTH * FONT_HEIGHT * BYTES_PER_PIXEL`, a byte
      count, but it sizes a `uint16_t` array, so `char_buf` has 256 pixels of
      which a glyph fills only the first 128. */
  const CharBufSize := 256
  const GlyphPixels := 128
  const Columns := 30
  const Rows := 20
  const Cells := 600
  /** 256 codes of 16 one-byte rows each (`ibm_like816`). */
  const FontSize := 4096

  const Nul: bv8 := 0
  const CarriageReturn: bv8 := 13

  /** `char_buf_desc`: 256 entries, pitch and width 8, height 16, frame incomplete. */
  const CharDesc := BufferDesc(CharBufSize, FontWidth, FontWidth, FontHeight, true)

  /** The renderer's static state: the cursor `pos_x`, `pos_y` and the contents of `char_buf`. */
  datatype Term = Term(posX: int, posY: int, buf: seq<bv16>)

  predicate InGrid(t: Term) {
    0 <= t.posX < Columns && 0 <= t.posY < Rows
  }

  predicate ValidTerm(t: Term) {
    InGrid(t) && |t.buf| == CharBufSize
  }

  /** The cursor as a row-major cell number, 0 .. 599. */
  function CellIndex(t: Term): int {
    t.posY * Columns + t.posX
  }

  /** The state after a call and the display writes the call made, in order. */
  datatype Rendered = Rendered(term: Term, events: seq<Event>)

  /** A buffer holding the background colour in every one of its 256 entries. */
  function Blank(bg: bv16): seq<bv16> {
    seq(CharBufSize, _ => bg)
  }

  /** The write of a buffer snapshot to character cell (i, j). */
  function CellWrite(i: int, j: int, snapshot: seq<bv16>): Event {
    Written(i * FontWidth, j * FontHeight, CharDesc, Pixels(snapshot))
  }

  /** Cells 0 .. n-1 of row j, left to right. */
  function ClearRow(j: int, n: nat, snapshot: seq<bv16>): seq<Event> {
    seq(n, i => CellWrite(i, j, snapshot))
  }

  /** Every cell of rows 0 .. m-1, row by row. */
  function ClearGrid(m: nat, snapshot: seq<bv16>): (w: seq<Event>)
    ensures |w| == m * Columns
    ensures forall k :: 0 <= k < |w| ==> w[k].Written? && w[k].desc == CharDesc && w[k].frame == Pixels(snapshot)
  {
    if m == 0 then [] else ClearGrid(m - 1, snapshot) + ClearRow(m - 1, Columns, snapshot)
  }

  /** The writes that paint the whole grid with the background colour. */
  function ClearScreen(bg: bv16): (w: seq<Event>)
    ensures |w| == Cells
  {
    ClearGrid(Rows, Blank(bg))
  }

  /** Write number k of a clear of m rows goes to cell (k mod 30, k div 30). */
  lemma {:induction false} ClearGridAt(m: nat, snapshot: seq<bv16>)
    ensures |ClearGrid(m, snapshot)| == m * Columns
    ensures forall k :: 0 <= k < m * Columns ==> ClearGrid(m, snapshot)[k] == CellWrite(k % Columns, k / Columns, snapshot)
  {
    if m > 0 {
      ClearGridAt(m - 1, snapshot);
      var g := ClearGrid(m, snapshot);
      forall k | (m - 1) * Columns <= k < m * Columns
        ensures g[k] == CellWrite(k % Columns, k / Columns, snapshot)
      {
        var i := k - (m - 1) * Columns;
        assert k / Columns == m - 1 && k % Columns == i;
        assert g[k] == ClearRow(m - 1, Columns, snapshot)[i];
      }
    }
  }

  /** A clear of the screen is 600 writes of an all-background buffer, write k
      at pixel (8 * (k mod 30), 16 * (k div 30)): every cell exactly once. */
  lemma ClearScreenWrites(bg: bv16)
    ensures |ClearScreen(bg)| == Cells
    ensures forall k :: 0 <= k < Cells ==>
      ClearScreen(bg)[k] == Written((k % Columns) * FontWidth, (k / Columns) * FontHeight, CharDesc, Pixels(Blank(bg)))
  {
    ClearGridAt(Rows, Blank(bg));
  }

  /** Row j of the glyph for code ch: `font[ch * 16 + j]`, with ch an unsigned byte. */
  function FontRow(font: seq<bv8>, ch: bv8, j: int): bv8
    requires |font| == FontSize && 0 <= j < FontHeight
  {
    font[ch as int * FontHeight + j]
  }

  /** Pixel i of a font row: the foreground colour when bit `0x80 >> i` is set. */
  function GlyphPixel(row: bv8, i: int, color: bv16, bg: bv16): bv16
    requires 0 <= i < FontWidth
  {
    if row & (0x80 as bv8 >> i) != 0 then color else bg
  }

  /** The 128 pixels a glyph occupies in `char_buf`, row-major, 8 per row. */
  function Glyph(font: seq<bv8>, ch: bv8, color: bv16, bg: bv16): (g: seq<bv16>)
    requires |font| == FontSize
    ensures |g| == GlyphPixels
  {
    seq(GlyphPixels, k requires 0 <= k < GlyphPixels => GlyphPixel(FontRow(font, ch, k / FontWidth), k % FontWidth, color, bg))
  }

  /** Entry `j * 8 + i` of a glyph is pixel i of font row j. */
  lemma GlyphAt(font: seq<bv8>, ch: bv8, color: bv16, bg: bv16, i: int, j: int)
    requires |font| == FontSize && 0 <= i < FontWidth && 0 <= j < FontHeight
    ensures j * FontWidth + i < GlyphPixels
    ensures Glyph(font, ch, color, bg)[j * FontWidth + i] ==
      if font[ch as int * FontHeight + j] & (0x80 as bv8 >> i) != 0 then color else bg
  {
    var k := j * FontWidth + i;
    assert k / FontWidth == j && k % FontWidth == i;
  }

  /** Pixel (i, j) of a cell buffer: column i of row j, 8 pixels to a row. */
  function PixelAt(buf: seq<bv16>, i: int, j: int): bv16
    requires 0 <= i < FontWidth && 0 <= j < FontHeight && |buf| >= GlyphPixels
  {
    buf[j * FontWidth + i]
  }

  /** The row counter after a step: row 20 wraps back to row 0. */
  function WrapRow(y: int): int {
    if y == Rows then 0 else y
  }

  /** One call `display_write_char(dev, ch, color, bg_color)`. NUL homes the
      cursor; a cursor at (0, 0) on entry clears the buffer and paints every
      cell with it; NUL then stops, carriage return moves to the start of the
      next row, and any other byte rasterises its glyph into the first 128
      entries, writes the buffer to the cursor's cell and advances the cursor. */
  function RenderChar(t: Term, ch: bv8, color: bv16, bg: bv16, font: seq<bv8>): (r: Rendered)
    requires |t.buf| == CharBufSize && |font| == FontSize
    ensures |r.term.buf| == CharBufSize
    ensures InGrid(t) ==> InGrid(r.term)
  {
    var x0 := if ch == Nul then 0 else t.posX;
    var y0 := if ch == Nul then 0 else t.posY;
    var clears := x0 == 0 && y0 == 0;
    var buf1 := if clears then Blank(bg) else t.buf;
    var cleared := if clears then ClearGrid(Rows, buf1) else [];
    if ch == Nul then
      Rendered(Term(0, 0, buf1), cleared)
    else if ch == CarriageReturn then
      Rendered(Term(0, WrapRow(y0 + 1), buf1), cleared)
    else
      var buf2 := Glyph(font, ch, color, bg) + buf1[GlyphPixels..];
      var x1 := x0 + 1;
      var y1 := if x1 == Columns then y0 + 1 else y0;
      Rendered(Term(if x1 == Columns then 0 else x1, WrapRow(y1), buf2), cleared + [CellWrite(x0, y0, buf2)])
  }

  /** Whether a call with this byte at this cursor clears the screen first. */
  predicate ClearsFirst(t: Term, ch: bv8) {
    ch == Nul || (t.posX == 0 && t.posY == 0)
  }

  /** A byte that draws a glyph. */
  predicate Printable(ch: bv8) {
    ch != Nul && ch != CarriageReturn
  }

  /** The cursor walks the grid in row-major order and stays on it: an ordinary
      byte moves to the next cell (from the last cell back to the first), a
      carriage return to the first cell of the next row (from the last row to
      the first), and NUL to the first cell. */
  lemma RenderCharCursor(t: Term, ch: bv8, color: bv16, bg: bv16, font: seq<bv8>)
    requires ValidTerm(t) && |font| == FontSize
    ensures ValidTerm(RenderChar(t, ch, color, bg, font).term)
    ensures CellIndex(RenderChar(t, ch, color, bg, font).term) ==
      if ch == Nul then 0
      else if ch == CarriageReturn then ((t.posY + 1) % Rows) * Columns
      else (CellIndex(t) + 1) % Cells
  {
  }

  /** The display writes of one call: a full clear exactly when the cursor is at
      the origin on entry (or the byte is NUL), then exactly one write of the
      glyph buffer at the entry cursor's cell for an ordinary byte, and nothing
      else. */
  lemma RenderCharWrites(t: Term, ch: bv8, color: bv16, bg: bv16, font: seq<bv8>)
    requires ValidTerm(t) && |font| == FontSize
    ensures var r := RenderChar(t, ch, color, bg, font);
      r.events == (if ClearsFirst(t, ch) then ClearScreen(bg) else [])
                  + (if Printable(ch) then [Written(t.posX * FontWidth, t.posY * FontHeight, CharDesc, Pixels(r.term.buf))] else [])
  {
  }

  /** The buffer after one call: for an ordinary byte, pixel (i, j) of the
      glyph is `color` exactly when bit `0x80 >> i` of `font[ch * 16 + j]` is
      set, and `bg` otherwise; entries 128 .. 255 are the background colour
      after a clear and untouched otherwise. A NUL or a clearing carriage
      return leaves the buffer all background; a non-clearing carriage return
      leaves it unchanged. */
  lemma RenderCharBuffer(t: Term, ch: bv8, color: bv16, bg: bv16, font: seq<bv8>)
    requires ValidTerm(t) && |font| == FontSize
    ensures var b := RenderChar(t, ch, color, bg, font).term.buf;
      (Printable(ch) ==>
        (forall i, j :: 0 <= i < FontWidth && 0 <= j < FontHeight ==>
          PixelAt(b, i, j) == if font[ch as int * FontHeight + j] & (0x80 as bv8 >> i) != 0 then color else bg) &&
        (forall k :: GlyphPixels <= k < CharBufSize ==> b[k] == if ClearsFirst(t, ch) then bg else t.buf[k])) &&
      (!Printable(ch) ==> b == if ClearsFirst(t, ch) then Blank(bg) else t.buf)
  {
    var b := RenderChar(t, ch, color, bg, font).term.buf;
    if Printable(ch) {
      forall i, j | 0 <= i < FontWidth && 0 <= j < FontHeight
        ensures PixelAt(b, i, j) == if font[ch as int * FontHeight + j] & (0x80 as bv8 >> i) != 0 then color else bg
      {
        GlyphAt(font, ch, color, bg, i, j);
      }
    }
  }

  /** Bytes drawn one after another, as a `for` loop over a string calls the renderer. */
  function RenderString(t: Term, s: seq<bv8>, color: bv16, bg: bv16, font: seq<bv8>): (r: Rendered)
    requires |t.buf| == CharBufSize && |font| == FontSize
    ensures |r.term.buf| == CharBufSize
    ensures InGrid(t) ==> InGrid(r.term)
    decreases |s|
  {
    if s == [] then Rendered(t, [])
    else
      var p := RenderString(t, s[..|s| - 1], color, bg, font);
      var q := RenderChar(p.term, s[|s| - 1], color, bg, font);
      Rendered(q.term, p.events + q.events)
  }

  /** After NUL the renderer's state and output no longer depend on what it was:
      the cursor is homed and the whole buffer repainted before anything is drawn. */
  lemma NulForgetsState(t1: Term, t2: Term, color: bv16, bg: bv16, font: seq<bv8>)
    requires |t1.buf| == CharBufSize && |t2.buf| == CharBufSize && |font| == FontSize
    ensures RenderChar(t1, Nul, color, bg, font) == RenderChar(t2, Nul, color, bg, font)
    ensures RenderChar(t1, Nul, color, bg, font).term == Term(0, 0, Blank(bg))
  {
  }

  /** The renderer as the source keeps it: the static cursor and `char_buf`,
      the font table it reads and the display it writes to. */
  class CharTerminal {
    var posX: int
    var posY: int
    const charBuf: array<bv16>
    const font: seq<bv8>
    const io: Io

    ghost predicate Valid()
      reads this
    {
      charBuf.Length == CharBufSize && |font| == FontSize && 0 <= posX < Columns && 0 <= posY < Rows
    }

    ghost function Abs(): Term
      reads this, charBuf
    {
      Term(posX, posY, charBuf[..])
    }

    /** The statics start zeroed: cursor (0, 0), buffer all 0. */
    constructor (io: Io, font: seq<bv8>)
      requires |font| == FontSize
      ensures Valid() && fresh(charBuf)
      ensures this.io == io && this.font == font
      ensures Abs() == Term(0, 0, seq(CharBufSize, _ => 0))
    {
      posX, posY := 0, 0;
      charBuf := new bv16[CharBufSize](_ => 0);
      this.io := io;
      this.font := font;
    }

    /** The first loop of the clear: every entry of `char_buf` (its `buf_size`, 256) set to the background. */
    method FillBuffer(bgColor: bv16)
      requires Valid()
      modifies charBuf
      ensures charBuf[..] == Blank(bgColor)
    {
      var i := 0;
      while i < CharDesc.bufSize
        invariant 0 <= i <= CharBufSize
        invariant forall k :: 0 <= k < i ==> charBuf[k] == bgColor
      {
        charBuf[i] := bgColor;
        i := i + 1;
      }
    }

    /** The second part of the clear: the buffer written to every cell, row by row. */
    method WriteAllCells()
      requires Valid()
      modifies io
      ensures io.log == old(io.log) + ClearGrid(Rows, charBuf[..])
    {
      var j := 0;
      while j < Rows
        invariant 0 <= j <= Rows
        invariant io.log == old(io.log) + ClearGrid(j, charBuf[..])
      {
        var i := 0;
        while i < Columns
          invariant 0 <= i <= Columns
          invariant io.log == old(io.log) + ClearGrid(j, charBuf[..]) + ClearRow(j, i, charBuf[..])
        {
          io.DisplayWrite(i * FontWidth, j * FontHeight, CharDesc, Pixels(charBuf[..]));
          assert ClearRow(j, i + 1, charBuf[..]) == ClearRow(j, i, charBuf[..]) + [CellWrite(i, j, charBuf[..])];
          i := i + 1;
        }
        j := j + 1;
      }
    }

    /** The rasterising loops: one font row per pixel row, bit `0x80 >> i` per pixel. */
    method DrawGlyph(ch: bv8, color: bv16, bgColor: bv16)
      requires Valid()
      modifies charBuf
      ensures charBuf[..] == Glyph(font, ch, color, bgColor) + old(charBuf[..])[GlyphPixels..]
    {
      var j := 0;
      while j < FontHeight
        invariant 0 <= j <= FontHeight
        invariant forall k :: 0 <= k < j * FontWidth ==> charBuf[k] == Glyph(font, ch, color, bgColor)[k]
        invariant forall k :: j * FontWidth <= k < CharBufSize ==> charBuf[k] == old(charBuf[k])
      {
        var i := 0;
        while i < FontWidth
          invariant 0 <= i <= FontWidth
          invariant forall k :: 0 <= k < j * FontWidth + i ==> charBuf[k] == Glyph(font, ch, color, bgColor)[k]
          invariant forall k :: j * FontWidth + i <= k < CharBufSize ==> charBuf[k] == old(charBuf[k])
        {
          var pix: bv16;
          if font[ch as int * FontHeight + j] & (0x80 as bv8 >> i) != 0 {
            pix := color;
          } else {
            pix := bgColor;
          }
          GlyphAt(font, ch, color, bgColor, i, j);
          charBuf[j * FontWidth + i] := pix;
          i := i + 1;
        }
        j := j + 1;
      }
      assert charBuf[..] == Glyph(font, ch, color, bgColor) + old(charBuf[..])[GlyphPixels..];
    }

    /** `display_write_char(dev, ch, color, bg_color)`. */
    method WriteChar(ch: bv8, color: bv16, bgColor: bv16)
      requires Valid()
      modifies this, charBuf, io
      ensures Valid()
      ensures Abs() == RenderChar(old(Abs()), ch, color, bgColor, font).term
      ensures io.log == old(io.log) + RenderChar(old(Abs()), ch, color, bgColor, font).events
    {
      if ch == Nul {
        posX := 0;
        posY := 0;
      }
      if posX == 0 && posY == 0 {
        FillBuffer(bgColor);
        WriteAllCells();
      }
      if ch == Nul {
        return;
      }
      if ch == CarriageReturn {
        posX := 0;
        posY := posY + 1;
      } else {
        DrawGlyph(ch, color, bgColor);
        io.DisplayWrite(posX * FontWidth, posY * FontHeight, CharDesc, Pixels(charBuf[..]));
        posX := posX + 1;
        if posX == Columns {
          posX := 0;
          posY := posY + 1;
        }
      }
      if posY == Rows {
        posY := 0;
      }
    }
  }
}
