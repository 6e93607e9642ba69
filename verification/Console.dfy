/** The framebuffer console: pixels in a flat array that show an abstract terminal. */
module Console {
  import opened Words
  import opened Terminal
  import opened Layout

  const CHAR_W: nat := 8
  const CHAR_H: nat := 10

  /** Ninety-six glyphs of eight rows of eight bits; the glyph of the space is empty. */
  predicate IsFont(font: seq<seq<bv8>>) {
    && |font| == 96 && (forall g :: 0 <= g < 96 ==> |font[g]| == 8)
    && forall r :: 0 <= r < 8 ==> font[0][r] == 0
  }

  /** Whether the pixel in row r and column c of a character is drawn in the foreground colour. */
  predicate Lit(font: seq<seq<bv8>>, code: Byte, r: nat, c: nat)
    requires IsFont(font) && c < 8
  {
    var idx := if code < 0x20 || code > 0x7F then 0x7F else code;
    var bits: bv8 := if r < 8 then font[idx - 0x20][r] else 0;
    bits & (0x80 >> c) != 0
  }

  lemma SpaceIsEmpty(font: seq<seq<bv8>>, r: nat, c: nat)
    requires IsFont(font) && c < 8
    ensures !Lit(font, SPACE, r, c)
  {
    NoBits(0x80 >> c);
  }

  lemma NoBits(mask: bv8)
    ensures 0 & mask == 0
  {
  }

  /** Eight dots read from left to right as binary digits, the most significant first. */
  function Binary(dots: seq<bool>): bv8 {
    if dots == [] then 0 else (Binary(dots[..|dots| - 1]) << 1) | (if dots[|dots| - 1] then 1 else 0)
  }

  /** The dots of row r of a character, from left to right. */
  function Dots(font: seq<seq<bv8>>, code: Byte, r: nat): (dots: seq<bool>)
    requires IsFont(font)
    ensures |dots| == 8 && forall c :: 0 <= c < 8 ==> dots[c] == Lit(font, code, r, c)
  {
    seq(8, c requires 0 <= c < 8 => Lit(font, code, r, c))
  }

  lemma {:induction false} BinaryOfEight(dots: seq<bool>)
    requires |dots| == 8
    ensures Binary(dots)
            == (if dots[0] then 128 else 0) | (if dots[1] then 64 else 0) | (if dots[2] then 32 else 0)
               | (if dots[3] then 16 else 0) | (if dots[4] then 8 else 0) | (if dots[5] then 4 else 0)
               | (if dots[6] then 2 else 0) | (if dots[7] then 1 else 0)
  {
    var d := dots;
    assert d[..7][..6] == d[..6] && d[..6][..5] == d[..5] && d[..5][..4] == d[..4] && d[..4][..3] == d[..3];
    assert d[..3][..2] == d[..2] && d[..2][..1] == d[..1] && d[..1][..0] == [];
    assert Binary(d[..1]) == if d[0] then 1 else 0;
    assert Binary(d[..2]) == (Binary(d[..1]) << 1) | (if d[1] then 1 else 0);
    assert Binary(d[..3]) == (Binary(d[..2]) << 1) | (if d[2] then 1 else 0);
    assert Binary(d[..4]) == (Binary(d[..3]) << 1) | (if d[3] then 1 else 0);
    assert Binary(d[..5]) == (Binary(d[..4]) << 1) | (if d[4] then 1 else 0);
    assert Binary(d[..6]) == (Binary(d[..5]) << 1) | (if d[5] then 1 else 0);
    assert Binary(d[..7]) == (Binary(d[..6]) << 1) | (if d[6] then 1 else 0);
    assert Binary(d) == (Binary(d[..7]) << 1) | (if d[7] then 1 else 0);
  }

  lemma ByteOfDots(b: bv8, dots: seq<bool>)
    requires |dots| == 8
    requires dots[0] == (b & 128 != 0) && dots[1] == (b & 64 != 0) && dots[2] == (b & 32 != 0) && dots[3] == (b & 16 != 0)
    requires dots[4] == (b & 8 != 0) && dots[5] == (b & 4 != 0) && dots[6] == (b & 2 != 0) && dots[7] == (b & 1 != 0)
    ensures Binary(dots) == b
  {
    BinaryOfEight(dots);
  }

  /** What the box of a character shows: row r < 8 of the glyph that the font has for its code, most significant bit on
      the left, and nothing in the two rows below. Codes without a glyph look like 0x7F. */
  lemma GlyphRow(font: seq<seq<bv8>>, code: Byte, r: nat)
    requires IsFont(font)
    ensures r < 8 && 0x20 <= code <= 0x7F ==> Binary(Dots(font, code, r)) == font[code - 0x20][r]
    ensures code < 0x20 || code > 0x7F ==> Dots(font, code, r) == Dots(font, 0x7F, r)
    ensures r >= 8 ==> forall c :: 0 <= c < 8 ==> !Dots(font, code, r)[c]
  {
    if r < 8 && 0x20 <= code <= 0x7F {
      var b, dots := font[code - 0x20][r], Dots(font, code, r);
      Masks();
      assert dots[0] == Lit(font, code, r, 0) && dots[1] == Lit(font, code, r, 1) && dots[2] == Lit(font, code, r, 2);
      assert dots[3] == Lit(font, code, r, 3) && dots[4] == Lit(font, code, r, 4) && dots[5] == Lit(font, code, r, 5);
      assert dots[6] == Lit(font, code, r, 6) && dots[7] == Lit(font, code, r, 7);
      ByteOfDots(b, dots);
    }
    forall c | 0 <= c < 8
      ensures r >= 8 ==> !Dots(font, code, r)[c]
    {
      NoBits(0x80 >> c);
    }
  }

  lemma Masks()
    ensures (0x80 as bv8) >> 0 == 128 && (0x80 as bv8) >> 1 == 64 && (0x80 as bv8) >> 2 == 32 && (0x80 as bv8) >> 3 == 16
    ensures (0x80 as bv8) >> 4 == 8 && (0x80 as bv8) >> 5 == 4 && (0x80 as bv8) >> 6 == 2 && (0x80 as bv8) >> 7 == 1
  {
  }

  function CellPixel(font: seq<seq<bv8>>, cell: Cell, r: nat, c: nat, bg: Colour): Colour
    requires IsFont(font) && c < 8
  {
    match cell
    case Blank => bg
    case Glyph(code, fg) => if Lit(font, code, r, c) then fg else bg
  }

  /** The pixel at row y and column x of a screen. Pixels outside the character grid are background. */
  function Pixel(font: seq<seq<bv8>>, cells: seq<seq<Cell>>, bg: Colour, y: nat, x: nat): Colour
    requires IsFont(font)
  {
    if y / 10 < |cells| && x / 8 < |cells[y / 10]| then CellPixel(font, cells[y / 10][x / 8], y % 10, x % 8, bg) else bg
  }

  lemma {:induction false} LaterLine(pitch: nat, y: nat, y': nat)
    requires y < y'
    ensures y * pitch + pitch <= y' * pitch
    decreases y'
  {
    if y + 1 < y' {
      LaterLine(pitch, y, y' - 1);
    }
  }

  lemma IndexInjective(pitch: nat, y: nat, x: nat, y': nat, x': nat)
    requires x < pitch && x' < pitch && y * pitch + x == y' * pitch + x'
    ensures y == y' && x == x'
  {
    if y < y' {
      LaterLine(pitch, y, y');
    } else if y' < y {
      LaterLine(pitch, y', y);
    }
  }

  lemma IndexBound(pitch: nat, height: nat, y: nat, x: nat)
    requires x < pitch && y < height
    ensures y * pitch + x < height * pitch
  {
    LaterLine(pitch, y, height);
  }

  /** One pixel after drawing a character in cell (r, c) of a screen. */
  lemma DrawnPixel(font: seq<seq<bv8>>, cells: seq<seq<Cell>>, bg: Colour, r: nat, c: nat,
                   code: Byte, fg: Colour, y: nat, x: nat)
    requires IsFont(font) && r < |cells| && c < |cells[r]|
    ensures Pixel(font, SetCell(cells, r, c, CellOf(code, fg)), bg, y, x)
            == if r * CHAR_H <= y < r * CHAR_H + CHAR_H && c * CHAR_W <= x < c * CHAR_W + CHAR_W then
                 (if Lit(font, code, y - r * CHAR_H, x - c * CHAR_W) then fg else bg)
               else Pixel(font, cells, bg, y, x)
  {
    if code == SPACE && r * CHAR_H <= y < r * CHAR_H + CHAR_H && c * CHAR_W <= x < c * CHAR_W + CHAR_W {
      SpaceIsEmpty(font, y - r * CHAR_H, x - c * CHAR_W);
    }
  }

  /** Scrolling the pixels by one character height scrolls the cells by one line, for every screen height: the
      lines below the grid and the new last line are background. */
  lemma ScrolledPixel(font: seq<seq<bv8>>, cells: seq<seq<Cell>>, bg: Colour, cols: nat, height: nat, y: nat, x: nat)
    requires IsFont(font) && |cells| == height / 10 > 0 && y < height
    ensures Pixel(font, Scrolled(cells, cols), bg, y, x)
            == if y + CHAR_H < height then Pixel(font, cells, bg, y + CHAR_H, x) else bg
  {
    assert (y + 10) / 10 == y / 10 + 1 && (y + 10) % 10 == y % 10;
  }

  lemma ScrolledShape(cells: seq<seq<Cell>>, cols: nat)
    requires |cells| > 0 && forall r :: 0 <= r < |cells| ==> |cells[r]| == cols
    ensures |Scrolled(cells, cols)| == |cells|
    ensures forall r :: 0 <= r < |cells| ==> |Scrolled(cells, cols)[r]| == cols
  {
  }

  /** A cleared screen is legal, and all its pixels are background. */
  lemma ClearedPixels(font: seq<seq<bv8>>, bg: Colour, rows: nat, cols: nat)
    requires IsFont(font) && rows > 0 && cols > 0
    ensures Legal(Cleared(rows, cols), rows, cols)
    ensures forall y: nat, x: nat :: Pixel(font, Cleared(rows, cols).cells, bg, y, x) == bg
  {
  }

  class Framebuffer {
    const font: seq<seq<bv8>>
    const fb: array<Colour>
    var width: nat
    var height: nat
    var pitch: nat
    var cols: nat
    var rows: nat
    var curCol: nat
    var curRow: nat
    var fg: Colour
    var bg: Colour
    ghost var cells: seq<seq<Cell>>

    /** The geometry fits the memory behind the framebuffer, and pixel indices fit in 32 bits. */
    ghost predicate Shaped()
      reads this
    {
      && IsFont(font) && CHAR_W <= width <= pitch && CHAR_H <= height
      && height * pitch <= fb.Length && height * pitch < TWO_32
      && cols == width / CHAR_W && rows == height / CHAR_H
    }

    function At(y: nat, x: nat): Colour
      requires Shaped() && y < height && x < width
      reads this, fb
    {
      IndexBound(pitch, height, y, x);
      fb[y * pitch + x]
    }

    /** The pixels show the given cells. */
    ghost predicate Shows(cs: seq<seq<Cell>>)
      requires Shaped()
      reads this, fb
    {
      forall y, x :: 0 <= y < height && 0 <= x < width ==> At(y, x) == Pixel(font, cs, bg, y, x)
    }

    ghost function View(): Screen
      reads this
    {
      Screen(cells, curRow, curCol)
    }

    ghost predicate Valid()
      reads this, fb
    {
      Shaped() && Legal(View(), rows, cols) && Shows(cells)
    }

    method Store(y: nat, x: nat, v: Colour)
      requires Shaped() && y < height && x < width
      modifies fb
      ensures forall y', x' :: 0 <= y' < height && 0 <= x' < width ==>
                At(y', x') == if y' == y && x' == x then v else old(At(y', x'))
    {
      IndexBound(pitch, height, y, x);
      fb[y * pitch + x] := v;
      forall y', x' | 0 <= y' < height && 0 <= x' < width
        ensures At(y', x') == if y' == y && x' == x then v else old(At(y', x'))
      {
        IndexBound(pitch, height, y', x');
        if y' * pitch + x' == y * pitch + x {
          IndexInjective(pitch, y, x, y', x');
        }
      }
    }

    /** draw_glyph: the pixels of one character at (py, px), clipped to the screen. */
    method DrawGlyph(px: nat, py: nat, c: Byte, fg: Colour, bg: Colour)
      requires Shaped()
      modifies fb
      ensures forall y, x :: 0 <= y < height && 0 <= x < width ==>
                At(y, x) == if py <= y < py + CHAR_H && px <= x < px + CHAR_W then
                              (if Lit(font, c, y - py, x - px) then fg else bg)
                            else old(At(y, x))
    {
      for row := 0 to CHAR_H
        invariant forall y, x :: 0 <= y < height && 0 <= x < width ==>
                    At(y, x) == if py <= y < py + row && px <= x < px + CHAR_W then
                                  (if Lit(font, c, y - py, x - px) then fg else bg)
                                else old(At(y, x))
      {
        for col := 0 to CHAR_W
          invariant forall y, x :: 0 <= y < height && 0 <= x < width ==>
                      At(y, x) == if (py <= y < py + row && px <= x < px + CHAR_W) ||
                                     (y == py + row && px <= x < px + col) then
                                    (if Lit(font, c, y - py, x - px) then fg else bg)
                                  else old(At(y, x))
        {
          var pixel := if Lit(font, c, row, col) then fg else bg;
          var y, x := py + row, px + col;
          if x < width && y < height {
            Store(y, x, pixel);
          }
        }
      }
    }

    /** scroll_up: all pixel rows move up by one character height; the last ones become background. */
    method ScrollUp()
      requires Shaped()
      modifies fb
      ensures forall y, x :: 0 <= y < height && 0 <= x < width ==>
                At(y, x) == if y + CHAR_H < height then old(At(y + CHAR_H, x)) else bg
    {
      for y := 0 to height - CHAR_H
        invariant forall y', x' :: 0 <= y' < height && 0 <= x' < width ==>
                    At(y', x') == if y' < y then old(At(y' + CHAR_H, x')) else old(At(y', x'))
      {
        for x := 0 to width
          invariant forall y', x' :: 0 <= y' < height && 0 <= x' < width ==>
                      At(y', x') == if y' < y || (y' == y && x' < x) then old(At(y' + CHAR_H, x')) else old(At(y', x'))
        {
          Store(y, x, At(y + CHAR_H, x));
        }
      }
      FillFrom(height - CHAR_H);
    }

    /** The fill loops of scroll_up and fb_clear: background from pixel row top down. */
    method FillFrom(top: nat)
      requires Shaped() && top <= height
      modifies fb
      ensures forall y, x :: 0 <= y < height && 0 <= x < width ==> At(y, x) == if y < top then old(At(y, x)) else bg
    {
      for y := top to height
        invariant forall y', x' :: 0 <= y' < height && 0 <= x' < width ==>
                    At(y', x') == if top <= y' < y then bg else old(At(y', x'))
      {
        for x := 0 to width
          invariant forall y', x' :: 0 <= y' < height && 0 <= x' < width ==>
                      At(y', x') == if top <= y' < y || (y' == y && x' < x) then bg else old(At(y', x'))
        {
          Store(y, x, bg);
        }
      }
    }

    /** fb_init. */
    constructor (font: seq<seq<bv8>>, fb: array<Colour>, width: nat, height: nat, pitch: nat, fg: Colour, bg: Colour)
      requires IsFont(font) && CHAR_W <= width <= pitch / 4 && CHAR_H <= height
      requires height * (pitch / 4) <= fb.Length && height * (pitch / 4) < TWO_32
      modifies fb
      ensures Valid() && this.fb == fb && this.width == width && this.height == height && this.pitch == pitch / 4
      ensures this.font == font && this.fg == fg && this.bg == bg && View() == Cleared(rows, cols)
      ensures cols == width / 8 && rows == height / 10
    {
      this.font, this.fb, this.width, this.height, this.pitch := font, fb, width, height, pitch / 4;
      this.fg, this.bg, cols, rows := fg, bg, width / CHAR_W, height / CHAR_H;
      curCol, curRow := 0, 0;
      new;
      Clear();
    }

    /** fb_set_color: with an unchanged background the screen still shows its cells. */
    method SetColor(fg: Colour, bg: Colour)
      requires Shaped()
      modifies this`fg, this`bg
      ensures Shaped() && this.fg == fg && this.bg == bg
      ensures old(Valid()) && bg == old(this.bg) ==> Valid()
    {
      this.fg, this.bg := fg, bg;
      if old(Valid()) && bg == old(this.bg) {
        assert forall y, x :: 0 <= y < height && 0 <= x < width ==> At(y, x) == old(At(y, x));
      }
    }

    /** fb_clear. */
    method Clear()
      requires Shaped()
      modifies this`curCol, this`curRow, this`cells, fb
      ensures Valid() && View() == Cleared(rows, cols)
    {
      ClearedPixels(font, bg, rows, cols);
      assert Cleared(rows, cols).row == 0 && Cleared(rows, cols).col == 0;
      hide Pixel, Cleared;
      FillFrom(0);
      forall y, x | 0 <= y < height && 0 <= x < width
        ensures At(y, x) == Pixel(font, Cleared(rows, cols).cells, bg, y, x)
      {
      }
      curCol, curRow := 0, 0;
      cells := Cleared(rows, cols).cells;
    }

    /** The end of a line: the cursor moves down, or the screen scrolls. */
    method LineFeed()
      requires Shaped() && Shows(cells) && |cells| == rows && curRow < rows
      requires forall r :: 0 <= r < rows ==> |cells[r]| == cols
      modifies this`curCol, this`curRow, this`cells, fb
      ensures Valid() && View() == NextLine(old(View()), cols)
    {
      hide Pixel, Scrolled;
      curCol := 0;
      curRow := curRow + 1;
      if curRow >= rows {
        ScrollUp();
        ghost var cells' := Scrolled(cells, cols);
        ScrolledShape(cells, cols);
        forall y, x | 0 <= y < height && 0 <= x < width
          ensures At(y, x) == Pixel(font, cells', bg, y, x)
        {
          ScrolledPixel(font, cells, bg, cols, height, y, x);
        }
        cells := cells';
        curRow := rows - 1;
      }
    }

    /** fb_putchar. A tab must stop inside the line. */
    method PutChar(c: Byte)
      requires Valid() && (c == TAB ==> TabStops(View(), cols))
      modifies this`curCol, this`curRow, this`cells, fb
      ensures Valid() && View() == Put(old(View()), c, fg, rows, cols)
      decreases if c == TAB then 2 else 0
    {
      if c == RETURN {
        curCol := 0;
      } else if c == BACKSPACE {
        if curCol > 0 {
          curCol := curCol - 1;
        }
        Draw(SPACE);
      } else if c == TAB {
        PutTab();
      } else if c == NEWLINE {
        LineFeed();
      } else {
        Draw(c);
        curCol := curCol + 1;
        if curCol >= cols {
          LineFeed();
        }
      }
    }

    /** The loop of a tab. */
    method PutTab()
      requires Valid() && TabStops(View(), cols)
      modifies this`curCol, this`curRow, this`cells, fb
      ensures Valid() && View() == Put(old(View()), TAB, fg, rows, cols)
      decreases 1
    {
      hide Pixel, SetCell, Scrolled;
      ghost var s := View();
      var nextTab := (curCol + 4) / 4 * 4;
      while curCol < nextTab
        invariant Valid() && s.col <= curCol <= nextTab && View() == PutSpaces(s, curCol - s.col, rows, cols)
      {
        MoreSpaces(s, curCol - s.col, rows, cols);
        SpacesAdvance(s, curCol + 1 - s.col, rows, cols);
        PutChar(SPACE);
      }
    }

    /** Draws a character in the cell under the cursor. */
    method Draw(c: Byte)
      requires Valid()
      modifies this`cells, fb
      ensures Valid() && cells == SetCell(old(cells), curRow, curCol, CellOf(c, fg))
    {
      hide Pixel, Lit;
      DrawGlyph(curCol * CHAR_W, curRow * CHAR_H, c, fg, bg);
      ghost var cells' := SetCell(cells, curRow, curCol, CellOf(c, fg));
      forall y, x | 0 <= y < height && 0 <= x < width
        ensures At(y, x) == Pixel(font, cells', bg, y, x)
      {
        DrawnPixel(font, cells, bg, curRow, curCol, c, fg, y, x);
      }
      cells := cells';
    }

    /** fb_print. */
    method Print(text: seq<Byte>)
      requires Valid() && TAB !in text
      modifies this`curCol, this`curRow, this`cells, fb
      ensures Valid() && View() == PutText(old(View()), Coloured(text, fg), rows, cols)
    {
      hide Pixel, Put;
      ghost var all, s := Coloured(text, fg), View();
      for i := 0 to |text|
        invariant Valid() && View() == PutText(s, all[..i], rows, cols)
      {
        assert all[..i + 1][..i] == all[..i];
        PutChar(text[i]);
      }
      assert all[..|text|] == all;
    }
  }

  /** A text in one colour. */
  function Coloured(text: seq<Byte>, fg: Colour): (t: seq<Char>)
    ensures |t| == |text| && forall i :: 0 <= i < |text| ==> t[i] == Char(text[i], fg)
  {
    seq(|text|, i requires 0 <= i < |text| => Char(text[i], fg))
  }

  /** The box of a cell lies on the screen, and its pixels belong to this cell only. */
  lemma CellBox(height: nat, width: nat, r: nat, c: nat, y: nat, x: nat)
    requires r < height / 10 && c < width / 8 && y < 10 && x < 8
    ensures r * 10 + y < height && c * 8 + x < width
    ensures (r * 10 + y) / 10 == r && (r * 10 + y) % 10 == y && (c * 8 + x) / 8 == c && (c * 8 + x) % 8 == x
  {
  }

  lemma CellShown(f: Framebuffer, r: nat, c: nat, y: nat, x: nat)
    requires f.Valid() && r < f.rows && c < f.cols && y < 10 && x < 8
    ensures r * 10 + y < f.height && c * 8 + x < f.width
    ensures f.At(r * 10 + y, c * 8 + x) == CellPixel(f.font, f.cells[r][c], y, x, f.bg)
  {
    CellBox(f.height, f.width, r, c, y, x);
    PixelOfCell(f.font, f.cells, f.bg, r, c, y, x);
    hide Pixel, CellPixel;
    assert f.At(r * 10 + y, c * 8 + x) == Pixel(f.font, f.cells, f.bg, r * 10 + y, c * 8 + x);
  }

  lemma PixelOfCell(font: seq<seq<bv8>>, cells: seq<seq<Cell>>, bg: Colour, r: nat, c: nat, y: nat, x: nat)
    requires IsFont(font) && r < |cells| && c < |cells[r]| && y < 10 && x < 8
    ensures Pixel(font, cells, bg, r * 10 + y, c * 8 + x) == CellPixel(font, cells[r][c], y, x, bg)
  {
    assert (r * 10 + y) / 10 == r && (r * 10 + y) % 10 == y && (c * 8 + x) / 8 == c && (c * 8 + x) % 8 == x;
    hide Lit;
  }

  /** A character on the screen, from the pixels alone: row y of its box, read from left to right as binary digits where
      the foreground is 1, is row y of the glyph the font has for its code, or for 0x7F when it has none. The last two
      rows are empty, and every pixel of the box has one of the two colours. */
  lemma ShownGlyph(f: Framebuffer, r: nat, c: nat, y: nat, dots: seq<bool>)
    requires f.Valid() && r < f.rows && c < f.cols && f.cells[r][c].Glyph? && f.cells[r][c].fg != f.bg && y < 10
    requires |dots| == 8 && forall x :: 0 <= x < 8 ==> dots[x] == Inked(f, r, c, y, x)
    ensures var code := f.cells[r][c].code;
            && (y < 8 && 0x20 <= code <= 0x7F ==> Binary(dots) == f.font[code - 0x20][y])
            && (y < 8 && !(0x20 <= code <= 0x7F) ==> Binary(dots) == f.font[95][y])
            && (y >= 8 ==> forall x :: 0 <= x < 8 ==> !dots[x])
    ensures forall x :: 0 <= x < 8 && !dots[x] ==> Bare(f, r, c, y, x)
  {
    var code := f.cells[r][c].code;
    GlyphRow(f.font, code, y);
    GlyphRow(f.font, 0x7F, y);
    forall x | 0 <= x < 8
      ensures dots[x] == Lit(f.font, code, y, x) && (!dots[x] ==> Bare(f, r, c, y, x))
    {
      CellShown(f, r, c, y, x);
      hide Lit, Binary;
    }
    hide Lit, Binary, Inked, Bare, CellPixel;
    assert dots == Dots(f.font, code, y);
  }

  /** Pixel (y, x) of the box of cell (r, c) has the foreground colour of its character. */
  ghost predicate Inked(f: Framebuffer, r: nat, c: nat, y: nat, x: nat)
    requires f.Valid() && r < f.rows && c < f.cols && f.cells[r][c].Glyph?
    reads f, f.fb
  {
    r * 10 + y < f.height && c * 8 + x < f.width && f.At(r * 10 + y, c * 8 + x) == f.cells[r][c].fg
  }

  /** Pixel (y, x) of the box of cell (r, c) has the background colour. */
  ghost predicate Bare(f: Framebuffer, r: nat, c: nat, y: nat, x: nat)
    requires f.Valid()
    reads f, f.fb
  {
    r * 10 + y < f.height && c * 8 + x < f.width && f.At(r * 10 + y, c * 8 + x) == f.bg
  }

  /** A screen on which a text has been printed since it was cleared shows, pixel by pixel, the last lines of that
      text and background everywhere else. */
  lemma PixelsShowLastLines(f: Framebuffer, text: seq<Char>)
    requires f.Valid() && Plain(text) && Legal(Cleared(f.rows, f.cols), f.rows, f.cols)
    requires f.View() == PutText(Cleared(f.rows, f.cols), text, f.rows, f.cols)
    ensures f.Shows(Window(Lines(text, f.cols), f.rows, f.cols).cells)
  {
    PrintShowsLastLines(text, f.rows, f.cols);
  }
}
