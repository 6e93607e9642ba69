/** The text console as an abstract terminal: a grid of character cells and a cursor. */
module Terminal {
  import opened Words

  type Colour = c: int | 0 <= c < TWO_32

  const BACKSPACE: Byte := 8
  const TAB: Byte := 9
  const NEWLINE: Byte := 10
  const RETURN: Byte := 13
  const SPACE: Byte := 32

  /** A space looks like a cell that was never written. */
  datatype Cell = Blank | Glyph(code: Byte, fg: Colour)

  datatype Screen = Screen(cells: seq<seq<Cell>>, row: nat, col: nat)

  ghost predicate Legal(s: Screen, rows: nat, cols: nat) {
    && |s.cells| == rows && s.row < rows && s.col < cols
    && forall r :: 0 <= r < rows ==> |s.cells[r]| == cols
  }

  function CellOf(c: Byte, fg: Colour): Cell {
    if c == SPACE then Blank else Glyph(c, fg)
  }

  function BlankRow(cols: nat): (r: seq<Cell>)
    ensures |r| == cols && forall k :: 0 <= k < cols ==> r[k] == Blank
  {
    seq(cols, _ => Blank)
  }

  function Cleared(rows: nat, cols: nat): Screen {
    Screen(seq(rows, _ => BlankRow(cols)), 0, 0)
  }

  function Scrolled(cells: seq<seq<Cell>>, cols: nat): seq<seq<Cell>>
    requires |cells| > 0
  {
    cells[1..] + [BlankRow(cols)]
  }

  /** The cursor goes to the start of the next line; at the bottom the screen scrolls instead. */
  function NextLine(s: Screen, cols: nat): Screen
    requires |s.cells| > 0
  {
    if s.row + 1 < |s.cells| then Screen(s.cells, s.row + 1, 0)
    else Screen(Scrolled(s.cells, cols), |s.cells| - 1, 0)
  }

  function SetCell(cells: seq<seq<Cell>>, r: nat, c: nat, cell: Cell): seq<seq<Cell>>
    requires r < |cells| && c < |cells[r]|
  {
    cells[r := cells[r][c := cell]]
  }

  /** A character that is drawn: the cell under the cursor, then one to the right, wrapping at once. */
  function PutCell(s: Screen, cell: Cell, rows: nat, cols: nat): Screen
    requires Legal(s, rows, cols)
  {
    var t := s.(cells := SetCell(s.cells, s.row, s.col, cell), col := s.col + 1);
    if t.col >= cols then NextLine(t, cols) else t
  }

  function NextTab(col: nat): nat {
    (col + 4) / 4 * 4
  }

  /** The loop of a tab comes to an end. */
  predicate TabStops(s: Screen, cols: nat) {
    NextTab(s.col) < cols
  }

  function PutSpaces(s: Screen, n: nat, rows: nat, cols: nat): Screen
    requires Legal(s, rows, cols)
    decreases n
  {
    if n == 0 then s else
      PutCellLegal(s, Blank, rows, cols);
      PutSpaces(PutCell(s, Blank, rows, cols), n - 1, rows, cols)
  }

  /** fb_putchar. */
  function Put(s: Screen, c: Byte, fg: Colour, rows: nat, cols: nat): Screen
    requires Legal(s, rows, cols) && (c == TAB ==> TabStops(s, cols))
  {
    if c == RETURN then s.(col := 0)
    else if c == BACKSPACE then
      var col := if s.col > 0 then s.col - 1 else 0;
      Screen(SetCell(s.cells, s.row, col, Blank), s.row, col)
    else if c == TAB then PutSpaces(s, NextTab(s.col) - s.col, rows, cols)
    else if c == NEWLINE then NextLine(s, cols)
    else PutCell(s, CellOf(c, fg), rows, cols)
  }

  lemma PutCellLegal(s: Screen, cell: Cell, rows: nat, cols: nat)
    requires Legal(s, rows, cols)
    ensures Legal(PutCell(s, cell, rows, cols), rows, cols)
  {
  }

  lemma {:induction false} PutSpacesLegal(s: Screen, n: nat, rows: nat, cols: nat)
    requires Legal(s, rows, cols)
    ensures Legal(PutSpaces(s, n, rows, cols), rows, cols)
    decreases n
  {
    if n > 0 {
      PutCellLegal(s, Blank, rows, cols);
      PutSpacesLegal(PutCell(s, Blank, rows, cols), n - 1, rows, cols);
    }
  }

  lemma PutLegal(s: Screen, c: Byte, fg: Colour, rows: nat, cols: nat)
    requires Legal(s, rows, cols) && (c == TAB ==> TabStops(s, cols))
    ensures Legal(Put(s, c, fg, rows, cols), rows, cols)
  {
    if c == TAB {
      PutSpacesLegal(s, NextTab(s.col) - s.col, rows, cols);
    }
  }

  /** The control characters: a carriage return goes to the start of the row, a newline to the next row, and a backspace
      blanks the place to the left and stays there, or blanks the first place. */
  lemma ControlCharacters(s: Screen, fg: Colour, rows: nat, cols: nat)
    requires Legal(s, rows, cols)
    ensures Put(s, '\r' as int, fg, rows, cols) == Screen(s.cells, s.row, 0)
    ensures Put(s, '\n' as int, fg, rows, cols) == NextLine(s, cols)
    ensures var t, left := Put(s, 8, fg, rows, cols), if s.col == 0 then 0 else s.col - 1;
            && t.row == s.row && t.col == left
            && forall r, k :: 0 <= r < rows && 0 <= k < cols ==>
                 t.cells[r][k] == if r == s.row && k == left then Blank else s.cells[r][k]
  {
  }

  /** A tab blanks at least one and at most four places and stops at the next column that is a multiple of four. */
  lemma {:induction false} TabBlanks(s: Screen, fg: Colour, rows: nat, cols: nat)
    requires Legal(s, rows, cols) && TabStops(s, cols)
    ensures var t := Put(s, '\t' as int, fg, rows, cols);
            && Legal(t, rows, cols) && t.row == s.row && s.col < t.col <= s.col + 4 && t.col % 4 == 0
            && forall r, k :: 0 <= r < rows && 0 <= k < cols ==>
                 t.cells[r][k] == if r == s.row && s.col <= k < t.col then Blank else s.cells[r][k]
  {
    var n := NextTab(s.col) - s.col;
    PutSpacesLegal(s, n, rows, cols);
    SpacesAdvance(s, n, rows, cols);
    SpacesBlank(s, n, rows, cols);
  }

  lemma {:induction false} SpacesBlank(s: Screen, n: nat, rows: nat, cols: nat)
    requires Legal(s, rows, cols) && s.col + n < cols
    ensures var t := PutSpaces(s, n, rows, cols);
            && Legal(t, rows, cols)
            && forall r, k :: 0 <= r < rows && 0 <= k < cols ==>
                 t.cells[r][k] == if r == s.row && s.col <= k < s.col + n then Blank else s.cells[r][k]
    decreases n
  {
    if n > 0 {
      var u := PutCell(s, Blank, rows, cols);
      PutCellLegal(s, Blank, rows, cols);
      SpacesBlank(u, n - 1, rows, cols);
    }
  }

  /** A tab's loop runs while the cursor is left of the tab stop. It ends if and only if the stop lies inside the
      line: otherwise the cursor wraps first and never gets there. */
  lemma {:induction false} TabEnds(s: Screen, rows: nat, cols: nat)
    requires Legal(s, rows, cols)
    ensures TabStops(s, cols) <==> exists n :: PutSpaces(s, n, rows, cols).col >= NextTab(s.col)
  {
    var next := NextTab(s.col);
    if TabStops(s, cols) {
      SpacesAdvance(s, next - s.col, rows, cols);
    } else if n :| PutSpaces(s, n, rows, cols).col >= next {
      PutSpacesLegal(s, n, rows, cols);
    }
  }

  lemma {:induction false} SpacesAdvance(s: Screen, n: nat, rows: nat, cols: nat)
    requires Legal(s, rows, cols) && s.col + n < cols
    ensures PutSpaces(s, n, rows, cols).col == s.col + n && PutSpaces(s, n, rows, cols).row == s.row
    decreases n
  {
    if n > 0 {
      PutCellLegal(s, Blank, rows, cols);
      SpacesAdvance(PutCell(s, Blank, rows, cols), n - 1, rows, cols);
    }
  }

  lemma {:induction false} MoreSpaces(s: Screen, n: nat, rows: nat, cols: nat)
    requires Legal(s, rows, cols)
    ensures Legal(PutSpaces(s, n, rows, cols), rows, cols)
    ensures PutSpaces(s, n + 1, rows, cols) == PutCell(PutSpaces(s, n, rows, cols), Blank, rows, cols)
    decreases n
  {
    PutSpacesLegal(s, n, rows, cols);
    if n > 0 {
      PutCellLegal(s, Blank, rows, cols);
      MoreSpaces(PutCell(s, Blank, rows, cols), n - 1, rows, cols);
    }
  }

  /** A character with the colour it is printed in. */
  datatype Char = Char(code: Byte, fg: Colour)

  predicate NoTabs(text: seq<Char>) {
    forall c :: c in text ==> c.code != TAB
  }

  /** fb_putchar for every character of a coloured text. */
  function PutText(s: Screen, text: seq<Char>, rows: nat, cols: nat): (t: Screen)
    requires Legal(s, rows, cols) && NoTabs(text)
    ensures Legal(t, rows, cols)
  {
    if text == [] then s else
      var last := |text| - 1;
      assert text[last] in text;
      PutLegal(PutText(s, text[..last], rows, cols), text[last].code, text[last].fg, rows, cols);
      Put(PutText(s, text[..last], rows, cols), text[last].code, text[last].fg, rows, cols)
  }

  lemma PutTextSnoc(s: Screen, text: seq<Char>, c: Char, rows: nat, cols: nat)
    requires Legal(s, rows, cols) && NoTabs(text + [c])
    ensures c.code != TAB && NoTabs(text)
    ensures PutText(s, text + [c], rows, cols) == Put(PutText(s, text, rows, cols), c.code, c.fg, rows, cols)
  {
    assert (text + [c])[..|text|] == text && c in text + [c];
    assert forall d :: d in text ==> d in text + [c];
  }

  /** Printing one text after another is printing their concatenation. */
  lemma {:induction false} PutTextConcat(s: Screen, a: seq<Char>, b: seq<Char>, rows: nat, cols: nat)
    requires Legal(s, rows, cols) && NoTabs(a) && NoTabs(b)
    ensures PutText(s, a + b, rows, cols) == PutText(PutText(s, a, rows, cols), b, rows, cols)
  {
    if b == [] {
      assert a + b == a;
    } else {
      var front, c := b[..|b| - 1], b[|b| - 1];
      assert b == front + [c] && a + b == a + front + [c];
      hide Put, PutText, Legal;
      PutTextConcat(s, a, front, rows, cols);
      PutTextSnoc(s, a + front, c, rows, cols);
      PutTextSnoc(PutText(s, a, rows, cols), front, c, rows, cols);
    }
  }
}
