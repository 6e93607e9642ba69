/** What printing a text leaves on the screen, said without a cursor: the text is broken into lines, and the screen
    is a window on the last of them. */
module Layout {
  import opened Terminal

  /** Printable characters and newlines; anything else that is drawn as a block counts as printable. */
  predicate Plain(text: seq<Char>) {
    forall c :: c in text ==> c.code != TAB && c.code != RETURN && c.code != BACKSPACE
  }

  function Cells(text: seq<Char>): (r: seq<Cell>)
    ensures |r| == |text| && forall i :: 0 <= i < |text| ==> r[i] == CellOf(text[i].code, text[i].fg)
  {
    seq(|text|, i requires 0 <= i < |text| => CellOf(text[i].code, text[i].fg))
  }

  /** Length of the first line: up to a newline, the line width or the end of the text. */
  function LineLength(text: seq<Char>, cols: nat): (k: nat)
    ensures k <= |text| && k <= cols
    ensures forall i :: 0 <= i < k ==> text[i].code != NEWLINE
    ensures k < |text| && k < cols ==> text[k].code == NEWLINE
  {
    if text == [] || cols == 0 || text[0].code == NEWLINE then 0 else 1 + LineLength(text[1..], cols - 1)
  }

  /** The lines of a text, wrapped as soon as a line is full: a full line is always followed by another one. */
  function Lines(text: seq<Char>, cols: nat): (ls: seq<seq<Cell>>)
    requires cols > 0
    ensures |ls| > 0 && forall i :: 0 <= i < |ls| ==> |ls[i]| <= cols
    ensures |ls[|ls| - 1]| < cols
    decreases |text|
  {
    var k := LineLength(text, cols);
    if k == cols then [Cells(text[..k])] + Lines(text[k..], cols)
    else if k < |text| then [Cells(text[..k])] + Lines(text[k + 1..], cols)
    else [Cells(text)]
  }

  function Padded(line: seq<Cell>, cols: nat): (r: seq<Cell>)
    requires |line| <= cols
    ensures |r| == cols
  {
    line + BlankRow(cols - |line|)
  }

  function FirstShown(ls: seq<seq<Cell>>, rows: nat): nat {
    if |ls| > rows then |ls| - rows else 0
  }

  /** Line r of the screen when line `first` of the text is at the top. */
  function LineAt(ls: seq<seq<Cell>>, first: nat, r: nat, cols: nat): (line: seq<Cell>)
    requires forall i :: 0 <= i < |ls| ==> |ls[i]| <= cols
    ensures |line| == cols
  {
    if first + r < |ls| then Padded(ls[first + r], cols) else BlankRow(cols)
  }

  /** The screen that shows the last lines of a text, with the cursor after the very last one. */
  function Window(ls: seq<seq<Cell>>, rows: nat, cols: nat): (s: Screen)
    requires |ls| > 0 && rows > 0 && forall i :: 0 <= i < |ls| ==> |ls[i]| <= cols
    ensures |s.cells| == rows
    ensures forall r :: 0 <= r < rows ==> s.cells[r] == LineAt(ls, FirstShown(ls, rows), r, cols)
  {
    var first := FirstShown(ls, rows);
    Screen(seq(rows, r requires 0 <= r => LineAt(ls, first, r, cols)), |ls| - 1 - first, |ls[|ls| - 1]|)
  }

  /** Adding one character to the last line. */
  function Append(ls: seq<seq<Cell>>, c: Char, cols: nat): seq<seq<Cell>>
    requires |ls| > 0
  {
    var last := ls[|ls| - 1] + [CellOf(c.code, c.fg)];
    if c.code == NEWLINE then ls + [[]]
    else if |last| >= cols then ls[..|ls| - 1] + [last] + [[]]
    else ls[..|ls| - 1] + [last]
  }

  lemma {:induction false} LineLengthSnoc(text: seq<Char>, c: Char, cols: nat)
    requires cols > 0
    ensures var k := LineLength(text, cols);
            LineLength(text + [c], cols) == if k == |text| < cols && c.code != NEWLINE then k + 1 else k
  {
    if text != [] {
      assert (text + [c])[1..] == text[1..] + [c];
      if cols > 1 && text[0].code != NEWLINE {
        LineLengthSnoc(text[1..], c, cols - 1);
      }
    } else {
      assert (text + [c])[1..] == [];
    }
  }

  /** Breaking into lines and adding a character at the end commute. */
  lemma {:induction false} LinesSnoc(text: seq<Char>, c: Char, cols: nat)
    requires cols > 0
    ensures Lines(text + [c], cols) == Append(Lines(text, cols), c, cols)
    decreases |text|
  {
    var k := LineLength(text, cols);
    LineLengthSnoc(text, c, cols);
    if k == cols {
      assert (text + [c])[..k] == text[..k] && (text + [c])[k..] == text[k..] + [c];
      LinesSnoc(text[k..], c, cols);
      AppendCons(Cells(text[..k]), Lines(text[k..], cols), c, cols);
    } else if k < |text| {
      assert (text + [c])[..k] == text[..k] && (text + [c])[k + 1..] == text[k + 1..] + [c];
      LinesSnoc(text[k + 1..], c, cols);
      AppendCons(Cells(text[..k]), Lines(text[k + 1..], cols), c, cols);
    } else {
      assert (text + [c])[..k] == text && (text + [c])[k + 1..] == [];
      assert Lines([], cols) == [[]];
      assert Cells(text + [c]) == Cells(text) + [CellOf(c.code, c.fg)];
      assert (text + [c])[..k + 1] == text + [c];
    }
  }

  lemma AppendCons(first: seq<Cell>, ls: seq<seq<Cell>>, c: Char, cols: nat)
    requires |ls| > 0
    ensures Append([first] + ls, c, cols) == [first] + Append(ls, c, cols)
  {
    assert ([first] + ls)[..|ls|] == [first] + ls[..|ls| - 1];
  }

  lemma WindowLegal(ls: seq<seq<Cell>>, rows: nat, cols: nat)
    requires |ls| > 0 && rows > 0 && cols > 0 && forall i :: 0 <= i < |ls| ==> |ls[i]| <= cols
    requires |ls[|ls| - 1]| < cols
    ensures Legal(Window(ls, rows, cols), rows, cols)
  {
  }

  /** Starting a new line moves the window, scrolling it when the screen is full. */
  lemma WindowNextLine(ls: seq<seq<Cell>>, s: Screen, rows: nat, cols: nat)
    requires |ls| > 0 && rows > 0 && cols > 0 && forall i :: 0 <= i < |ls| ==> |ls[i]| <= cols
    requires s.cells == Window(ls, rows, cols).cells && s.row == Window(ls, rows, cols).row
    ensures NextLine(s, cols) == Window(ls + [[]], rows, cols)
  {
    var w, w' := Window(ls, rows, cols), Window(ls + [[]], rows, cols);
    var t := NextLine(s, cols);
    assert Padded([], cols) == BlankRow(cols);
    forall r | 0 <= r < rows
      ensures t.cells[r] == w'.cells[r]
    {
    }
    assert t.cells == w'.cells;
  }

  /** Writing a character fills the next place of the last line. */
  lemma WindowSetCell(ls: seq<seq<Cell>>, cell: Cell, rows: nat, cols: nat)
    requires |ls| > 0 && rows > 0 && cols > 0 && forall i :: 0 <= i < |ls| ==> |ls[i]| <= cols
    requires |ls[|ls| - 1]| < cols
    ensures var w, n := Window(ls, rows, cols), |ls|;
            var ls' := ls[..n - 1] + [ls[n - 1] + [cell]];
            && Legal(w, rows, cols)
            && SetCell(w.cells, w.row, w.col, cell) == Window(ls', rows, cols).cells
            && Window(ls', rows, cols).row == w.row
  {
    var w, n := Window(ls, rows, cols), |ls|;
    var last := ls[n - 1];
    var ls' := ls[..n - 1] + [last + [cell]];
    WindowLegal(ls, rows, cols);
    assert Padded(last, cols)[|last| := cell] == Padded(last + [cell], cols);
    hide Padded, BlankRow;
    var cells' := SetCell(w.cells, w.row, w.col, cell);
    forall r | 0 <= r < rows
      ensures cells'[r] == Window(ls', rows, cols).cells[r]
    {
    }
  }

  /** Putting one character on the screen is adding it to the text. */
  lemma WindowPut(ls: seq<seq<Cell>>, c: Char, rows: nat, cols: nat)
    requires |ls| > 0 && rows > 0 && cols > 0 && forall i :: 0 <= i < |ls| ==> |ls[i]| <= cols
    requires |ls[|ls| - 1]| < cols && Plain([c])
    ensures Legal(Window(ls, rows, cols), rows, cols)
    ensures forall i :: 0 <= i < |Append(ls, c, cols)| ==> |Append(ls, c, cols)[i]| <= cols
    ensures Put(Window(ls, rows, cols), c.code, c.fg, rows, cols) == Window(Append(ls, c, cols), rows, cols)
  {
    var w, n := Window(ls, rows, cols), |ls|;
    WindowLegal(ls, rows, cols);
    assert c in [c];
    if c.code == NEWLINE {
      WindowNextLine(ls, w, rows, cols);
    } else {
      var cell := CellOf(c.code, c.fg);
      var ls' := ls[..n - 1] + [ls[n - 1] + [cell]];
      WindowSetCell(ls, cell, rows, cols);
      if |ls[n - 1]| + 1 >= cols {
        var t := Screen(SetCell(w.cells, w.row, w.col, cell), w.row, w.col + 1);
        WindowNextLine(ls', t, rows, cols);
      }
    }
  }

  /** After a clear, printing any text leaves the last lines of the wrapped text on the screen. */
  lemma {:induction false} PrintShowsLastLines(text: seq<Char>, rows: nat, cols: nat)
    requires rows > 0 && cols > 0 && Plain(text)
    ensures Legal(Cleared(rows, cols), rows, cols)
    ensures PutText(Cleared(rows, cols), text, rows, cols) == Window(Lines(text, cols), rows, cols)
  {
    if text == [] {
      assert Lines([], cols) == [[]];
      assert Padded([], cols) == BlankRow(cols);
      assert Cleared(rows, cols).cells == Window([[]], rows, cols).cells;
    } else {
      var last := |text| - 1;
      assert text == text[..last] + [text[last]] && text[last] in text;
      PrintShowsLastLines(text[..last], rows, cols);
      LinesSnoc(text[..last], text[last], cols);
      WindowPut(Lines(text[..last], cols), text[last], rows, cols);
    }
  }
}
