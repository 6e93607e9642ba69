/** The shell's edit loop: keys become an edit buffer and, at the same time, characters on the screen. */
module Shell {
  import opened Words
  import opened Terminal
  import opened Layout
  import Console
  import Keyboard

  const BUF_SIZE: nat := 128
  const WHITE: Colour := 0x00FFFFFF
  const CYAN: Colour := 0x0000CCCC
  const DARK: Colour := 0x00111122
  /** "NovaOS> " */
  const PROMPT: seq<Byte> := [78, 111, 118, 97, 79, 83, 62, 32]

  predicate Printable(c: Byte) {
    32 <= c <= 126
  }

  // The line editor without a screen.

  /** One key that is not Enter: append, drop when full, or take back. */
  function Edit(line: seq<Byte>, c: Byte): seq<Byte> {
    if c == BACKSPACE then (if line == [] then [] else line[..|line| - 1])
    else if Printable(c) && |line| < BUF_SIZE - 1 then line + [c]
    else line
  }

  /** The line typed since the last Enter. */
  function Line(keys: seq<Byte>): (line: seq<Byte>)
    ensures |line| < BUF_SIZE && forall c :: c in line ==> Printable(c)
  {
    if keys == [] || keys[|keys| - 1] == NEWLINE then [] else Edit(Line(keys[..|keys| - 1]), keys[|keys| - 1])
  }

  /** The commands handed over so far: the line at each Enter. */
  function Commands(keys: seq<Byte>): seq<seq<Byte>> {
    if keys == [] then [] else
      var front := keys[..|keys| - 1];
      if keys[|keys| - 1] == NEWLINE then Commands(front) + [Line(front)] else Commands(front)
  }

  /** A string in memory ends at its first zero byte. */
  function CString(bytes: seq<Byte>): seq<Byte> {
    if bytes == [] || bytes[0] == 0 then [] else [bytes[0]] + CString(bytes[1..])
  }

  lemma {:induction false} CStringIsLine(bytes: seq<Byte>, n: nat)
    requires n < |bytes| && bytes[n] == 0 && forall i :: 0 <= i < n ==> bytes[i] != 0
    ensures CString(bytes) == bytes[..n]
  {
    if n > 0 {
      CStringIsLine(bytes[1..], n - 1);
      assert bytes[..n] == [bytes[0]] + bytes[1..][..n - 1];
    }
  }

  // What a command does to the screen.

  datatype Effect = Clear | Show(c: Char)

  /** Any number of clears and plain characters. */
  predicate Harmless(es: seq<Effect>) {
    forall e :: e in es && e.Show? ==> e.c.code != TAB && e.c.code != RETURN && e.c.code != BACKSPACE
  }

  /** The output of a command, or of shell_init: nothing at all or ending at the start of a line. */
  predicate IsReply(es: seq<Effect>) {
    Harmless(es) && (es == [] || es[|es| - 1].Clear? || es[|es| - 1].c.code == NEWLINE)
  }

  function Applied(s: Screen, e: Effect, rows: nat, cols: nat): (t: Screen)
    requires Legal(s, rows, cols) && Harmless([e])
    ensures Legal(t, rows, cols)
  {
    assert e in [e];
    match e
    case Clear => Cleared(rows, cols)
    case Show(c) => PutLegal(s, c.code, c.fg, rows, cols); Put(s, c.code, c.fg, rows, cols)
  }

  function Perform(s: Screen, es: seq<Effect>, rows: nat, cols: nat): (t: Screen)
    requires Legal(s, rows, cols) && Harmless(es)
    ensures Legal(t, rows, cols)
  {
    if es == [] then s else
      var last := es[|es| - 1];
      assert last in es;
      Applied(Perform(s, es[..|es| - 1], rows, cols), last, rows, cols)
  }

  function PromptText(): (text: seq<Char>)
    ensures NoTabs(text) && Plain(text) && |text| == 8 && forall c :: c in text ==> c.code != NEWLINE
  {
    Console.Coloured(PROMPT, CYAN)
  }

  /** The prompt, spelled out, in cyan, and the line after it in white. */
  lemma PromptReads(line: seq<Byte>)
    ensures var p, v := "NovaOS> ", Visible(line);
            && |v| == 8 + |line|
            && (forall i :: 0 <= i < 8 ==> v[i] == Char(p[i] as int, 0x00CCCC))
            && (forall i :: 0 <= i < |line| ==> v[8 + i] == Char(line[i], 0xFFFFFF))
  {
  }

  /** The effects of printing a text. */
  function Shows(text: seq<Char>): (es: seq<Effect>)
    ensures |es| == |text| && forall i :: 0 <= i < |text| ==> es[i] == Show(text[i])
  {
    seq(|text|, i requires 0 <= i < |text| => Show(text[i]))
  }

  /** Output without a clear is printing: what was on the screen moves up as far as the text needs. */
  lemma {:induction false} PerformText(s: Screen, text: seq<Char>, rows: nat, cols: nat)
    requires Legal(s, rows, cols) && Plain(text)
    ensures Harmless(Shows(text)) && NoTabs(text)
    ensures Perform(s, Shows(text), rows, cols) == PutText(s, text, rows, cols)
  {
    forall e | e in Shows(text)
      ensures e.Show? && e.c in text
    {
    }
    if text != [] {
      var last := |text| - 1;
      assert Shows(text)[..last] == Shows(text[..last]);
      assert forall c :: c in text[..last] ==> c in text;
      PerformText(s, text[..last], rows, cols);
    }
  }

  /** After a clear, only what is printed later remains: the last lines of that text, wrapped at the line width. */
  lemma {:induction false} PerformClear(s: Screen, es: seq<Effect>, text: seq<Char>, rows: nat, cols: nat)
    requires Legal(s, rows, cols) && Harmless(es) && Plain(text)
    ensures Harmless(es + [Clear] + Shows(text))
    ensures Perform(s, es + [Clear] + Shows(text), rows, cols) == Window(Lines(text, cols), rows, cols)
  {
    var before := es + [Clear];
    assert before[..|es|] == es && Harmless(before);
    PerformText(s, text, rows, cols);
    PerformConcat(s, before, Shows(text), rows, cols);
    assert Perform(s, before, rows, cols) == Cleared(rows, cols);
    PerformText(Cleared(rows, cols), text, rows, cols);
    PrintShowsLastLines(text, rows, cols);
  }

  lemma {:induction false} PerformConcat(s: Screen, a: seq<Effect>, b: seq<Effect>, rows: nat, cols: nat)
    requires Legal(s, rows, cols) && Harmless(a) && Harmless(b)
    ensures Harmless(a + b)
    ensures Perform(s, a + b, rows, cols) == Perform(Perform(s, a, rows, cols), b, rows, cols)
  {
    if b == [] {
      assert a + b == a;
    } else {
      var front, e := b[..|b| - 1], b[|b| - 1];
      assert b == front + [e] && a + b == a + front + [e] && e in b;
      assert forall d :: d in front ==> d in b;
      PerformConcat(s, a, front, rows, cols);
      PerformSnoc(s, a + front, e, rows, cols);
      PerformSnoc(Perform(s, a, rows, cols), front, e, rows, cols);
    }
  }

  lemma PerformSnoc(s: Screen, es: seq<Effect>, e: Effect, rows: nat, cols: nat)
    requires Legal(s, rows, cols) && Harmless(es) && Harmless([e])
    ensures Harmless(es + [e])
    ensures Perform(s, es + [e], rows, cols) == Applied(Perform(s, es, rows, cols), e, rows, cols)
  {
    assert (es + [e])[..|es|] == es && e in [e];
  }

  // The shell: screen, edit buffer and commands together.

  datatype Session = Session(screen: Screen, line: seq<Byte>, commands: seq<seq<Byte>>)

  /** The screen and the buffer before the first key. */
  function Start(greeting: seq<Effect>, rows: nat, cols: nat): (s: Session)
    requires rows > 0 && cols > 0 && IsReply(greeting)
    ensures Legal(s.screen, rows, cols)
  {
    Session(PutText(Perform(Cleared(rows, cols), greeting, rows, cols), PromptText(), rows, cols), [], [])
  }

  /** One key. `reply` is the output of the command if the key is Enter. */
  function Step(s: Session, c: Byte, reply: seq<Effect>, rows: nat, cols: nat): (t: Session)
    requires Legal(s.screen, rows, cols) && IsReply(reply)
    ensures Legal(t.screen, rows, cols)
  {
    PutLegal(s.screen, if c == TAB then SPACE else c, WHITE, rows, cols);
    if c == NEWLINE then
      var after := Perform(Put(s.screen, NEWLINE, WHITE, rows, cols), reply, rows, cols);
      Session(PutText(after, PromptText(), rows, cols), [], s.commands + [s.line])
    else if c == BACKSPACE then
      if s.line == [] then s
      else Session(Put(s.screen, BACKSPACE, WHITE, rows, cols), s.line[..|s.line| - 1], s.commands)
    else if Printable(c) && |s.line| < BUF_SIZE - 1 then
      Session(Put(s.screen, c, WHITE, rows, cols), s.line + [c], s.commands)
    else s
  }

  /** What the commands output may depend on anything: here, on how many came before. */
  ghost predicate Replies(reply: nat -> seq<Effect>) {
    forall n: nat :: IsReply(reply(n))
  }

  ghost function Run(greeting: seq<Effect>, keys: seq<Byte>, reply: nat -> seq<Effect>, rows: nat, cols: nat): (s: Session)
    requires rows > 0 && cols > 0 && IsReply(greeting) && Replies(reply)
    ensures Legal(s.screen, rows, cols)
  {
    if keys == [] then Start(greeting, rows, cols) else
      var s := Run(greeting, keys[..|keys| - 1], reply, rows, cols);
      Step(s, keys[|keys| - 1], reply(|s.commands|), rows, cols)
  }

  // What can be read on the screen.

  /** Everything after the cursor is blank. */
  ghost predicate Clean(s: Screen, cols: nat) {
    && s.row < |s.cells|
    && (forall r, k :: s.row < r < |s.cells| && 0 <= k < |s.cells[r]| ==> s.cells[r][k] == Blank)
    && (forall k :: s.col <= k < |s.cells[s.row]| ==> s.cells[s.row][k] == Blank)
  }

  /** The cursor's row reads `text` and then blanks, and the cursor stands just after the text. */
  ghost predicate Reads(s: Screen, text: seq<Char>, cols: nat) {
    && s.col == |text| <= cols && s.row < |s.cells|
    && s.cells[s.row] == Padded(Cells(text), cols)
  }

  /** What should be visible: the prompt, the edit buffer, and the cursor after it. */
  function Visible(line: seq<Byte>): seq<Char> {
    PromptText() + Console.Coloured(line, WHITE)
  }

  /** Since the last Enter, the prompt and the line always left room for the cursor in the same row. */
  ghost predicate Fits(keys: seq<Byte>, cols: nat) {
    8 + |Line(keys)| < cols && (keys != [] && keys[|keys| - 1] != NEWLINE ==> Fits(keys[..|keys| - 1], cols))
  }

  lemma CleanLineStart(s: Screen, rows: nat, cols: nat)
    requires Legal(s, rows, cols) && Clean(s, cols) && s.col == 0
    ensures Reads(s, [], cols)
  {
    assert s.cells[s.row] == Padded(Cells([]), cols);
  }

  /** A character that fits extends what the row reads. */
  lemma ReadsPut(s: Screen, text: seq<Char>, c: Char, rows: nat, cols: nat)
    requires Legal(s, rows, cols) && Reads(s, text, cols) && |text| + 1 < cols && Plain([c]) && c.code != NEWLINE
    ensures Reads(Put(s, c.code, c.fg, rows, cols), text + [c], cols)
  {
    assert c in [c];
    var t := Put(s, c.code, c.fg, rows, cols);
    assert Cells(text + [c]) == Cells(text) + [CellOf(c.code, c.fg)];
    assert Padded(Cells(text), cols)[|text| := CellOf(c.code, c.fg)] == Padded(Cells(text + [c]), cols);
  }

  lemma {:induction false} ReadsText(s: Screen, text: seq<Char>, more: seq<Char>, rows: nat, cols: nat)
    requires Legal(s, rows, cols) && Reads(s, text, cols) && |text| + |more| < cols
    requires Plain(more) && forall c :: c in more ==> c.code != NEWLINE
    ensures Reads(PutText(s, more, rows, cols), text + more, cols)
  {
    if more == [] {
      assert text + more == text;
    } else {
      var n := |more| - 1;
      assert more[n] in more;
      ReadsText(s, text, more[..n], rows, cols);
      ReadsPut(PutText(s, more[..n], rows, cols), text + more[..n], more[n], rows, cols);
      assert text + more == text + more[..n] + [more[n]];
    }
  }

  /** Taking a character back undoes typing it. */
  lemma ReadsBackspace(s: Screen, text: seq<Char>, fg: Colour, rows: nat, cols: nat)
    requires Legal(s, rows, cols) && Reads(s, text, cols) && text != []
    ensures Reads(Put(s, BACKSPACE, fg, rows, cols), text[..|text| - 1], cols)
  {
    var n := |text| - 1;
    assert Cells(text[..n]) == Cells(text)[..n];
    assert Padded(Cells(text), cols)[n := Blank] == Padded(Cells(text[..n]), cols);
  }

  lemma CleanNextLine(s: Screen, rows: nat, cols: nat)
    requires |s.cells| == rows > 0 && cols > 0 && s.row < rows && forall r :: 0 <= r < rows ==> |s.cells[r]| == cols
    requires forall r, k :: s.row < r < rows && 0 <= k < cols ==> s.cells[r][k] == Blank
    ensures Clean(NextLine(s, cols), cols)
  {
  }

  lemma CleanPut(s: Screen, c: Byte, fg: Colour, rows: nat, cols: nat)
    requires Legal(s, rows, cols) && Clean(s, cols) && c != TAB && c != RETURN
    ensures Clean(Put(s, c, fg, rows, cols), cols)
  {
    if c == NEWLINE {
      CleanNextLine(s, rows, cols);
    } else if c != BACKSPACE {
      var t := s.(cells := SetCell(s.cells, s.row, s.col, CellOf(c, fg)), col := s.col + 1);
      if t.col >= cols {
        CleanNextLine(t, rows, cols);
      }
    }
  }

  lemma {:induction false} CleanText(s: Screen, text: seq<Char>, rows: nat, cols: nat)
    requires Legal(s, rows, cols) && Clean(s, cols) && Plain(text)
    ensures Clean(PutText(s, text, rows, cols), cols)
  {
    if text != [] {
      var n := |text| - 1;
      assert text[n] in text;
      CleanText(s, text[..n], rows, cols);
      CleanPut(PutText(s, text[..n], rows, cols), text[n].code, text[n].fg, rows, cols);
    }
  }

  lemma {:induction false} CleanPerform(s: Screen, es: seq<Effect>, rows: nat, cols: nat)
    requires Legal(s, rows, cols) && Clean(s, cols) && Harmless(es)
    ensures Clean(Perform(s, es, rows, cols), cols)
  {
    if es != [] {
      var n := |es| - 1;
      assert es[n] in es;
      CleanPerform(s, es[..n], rows, cols);
      if es[n].Show? {
        CleanPut(Perform(s, es[..n], rows, cols), es[n].c.code, es[n].c.fg, rows, cols);
      }
    }
  }

  /** After a command's output the prompt starts a row of its own. */
  lemma AfterReply(s: Screen, reply: seq<Effect>, rows: nat, cols: nat)
    requires Legal(s, rows, cols) && Clean(s, cols) && s.col == 0 && IsReply(reply)
    ensures var t := PutText(Perform(s, reply, rows, cols), PromptText(), rows, cols);
            Clean(t, cols) && (cols > 8 ==> Reads(t, Visible([]), cols))
  {
    var t := Perform(s, reply, rows, cols);
    CleanPerform(s, reply, rows, cols);
    assert t.col == 0;
    CleanText(t, PromptText(), rows, cols);
    if cols > 8 {
      CleanLineStart(t, rows, cols);
      ReadsText(t, [], PromptText(), rows, cols);
      assert [] + PromptText() == Visible([]);
    }
  }

  /** The edit buffer and the commands are the fold over the keys, whatever the screen. */
  lemma {:induction false} RunEdits(greeting: seq<Effect>, keys: seq<Byte>, reply: nat -> seq<Effect>,
                                      rows: nat, cols: nat)
    requires rows > 0 && cols > 0 && IsReply(greeting) && Replies(reply)
    ensures var s := Run(greeting, keys, reply, rows, cols);
            s.line == Line(keys) && s.commands == Commands(keys)
  {
    if keys != [] {
      RunEdits(greeting, keys[..|keys| - 1], reply, rows, cols);
    }
  }

  /** What a key other than Enter does to a row that reads the prompt and the line. */
  lemma StepReads(s: Session, c: Byte, reply: seq<Effect>, rows: nat, cols: nat)
    requires Legal(s.screen, rows, cols) && IsReply(reply) && c != NEWLINE
    requires Reads(s.screen, Visible(s.line), cols) && 8 + |Edit(s.line, c)| < cols
    ensures Reads(Step(s, c, reply, rows, cols).screen, Visible(Edit(s.line, c)), cols)
  {
    var n := |s.line|;
    if c == BACKSPACE && n > 0 {
      ReadsBackspace(s.screen, Visible(s.line), WHITE, rows, cols);
      assert Visible(s.line)[..8 + n - 1] == Visible(s.line[..n - 1]);
    } else if Printable(c) && n < BUF_SIZE - 1 {
      ReadsPut(s.screen, Visible(s.line), Char(c, WHITE), rows, cols);
      assert Visible(s.line) + [Char(c, WHITE)] == Visible(s.line + [c]);
    }
  }

  /** Once the line has wrapped, the cursor stays too far left for the buffer. */
  lemma StepLost(s: Session, c: Byte, reply: seq<Effect>, rows: nat, cols: nat)
    requires Legal(s.screen, rows, cols) && IsReply(reply) && c != NEWLINE
    requires s.screen.col <= |s.line| || (s.screen.col == 8 + |s.line| && cols <= 8 + |Edit(s.line, c)|)
    ensures var t := Step(s, c, reply, rows, cols); t.screen.col <= |t.line|
  {
  }

  /** The cursor's row reads the prompt and the line exactly when `fits`; otherwise the cursor is too far left. All
      after the cursor is blank in any case. */
  ghost predicate Faithful(s: Screen, line: seq<Byte>, fits: bool, cols: nat) {
    && Clean(s, cols)
    && (fits ==> 8 + |line| < cols && Reads(s, Visible(line), cols))
    && (!fits && cols > 8 ==> s.col <= |line|)
  }

  lemma EnterFaithful(s: Session, reply: seq<Effect>, rows: nat, cols: nat)
    requires Legal(s.screen, rows, cols) && IsReply(reply) && Clean(s.screen, cols)
    ensures Faithful(Step(s, NEWLINE, reply, rows, cols).screen, [], cols > 8, cols)
  {
    PutLegal(s.screen, NEWLINE, WHITE, rows, cols);
    CleanPut(s.screen, NEWLINE, WHITE, rows, cols);
    AfterReply(Put(s.screen, NEWLINE, WHITE, rows, cols), reply, rows, cols);
  }

  lemma EditFaithful(s: Session, c: Byte, reply: seq<Effect>, fits: bool, rows: nat, cols: nat)
    requires Legal(s.screen, rows, cols) && IsReply(reply) && c != NEWLINE && Faithful(s.screen, s.line, fits, cols)
    ensures var t := Step(s, c, reply, rows, cols);
            t.line == Edit(s.line, c) && Faithful(t.screen, t.line, fits && 8 + |t.line| < cols, cols)
  {
    if c == BACKSPACE || Printable(c) {
      CleanPut(s.screen, c, WHITE, rows, cols);
    }
    assert fits ==> s.screen.col == 8 + |s.line|;
    hide Clean, Put;
    if fits && 8 + |Edit(s.line, c)| < cols {
      StepReads(s, c, reply, rows, cols);
    } else if cols > 8 {
      hide Reads;
      StepLost(s, c, reply, rows, cols);
    }
  }

  lemma {:induction false} RunFaithful(greeting: seq<Effect>, keys: seq<Byte>, reply: nat -> seq<Effect>,
                                         rows: nat, cols: nat)
    requires rows > 0 && cols > 0 && IsReply(greeting) && Replies(reply)
    ensures Faithful(Run(greeting, keys, reply, rows, cols).screen, Line(keys), Fits(keys, cols), cols)
  {
    if keys == [] {
      AfterReply(Cleared(rows, cols), greeting, rows, cols);
    } else {
      var last := |keys| - 1;
      var p := Run(greeting, keys[..last], reply, rows, cols);
      RunFaithful(greeting, keys[..last], reply, rows, cols);
      RunEdits(greeting, keys[..last], reply, rows, cols);
      assert Clean(p.screen, cols);
      hide Faithful, Step;
      if keys[last] == NEWLINE {
        EnterFaithful(p, reply(|p.commands|), rows, cols);
      } else {
        EditFaithful(p, keys[last], reply(|p.commands|), Fits(keys[..last], cols), rows, cols);
      }
    }
  }

  /** Between commands, the row of the cursor reads the prompt and exactly the edit buffer, with the cursor after it,
      if and only if the line never reached the right edge since the last Enter. All after the cursor is blank. */
  lemma {:induction false} LineVisible(greeting: seq<Effect>, keys: seq<Byte>, reply: nat -> seq<Effect>,
                                         rows: nat, cols: nat)
    requires rows > 0 && cols > 0 && IsReply(greeting) && Replies(reply)
    ensures var s := Run(greeting, keys, reply, rows, cols).screen;
            Clean(s, cols) && (Reads(s, Visible(Line(keys)), cols) <==> Fits(keys, cols))
  {
    RunFaithful(greeting, keys, reply, rows, cols);
  }

  /** Every key stream stays visible if and only if the screen has more than 135 columns: eight for the prompt, one
      for each of the 127 characters the buffer takes, and one for the cursor. */
  lemma EveryLineVisible(greeting: seq<Effect>, reply: nat -> seq<Effect>, rows: nat, cols: nat)
    requires rows > 0 && cols > 0 && IsReply(greeting) && Replies(reply)
    ensures (forall keys :: Reads(Run(greeting, keys, reply, rows, cols).screen, Visible(Line(keys)), cols)) <==> cols > 135
  {
    forall keys
      ensures cols > 135 ==> Reads(Run(greeting, keys, reply, rows, cols).screen, Visible(Line(keys)), cols)
    {
      if cols > 135 {
        WideFits(keys, cols);
        LineVisible(greeting, keys, reply, rows, cols);
      }
    }
    var full: seq<Byte> := seq(BUF_SIZE - 1, _ => 'a' as int);
    assert forall i :: 0 <= i < |full| ==> Printable(full[i]);
    Typing(full);
    assert |Visible(Line(full))| == 135;
  }

  lemma {:induction false} WideFits(keys: seq<Byte>, cols: nat)
    requires cols > 135
    ensures Fits(keys, cols)
  {
    if keys != [] {
      WideFits(keys[..|keys| - 1], cols);
    }
  }

  /** Without Enter and backspace the line is what was typed, up to 127 characters. */
  lemma {:induction false} Typing(keys: seq<Byte>)
    requires forall i :: 0 <= i < |keys| ==> 32 <= keys[i] <= 126
    ensures Line(keys) == if |keys| <= 127 then keys else keys[..127]
  {
    if keys != [] {
      var last := |keys| - 1;
      Typing(keys[..last]);
      assert keys == keys[..last] + [keys[last]];
    }
  }

  /** Any other character, a tab for example, changes neither line nor commands nor screen. */
  lemma Ignored(greeting: seq<Effect>, keys: seq<Byte>, c: Byte, reply: nat -> seq<Effect>, rows: nat, cols: nat)
    requires rows > 0 && cols > 0 && IsReply(greeting) && Replies(reply)
    requires c != '\n' as int && c != 8 && !(32 <= c <= 126)
    ensures Run(greeting, keys + [c], reply, rows, cols) == Run(greeting, keys, reply, rows, cols)
    ensures Line(keys + [c]) == Line(keys) && Commands(keys + [c]) == Commands(keys)
  {
    assert (keys + [c])[..|keys|] == keys;
  }

  lemma LineSnoc(keys: seq<Byte>, c: Byte)
    requires c != NEWLINE
    ensures Line(keys + [c]) == Edit(Line(keys), c)
  {
    assert (keys + [c])[..|keys|] == keys;
  }

  /** A backspace takes back the key before it, unless that key had been dropped. */
  lemma Mistake(keys: seq<Byte>, c: Byte)
    requires Printable(c)
    ensures Line(keys + [c] + [BACKSPACE]) == if |Line(keys)| < BUF_SIZE - 1 then Line(keys) else Line(keys)[..BUF_SIZE - 2]
  {
    hide Line;
    LineSnoc(keys, c);
    LineSnoc(keys + [c], BACKSPACE);
  }

  // From the keyboard to the screen.

  /** Under every interleaving of interrupts with the reader, what the shell shows and what it has executed are the
      line and the commands of an initial part of the accepted characters: all of them once the ring is empty. */
  lemma KeyboardToScreen(k: Keyboard.Keymap, es: seq<Keyboard.Event>, greeting: seq<Effect>,
                         reply: nat -> seq<Effect>, rows: nat, cols: nat)
    requires Keyboard.IsKeymap(k) && Keyboard.LegalRun(k, es)
    requires rows > 0 && cols > 135 && IsReply(greeting) && Replies(reply)
    ensures var ks := Keyboard.Run(k, es);
            var s := Run(greeting, ks.delivered, reply, rows, cols);
            && ks.delivered <= ks.accepted && (ks.head == ks.tail ==> ks.delivered == ks.accepted)
            && s.commands == Commands(ks.delivered)
            && Reads(s.screen, Visible(Line(ks.delivered)), cols)
  {
    var ks := Keyboard.Run(k, es);
    Keyboard.InOrder(k, es);
    Keyboard.QueueTake(ks.buf, ks.head, ks.tail);
    RunEdits(greeting, ks.delivered, reply, rows, cols);
    EveryLineVisible(greeting, reply, rows, cols);
  }

  /** From the keys on the keyboard to the screen: when the ring never filled and is empty now, the screen shows the
      line, and the shell has got the commands, that the scancodes mean. */
  lemma KeysToScreen(k: Keyboard.Keymap, es: seq<Keyboard.Event>, greeting: seq<Effect>,
                     reply: nat -> seq<Effect>, rows: nat, cols: nat)
    requires Keyboard.IsKeymap(k) && Keyboard.LegalRun(k, es)
    requires forall i :: 0 <= i < |es| ==>
               |Keyboard.Run(k, es[..i]).accepted| - |Keyboard.Run(k, es[..i]).delivered| < 255
    requires Keyboard.Run(k, es).head == Keyboard.Run(k, es).tail
    requires rows > 0 && cols > 135 && IsReply(greeting) && Replies(reply)
    ensures var typed := Keyboard.Keystrokes(k, Keyboard.Scancodes(es));
            var s := Run(greeting, typed, reply, rows, cols);
            && Keyboard.Run(k, es).delivered == typed
            && s.commands == Commands(typed) && Reads(s.screen, Visible(Line(typed)), cols)
  {
    Keyboard.NothingLost(k, es);
    Keyboard.RunTyped(k, es);
    KeyboardToScreen(k, es, greeting, reply, rows, cols);
  }

  // The task itself.

  class Task {
    const fb: Console.Framebuffer
    const kb: Keyboard.Driver
    const buf: array<Byte>
    var idx: nat
    ghost var commands: seq<seq<Byte>>

    ghost predicate Valid()
      reads this, fb, fb.fb, kb, kb.buf, buf
    {
      && fb.Valid() && fb.bg == DARK && kb.Valid()
      && buf.Length == BUF_SIZE && idx < BUF_SIZE
      && (buf as object) != fb.fb && (buf as object) != kb.buf && (kb.buf as object) != fb.fb
      && forall i :: 0 <= i < idx ==> Printable(buf[i])
    }

    ghost function State(): Session
      requires Valid()
      reads this, fb, fb.fb, kb, kb.buf, buf
    {
      Session(fb.View(), buf[..idx], commands)
    }

    /** Everything a command prints, character by character in its colour. */
    method Output(es: seq<Effect>)
      requires fb.Valid() && fb.bg == DARK && Harmless(es)
      modifies fb`curCol, fb`curRow, fb`cells, fb`fg, fb`bg, fb.fb
      ensures fb.Valid() && fb.bg == DARK && fb.View() == Perform(old(fb.View()), es, fb.rows, fb.cols)
    {
      ghost var s := fb.View();
      for i := 0 to |es|
        invariant fb.Valid() && fb.bg == DARK && fb.View() == Perform(s, es[..i], fb.rows, fb.cols)
      {
        assert es[..i + 1][..i] == es[..i] && es[i] in es;
        match es[i]
        case Clear =>
          fb.Clear();
        case Show(c) =>
          fb.SetColor(c.fg, DARK);
          fb.PutChar(c.code);
      }
      assert es[..|es|] == es;
    }

    /** The prompt in cyan, then back to white. */
    method Prompt()
      requires fb.Valid() && fb.bg == DARK
      modifies fb`curCol, fb`curRow, fb`cells, fb`fg, fb`bg, fb.fb
      ensures fb.Valid() && fb.bg == DARK && fb.fg == WHITE
      ensures fb.View() == PutText(old(fb.View()), PromptText(), fb.rows, fb.cols)
    {
      fb.SetColor(CYAN, DARK);
      fb.Print(PROMPT);
      fb.SetColor(WHITE, DARK);
    }

    /** The start of shell_task, after shell_init has printed its greeting. */
    constructor (fb: Console.Framebuffer, kb: Keyboard.Driver, greeting: seq<Effect>)
      requires fb.Valid() && fb.bg == DARK && kb.Valid() && (kb.buf as object) != fb.fb && IsReply(greeting)
      requires fb.View() == Cleared(fb.rows, fb.cols)
      modifies fb, fb.fb
      ensures this.fb == fb && this.kb == kb && fresh(buf)
      ensures Valid() && fb.fg == WHITE && State() == Start(greeting, fb.rows, fb.cols)
    {
      this.fb, this.kb, idx, commands := fb, kb, 0, [];
      buf := new Byte[BUF_SIZE](_ => 0);
      new;
      Output(greeting);
      Prompt();
    }

    /** Enter. `reply` is the output of shell_execute, which is given the string in the buffer: up to its first zero
        byte. */
    method Enter(reply: seq<Effect>)
      requires Valid() && fb.fg == WHITE && IsReply(reply)
      modifies this`idx, this`commands, buf, fb`curCol, fb`curRow, fb`cells, fb`fg, fb`bg, fb.fb
      ensures Valid() && fb.fg == WHITE
      ensures State() == Step(old(State()), NEWLINE, reply, fb.rows, fb.cols)
      ensures CString(buf[..]) == old(buf[..idx])
    {
      hide Put, Perform, PutText, CString, Legal;
      fb.PutChar(NEWLINE);
      buf[idx] := 0;
      CStringIsLine(buf[..], idx);
      commands := commands + [buf[..idx]];
      Output(reply);
      idx := 0;
      Prompt();
    }

    /** One key of the edit loop. */
    method Key(c: Byte, reply: seq<Effect>)
      requires Valid() && fb.fg == WHITE && IsReply(reply)
      modifies this`idx, this`commands, buf, fb`curCol, fb`curRow, fb`cells, fb`fg, fb`bg, fb.fb
      ensures Valid() && fb.fg == WHITE
      ensures State() == Step(old(State()), c, reply, fb.rows, fb.cols)
      ensures c == NEWLINE ==> CString(buf[..]) == old(buf[..idx])
    {
      hide Put, Perform, PutText, CString, Legal;
      if c == NEWLINE {
        Enter(reply);
      } else if c == BACKSPACE {
        if idx > 0 {
          idx := idx - 1;
          fb.PutChar(BACKSPACE);
          assert buf[..idx] == old(buf[..idx])[..idx];
        }
      } else if 32 <= c <= 126 {
        if idx < BUF_SIZE - 1 {
          buf[idx] := c;
          idx := idx + 1;
          assert buf[..idx] == old(buf[..idx]) + [c];
          fb.PutChar(c);
        }
      }
    }

    /** One round of the endless loop. */
    method Poll(reply: seq<Effect>)
      requires Valid() && fb.fg == WHITE && IsReply(reply) && kb.reading == []
      modifies this`idx, this`commands, buf, fb`curCol, fb`curRow, fb`cells, fb`fg, fb`bg, fb.fb
      modifies kb`tail, kb`reading, kb`delivered
      ensures Valid() && fb.fg == WHITE && kb.reading == []
      ensures var waiting := old(kb.Contents());
              if waiting == [] then State() == old(State()) && kb.View() == old(kb.View())
              else
                && State() == Step(old(State()), waiting[0], reply, fb.rows, fb.cols)
                && kb.Contents() == waiting[1..] && kb.delivered == old(kb.delivered) + [waiting[0]]
    {
      var any := kb.HasChar();
      if any {
        var c := kb.GetChar();
        Key(c, reply);
      }
    }
  }
}
