/** The PS/2 keyboard driver: scancodes become characters in a ring that interrupts fill and the shell drains. */
module Keyboard {
  import opened Words

  const KB_BUFSIZE: nat := 256
  const LEFT_SHIFT: Byte := 0x2A
  const RIGHT_SHIFT: Byte := 0x36
  const CAPS_LOCK: Byte := 0x3A
  const LEFT_CTRL: Byte := 0x1D
  const LEFT_ALT: Byte := 0x38

  /** The two tables from scancodes to characters; 0 means no character. */
  datatype Keymap = Keymap(plain: seq<Byte>, shifted: seq<Byte>)

  predicate IsKeymap(k: Keymap) {
    |k.plain| == 128 && |k.shifted| == 128
  }

  datatype Modifiers = Modifiers(shift: bool, caps: bool)

  predicate IsShift(code: int) {
    code == LEFT_SHIFT || code == RIGHT_SHIFT
  }

  predicate IsShiftRelease(code: Byte) {
    code >= 0x80 && IsShift(code - 0x80)
  }

  predicate IsLetter(c: Byte) {
    'a' as int <= c <= 'z' as int
  }

  /** The modifiers after a scancode; releases have bit 7 set. */
  function NextModifiers(m: Modifiers, sc: Byte): Modifiers {
    if sc >= 0x80 then (if IsShiftRelease(sc) then m.(shift := false) else m)
    else if IsShift(sc) then m.(shift := true)
    else if sc == CAPS_LOCK then m.(caps := !m.caps)
    else m
  }

  /** The character a scancode types, 0 when it types none. */
  function Typed(k: Keymap, m: Modifiers, sc: Byte): Byte
    requires IsKeymap(k)
  {
    if sc >= 0x80 || IsShift(sc) || sc == CAPS_LOCK || sc == LEFT_CTRL || sc == LEFT_ALT then 0
    else if m.shift then k.shifted[sc]
    else if m.caps && IsLetter(k.plain[sc]) then k.plain[sc] - 32
    else k.plain[sc]
  }

  // What the modifiers mean.

  function AllModifiers(scs: seq<Byte>): Modifiers {
    if scs == [] then Modifiers(false, false) else NextModifiers(AllModifiers(scs[..|scs| - 1]), scs[|scs| - 1])
  }

  function CapsPresses(scs: seq<Byte>): nat {
    if scs == [] then 0 else CapsPresses(scs[..|scs| - 1]) + (if scs[|scs| - 1] == 0x3A then 1 else 0)
  }

  /** Event i pressed a shift key, 0x2A or 0x36, and no shift key, left or right, has been released since. */
  predicate PressedSince(scs: seq<Byte>, i: nat) {
    i < |scs| && (scs[i] == 0x2A || scs[i] == 0x36) && forall j :: i < j < |scs| ==> scs[j] != 0xAA && scs[j] != 0xB6
  }

  lemma PressedSnoc(scs: seq<Byte>, i: nat)
    requires scs != []
    ensures PressedSince(scs, i) <==>
              if i == |scs| - 1 then IsShift(scs[i])
              else PressedSince(scs[..|scs| - 1], i) && !IsShiftRelease(scs[|scs| - 1])
  {
    var front := scs[..|scs| - 1];
    assert forall j :: 0 <= j < |front| ==> front[j] == scs[j];
  }

  /** Shift is held exactly when a shift key was pressed and none released since; caps lock is on exactly when it was
      pressed an odd number of times. */
  lemma {:induction false} ModifiersMeaning(scs: seq<Byte>)
    ensures AllModifiers(scs).shift <==> exists i :: PressedSince(scs, i)
    ensures AllModifiers(scs).caps <==> CapsPresses(scs) % 2 == 1
  {
    if scs != [] {
      var last := |scs| - 1;
      ModifiersMeaning(scs[..last]);
      forall i: nat
        ensures PressedSince(scs, i) <==>
                  if i == last then IsShift(scs[i]) else PressedSince(scs[..last], i) && !IsShiftRelease(scs[last])
      {
        PressedSnoc(scs, i);
      }
      if IsShift(scs[last]) {
        assert PressedSince(scs, last);
      }
    }
  }

  /** The character typed by scancode sc after the scancodes scs, in terms of that history and the tables; 0 for
      none. Releases, shift, caps lock, control and alt type nothing. Otherwise a shift key pressed and none released
      since selects the second table, and an odd number of presses of caps lock turns small letters of the first table
      into capitals. */
  ghost function Meaning(k: Keymap, scs: seq<Byte>, sc: Byte): Byte
    requires IsKeymap(k)
  {
    if sc >= 0x80 || sc == 0x2A || sc == 0x36 || sc == 0x3A || sc == 0x1D || sc == 0x38 then 0
    else if exists i :: PressedSince(scs, i) then k.shifted[sc]
    else if CapsPresses(scs) % 2 == 1 && 'a' as int <= k.plain[sc] <= 'z' as int then k.plain[sc] - 32
    else k.plain[sc]
  }

  /** The driver types what the history of scancodes means. */
  lemma TypedMeaning(k: Keymap, scs: seq<Byte>, sc: Byte)
    requires IsKeymap(k)
    ensures Typed(k, AllModifiers(scs), sc) == Meaning(k, scs, sc)
  {
    ModifiersMeaning(scs);
  }

  lemma ModifiersSnoc(scs: seq<Byte>, sc: Byte)
    ensures AllModifiers(scs + [sc]) == NextModifiers(AllModifiers(scs), sc)
  {
    assert (scs + [sc])[..|scs|] == scs;
  }

  /** Everything typed by a history of scancodes. */
  ghost function Keystrokes(k: Keymap, scs: seq<Byte>): seq<Byte>
    requires IsKeymap(k)
  {
    if scs == [] then [] else
      var front := scs[..|scs| - 1];
      var c := Meaning(k, front, scs[|scs| - 1]);
      Keystrokes(k, front) + (if c == 0 then [] else [c])
  }

  /** With a keymap whose shifted letters are the capitals, a letter comes out as a capital when shift or caps lock is
      on. Shift does not undo caps lock. */
  lemma LetterCase(k: Keymap, m: Modifiers, sc: Byte)
    requires IsKeymap(k) && sc < 0x80 && IsLetter(k.plain[sc]) && k.shifted[sc] == k.plain[sc] - 32
    requires !IsShift(sc) && sc != CAPS_LOCK && sc != LEFT_CTRL && sc != LEFT_ALT
    ensures Typed(k, m, sc) == if m.shift || m.caps then k.plain[sc] - 32 else k.plain[sc]
  {
  }

  lemma KeystrokesSnoc(k: Keymap, scs: seq<Byte>, sc: Byte)
    requires IsKeymap(k)
    ensures Keystrokes(k, scs + [sc]) == Keystrokes(k, scs) + (if Meaning(k, scs, sc) == 0 then [] else [Meaning(k, scs, sc)])
  {
    assert (scs + [sc])[..|scs|] == scs;
  }

  // The ring.

  /** The unread characters of a ring, oldest first. */
  function Queue(buf: seq<Byte>, head: nat, tail: nat): seq<Byte>
    requires |buf| == KB_BUFSIZE && head < KB_BUFSIZE && tail < KB_BUFSIZE
  {
    if tail <= head then buf[tail..head] else buf[tail..] + buf[..head]
  }

  lemma QueuePut(buf: seq<Byte>, head: nat, tail: nat, c: Byte)
    requires |buf| == KB_BUFSIZE && head < KB_BUFSIZE && tail < KB_BUFSIZE
    ensures (head + 1) % KB_BUFSIZE == tail <==> |Queue(buf, head, tail)| == KB_BUFSIZE - 1
    ensures (head + 1) % KB_BUFSIZE != tail ==>
              Queue(buf[head := c], (head + 1) % KB_BUFSIZE, tail) == Queue(buf, head, tail) + [c]
  {
    Wraps(head);
  }

  lemma QueueTake(buf: seq<Byte>, head: nat, tail: nat)
    requires |buf| == KB_BUFSIZE && head < KB_BUFSIZE && tail < KB_BUFSIZE
    ensures head == tail <==> Queue(buf, head, tail) == []
    ensures head != tail ==>
              && Queue(buf, head, tail)[0] == buf[tail]
              && Queue(buf, head, (tail + 1) % KB_BUFSIZE) == Queue(buf, head, tail)[1..]
  {
    Wraps(tail);
    var rest, q := Queue(buf, head, (tail + 1) % KB_BUFSIZE), Queue(buf, head, tail);
    if head < tail {
      assert q == buf[tail..] + buf[..head];
      assert q[1..] == buf[tail + 1..] + buf[..head];
      assert tail + 1 == KB_BUFSIZE ==> buf[tail + 1..] == [] && rest == buf[..head];
    } else if tail < head {
      assert q[1..] == buf[tail + 1..head];
    }
  }

  lemma Wraps(i: nat)
    requires i < KB_BUFSIZE
    ensures (i + 1) % KB_BUFSIZE == if i + 1 < KB_BUFSIZE then i + 1 else 0
  {
  }

  // Interrupts between the steps of the reader.

  datatype Event = Irq(sc: Byte) | Read | Advance

  /** The ring with the reader's half-finished call, and the history of characters: typed, accepted into the ring,
      and delivered to the reader. */
  datatype Session = Session(
    buf: seq<Byte>, head: nat, tail: nat, mods: Modifiers, reading: seq<Byte>,
    typed: seq<Byte>, accepted: seq<Byte>, delivered: seq<Byte>)

  ghost predicate Shaped(s: Session) {
    |s.buf| == KB_BUFSIZE && s.head < KB_BUFSIZE && s.tail < KB_BUFSIZE
  }

  /** The reader reads only when a character is waiting, and advances only after it has read. */
  predicate Enabled(s: Session, e: Event) {
    match e
    case Irq(_) => true
    case Read => s.reading == [] && s.head != s.tail
    case Advance => |s.reading| == 1
  }

  function Next(k: Keymap, s: Session, e: Event): Session
    requires IsKeymap(k) && Shaped(s)
  {
    match e
    case Irq(sc) =>
      var c, t := Typed(k, s.mods, sc), s.(mods := NextModifiers(s.mods, sc));
      if c == 0 then t
      else if (s.head + 1) % KB_BUFSIZE == s.tail then t.(typed := s.typed + [c])
      else t.(typed := s.typed + [c], accepted := s.accepted + [c],
              buf := s.buf[s.head := c], head := (s.head + 1) % KB_BUFSIZE)
    case Read => s.(reading := [s.buf[s.tail]])
    case Advance => s.(tail := (s.tail + 1) % KB_BUFSIZE, delivered := s.delivered + s.reading, reading := [])
  }

  function Start(): Session {
    Session(seq(KB_BUFSIZE, _ => 0), 0, 0, Modifiers(false, false), [], [], [], [])
  }

  /** What every moment of every interleaving satisfies: accepted characters are those delivered followed by those
      waiting, and a slot that has been read but not passed still holds what was read. */
  ghost predicate Consistent(s: Session) {
    && Shaped(s) && |s.reading| <= 1
    && s.accepted == s.delivered + Queue(s.buf, s.head, s.tail)
    && s.reading <= Queue(s.buf, s.head, s.tail)
    && |s.accepted| <= |s.typed|
  }

  lemma StepConsistent(k: Keymap, s: Session, e: Event)
    requires IsKeymap(k) && Consistent(s) && Enabled(s, e)
    ensures Consistent(Next(k, s, e))
    ensures var t := Next(k, s, e);
            && (t.typed != s.typed && t.accepted == s.accepted ==> |Queue(s.buf, s.head, s.tail)| == 255)
            && (e.Advance? ==> t.delivered == s.delivered + [Queue(s.buf, s.head, s.tail)[0]])
  {
    hide Queue, Typed, NextModifiers;
    match e
    case Irq(sc) =>
      QueuePut(s.buf, s.head, s.tail, Typed(k, s.mods, sc));
    case Read =>
      QueueTake(s.buf, s.head, s.tail);
    case Advance =>
      QueueTake(s.buf, s.head, s.tail);
      var q := Queue(s.buf, s.head, s.tail);
      assert q == s.reading + q[1..];
      assert s.delivered + q == (s.delivered + s.reading) + q[1..];
  }

  ghost predicate LegalRun(k: Keymap, es: seq<Event>)
    requires IsKeymap(k)
  {
    es == [] ||
    var front := es[..|es| - 1];
    LegalRun(k, front) && Shaped(Run(k, front)) && Enabled(Run(k, front), es[|es| - 1])
  }

  ghost function Run(k: Keymap, es: seq<Event>): Session
    requires IsKeymap(k)
  {
    if es == [] then Start() else
      var s := Run(k, es[..|es| - 1]);
      if Shaped(s) then Next(k, s, es[|es| - 1]) else s
  }

  /** The scancodes among the events, in order. */
  function Scancodes(es: seq<Event>): seq<Byte> {
    if es == [] then [] else
      Scancodes(es[..|es| - 1]) + (match es[|es| - 1] case Irq(sc) => [sc] case _ => [])
  }

  lemma StepTyped(k: Keymap, s: Session, e: Event, scs: seq<Byte>)
    requires IsKeymap(k) && Shaped(s) && s.mods == AllModifiers(scs) && s.typed == Keystrokes(k, scs)
    ensures var t, scs' := Next(k, s, e), scs + (match e case Irq(sc) => [sc] case _ => []);
            t.mods == AllModifiers(scs') && t.typed == Keystrokes(k, scs')
  {
    hide AllModifiers, Keystrokes, Meaning, Typed, NextModifiers;
    if e.Irq? {
      ModifiersSnoc(scs, e.sc);
      TypedMeaning(k, scs, e.sc);
      KeystrokesSnoc(k, scs, e.sc);
    } else {
      assert scs + [] == scs;
    }
  }

  /** In every interleaving, what has been typed is what the scancodes mean. */
  lemma {:induction false} RunTyped(k: Keymap, es: seq<Event>)
    requires IsKeymap(k) && LegalRun(k, es)
    ensures Run(k, es).mods == AllModifiers(Scancodes(es)) && Run(k, es).typed == Keystrokes(k, Scancodes(es))
  {
    if es != [] {
      var front := es[..|es| - 1];
      RunTyped(k, front);
      StepTyped(k, Run(k, front), es[|es| - 1], Scancodes(front));
    }
  }

  /** Under every interleaving of interrupts with the two steps of the reader, what is delivered is a prefix of what
      was accepted, in order. */
  lemma {:induction false} InOrder(k: Keymap, es: seq<Event>)
    requires IsKeymap(k) && LegalRun(k, es)
    ensures Consistent(Run(k, es)) && Run(k, es).delivered <= Run(k, es).accepted
  {
    if es != [] {
      InOrder(k, es[..|es| - 1]);
      StepConsistent(k, Run(k, es[..|es| - 1]), es[|es| - 1]);
    }
  }

  /** Nothing is lost as long as the ring never fills: then what is accepted is exactly what was typed. */
  lemma {:induction false} NothingLost(k: Keymap, es: seq<Event>)
    requires IsKeymap(k) && LegalRun(k, es)
    requires forall i :: 0 <= i < |es| ==> |Run(k, es[..i]).accepted| - |Run(k, es[..i]).delivered| < 255
    ensures Run(k, es).accepted == Run(k, es).typed
  {
    if es != [] {
      var last := |es| - 1;
      InOrder(k, es[..last]);
      forall i | 0 <= i < last
        ensures |Run(k, es[..last][..i]).accepted| - |Run(k, es[..last][..i]).delivered| < 255
      {
        assert es[..last][..i] == es[..i];
      }
      NothingLost(k, es[..last]);
      var s := Run(k, es[..last]);
      QueuePut(s.buf, s.head, s.tail, 0);
    }
  }

  /** An interrupt appends its character to the queue unless 255 are waiting. */
  lemma IrqQueue(k: Keymap, s: Session, sc: Byte)
    requires IsKeymap(k) && Shaped(s)
    ensures var t, c, q := Next(k, s, Irq(sc)), Typed(k, s.mods, sc), Queue(s.buf, s.head, s.tail);
            && Shaped(t)
            && Queue(t.buf, t.head, t.tail) == if c != 0 && |q| < KB_BUFSIZE - 1 then q + [c] else q
  {
    hide Queue, Typed, NextModifiers;
    QueuePut(s.buf, s.head, s.tail, Typed(k, s.mods, sc));
    QueueSize(s.buf, s.head, s.tail);
  }

  lemma QueueSize(buf: seq<Byte>, head: nat, tail: nat)
    requires |buf| == KB_BUFSIZE && head < KB_BUFSIZE && tail < KB_BUFSIZE
    ensures |Queue(buf, head, tail)| < KB_BUFSIZE
  {
  }

  // The driver itself.

  class Driver {
    const keymap: Keymap
    const buf: array<Byte>
    var head: nat
    var tail: nat
    var shiftHeld: bool
    var capsLocked: bool
    ghost var scancodes: seq<Byte>
    ghost var reading: seq<Byte>
    ghost var typed: seq<Byte>
    ghost var accepted: seq<Byte>
    ghost var delivered: seq<Byte>

    ghost predicate Valid()
      reads this, buf
    {
      && IsKeymap(keymap) && Consistent(View())
      && State() == AllModifiers(scancodes) && typed == Keystrokes(keymap, scancodes)
    }

    ghost function View(): Session
      reads this, buf
    {
      Session(buf[..], head, tail, State(), reading, typed, accepted, delivered)
    }

    /** The unread characters. */
    ghost function Contents(): seq<Byte>
      requires Valid()
      reads this, buf
    {
      Queue(buf[..], head, tail)
    }

    function State(): Modifiers
      reads this
    {
      Modifiers(shiftHeld, capsLocked)
    }

    constructor (keymap: Keymap)
      requires IsKeymap(keymap)
      ensures Valid() && fresh(buf) && this.keymap == keymap && View() == Start() && scancodes == []
    {
      this.keymap := keymap;
      buf := new Byte[KB_BUFSIZE](_ => 0);
      head, tail, shiftHeld, capsLocked := 0, 0, false, false;
      scancodes, reading, typed, accepted, delivered := [], [], [], [], [];
      new;
      assert buf[..] == Start().buf;
    }

    /** The first half of keyboard_irq_handler: the modifiers, and the character typed or 0. */
    method Translate(sc: Byte) returns (c: Byte)
      requires IsKeymap(keymap)
      modifies this`shiftHeld, this`capsLocked
      ensures State() == NextModifiers(old(State()), sc) && c == Typed(keymap, old(State()), sc)
    {
      if sc >= 0x80 {
        var base := sc - 0x80;
        if base == LEFT_SHIFT || base == RIGHT_SHIFT {
          shiftHeld := false;
        }
        return 0;
      }
      if sc == LEFT_SHIFT || sc == RIGHT_SHIFT {
        shiftHeld := true;
        return 0;
      }
      if sc == CAPS_LOCK {
        capsLocked := !capsLocked;
        return 0;
      }
      if sc == LEFT_CTRL || sc == LEFT_ALT {
        return 0;
      }
      var upper := shiftHeld != capsLocked && IsLetter(keymap.plain[sc]);
      c := if shiftHeld then keymap.shifted[sc]
           else if upper then keymap.plain[sc] - 32
           else keymap.plain[sc];
    }

    /** The second half: into the ring, unless it is full. */
    method Enqueue(c: Byte)
      requires Shaped(View())
      modifies this`head, this`accepted, buf
      ensures var s, next := old(View()), (old(head) + 1) % KB_BUFSIZE;
              View() == if next == tail then s
                        else s.(accepted := s.accepted + [c], buf := s.buf[s.head := c], head := next)
    {
      ghost var before := buf[..];
      var next := (head + 1) % KB_BUFSIZE;
      if next != tail {
        accepted := accepted + [c];
        buf[head] := c;
        assert buf[..] == before[head := c];
        head := next;
      }
    }

    /** keyboard_irq_handler for one scancode: the character it means, given all scancodes before it, joins the unread
        ones, and is dropped when 255 are waiting. */
    method IrqHandler(sc: Byte)
      requires Valid()
      modifies this`head, this`shiftHeld, this`capsLocked, this`scancodes, this`typed, this`accepted, buf
      ensures Valid() && View() == Next(keymap, old(View()), Irq(sc)) && scancodes == old(scancodes) + [sc]
      ensures var c := Meaning(keymap, old(scancodes), sc);
              Contents() == if c != 0 && |old(Contents())| < KB_BUFSIZE - 1 then old(Contents()) + [c] else old(Contents())
    {
      hide Consistent, Queue, AllModifiers, Keystrokes, Meaning, Typed, NextModifiers;
      RingShaped(View());
      IrqQueue(keymap, View(), sc);
      StepConsistent(keymap, View(), Irq(sc));
      TypedMeaning(keymap, scancodes, sc);
      StepTyped(keymap, View(), Irq(sc), scancodes);
      var c := Translate(sc);
      scancodes := scancodes + [sc];
      if c != 0 {
        typed := typed + [c];
        Enqueue(c);
      }
    }

    method HasChar() returns (b: bool)
      requires Valid()
      ensures b <==> Contents() != []
    {
      QueueTake(buf[..], head, tail);
      b := head != tail;
    }

    /** The first step of keyboard_getchar, once there is a character: reading the slot. */
    method ReadSlot() returns (c: Byte)
      requires Valid() && Contents() != [] && reading == []
      modifies this`reading
      ensures Valid() && View() == Next(keymap, old(View()), Read)
      ensures reading == [c] && c == Contents()[0]
    {
      hide Consistent, Queue;
      RingShaped(View());
      QueueTake(buf[..], head, tail);
      StepConsistent(keymap, View(), Read);
      c := buf[tail];
      reading := [c];
    }

    /** The second step of keyboard_getchar: advancing the read index. Interrupts may have come in between. */
    method Advance()
      requires Valid() && |reading| == 1
      modifies this`tail, this`reading, this`delivered
      ensures Valid() && View() == Next(keymap, old(View()), Event.Advance)
      ensures old(reading) + Contents() == old(Contents()) && reading == []
    {
      hide Consistent, Queue;
      RingShaped(View());
      QueueTake(buf[..], head, tail);
      StepConsistent(keymap, View(), Event.Advance);
      delivered, reading := delivered + reading, [];
      tail := (tail + 1) % KB_BUFSIZE;
    }

    /** keyboard_getchar when a character is waiting and no interrupt falls between its steps. */
    method GetChar() returns (c: Byte)
      requires Valid() && Contents() != [] && reading == []
      modifies this`tail, this`reading, this`delivered
      ensures Valid() && [c] + Contents() == old(Contents())
      ensures reading == [] && delivered == old(delivered) + [c]
    {
      hide Consistent, Queue;
      c := ReadSlot();
      Advance();
    }
  }

  lemma RingShaped(s: Session)
    requires Consistent(s)
    ensures Shaped(s) && |s.reading| <= 1
    ensures s.reading != [] ==> Queue(s.buf, s.head, s.tail) != [] && s.reading == [Queue(s.buf, s.head, s.tail)[0]]
  {
  }
}
