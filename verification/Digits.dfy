/** The number printers of the console: digits are produced from the least significant one. */
module Digits {
  import opened Words
  import opened Terminal
  import Console

  function DigitChar(d: nat): Byte
    requires d < 16
  {
    if d < 10 then '0' as int + d else 'A' as int + (d - 10)
  }

  function DigitValue(c: Byte): nat {
    if '0' as int <= c <= '9' as int then c - '0' as int
    else if 'A' as int <= c <= 'F' as int then c - 'A' as int + 10
    else 0
  }

  /** What a numeral means. */
  function Value(ds: seq<Byte>, base: nat): nat {
    if ds == [] then 0 else Value(ds[..|ds| - 1], base) * base + DigitValue(ds[|ds| - 1])
  }

  function Dec(v: nat): (ds: seq<Byte>) {
    if v < 10 then [DigitChar(v)] else Dec(v / 10) + [DigitChar(v % 10)]
  }

  function Hex(v: nat, digits: nat): (ds: seq<Byte>)
    ensures |ds| == digits
  {
    if digits == 0 then [] else Hex(v / 16, digits - 1) + [DigitChar(v % 16)]
  }

  /** Decimal digits without a leading zero. */
  ghost predicate IsDecimal(ds: seq<Byte>) {
    && ds != [] && (forall c :: c in ds ==> '0' as int <= c <= '9' as int)
    && (ds[0] == '0' as int ==> |ds| == 1)
  }

  ghost predicate IsHex(ds: seq<Byte>) {
    forall c :: c in ds ==> '0' as int <= c <= '9' as int || 'A' as int <= c <= 'F' as int
  }

  function Power(base: nat, n: nat): nat {
    if n == 0 then 1 else base * Power(base, n - 1)
  }

  /** Twenty decimal and sixteen hexadecimal digits are enough for 64 bits; nineteen decimal ones are not. */
  lemma WordDigits()
    ensures Power(10, 19) < TWO_64 < Power(10, 20) && Power(16, 16) == TWO_64
  {
    PowerSum(10, 4, 4);
    PowerSum(10, 8, 8);
    PowerSum(10, 16, 3);
    PowerSum(10, 16, 4);
    PowerSum(16, 4, 4);
    PowerSum(16, 8, 8);
  }

  lemma {:induction false} PowerSum(base: nat, m: nat, n: nat)
    ensures Power(base, m + n) == Power(base, m) * Power(base, n)
  {
    if m > 0 {
      PowerSum(base, m - 1, n);
      Associates(base, Power(base, m - 1), Power(base, n));
    }
  }

  lemma Associates(a: nat, b: nat, c: nat)
    ensures a * (b * c) == (a * b) * c
  {
  }

  /** Reading back a printed number gives the number, and it has no more digits than it needs. */
  lemma {:induction false} DecRoundTrip(v: nat, n: nat)
    ensures Value(Dec(v), 10) == v && IsDecimal(Dec(v)) && (v == 0 <==> Dec(v)[0] == '0' as int)
    ensures n > 0 ==> (v < Power(10, n) <==> |Dec(v)| <= n)
    decreases v
  {
    if v >= 10 {
      DecRoundTrip(v / 10, if n > 0 then n - 1 else 0);
      assert Dec(v)[..|Dec(v)| - 1] == Dec(v / 10);
    } else if n > 0 {
      PowerPositive(n - 1);
    }
  }

  lemma {:induction false} PowerPositive(n: nat)
    ensures Power(10, n) >= 1
  {
    if n > 0 {
      PowerPositive(n - 1);
    }
  }

  lemma DecSnoc(v: nat, d: nat)
    requires v > 0 && d < 10
    ensures Dec(v * 10 + d) == Dec(v) + [DigitChar(d)]
  {
  }

  /** Printing what a decimal numeral means gives the numeral: no number prints in two ways. */
  lemma {:induction false} DecOfValue(ds: seq<Byte>)
    requires IsDecimal(ds)
    ensures Dec(Value(ds, 10)) == ds
  {
    var n := |ds| - 1;
    var front := ds[..n];
    assert ds == front + [ds[n]] && ds[n] in ds && ds[0] in ds;
    if n > 0 {
      assert forall c :: c in front ==> c in ds;
      assert front[0] == ds[0];
      DecOfValue(front);
      DecRoundTrip(Value(front, 10), 1);
      var v, d := Value(front, 10), DigitValue(ds[n]);
      assert Value(ds, 10) == v * 10 + d;
      hide Dec, Value;
      DecSnoc(v, d);
    } else {
      assert front == [];
    }
  }

  lemma {:induction false} HexRoundTrip(v: nat, n: nat)
    requires v < Power(16, n)
    ensures Value(Hex(v, n), 16) == v && IsHex(Hex(v, n))
  {
    if n > 0 {
      HexRoundTrip(v / 16, n - 1);
      assert Hex(v, n)[..n - 1] == Hex(v / 16, n - 1);
    }
  }

  lemma {:induction false} HexOfValue(ds: seq<Byte>)
    requires IsHex(ds)
    ensures Hex(Value(ds, 16), |ds|) == ds
  {
    if ds != [] {
      var n := |ds| - 1;
      assert ds == ds[..n] + [ds[n]] && ds[n] in ds;
      assert forall c :: c in ds[..n] ==> c in ds;
      HexOfValue(ds[..n]);
      assert Value(ds, 16) / 16 == Value(ds[..n], 16);
    }
  }

  function Reversed(s: seq<Byte>): (r: seq<Byte>)
    ensures |r| == |s| && forall i :: 0 <= i < |s| ==> r[i] == s[|s| - 1 - i]
  {
    seq(|s|, i requires 0 <= i < |s| => s[|s| - 1 - i])
  }

  lemma ReversedSnoc(s: seq<Byte>, c: Byte)
    ensures Reversed(s + [c]) == [c] + Reversed(s)
  {
  }

  /** The digits still to come when w is left. */
  function Leading(w: nat): seq<Byte> {
    if w > 0 then Dec(w) else []
  }

  lemma StartLeading(v: nat)
    requires v > 0
    ensures Leading(v) + Reversed([]) == Dec(v) && Leading(0) == []
  {
    assert Dec(v) + [] == Dec(v);
  }

  lemma DecSplit(w: nat)
    requires w > 0
    ensures Leading(w) == Leading(w / 10) + [DigitChar(w % 10)]
  {
  }

  lemma Regroup(a: seq<Byte>, b: seq<Byte>, c: seq<Byte>)
    ensures a + b + c == a + (b + c)
  {
  }

  lemma OneDigitLess(w: nat, n: nat)
    requires 0 < w < Power(10, n)
    ensures n > 0 && w / 10 < Power(10, n - 1) && 0 <= w / 10 < w
  {
  }

  /** The digit loop of print_u64_dec: the digits of v, last one first. */
  method Generate(v: nat, buf: array<Byte>) returns (n: nat)
    requires 0 < v < TWO_64 && buf.Length == 21
    modifies buf
    ensures 0 < n <= 20 && Reversed(buf[..n]) == Dec(v)
  {
    hide Reversed, Dec, Power, Leading;
    WordDigits();
    var w: nat := v;
    n := 0;
    StartLeading(v);
    assert buf[..0] == [];
    while w > 0
      invariant n <= 20 && w < Power(10, 20 - n) && (n > 0 || w == v)
      invariant Dec(v) == Leading(w) + Reversed(buf[..n])
      decreases w
    {
      ghost var done := buf[..n];
      var digit := w % 10;
      DecSplit(w);
      OneDigitLess(w, 20 - n);
      buf[n] := '0' as int + digit;
      n, w := n + 1, w / 10;
      assert buf[..n] == done + [DigitChar(digit)];
      ReversedSnoc(done, DigitChar(digit));
      Regroup(Leading(w), [DigitChar(digit)], Reversed(done));
    }
    assert [] + Reversed(buf[..n]) == Reversed(buf[..n]);
  }

  /** The swap loop of print_u64_dec. */
  method ReverseInPlace(buf: array<Byte>, n: nat)
    requires 0 < n <= buf.Length
    modifies buf
    ensures buf[..n] == Reversed(old(buf[..n]))
  {
    var j, k := 0, n - 1;
    while j < k
      invariant 0 <= j <= k + 1 && j + k == n - 1
      invariant forall i :: 0 <= i < n ==> buf[i] == if j <= i <= k then old(buf[i]) else old(buf[n - 1 - i])
    {
      var t := buf[j];
      buf[j] := buf[k];
      buf[k] := t;
      j, k := j + 1, k - 1;
    }
  }

  /** print_u64_dec. */
  method PrintDec(fb: Console.Framebuffer, v: nat)
    requires fb.Valid() && v < TWO_64
    modifies fb`curCol, fb`curRow, fb`cells, fb.fb
    ensures fb.Valid() && |Dec(v)| <= 20
    ensures NoTabs(Console.Coloured(Dec(v), fb.fg))
    ensures fb.View() == PutText(old(fb.View()), Console.Coloured(Dec(v), fb.fg), fb.rows, fb.cols)
  {
    hide Put, Legal, Value, Reversed, Power;
    WordDigits();
    DecRoundTrip(v, 20);
    ghost var text := Console.Coloured(Dec(v), fb.fg);
    assert NoTabs(text) by {
      assert forall i :: 0 <= i < |text| ==> Dec(v)[i] in Dec(v);
    }
    if v == 0 {
      fb.PutChar('0' as int);
      assert text == [Char('0' as int, fb.fg)];
      assert text[..0] == [];
      return;
    }
    hide Dec, IsDecimal, PutText;
    var buf := new Byte[21];
    var n := Generate(v, buf);
    ReverseInPlace(buf, n);
    buf[n] := 0;
    assert buf[..n] == Dec(v);
    fb.Print(buf[..n]);
  }

  /** The digit loop of print_u64_hex, from the last digit to the first. */
  method GenerateHex(v: nat, buf: array<Byte>)
    requires v < TWO_64 && buf.Length == 17
    modifies buf
    ensures buf[..16] == Hex(v, 16)
  {
    var w, i := v, 15;
    while i >= 0
      invariant -1 <= i <= 15 && Hex(v, 16) == Hex(w, i + 1) + buf[i + 1..16]
      decreases i
    {
      ghost var done := buf[i + 1..16];
      buf[i] := DigitChar(w % 16);
      assert buf[i..16] == [DigitChar(w % 16)] + done;
      assert Hex(w, i + 1) == Hex(w / 16, i) + [DigitChar(w % 16)];
      w, i := w / 16, i - 1;
    }
  }

  /** print_u64_hex. */
  method PrintHex(fb: Console.Framebuffer, v: nat)
    requires fb.Valid() && v < TWO_64
    modifies fb`curCol, fb`curRow, fb`cells, fb.fb
    ensures fb.Valid() && Value(Hex(v, 16), 16) == v && IsHex(Hex(v, 16))
    ensures NoTabs(HexText(v, fb.fg))
    ensures fb.View() == PutText(old(fb.View()), HexText(v, fb.fg), fb.rows, fb.cols)
  {
    hide Put, Legal, Hex, Value;
    WordDigits();
    HexRoundTrip(v, 16);
    var prefix: seq<Byte> := ['0' as int, 'x' as int];
    ghost var a, b := Console.Coloured(prefix, fb.fg), Console.Coloured(Hex(v, 16), fb.fg);
    assert NoTabs(b) by {
      assert forall i :: 0 <= i < |b| ==> Hex(v, 16)[i] in Hex(v, 16);
    }
    PutTextConcat(fb.View(), a, b, fb.rows, fb.cols);
    assert HexText(v, fb.fg) == a + b;
    fb.Print(prefix);
    var buf := new Byte[17];
    GenerateHex(v, buf);
    buf[16] := 0;
    fb.Print(buf[..16]);
  }

  /** What print_u64_hex prints reads 0x and then sixteen digits whose value is the number. */
  lemma HexTextReads(v: nat, fg: Colour)
    requires v < TWO_64
    ensures var text := HexText(v, fg);
            && |text| == 18 && text[0] == Char('0' as int, fg) && text[1] == Char('x' as int, fg)
            && (forall i :: 0 <= i < 18 ==> text[i].fg == fg)
            && exists ds: seq<Byte> :: |ds| == 16 && IsHex(ds) && Value(ds, 16) == v &&
                                       forall i :: 0 <= i < 16 ==> text[i + 2].code == ds[i]
  {
    WordDigits();
    HexRoundTrip(v, 16);
    hide Hex, Value, IsHex;
    var ds := Hex(v, 16);
    var all := ['0' as int, 'x' as int] + ds;
    assert forall i :: 0 <= i < 16 ==> all[i + 2] == ds[i];
    assert HexText(v, fg) == Console.Coloured(all, fg);
  }

  function HexText(v: nat, fg: Colour): seq<Char> {
    Console.Coloured(['0' as int, 'x' as int] + Hex(v, 16), fg)
  }
}
