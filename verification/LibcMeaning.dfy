/**
 What a format prints: text as it stands, and for each directive the padded text of its argument,
 told by what the text is and not by how it is made.
 */
module LibcMeaning {
  import opened LibcNumbers
  import opened LibcFormat
  import opened LibcPrint

  /** Reduction to 32 bits without a sign: the one number below 2^32 that differs by a multiple of 2^32. */
  lemma UnsignedMeaning(w: int32)
    ensures 0 <= Unsigned(w) < 0x1_0000_0000 && (Unsigned(w) - w as int) % 0x1_0000_0000 == 0
  {
    assert Unsigned(w) - w as int in {0, 0x1_0000_0000};
  }

  // ---- one directive

  /** The text at the end, and in front of it as much padding as the width asks for, which a full buffer drops. */
  ghost predicate Padded(out: seq<Out>, text: string, zero: bool, width: nat) {
    var n := if width > |text| then width - |text| else 0;
    && |out| == n + |text|
    && (forall i :: 0 <= i < n ==> out[i] == Out(if zero then '0' else ' ', false))
    && (forall i :: n <= i < |out| ==> out[i] == Out(text[i - n], true))
  }

  lemma DirectivePads(c: char, zero: bool, width: nat, a: Arg)
    requires Converts(c)
    ensures Padded(Directive(c, zero, width, a), Converted(c, a), zero, width)
  {
    hide Converted;
  }

  /** 'u' prints the word without sign in base 10, 'x' and 'X' alike in base 16 with small letters. */
  lemma UnsignedPrinted(c: char, zero: bool, width: nat, w: int32) returns (text: string)
    requires c == 'u' || c == 'x' || c == 'X'
    ensures Padded(Directive(c, zero, width, Word(w)), text, zero, width)
    ensures Minimal(text, if c == 'u' then Decimal else Hex)
    ensures Value(text, if c == 'u' then Decimal else Hex) == Unsigned(w) && |text| <= 10
    ensures forall i :: 0 <= i < |text| ==> '0' <= text[i] <= '9' || (c != 'u' && 'a' <= text[i] <= 'f')
  {
    text := Converted(c, Word(w));
    WordDigits(Unsigned(w), if c == 'u' then Decimal else Hex);
    DirectivePads(c, zero, width, Word(w));
    TextIsUnique(Unsigned(w), if c == 'u' then Decimal else Hex, "");
  }

  /** 'p' prints "0x" and then what 'x' prints. */
  lemma PointerPrinted(zero: bool, width: nat, w: int32) returns (text: string)
    ensures Padded(Directive('p', zero, width, Word(w)), "0x" + text, zero, width)
    ensures Minimal(text, Hex) && Value(text, Hex) == Unsigned(w)
  {
    text := Text(Unsigned(w), Hex);
    DirectivePads('p', zero, width, Word(w));
    TextIsUnique(Unsigned(w), Hex, "");
  }

  /** 'd' prints a text that `atoi` reads back as the number: a minus sign if it is negative, and its digits. */
  lemma SignedPrinted(zero: bool, width: nat, w: int32) returns (text: string)
    ensures Padded(Directive('d', zero, width, Word(w)), (if w < 0 then "-" else "") + text, zero, width)
    ensures Minimal(text, Decimal) && Value(text, Decimal) == if w < 0 then -(w as int) else w as int
    ensures Atoi((if w < 0 then "-" else "") + text) == w
  {
    hide Directive, Minimal, Value, Text, Atoi;
    text := Text(Magnitude(w), Decimal);
    SignedTextIs(w);
    DirectivePads('d', zero, width, Word(w));
    TextIsUnique(Magnitude(w), Decimal, "");
    AtoiOfItoa(w);
  }

  lemma SignedTextIs(w: int32)
    ensures SignedText(w) == (if w < 0 then "-" else "") + Text(Magnitude(w), Decimal)
  {
    assert "" + Text(Magnitude(w), Decimal) == Text(Magnitude(w), Decimal);
  }

  /** 's' prints the string, and "(null)" for the null pointer. */
  lemma StringPrinted(zero: bool, width: nat, a: Arg)
    requires !a.Word?
    ensures Padded(Directive('s', zero, width, a), if a.Str? then a.s else "(null)", zero, width)
  {
    DirectivePads('s', zero, width, a);
  }

  /**
   The rest prints single characters whatever flag and width say: 'c' the low byte of its argument,
   '%' itself, and a conversion that is none of these stands for itself.
   */
  lemma OthersPrinted(c: char, zero: bool, width: nat, w: int32)
    requires c !in {'d', 'u', 'x', 'X', 'p', 's'}
    ensures var out := Directive(c, zero, width, Word(w));
      && (forall i :: 0 <= i < |out| ==> !out[i].sticky)
      && Chars(out) == if c == 'c' then [((w as int) % 256) as char] else if c == '%' then "%" else ['%', c]
  {
    assert Unsigned(w) % 256 == (w as int) % 256 by { UnsignedMeaning(w); }
  }

  /** These and no others take an argument, 's' a pointer and the rest a word. */
  lemma ArgumentsTaken(c: char, a: Arg)
    ensures Consumes(c) <==> c in {'d', 'u', 'x', 'X', 'p', 's', 'c'}
    ensures Suits(c, a) <==> (a.Word? <==> c != 's')
  {
  }

  // ---- the whole format

  function Join(p: string, f: string): string { p + f }

  lemma JoinAt(p: string, f: string, i: nat)
    requires i <= |f|
    ensures |Join(p, f)| == |p| + |f| && (i < |f| ==> Join(p, f)[|p| + i] == f[i])
  {
  }

  lemma {:induction false} WidthShift(p: string, f: string, i: nat)
    requires i <= |f|
    ensures |Join(p, f)| == |p| + |f| && WidthEnd(Join(p, f), |p| + i) == |p| + WidthEnd(f, i)
    decreases |f| - i
  {
    if i < |f| && Decimalic(f[i]) { WidthShift(p, f, i + 1); }
  }

  /** Flag, width and conversion of a directive are found wherever the format stands. */
  lemma PartsShift(p: string, f: string, i: nat) returns (z: nat, k: nat)
    requires i < |f|
    ensures z == AfterZero(f, i + 1) && z <= k && k == WidthEnd(f, z) && |Join(p, f)| == |p| + |f|
    ensures AfterZero(Join(p, f), |p| + i + 1) == |p| + z && WidthEnd(Join(p, f), |p| + z) == |p| + k
    ensures Join(p, f)[|p| + z..|p| + k] == f[z..k]
  {
    hide WidthEnd;
    z := AfterZero(f, i + 1);
    k := WidthEnd(f, z);
    WidthShift(p, f, z);
  }

  function Behind(c: char, args: seq<Arg>): seq<Arg> { if Consumes(c) && args != [] then args[1..] else args }

  lemma WellStep(f: string, i: nat, z: nat, k: nat, args: seq<Arg>)
    requires i < |f| && f[i] == '%' && z == AfterZero(f, i + 1) && k == WidthEnd(f, z)
    ensures WellFormed(f, i, args) <==>
      && k < |f|
      && (Consumes(f[k]) ==> args != [] && Suits(f[k], args[0]))
      && WellFormed(f, k + 1, Behind(f[k], args))
    ensures WellFormed(f, i, args) ==>
      Expand(f, i, args) == Directive(f[k], z == i + 2, Value(f[z..k], Decimal),
        if Consumes(f[k]) then args[0] else Null) + Expand(f, k + 1, Behind(f[k], args))
  {
    hide Directive, Value, AfterZero, WidthEnd, Suits;
  }

  lemma PlainStep(f: string, i: nat, args: seq<Arg>)
    requires i < |f| && f[i] != '%'
    ensures WellFormed(f, i, args) <==> WellFormed(f, i + 1, args)
    ensures WellFormed(f, i, args) ==> Expand(f, i, args) == [Out(f[i], true)] + Expand(f, i + 1, args)
  {
  }

  /** What stands behind position i of a format expands as if it stood alone. */
  lemma {:induction false} ExpandShift(p: string, f: string, i: nat, args: seq<Arg>)
    requires i <= |f|
    ensures WellFormed(Join(p, f), |p| + i, args) <==> WellFormed(f, i, args)
    ensures WellFormed(f, i, args) ==> Expand(Join(p, f), |p| + i, args) == Expand(f, i, args)
    decreases |f| - i
  {
    hide Join, Expand, WellFormed, Consumes, Suits, Directive, Value, AfterZero, WidthEnd, Behind;
    JoinAt(p, f, i);
    if i == |f| {
      NothingLeft(f, args);
      NothingLeft(Join(p, f), args);
    } else if f[i] != '%' {
      PlainStep(f, i, args);
      PlainStep(Join(p, f), |p| + i, args);
      ExpandShift(p, f, i + 1, args);
    } else {
      var z, k := PartsShift(p, f, i);
      WellStep(f, i, z, k, args);
      WellStep(Join(p, f), |p| + i, |p| + z, |p| + k, args);
      if k < |f| {
        JoinAt(p, f, k);
        ExpandShift(p, f, k + 1, Behind(f[k], args));
      }
    }
  }

  lemma NothingLeft(f: string, args: seq<Arg>)
    ensures WellFormed(f, |f|, args) && Expand(f, |f|, args) == []
  {
  }

  /** Text without a '%' stands for itself. */
  lemma {:induction false} TextPrinted(text: string, rest: string, args: seq<Arg>)
    requires forall i :: 0 <= i < |text| ==> text[i] != '%'
    ensures WellFormed(text + rest, 0, args) <==> WellFormed(rest, 0, args)
    ensures WellFormed(rest, 0, args) ==> Expand(text + rest, 0, args) == Sticky(text) + Expand(rest, 0, args)
    decreases |text|
  {
    hide Sticky, Directive, Value, AfterZero, WidthEnd, Consumes, Suits;
    if text == "" {
      assert text + rest == rest && Sticky(text) == [];
    } else {
      var c, t := text[0], text[1..];
      assert text + rest == [c] + (t + rest);
      TextPrinted(t, rest, args);
      ExpandShift([c], t + rest, 0, args);
      if WellFormed(rest, 0, args) {
        StickyFirst(c, t);
        assert [Out(c, true)] + (Sticky(t) + Expand(rest, 0, args)) == Sticky(text) + Expand(rest, 0, args);
      }
    }
  }

  lemma StickyFirst(c: char, t: string)
    ensures Sticky([c] + t) == [Out(c, true)] + Sticky(t)
  {
  }

  /** A directive as it is written. */
  function Written(zero: bool, digits: string, c: char): string { "%" + (if zero then "0" else "") + digits + [c] }

  /** Digits that give a width: none, or a number that does not begin with the flag's '0' unless the flag is there. */
  predicate IsWidth(zero: bool, digits: string) {
    && (forall i :: 0 <= i < |digits| ==> Decimalic(digits[i]))
    && (zero || digits == "" || digits[0] != '0')
  }

  lemma WrittenParts(zero: bool, digits: string, c: char, rest: string)
    requires IsWidth(zero, digits) && !Decimalic(c)
    ensures var f, z := Join(Written(zero, digits, c), rest), if zero then 2 else 1;
      && f[0] == '%' && AfterZero(f, 1) == z && WidthEnd(f, z) == z + |digits| && f[z + |digits|] == c
      && f[z..z + |digits|] == digits && z + |digits| + 1 == |Written(zero, digits, c)| <= |f|
  {
    var f, z := Join(Written(zero, digits, c), rest), if zero then 2 else 1;
    assert f[z..] == digits + ([c] + rest);
    assert forall i :: 0 <= i < |digits| ==> f[z + i] == digits[i];
    WidthIs(f, z, z + |digits|);
  }

  lemma {:induction false} WidthIs(f: string, z: nat, k: nat)
    requires z <= k < |f| && (forall i :: z <= i < k ==> Decimalic(f[i])) && !Decimalic(f[k])
    ensures WidthEnd(f, z) == k
    decreases k - z
  {
    if z < k { WidthIs(f, z + 1, k); }
  }

  lemma DirectiveExpands(zero: bool, digits: string, c: char, rest: string, args: seq<Arg>)
    requires IsWidth(zero, digits) && !Decimalic(c) && (Consumes(c) ==> args != [] && Suits(c, args[0]))
    ensures var f, behind := Join(Written(zero, digits, c), rest), Behind(c, args);
      && (WellFormed(f, 0, args) <==> WellFormed(rest, 0, behind))
      && (WellFormed(rest, 0, behind) ==>
        Expand(f, 0, args) ==
          Directive(c, zero, Value(digits, Decimal), if Consumes(c) then args[0] else Null) + Expand(rest, 0, behind))
  {
    hide Join, Expand, WellFormed, Suits, Directive, Value, AfterZero, WidthEnd, Written, IsWidth, Consumes, Behind;
    var p, z: nat := Written(zero, digits, c), if zero then 2 else 1;
    WrittenParts(zero, digits, c, rest);
    WellStep(Join(p, rest), 0, z, z + |digits|, args);
    ExpandShift(p, rest, 0, Behind(c, args));
  }

  /** A directive in front of a format: the conversion, with the flag and the number as width, and then the rest. */
  lemma DirectivePrinted(zero: bool, digits: string, c: char, rest: string, args: seq<Arg>)
    requires IsWidth(zero, digits) && !Decimalic(c)
    requires Consumes(c) ==> args != [] && Suits(c, args[0])
    ensures var f, behind := Written(zero, digits, c) + rest, if Consumes(c) then args[1..] else args;
      && (WellFormed(f, 0, args) <==> WellFormed(rest, 0, behind))
      && (WellFormed(rest, 0, behind) ==>
        Expand(f, 0, args) ==
          Directive(c, zero, Value(digits, Decimal), if Consumes(c) then args[0] else Null) + Expand(rest, 0, behind))
  {
    hide Expand, WellFormed, Suits, Directive, Value, Written, IsWidth, Consumes;
    DirectiveExpands(zero, digits, c, rest, args);
  }

  /** A directive that lacks its argument is not well-formed. */
  lemma DirectiveLacking(zero: bool, digits: string, c: char, rest: string, args: seq<Arg>)
    requires IsWidth(zero, digits) && !Decimalic(c) && Consumes(c) && (args == [] || !Suits(c, args[0]))
    ensures !WellFormed(Written(zero, digits, c) + rest, 0, args)
  {
    var z: nat := if zero then 2 else 1;
    hide Suits, Value, AfterZero, WidthEnd, Written, IsWidth, Directive;
    WrittenParts(zero, digits, c, rest);
    WellStep(Join(Written(zero, digits, c), rest), 0, z, z + |digits|, args);
  }

  // ---- what is left in the buffer

  lemma CharsJoin(a: seq<Out>, b: seq<Out>)
    ensures Chars(a + b) == Chars(a) + Chars(b)
  {
  }

  lemma CharsOf(text: string, out: seq<Out>)
    ensures Chars(Sticky(text)) == text && (Padded(out, text, false, 0) ==> Chars(out) == text)
  {
  }

  /** Text, a number in base 16 without a width, and the rest. */
  lemma HexAmidText(text: string, w: int32, rest: string, args: seq<Arg>) returns (hex: string)
    requires (forall i :: 0 <= i < |text| ==> text[i] != '%') && WellFormed(rest, 0, args)
    ensures WellFormed(text + ("%x" + rest), 0, [Word(w)] + args)
    ensures Chars(Expand(text + ("%x" + rest), 0, [Word(w)] + args)) == text + hex + Chars(Expand(rest, 0, args))
    ensures Minimal(hex, Hex) && Value(hex, Hex) == Unsigned(w) && |hex| <= 10
  {
    hide WellFormed, Expand, Directive, Minimal, Value, Sticky, Chars, Padded;
    var all := [Word(w)] + args;
    TextPrinted(text, "%x" + rest, all);
    PlainX();
    DirectivePrinted(false, "", 'x', rest, all);
    assert all[1..] == args;
    hex := UnsignedPrinted('x', false, 0, w);
    var d := Directive('x', false, 0, Word(w));
    CharsOf(text, d);
    CharsOf(hex, d);
    CharsJoin(d, Expand(rest, 0, args));
    CharsJoin(Sticky(text), d + Expand(rest, 0, args));
  }

  lemma PlainX()
    ensures Written(false, "", 'x') == "%x" && IsWidth(false, "") && Value("", Decimal) == 0 && Suits('x', Word(0))
  {
    assert "%" + "" + "" + ['x'] == "%x";
  }

  /**
   `snprintf` of one directive 'u', 'x' or 'X' into a buffer that holds it: the number's one minimal
   text in the base, at the end of as many '0' or ' ' as the width asks for.
   */
  method SnprintfWord(buf: array<char>, size: nat, zero: bool, digits: string, c: char, w: int32)
    returns (pos: nat, ghost text: string)
    requires (c == 'u' || c == 'x' || c == 'X') && IsWidth(zero, digits)
    requires 10 < size <= buf.Length && Value(digits, Decimal) < size
    modifies buf
    ensures Minimal(text, if c == 'u' then Decimal else Hex)
    ensures Value(text, if c == 'u' then Decimal else Hex) == Unsigned(w)
    ensures |text| <= pos < buf.Length && buf[pos - |text|..pos] == text && buf[pos] == '\0'
    ensures pos == if Value(digits, Decimal) > |text| then Value(digits, Decimal) else |text|
    ensures forall i :: 0 <= i < pos - |text| ==> buf[i] == if zero then '0' else ' '
  {
    hide WellFormed, Expand, Directive, Minimal, Value, IsWidth, Written, Ends;
    ghost var e := Directive(c, zero, Value(digits, Decimal), Word(w));
    text := UnsignedPrinted(c, zero, Value(digits, Decimal), w);
    OneDirective(zero, digits, c, w);
    FitsEnds(e, size);
    pos := Vsnprintf(buf, size, Written(zero, digits, c), [Word(w)]);
    assert buf[..pos] == Chars(e);
  }

  lemma OneDirective(zero: bool, digits: string, c: char, w: int32)
    requires IsWidth(zero, digits) && !Decimalic(c) && Consumes(c) && Suits(c, Word(w))
    ensures WellFormed(Written(zero, digits, c), 0, [Word(w)])
    ensures Expand(Written(zero, digits, c), 0, [Word(w)]) == Directive(c, zero, Value(digits, Decimal), Word(w))
  {
    hide Directive, Value, IsWidth, Written;
    DirectivePrinted(zero, digits, c, "", [Word(w)]);
    assert Written(zero, digits, c) + "" == Written(zero, digits, c);
  }

  /** The line that the page fault handler prints through `kprintf`. */
  method KprintfFault(buf: array<char>, address: int32, eip: int32, error: int32)
    returns (pos: nat, ghost a: string, ghost b: string, ghost c: string)
    requires buf.Length == 512
    modifies buf
    ensures pos < 512 && buf[pos] == '\0'
    ensures buf[..pos] == "  Address: 0x" + a + ("  EIP: 0x" + b + ("  Error: 0x" + c + "\n"))
    ensures Minimal(a, Hex) && Minimal(b, Hex) && Minimal(c, Hex)
    ensures (Value(a, Hex), Value(b, Hex), Value(c, Hex)) == (Unsigned(address), Unsigned(eip), Unsigned(error))
  {
    hide WellFormed, Expand, Minimal, Value, Ends, Chars;
    LineEnd();
    FaultLineIs();
    c := HexAmidText("  Error: 0x", error, "\n", []);
    b := HexAmidText("  EIP: 0x", eip, FROM_ERROR, [Word(error)] + []);
    var args := [Word(address)] + ([Word(eip)] + ([Word(error)] + []));
    a := HexAmidText("  Address: 0x", address, FROM_EIP, args[1..]);
    FitsEnds(Expand(FAULT_LINE, 0, args), 512);
    pos := Vsnprintf(buf, 512, FAULT_LINE, args);
  }

  const FAULT_LINE := "  Address: 0x%x  EIP: 0x%x  Error: 0x%x\n"

  /** The line from its second and from its third number on. */
  const FROM_EIP := "  EIP: 0x" + ("%x" + FROM_ERROR)
  const FROM_ERROR := "  Error: 0x" + ("%x" + "\n")

  lemma FaultLineIs()
    ensures FAULT_LINE == "  Address: 0x" + ("%x" + FROM_EIP)
  {
  }

  lemma LineEnd()
    ensures WellFormed("\n", 0, []) && Chars(Expand("\n", 0, [])) == "\n"
  {
    TextPrinted("\n", "", []);
    assert "\n" + "" == "\n";
    NothingLeft("", []);
    CharsOf("\n", []);
  }
}
