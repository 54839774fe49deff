/**
 Numbers as text in libc/libc.c: `itoa_buf` writes the one minimal digit string of a number, and
 `atoi` reads it back.
 */
module LibcNumbers {

  type int32 = x: int | -0x8000_0000 <= x < 0x8000_0000

  const DIGITS: string := "0123456789abcdef"

  datatype Base = Decimal | Hex {
    function Size(): nat { if Decimal? then 10 else 16 }
    function Times(v: nat): nat { if Decimal? then 10 * v else 16 * v }
    function Quotient(n: nat): (q: nat)
      ensures n > 0 ==> q < n
    {
      if Decimal? then n / 10 else n / 16
    }
    function Last(n: nat): (d: nat)
      ensures d < Size() && n == Times(Quotient(n)) + d
    {
      if Decimal? then n % 10 else n % 16
    }
  }

  lemma SplitUnique(b: Base, q: nat, d: nat)
    requires d < b.Size()
    ensures b.Quotient(b.Times(q) + d) == q && b.Last(b.Times(q) + d) == d
  {
  }

  /** Position of a character in the digit table, or 16. */
  function DigitValue(c: char): (v: nat)
    ensures v <= 16 && (v < 16 ==> DIGITS[v] == c) && (v == 0 <==> c == '0')
    ensures v < 10 <==> '0' <= c <= '9'
  {
    if '0' <= c <= '9' then c as int - '0' as int
    else if 'a' <= c <= 'f' then c as int - 'a' as int + 10
    else 16
  }

  lemma DigitOfValue(v: nat)
    requires v < 16
    ensures DigitValue(DIGITS[v]) == v
  {
  }

  /** What a digit string stands for, most significant digit first. */
  function Value(s: string, b: Base): nat {
    if s == "" then 0 else b.Times(Value(s[..|s| - 1], b)) + DigitValue(s[|s| - 1])
  }

  predicate AllDigits(s: string, b: Base) { forall i :: 0 <= i < |s| ==> DigitValue(s[i]) < b.Size() }

  /** Digits of the base, and no leading zero except in "0" itself. */
  predicate Minimal(s: string, b: Base) { s != "" && AllDigits(s, b) && (|s| > 1 ==> s[0] != '0') }

  /** The digits of n, none for 0. */
  function Digits(n: nat, b: Base): (s: string)
    ensures |s| > 0 <==> n > 0
  {
    if n == 0 then "" else Digits(b.Quotient(n), b) + [DIGITS[b.Last(n)]]
  }

  lemma {:induction false} DigitsValue(n: nat, b: Base)
    ensures Value(Digits(n, b), b) == n && AllDigits(Digits(n, b), b) && (n > 0 ==> Digits(n, b)[0] != '0')
  {
    if n > 0 {
      DigitsValue(b.Quotient(n), b);
      DigitOfValue(b.Last(n));
      var s := Digits(n, b);
      assert s[..|s| - 1] == Digits(b.Quotient(n), b);
      if b.Quotient(n) > 0 { assert s[0] == Digits(b.Quotient(n), b)[0]; }
    }
  }

  /** One more digit at the end. */
  lemma NextDigit(v: nat, d: nat, b: Base)
    requires d < b.Size() && (v > 0 || d > 0)
    ensures Digits(b.Times(v) + d, b) == Digits(v, b) + [DIGITS[d]]
  {
    SplitUnique(b, v, d);
  }

  lemma ValueOfNext(p: string, c: char, b: Base)
    ensures Value(p + [c], b) == b.Times(Value(p, b)) + DigitValue(c)
  {
    hide Base.Times, DigitValue;
    assert (p + [c])[..|p|] == p;
  }

  /** Place value: a digit behind a string multiplies what it stands for by the base and adds the digit. */
  lemma PlaceValue(p: string, k: nat, b: Base)
    requires k < if b.Decimal? then 10 else 16
    ensures Value(p + ["0123456789abcdef"[k]], b) == (if b.Decimal? then 10 else 16) * Value(p, b) + k
    ensures Value("", b) == 0
  {
    hide Value;
    ValueOfNext(p, DIGITS[k], b);
    DigitOfValue(k);
    EmptyDigits(b);
  }

  /** A digit string without leading zero is the digits of its value: there is only one. */
  lemma {:induction false} DigitsUnique(s: string, b: Base)
    requires AllDigits(s, b) && (s != "" ==> s[0] != '0')
    ensures s == Digits(Value(s, b), b)
  {
    hide Base.Times, Base.Quotient, Base.Last, DigitValue, Digits, Value;
    if s == "" {
      EmptyDigits(b);
    } else {
      var p, c := s[..|s| - 1], s[|s| - 1];
      assert s == p + [c];
      DigitsUnique(p, b);
      ValueOfNext(p, c, b);
      NextDigit(Value(p, b), DigitValue(c), b);
    }
  }

  lemma EmptyDigits(b: Base)
    ensures Value("", b) == 0 && Digits(0, b) == ""
  {
  }

  /** Text of an unsigned number. */
  function Text(n: nat, b: Base): string { if n == 0 then "0" else Digits(n, b) }

  /** The text is minimal, stands for the number, and is the only minimal string that does. */
  lemma TextIsUnique(n: nat, b: Base, s: string)
    ensures Minimal(Text(n, b), b) && Value(Text(n, b), b) == n
    ensures Minimal(s, b) && Value(s, b) == n ==> s == Text(n, b)
  {
    DigitsValue(n, b);
    assert "0"[..0] == "";
    if Minimal(s, b) && Value(s, b) == n {
      if s[0] != '0' { DigitsUnique(s, b); } else { assert s == "0"; }
    }
  }

  /** Text of a signed number. */
  function SignedText(v: int): string { if v < 0 then "-" + Text(-v, Decimal) else Text(v, Decimal) }

  function Power(b: Base, k: nat): nat { if k == 0 then 1 else b.Times(Power(b, k - 1)) }

  lemma {:induction false} DigitsShort(n: nat, b: Base, k: nat)
    requires n < Power(b, k)
    ensures |Digits(n, b)| <= k
    decreases k
  {
    if n > 0 { DigitsShort(b.Quotient(n), b, k - 1); }
  }

  /** A 32-bit number takes at most 10 digits: with the sign they fit the buffer of 32. */
  lemma WordDigits(n: nat, b: Base)
    requires n <= 0x1_0000_0000
    ensures |Digits(n, b)| <= 10
  {
    assert Power(b, 5) == if b.Decimal? then 100_000 else 0x10_0000;
    assert Power(b, 10) == if b.Decimal? then 10_000_000_000 else 0x100_0000_0000;
    DigitsShort(n, b, 10);
  }

  // ---- itoa_buf

  function Reversed(s: string): (r: string)
    ensures |r| == |s|
  {
    if s == "" then "" else [s[|s| - 1]] + Reversed(s[..|s| - 1])
  }

  lemma PushDigit(s: string, c: char)
    ensures Reversed(s + [c]) == [c] + Reversed(s)
  {
    assert (s + [c])[..|s|] == s;
  }

  /** `while (uval) { tmp[i++] = digits[uval % base]; uval /= base; }`: least significant first */
  method PushDigits(n: nat, b: Base) returns (tmp: string)
    ensures Reversed(tmp) == Text(n, b)
  {
    if n == 0 {
      PushDigit("", '0');
      assert "" + ['0'] == "0";
      return "0";
    }
    tmp := "";
    var uval := n;
    while uval != 0
      invariant Digits(n, b) == Digits(uval, b) + Reversed(tmp)
    {
      PushDigit(tmp, DIGITS[b.Last(uval)]);
      assert Digits(uval, b) + Reversed(tmp) ==
        Digits(b.Quotient(uval), b) + ([DIGITS[b.Last(uval)]] + Reversed(tmp));
      tmp := tmp + [DIGITS[b.Last(uval)]];
      uval := b.Quotient(uval);
    }
  }

  /** `while (i--) buf[j++] = tmp[i]` */
  method CopyReversed(tmp: string) returns (buf: string)
    ensures buf == Reversed(tmp)
  {
    buf := "";
    var i := |tmp|;
    assert tmp[..i] == tmp;
    while i > 0
      invariant i <= |tmp| && buf + Reversed(tmp[..i]) == Reversed(tmp)
    {
      i := i - 1;
      assert tmp[..i + 1] == tmp[..i] + [tmp[i]];
      PushDigit(tmp[..i], tmp[i]);
      assert buf + ([tmp[i]] + Reversed(tmp[..i])) == buf + [tmp[i]] + Reversed(tmp[..i]);
      buf := buf + [tmp[i]];
    }
    assert tmp[..0] == "";
  }

  /** `(uint32_t)val` */
  function Unsigned(val: int32): nat { if val < 0 then (val as int) + 0x1_0000_0000 else val as int }

  function Magnitude(val: int32): nat { if val < 0 then -(val as int) else val as int }

  method ItoaBuf(val: int32, b: Base, unsign: bool) returns (buf: string)
    ensures unsign ==> buf == Text(Unsigned(val), b)
    ensures !unsign ==> buf == (if val < 0 then "-" else "") + Text(Magnitude(val), b)
    ensures |buf| <= 11
  {
    var uval := if unsign then Unsigned(val) else Magnitude(val);
    WordDigits(uval, b);
    var tmp := PushDigits(uval, b);
    if !unsign && val < 0 {
      PushDigit(tmp, '-');
      tmp := tmp + ['-'];
    }
    buf := CopyReversed(tmp);
  }

  // ---- atoi

  predicate Decimalic(c: char) { '0' <= c <= '9' }

  /** Decimal digits at the front of s. */
  function Prefix(s: string): (k: nat)
    ensures k <= |s| && (forall i :: 0 <= i < k ==> Decimalic(s[i])) && (k < |s| ==> !Decimalic(s[k]))
  {
    if s == "" || !Decimalic(s[0]) then 0 else 1 + Prefix(s[1..])
  }

  lemma {:induction false} PrefixIs(s: string, k: nat)
    requires k <= |s| && (forall i :: 0 <= i < k ==> Decimalic(s[i])) && (k < |s| ==> !Decimalic(s[k]))
    ensures Prefix(s) == k
  {
    if k > 0 { PrefixIs(s[1..], k - 1); }
  }

  function Unpadded(s: string): string { if s != "" && s[0] == ' ' then Unpadded(s[1..]) else s }

  predicate Negative(t: string) { t != "" && t[0] == '-' }

  /** The greatest value the accumulator of `atoi` takes, in unbounded arithmetic. */
  function Reach(s: string): nat {
    var t := Unpadded(s);
    var d := if Negative(t) then t[1..] else t;
    Value(d[..Prefix(d)], Decimal)
  }

  function Atoi(s: string): int { if Negative(Unpadded(s)) then -(Reach(s) as int) else Reach(s) as int }

  method SkipSpaces(s: string) returns (p: nat)
    ensures p <= |s| && s[p..] == Unpadded(s)
  {
    p := 0;
    assert s[0..] == s;
    while p < |s| && s[p] == ' '
      invariant p <= |s| && Unpadded(s) == Unpadded(s[p..])
    {
      assert s[p..][1..] == s[p + 1..];
      p := p + 1;
    }
  }

  method ReadDigits(d: string) returns (n: nat)
    ensures n == Value(d[..Prefix(d)], Decimal)
  {
    var p := 0;
    n := 0;
    while p < |d| && '0' <= d[p] <= '9'
      invariant p <= |d| && n == Value(d[..p], Decimal) && forall i :: 0 <= i < p ==> Decimalic(d[i])
    {
      assert d[..p + 1][..p] == d[..p];
      n := n * 10 + (d[p] as int - '0' as int);
      p := p + 1;
    }
    PrefixIs(d, p);
  }

  method AtoiByHand(s: string) returns (n: int)
    ensures n == Atoi(s)
  {
    var p := SkipSpaces(s);
    hide Value, Prefix, Unpadded;
    var neg := p < |s| && s[p] == '-';
    if neg { p := p + 1; }
    n := ReadDigits(s[p..]);
    if neg { n := -n; }
  }

  /**
   `atoi` of what `itoa_buf` writes is the number, for every 32-bit number, and its accumulator
   stays within an int if and only if the number is not the least one.
   */
  lemma AtoiOfItoa(v: int32)
    ensures Atoi(SignedText(v)) == v
    ensures Reach(SignedText(v)) <= 0x7FFF_FFFF <==> v != -0x8000_0000
  {
    hide Value, Digits;
    var s, d := SignedText(v), Text(Magnitude(v), Decimal);
    TextIsUnique(Magnitude(v), Decimal, d);
    PrefixIs(d, |d|);
    assert d[..|d|] == d;
    assert v < 0 ==> s[1..] == d;
  }

  lemma {:induction false} SpacesPassed(pad: string, t: string)
    requires (forall i :: 0 <= i < |pad| ==> pad[i] == ' ') && (t == "" || t[0] != ' ')
    ensures Unpadded(pad + t) == t
    decreases |pad|
  {
    if pad == "" {
      assert pad + t == t;
    } else {
      assert (pad + t)[1..] == pad[1..] + t;
      SpacesPassed(pad[1..], t);
    }
  }

  /**
   `atoi` passes over spaces, takes one minus sign for the sign of the number, reads decimal digits
   up to the first other character, and ignores whatever follows; no digit is 0.
   */
  lemma AtoiMeaning(pad: string, minus: bool, digits: string, rest: string)
    requires forall i :: 0 <= i < |pad| ==> pad[i] == ' '
    requires forall i :: 0 <= i < |digits| ==> '0' <= digits[i] <= '9'
    requires rest == "" || !('0' <= rest[0] <= '9')
    requires !minus && digits == "" ==> rest == "" || (rest[0] != ' ' && rest[0] != '-')
    ensures Atoi(pad + ((if minus then "-" else "") + (digits + rest))) ==
      if minus then -(Value(digits, Decimal) as int) else Value(digits, Decimal) as int
  {
    hide Value, Unpadded, Prefix, Atoi;
    var d := digits + rest;
    var t := (if minus then "-" else "") + d;
    assert t == if minus then "-" + d else d;
    SpacesPassed(pad, t);
    SignTaken(pad + t, minus, d);
    DigitsEnd(digits, rest);
  }

  lemma DigitsEnd(digits: string, rest: string)
    requires forall i :: 0 <= i < |digits| ==> '0' <= digits[i] <= '9'
    requires rest == "" || !('0' <= rest[0] <= '9')
    ensures Prefix(digits + rest) == |digits| && (digits + rest)[..|digits|] == digits
  {
    hide Prefix;
    PrefixIs(digits + rest, |digits|);
  }

  lemma SignTaken(s: string, minus: bool, d: string)
    requires Unpadded(s) == (if minus then "-" + d else d) && (minus || d == "" || d[0] != '-')
    ensures var v := Value(d[..Prefix(d)], Decimal) as int; Atoi(s) == if minus then -v else v
  {
    hide Value, Unpadded, Prefix;
    assert minus ==> Unpadded(s)[1..] == d;
  }
}
