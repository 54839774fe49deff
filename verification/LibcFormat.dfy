/**
 `vsnprintf` of libc/libc.c: what a format and its arguments expand to, when the loop ends, and
 what it then leaves in the buffer.
 */
module LibcFormat {
  import opened LibcNumbers

  /** An argument as the callee takes it off the stack. */
  datatype Arg = Word(w: int32) | Str(s: string) | Null

  /**
   A character of the expansion.  A full buffer drops it if it is sticky only by never getting
   past it: text and converted arguments advance only when they are stored.
   */
  datatype Out = Out(c: char, sticky: bool)

  function Sticky(s: string): (r: seq<Out>)
    ensures |r| == |s| && forall i :: 0 <= i < |s| ==> r[i] == Out(s[i], true)
  {
    seq(|s|, i requires 0 <= i < |s| => Out(s[i], true))
  }

  function Padding(n: int, c: char): (r: seq<Out>)
    ensures |r| == if n > 0 then n else 0
  {
    seq(if n > 0 then n else 0, _ => Out(c, false))
  }

  function Chars(os: seq<Out>): (s: string)
    ensures |s| == |os| && forall i :: 0 <= i < |os| ==> s[i] == os[i].c
  {
    seq(|os|, i requires 0 <= i < |os| => os[i].c)
  }

  // ---- what a directive stands for

  /** The text of a conversion that consumes an argument; c is one of d, u, x, X, p, s. */
  function Converted(c: char, a: Arg): string {
    match a
    case Word(w) =>
      if c == 'd' then SignedText(w)
      else if c == 'u' then Text(Unsigned(w), Decimal)
      else if c == 'p' then "0x" + Text(Unsigned(w), Hex)
      else Text(Unsigned(w), Hex)
    case Str(s) => s
    case Null => "(null)"
  }

  predicate Converts(c: char) { c == 'd' || c == 'u' || c == 'x' || c == 'X' || c == 'p' || c == 's' }

  /** Whether the argument is of the kind the conversion expects. */
  predicate Suits(c: char, a: Arg) { if c == 's' then !a.Word? else a.Word? }

  function CharOf(w: int32): char { (Unsigned(w) % 256) as char }

  /** The expansion of one directive: padding, then the text. */
  function Directive(c: char, zero: bool, width: nat, a: Arg): seq<Out> {
    if Converts(c) then
      Padding(width - |Converted(c, a)|, if zero then '0' else ' ') + Sticky(Converted(c, a))
    else if c == 'c' then [Out(if a.Word? then CharOf(a.w) else ' ', false)]
    else if c == '%' then [Out('%', false)]
    else [Out('%', false), Out(c, false)]
  }

  predicate Consumes(c: char) { Converts(c) || c == 'c' }

  /** Digits of a width at the front. */
  function WidthEnd(s: string, i: nat): (k: nat)
    requires i <= |s|
    ensures i <= k <= |s| && (forall j :: i <= j < k ==> Decimalic(s[j])) && (k < |s| ==> !Decimalic(s[k]))
    decreases |s| - i
  {
    if i == |s| || !Decimalic(s[i]) then i else WidthEnd(s, i + 1)
  }

  /** Where flags and width of the directive at i (just behind its '%') lie. */
  function AfterZero(f: string, i: nat): (k: nat)
    requires i <= |f|
    ensures i <= k <= i + 1 && k <= |f|
  {
    if i < |f| && f[i] == '0' then i + 1 else i
  }

  /** Well-formed: every directive has a conversion character and an argument that suits it. */
  predicate WellFormed(f: string, i: nat, args: seq<Arg>)
    decreases |f| - i
  {
    i >= |f| ||
    if f[i] != '%' then WellFormed(f, i + 1, args)
    else
      var k := WidthEnd(f, AfterZero(f, i + 1));
      k < |f| &&
      if Consumes(f[k]) then args != [] && Suits(f[k], args[0]) && WellFormed(f, k + 1, args[1..])
      else WellFormed(f, k + 1, args)
  }

  /** The expansion of the format from position i on. */
  function Expand(f: string, i: nat, args: seq<Arg>): seq<Out>
    requires WellFormed(f, i, args)
    decreases |f| - i
  {
    if i >= |f| then []
    else if f[i] != '%' then [Out(f[i], true)] + Expand(f, i + 1, args)
    else
      var z := AfterZero(f, i + 1);
      var k := WidthEnd(f, z);
      if Consumes(f[k]) then
        Directive(f[k], z == i + 2, Value(f[z..k], Decimal), args[0]) + Expand(f, k + 1, args[1..])
      else Directive(f[k], z == i + 2, Value(f[z..k], Decimal), Null) + Expand(f, k + 1, args)
  }

  // ---- the loop as a machine

  /** What is left to put, and how much the buffer holds. */
  datatype Machine = Machine(rest: seq<Out>, pos: nat)

  /** One turn: PUT stores and advances while there is room; then a sticky character stays where it is. */
  function Turn(m: Machine, size: nat): Machine
    requires size > 0
  {
    if m.rest == [] then m
    else if m.pos < size - 1 then Machine(m.rest[1..], m.pos + 1)
    else if m.rest[0].sticky then m
    else Machine(m.rest[1..], m.pos)
  }

  function Turns(m: Machine, size: nat, n: nat): Machine
    requires size > 0
    decreases n
  {
    if n == 0 then m else Turns(Turn(m, size), size, n - 1)
  }

  /** No sticky character falls beyond the room left. */
  predicate Droppable(m: Machine, size: nat)
    requires size > 0
  {
    forall i :: 0 <= i < |m.rest| && m.pos + i >= size - 1 ==> !m.rest[i].sticky
  }

  /** A stuck machine stays stuck. */
  lemma {:induction false} StuckForever(m: Machine, size: nat, n: nat)
    requires size > 0 && m.rest != [] && m.pos >= size - 1 && m.rest[0].sticky
    ensures Turns(m, size, n) == m
    decreases n
  {
    if n > 0 { StuckForever(m, size, n - 1); }
  }

  /**
   The loop ends if and only if every character beyond the room in the buffer is one that a full
   buffer drops: in particular always when the expansion fits in size - 1 characters, and never
   when text or a converted argument runs over.
   */
  lemma {:induction false} EndsIffDroppable(m: Machine, size: nat) returns (n: nat)
    requires size > 0 && m.pos <= size - 1
    ensures Droppable(m, size) ==> Turns(m, size, n).rest == []
    ensures !Droppable(m, size) ==> forall k: nat :: Turns(m, size, k).rest != []
    decreases |m.rest|
  {
    n := 0;
    if m.rest != [] {
      var t := Turn(m, size);
      if m.pos >= size - 1 && m.rest[0].sticky {
        forall k: nat ensures Turns(m, size, k).rest != [] { StuckForever(m, size, k); }
      } else {
        var k := EndsIffDroppable(t, size);
        n := k + 1;
        assert forall i :: 0 <= i < |t.rest| ==> t.rest[i] == m.rest[i + 1];
        assert forall i :: 1 <= i < |m.rest| ==> m.rest[i] == t.rest[i - 1];
        assert Droppable(m, size) <==> Droppable(t, size);
        forall j: nat | !Droppable(m, size) ensures Turns(m, size, j).rest != [] {
          if j > 0 { assert Turns(m, size, j) == Turns(t, size, j - 1); }
        }
      }
    }
  }
}
