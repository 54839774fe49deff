/**
 `vsnprintf` of libc/libc.c as it writes its buffer.
 */
module LibcPrint {
  import opened LibcNumbers
  import opened LibcFormat

  function Least(a: nat, b: nat): nat { if a < b then a else b }

  /** The buffer after the first `done` characters of the expansion: stored up to size - 1, untouched behind. */
  function Stored(was: seq<char>, size: nat, e: seq<Out>, done: nat): (buf: seq<char>)
    requires 0 < size <= |was| && done <= |e|
    ensures |buf| == |was|
  {
    Chars(e)[..Least(done, size - 1)] + was[Least(done, size - 1)..]
  }

  /** One character goes to the end of what is stored, if there is room. */
  lemma StoredNext(was: seq<char>, size: nat, e: seq<Out>, done: nat)
    requires 0 < size <= |was| && done < |e|
    ensures done < size - 1 ==> Stored(was, size, e, done + 1) == Stored(was, size, e, done)[done := e[done].c]
    ensures done >= size - 1 ==> Stored(was, size, e, done + 1) == Stored(was, size, e, done)
  {
  }

  lemma StoredEnd(was: seq<char>, size: nat, e: seq<Out>)
    requires 0 < size <= |was|
    ensures var pos := Least(|e|, size - 1);
      Stored(was, size, e, |e|)[pos := '\0'] == Chars(e)[..pos] + ['\0'] + was[pos + 1..]
  {
  }

  lemma StoredStart(was: seq<char>, size: nat, e: seq<Out>)
    requires 0 < size <= |was|
    ensures Stored(was, size, e, 0) == was
  {
  }

  /** `PUT(c)` for a character that is consumed whether or not it is stored */
  method Put(buf: array<char>, size: nat, pos: nat, c: char, ghost was: seq<char>, ghost e: seq<Out>, ghost done: nat)
    returns (next: nat)
    requires 0 < size <= |was| && done < |e| && e[done].c == c
    requires pos == Least(done, size - 1) && buf[..] == Stored(was, size, e, done)
    modifies buf
    ensures next == Least(done + 1, size - 1) && buf[..] == Stored(was, size, e, done + 1)
  {
    next := pos;
    StoredNext(was, size, e, done);
    hide Stored;
    if pos < size - 1 {
      ghost var before := buf[..];
      buf[pos] := c;
      next := pos + 1;
      assert buf[..] == before[pos := c];
    }
  }

  /** `while (width > slen) { PUT(zero_pad ? '0' : ' '); width--; }` */
  method PutPadding(buf: array<char>, size: nat, pos: nat, c: char, width: nat, len: nat,
                    ghost was: seq<char>, ghost e: seq<Out>, ghost done: nat)
    returns (next: nat)
    requires 0 < size <= |was| && done <= |e| && Padding(width - len, c) <= e[done..]
    requires pos == Least(done, size - 1) && buf[..] == Stored(was, size, e, done)
    modifies buf
    ensures next == Least(done + |Padding(width - len, c)|, size - 1)
    ensures buf[..] == Stored(was, size, e, done + |Padding(width - len, c)|)
  {
    hide Stored;
    next := pos;
    var w := width;
    while w > len
      invariant w <= width && (w >= len || w == width) && done + (width - w) <= |e|
      invariant next == Least(done + (width - w), size - 1) && buf[..] == Stored(was, size, e, done + (width - w))
    {
      ghost var i := width - w;
      assert e[done..][i] == Padding(width - len, c)[i];
      next := Put(buf, size, next, c, was, e, done + i);
      w := w - 1;
    }
  }

  /** No sticky character at the positions the buffer has no room for. */
  ghost predicate Ends(e: seq<Out>, size: nat)
    requires size > 0
  {
    Droppable(Machine(e, 0), size)
  }

  /** `while (*s) PUT(*s++)`: a character that does not fit is never passed, so the loop ends only if all fit. */
  method PutText(buf: array<char>, size: nat, pos: nat, s: string,
                 ghost was: seq<char>, ghost e: seq<Out>, ghost done: nat)
    returns (next: nat)
    requires 0 < size <= |was| && done <= |e| && Sticky(s) <= e[done..] && Ends(e, size)
    requires pos == Least(done, size - 1) && buf[..] == Stored(was, size, e, done)
    modifies buf
    ensures next == Least(done + |s|, size - 1) && buf[..] == Stored(was, size, e, done + |s|)
  {
    hide Stored;
    next := pos;
    var i := 0;
    while i < |s|
      invariant i <= |s| && done + i <= |e|
      invariant next == Least(done + i, size - 1) && buf[..] == Stored(was, size, e, done + i)
      decreases |s| - i
    {
      assert e[done..][i] == Sticky(s)[i];
      assert Machine(e, 0).rest[done + i].sticky;
      if next < size - 1 {
        next := Put(buf, size, next, s[i], was, e, done + i);
        i := i + 1;
      }
    }
  }

  /** `itoa_buf` into `tmp` or the string argument itself. */
  method Convert(c: char, a: Arg) returns (s: string)
    requires Converts(c) && Suits(c, a)
    ensures s == Converted(c, a)
  {
    match a
    case Str(t) => s := t;
    case Null => s := "(null)";
    case Word(w) =>
      if c == 'd' {
        s := ItoaBuf(w, Decimal, false);
        assert "" + Text(Magnitude(w), Decimal) == Text(Magnitude(w), Decimal);
      } else if c == 'u' {
        s := ItoaBuf(w, Decimal, true);
      } else {
        s := ItoaBuf(w, Hex, true);
        if c == 'p' { s := "0x" + s; }
      }
  }

  /** Padding, then the converted text. */
  method PutConverted(buf: array<char>, size: nat, pos: nat, c: char, width: nat, s: string,
                      ghost was: seq<char>, ghost e: seq<Out>, ghost done: nat)
    returns (next: nat)
    requires 0 < size <= |was| && done <= |e| && Padding(width - |s|, c) + Sticky(s) <= e[done..] && Ends(e, size)
    requires pos == Least(done, size - 1) && buf[..] == Stored(was, size, e, done)
    modifies buf
    ensures next == Least(done + |Padding(width - |s|, c) + Sticky(s)|, size - 1)
    ensures buf[..] == Stored(was, size, e, done + |Padding(width - |s|, c) + Sticky(s)|)
  {
    hide Stored, Padding, Sticky;
    ghost var p := Padding(width - |s|, c);
    ghost var d := p + Sticky(s);
    assert p <= d;
    assert Sticky(s) == d[|p|..];
    assert e[done..][|p|..] == e[done + |p|..];
    next := PutPadding(buf, size, pos, c, width, |s|, was, e, done);
    next := PutText(buf, size, next, s, was, e, done + |p|);
  }

  /** The whole `switch` and the output behind it, for the directive with conversion character c. */
  method PutDirective(buf: array<char>, size: nat, pos: nat, c: char, zero: bool, width: nat, a: Arg,
                      ghost was: seq<char>, ghost e: seq<Out>, ghost done: nat)
    returns (next: nat)
    requires 0 < size <= |was| && done <= |e| && Directive(c, zero, width, a) <= e[done..] && Ends(e, size)
    requires Consumes(c) ==> Suits(c, a)
    requires pos == Least(done, size - 1) && buf[..] == Stored(was, size, e, done)
    modifies buf
    ensures next == Least(done + |Directive(c, zero, width, a)|, size - 1)
    ensures buf[..] == Stored(was, size, e, done + |Directive(c, zero, width, a)|)
  {
    hide Stored, Padding, Sticky, Converted;
    if Converts(c) {
      var s := Convert(c, a);
      next := PutConverted(buf, size, pos, if zero then '0' else ' ', width, s, was, e, done);
    } else {
      ghost var d := Directive(c, zero, width, a);
      assert forall i :: 0 <= i < |d| ==> e[done + i] == e[done..][i] == d[i];
      next := Put(buf, size, pos, if c == 'c' then CharOf(a.w) else '%', was, e, done);
      if c != 'c' && c != '%' { next := Put(buf, size, next, c, was, e, done + 1); }
    }
  }

  method ReadWidth(f: string, z: nat) returns (k: nat, width: nat)
    requires z <= |f|
    ensures k == WidthEnd(f, z) && width == Value(f[z..k], Decimal)
  {
    hide Value;
    k, width := z, 0;
    EmptyDigits(Decimal);
    assert f[z..z] == "";
    while k < |f| && '0' <= f[k] <= '9'
      invariant z <= k <= |f| && WidthEnd(f, z) == WidthEnd(f, k) && width == Value(f[z..k], Decimal)
    {
      assert f[z..k + 1] == f[z..k] + [f[k]];
      ValueOfNext(f[z..k], f[k], Decimal);
      width := width * 10 + (f[k] as int - '0' as int);
      k := k + 1;
    }
  }

  /** What is behind the next part of the expansion. */
  lemma Behind(e: seq<Out>, done: nat, d: seq<Out>, rest: seq<Out>)
    requires done <= |e| && e[done..] == d + rest
    ensures d <= e[done..] && done + |d| <= |e| && e[done + |d|..] == rest
  {
    assert e[done + |d|..] == e[done..][|d|..];
  }

  /** One turn of the outer loop, on a plain character or a directive. */
  method PutNext(buf: array<char>, size: nat, pos: nat, f: string, i: nat, args: seq<Arg>,
                 ghost was: seq<char>, ghost e: seq<Out>, ghost done: nat)
    returns (k: nat, ap: seq<Arg>, next: nat, ghost now: nat)
    requires 0 < size <= |was| && done <= |e| && Ends(e, size)
    requires i < |f| && WellFormed(f, i, args) && Expand(f, i, args) == e[done..]
    requires pos == Least(done, size - 1) && buf[..] == Stored(was, size, e, done)
    modifies buf
    ensures i < k <= |f| && WellFormed(f, k, ap) && now <= |e| && Expand(f, k, ap) == e[now..]
    ensures next == Least(now, size - 1) && buf[..] == Stored(was, size, e, now)
  {
    hide Stored, Directive, Value, Sticky, Ends, Droppable, Chars, Suits;
    ap := args;
    if f[i] != '%' {
      ghost var d := Sticky([f[i]]);
      assert d == [Out(f[i], true)];
      Behind(e, done, d, Expand(f, i + 1, ap));
      next := PutText(buf, size, pos, [f[i]], was, e, done);
      k, now := i + 1, done + 1;
    } else {
      var z := AfterZero(f, i + 1);
      var end, width := ReadWidth(f, z);
      var a := Null;
      if Consumes(f[end]) { a, ap := args[0], args[1..]; }
      ghost var d := Directive(f[end], z == i + 2, width, a);
      Behind(e, done, d, Expand(f, end + 1, ap));
      next := PutDirective(buf, size, pos, f[end], z == i + 2, width, a, was, e, done);
      k, now := end + 1, done + |d|;
    }
  }

  /**
   What `vsnprintf` leaves: the longest prefix of the expansion that fits in size - 1 characters, a
   final zero, and nothing else touched.  Its precondition is exactly that the loop ends.
   */
  method Vsnprintf(buf: array<char>, size: nat, f: string, args: seq<Arg>) returns (pos: nat)
    requires 0 < size <= buf.Length && WellFormed(f, 0, args) && Ends(Expand(f, 0, args), size)
    modifies buf
    ensures pos == Least(|Expand(f, 0, args)|, size - 1)
    ensures buf[..] == Chars(Expand(f, 0, args))[..pos] + ['\0'] + old(buf[pos + 1..])
  {
    hide Ends, Droppable, Stored, Chars;
    ghost var e: seq<Out> := Expand(f, 0, args);
    ghost var was := buf[..];
    ghost var done: nat := 0;
    var i: nat, ap := 0, args;
    pos := 0;
    StoredStart(was, size, e);
    while i < |f|
      invariant i <= |f| && WellFormed(f, i, ap) && done <= |e| && Expand(f, i, ap) == e[done..]
      invariant pos == Least(done, size - 1) && buf[..] == Stored(was, size, e, done)
      decreases |f| - i
    {
      i, ap, pos, done := PutNext(buf, size, pos, f, i, ap, was, e, done);
    }
    assert e[done..] == [];
    ghost var before := buf[..];
    buf[pos] := '\0';
    assert buf[..] == before[pos := '\0'];
    StoredEnd(was, size, e);
  }

  /** An expansion that fits is left whole. */
  lemma FitsEnds(e: seq<Out>, size: nat)
    requires |e| < size
    ensures Ends(e, size) && Chars(e)[..Least(|e|, size - 1)] == Chars(e)
  {
  }
}
