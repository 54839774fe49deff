/**
 Unsigned machine words as integers, with C's bitwise operators defined bit by bit,
 and the few arithmetic laws the kernel's masks and bitmaps rely on.
 */
module Bits {

  const WORD_LIMIT: nat := 0x1_0000_0000
  const PAGE_SIZE: nat := 4096

  type byte = x: int | 0 <= x < 256
  type word = x: int | 0 <= x < 0x1_0000_0000

  function Pow2(k: nat): (p: nat)
    ensures p > 0
  {
    if k == 0 then 1 else 2 * Pow2(k - 1)
  }

  lemma PowersUsed()
    ensures Pow2(3) == 8 && Pow2(12) == 4096 && Pow2(32) == WORD_LIMIT
  {
    assert Pow2(6) == 64;
    assert Pow2(12) == 4096;
    assert Pow2(18) == 262144;
    assert Pow2(24) == 16777216;
    assert Pow2(30) == 1073741824;
  }

  /** Bit k of w: `(w >> k) & 1`. */
  predicate Bit(w: nat, k: nat) {
    if k == 0 then w % 2 == 1 else Bit(w / 2, k - 1)
  }

  /** `a | b` */
  function Or(a: nat, b: nat): nat
    decreases a + b
  {
    if a == 0 then b
    else if b == 0 then a
    else 2 * Or(a / 2, b / 2) + (if a % 2 == 1 || b % 2 == 1 then 1 else 0)
  }

  /** `a & b` */
  function And(a: nat, b: nat): nat {
    if a == 0 || b == 0 then 0
    else 2 * And(a / 2, b / 2) + (if a % 2 == 1 && b % 2 == 1 then 1 else 0)
  }

  /** `a & ~b` */
  function AndNot(a: nat, b: nat): nat {
    if a == 0 then 0
    else if b == 0 then a
    else 2 * AndNot(a / 2, b / 2) + (if a % 2 == 1 && b % 2 == 0 then 1 else 0)
  }

  // ---- one step of each operator

  lemma Half(x: nat, c: nat)
    requires c < 2
    ensures (2 * x + c) / 2 == x && (2 * x + c) % 2 == c
  {
  }

  lemma OrStep(a: nat, b: nat)
    ensures Or(a, b) / 2 == Or(a / 2, b / 2)
    ensures Or(a, b) % 2 == 1 <==> a % 2 == 1 || b % 2 == 1
  {
    if a != 0 && b != 0 { Half(Or(a / 2, b / 2), if a % 2 == 1 || b % 2 == 1 then 1 else 0); }
  }

  lemma AndStep(a: nat, b: nat)
    ensures And(a, b) / 2 == And(a / 2, b / 2)
    ensures And(a, b) % 2 == 1 <==> a % 2 == 1 && b % 2 == 1
  {
    if a != 0 && b != 0 { Half(And(a / 2, b / 2), if a % 2 == 1 && b % 2 == 1 then 1 else 0); }
  }

  lemma AndNotStep(a: nat, b: nat)
    ensures AndNot(a, b) / 2 == AndNot(a / 2, b / 2)
    ensures AndNot(a, b) % 2 == 1 <==> a % 2 == 1 && b % 2 == 0
  {
    if a != 0 && b != 0 { Half(AndNot(a / 2, b / 2), if a % 2 == 1 && b % 2 == 0 then 1 else 0); }
  }

  // ---- reading a bit back

  lemma {:induction false} BitZero(k: nat)
    ensures !Bit(0, k)
  {
    if k > 0 { BitZero(k - 1); }
  }

  lemma {:induction false} BitPow2(j: nat, k: nat)
    ensures Bit(Pow2(j), k) <==> j == k
  {
    if j > 0 && k > 0 { BitPow2(j - 1, k - 1); }
    else if k > 0 { BitZero(k - 1); }
  }

  lemma {:induction false} BitOr(a: nat, b: nat, k: nat)
    ensures Bit(Or(a, b), k) <==> Bit(a, k) || Bit(b, k)
    decreases k
  {
    OrStep(a, b);
    if k > 0 { BitOr(a / 2, b / 2, k - 1); }
  }

  lemma {:induction false} BitAnd(a: nat, b: nat, k: nat)
    ensures Bit(And(a, b), k) <==> Bit(a, k) && Bit(b, k)
    decreases k
  {
    AndStep(a, b);
    if k > 0 { BitAnd(a / 2, b / 2, k - 1); }
  }

  lemma {:induction false} BitAndNot(a: nat, b: nat, k: nat)
    ensures Bit(AndNot(a, b), k) <==> Bit(a, k) && !Bit(b, k)
    decreases k
  {
    AndNotStep(a, b);
    if k > 0 { BitAndNot(a / 2, b / 2, k - 1); }
  }

  lemma {:induction false} BitLowMask(n: nat, k: nat)
    ensures Bit(Pow2(n) - 1, k) <==> k < n
  {
    if n == 0 { BitZero(k); }
    else {
      Half(Pow2(n - 1) - 1, 1);
      if k > 0 { BitLowMask(n - 1, k - 1); }
    }
  }

  /** Words below 2^n that agree on their first n bits are equal. */
  lemma {:induction false} BitsDetermine(a: nat, b: nat, n: nat)
    requires a < Pow2(n) && b < Pow2(n)
    requires forall k: nat :: k < n ==> (Bit(a, k) <==> Bit(b, k))
    ensures a == b
  {
    if n > 0 {
      forall k: nat | k < n - 1 ensures Bit(a / 2, k) <==> Bit(b / 2, k) {
        assert Bit(a, k + 1) <==> Bit(b, k + 1);
      }
      assert Bit(a, 0) <==> Bit(b, 0);
      BitsDetermine(a / 2, b / 2, n - 1);
    }
  }

  // ---- size

  lemma {:induction false} PowGrows(j: nat, k: nat)
    requires j < k
    ensures Pow2(j) < Pow2(k)
    decreases k
  {
    if j < k - 1 { PowGrows(j, k - 1); }
  }

  lemma {:induction false} OrBound(a: nat, b: nat, n: nat)
    requires a < Pow2(n) && b < Pow2(n)
    ensures Or(a, b) < Pow2(n)
  {
    if a != 0 && b != 0 { OrBound(a / 2, b / 2, n - 1); }
  }

  lemma {:induction false} AndNotBound(a: nat, b: nat)
    ensures AndNot(a, b) <= a
  {
    if a != 0 && b != 0 { AndNotBound(a / 2, b / 2); }
  }

  lemma {:induction false} AndBound(a: nat, b: nat)
    ensures And(a, b) <= b
  {
    if a != 0 && b != 0 { AndBound(a / 2, b / 2); }
  }

  // ---- masks as arithmetic

  lemma ModPow2Step(a: nat, k: nat)
    requires k > 0
    ensures a % Pow2(k) == 2 * (a / 2 % Pow2(k - 1)) + a % 2
  {
    var p := Pow2(k - 1);
    var h := a / 2;
    var q, r := h / p, h % p;
    assert h == q * p + r;
    assert a == 2 * h + a % 2;
    assert q * (2 * p) == 2 * (q * p);
    DivModUnique(a, 2 * p, q, 2 * r + a % 2);
  }

  lemma MulAtLeast(x: nat, d: nat)
    requires x > 0
    ensures x * d >= d
  {
    assert x * d == (x - 1) * d + d;
  }

  lemma DivModUnique(a: nat, d: nat, q: nat, r: nat)
    requires d > 0 && r < d && a == q * d + r
    ensures a / d == q && a % d == r
  {
    var q' := a / d;
    assert (q - q') * d == q * d - q' * d && (q' - q) * d == q' * d - q * d;
    if q' < q {
      MulAtLeast(q - q', d);
    } else if q' > q {
      MulAtLeast(q' - q, d);
    }
  }

  /** `a & ~(2^k - 1)` rounds a down to a multiple of 2^k. */
  lemma {:induction false} MaskRoundsDown(a: nat, k: nat)
    ensures AndNot(a, Pow2(k) - 1) == a - a % Pow2(k)
  {
    if k == 0 {
      assert a % 1 == 0;
    } else if a == 0 {
      DivModUnique(0, Pow2(k), 0, 0);
    } else {
      MaskRoundsDown(a / 2, k - 1);
      ModPow2Step(a, k);
      Half(Pow2(k - 1) - 1, 1);
      assert (Pow2(k) - 1) / 2 == Pow2(k - 1) - 1 && (Pow2(k) - 1) % 2 == 1;
      AndNotStep(a, Pow2(k) - 1);
    }
  }

  /** `a & (2^k - 1)` is a modulo 2^k. */
  lemma {:induction false} MaskIsMod(a: nat, k: nat)
    ensures And(a, Pow2(k) - 1) == a % Pow2(k)
  {
    if k == 0 {
      assert a % 1 == 0;
    } else if a == 0 {
      DivModUnique(0, Pow2(k), 0, 0);
    } else {
      MaskIsMod(a / 2, k - 1);
      ModPow2Step(a, k);
      Half(Pow2(k - 1) - 1, 1);
      assert (Pow2(k) - 1) / 2 == Pow2(k - 1) - 1 && (Pow2(k) - 1) % 2 == 1;
      AndStep(a, Pow2(k) - 1);
    }
  }

  lemma HalfMultiple(a: nat, k: nat)
    requires k > 0 && a % Pow2(k) == 0
    ensures a % 2 == 0 && a / 2 % Pow2(k - 1) == 0
  {
    ModPow2Step(a, k);
  }

  /** Or-ing low bits into a number only touches its low part. */
  lemma {:induction false} OrLow(a: nat, l: nat, f: nat, k: nat)
    requires a % Pow2(k) == 0 && l < Pow2(k) && f < Pow2(k)
    ensures Or(a + l, f) == a + Or(l, f) && Or(l, f) < Pow2(k)
  {
    OrBound(l, f, k);
    if k > 0 && a + l > 0 && f > 0 {
      HalfMultiple(a, k);
      assert (a + l) / 2 == a / 2 + l / 2 && (a + l) % 2 == l % 2;
      OrLow(a / 2, l / 2, f / 2, k - 1);
      OrStep(a + l, f);
      OrStep(l, f);
    }
  }

  /** Clearing low bits only touches the low part. */
  lemma {:induction false} AndNotLow(a: nat, l: nat, f: nat, k: nat)
    requires a % Pow2(k) == 0 && l < Pow2(k) && f < Pow2(k)
    ensures AndNot(a + l, f) == a + AndNot(l, f) && AndNot(l, f) <= l
  {
    AndNotBound(l, f);
    if k > 0 && a + l > 0 && f > 0 {
      HalfMultiple(a, k);
      assert (a + l) / 2 == a / 2 + l / 2 && (a + l) % 2 == l % 2;
      AndNotLow(a / 2, l / 2, f / 2, k - 1);
      AndNotStep(a + l, f);
      AndNotStep(l, f);
    }
  }

  // ---- the 12 flag bits under a frame number

  lemma FlagsOr(f: nat, l: nat, g: nat)
    requires l < 4096 && g < 4096
    ensures Or(4096 * f + l, g) == 4096 * f + Or(l, g) && Or(l, g) < 4096
  {
    PowersUsed();
    OrLow(4096 * f, l, g, 12);
  }

  lemma FlagsAndNot(f: nat, l: nat, g: nat)
    requires l < 4096 && g < 4096
    ensures AndNot(4096 * f + l, g) == 4096 * f + AndNot(l, g) && AndNot(l, g) < 4096
  {
    PowersUsed();
    AndNotLow(4096 * f, l, g, 12);
  }

  /** The flag bits of a word are those of the word below its frame number. */
  lemma FlagBit(w: nat, k: nat)
    requires k < 12
    ensures Bit(w, k) <==> Bit(w % 4096, k)
  {
    hide And, Pow2, Bit;
    PowersUsed();
    MaskIsMod(w, 12);
    BitAnd(w, 4095, k);
    BitLowMask(12, k);
  }

  lemma FlagsParity(f: nat, l: nat)
    ensures (4096 * f + l) % 2 == l % 2
  {
    assert 4096 * f + l == 2 * (2048 * f) + l;
  }

  lemma FlagsMask(f: nat, l: nat)
    requires l < 4096
    ensures AndNot(4096 * f + l, 0xFFF) == 4096 * f && And(4096 * f + l, 0xFFF) == l
  {
    hide And, AndNot, Pow2;
    PowersUsed();
    DivModUnique(4096 * f + l, 4096, f, l);
    MaskRoundsDown(4096 * f + l, 12);
    MaskIsMod(4096 * f + l, 12);
  }
}
