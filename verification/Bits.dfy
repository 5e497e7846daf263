/** Bit arithmetic on natural numbers, as khash uses it: masking with a power of two minus one
    and rounding a 32-bit word up to a power of two. */
module Bits {

  const TWO_31: nat := 0x8000_0000
  const TWO_32: nat := 0x1_0000_0000

  function Exp2(k: nat): (r: nat)
    ensures r >= 1
  {
    if k == 0 then 1 else 2 * Exp2(k - 1)
  }

  ghost predicate IsPow2(n: nat) {
    exists k: nat :: n == Exp2(k)
  }

  lemma {:induction false} Exp2Monotone(a: nat, b: nat)
    requires a <= b
    ensures Exp2(a) <= Exp2(b)
    ensures a < b ==> Exp2(a) < Exp2(b)
  {
    if a < b {
      Exp2Monotone(a, b - 1);
    }
  }

  lemma TimesExp2(a: nat, j: nat)
    requires j > 0
    ensures a * Exp2(j) == 2 * (a * Exp2(j - 1))
  {
    var e := Exp2(j - 1);
    assert a * (2 * e) == 2 * (a * e);
  }

  lemma Exp2Of32()
    ensures Exp2(31) == TWO_31 && Exp2(32) == TWO_32
  {
    assert Exp2(8) == 0x100;
    assert Exp2(16) == 0x1_0000;
    assert Exp2(24) == 0x100_0000;
  }

  lemma Pow2Double(n: nat)
    requires IsPow2(n)
    ensures IsPow2(2 * n)
  {
    var k: nat :| n == Exp2(k);
    assert 2 * n == Exp2(k + 1);
  }

  // ----- bitwise and / or -----

  function And(x: nat, y: nat): nat
  {
    if x == 0 || y == 0 then 0 else 2 * And(x / 2, y / 2) + (x % 2) * (y % 2)
  }

  function Or(x: nat, y: nat): nat
  {
    if x == 0 then y else if y == 0 then x
    else 2 * Or(x / 2, y / 2) + (if x % 2 == 1 || y % 2 == 1 then 1 else 0)
  }

  lemma MulStep(n: nat, a: int, b: int)
    ensures a < b ==> n * a + n <= n * b
  {
    if a < b {
      assert n * b == n * (a + 1) + n * (b - a - 1);
    }
  }

  /** x mod n, by repeated subtraction. */
  function Mod(x: nat, n: nat): (r: nat)
    requires n > 0
    ensures r < n
  {
    if x < n then x else Mod(x - n, n)
  }

  lemma {:induction false} ModQuotient(x: nat, n: nat) returns (q: nat)
    requires n > 0
    ensures x == n * q + Mod(x, n)
  {
    if x < n {
      q := 0;
    } else {
      var p := ModQuotient(x - n, n);
      q := p + 1;
      assert n * q == n * p + n;
    }
  }

  lemma {:induction false} ModPeriodic(x: nat, n: nat, q: nat)
    requires n > 0
    ensures Mod(x + n * q, n) == Mod(x, n)
  {
    if q > 0 {
      ModPeriodic(x, n, q - 1);
      assert n * q == n * (q - 1) + n;
      var y := x + n * (q - 1);
      assert x + n * q == y + n;
    }
  }

  lemma {:induction false} ModShift(x: nat, d: nat, n: nat)
    requires n > 0
    ensures Mod(Mod(x, n) + d, n) == Mod(x + d, n)
  {
    if x >= n {
      ModShift(x - n, d, n);
    }
  }

  lemma {:induction false} HalfMod(x: nat, m: nat)
    requires m > 0
    ensures Mod(x, 2 * m) == 2 * Mod(x / 2, m) + x % 2
  {
    if x >= 2 * m {
      HalfMod(x - 2 * m, m);
    }
  }

  lemma {:induction false} MaskExp2(x: nat, k: nat)
    ensures And(x, Exp2(k) - 1) == Mod(x, Exp2(k))
  {
    if k == 0 {
      ModOne(x);
    } else {
      var m := Exp2(k - 1);
      HalfMod(x, m);
      MaskExp2(x / 2, k - 1);
      assert (Exp2(k) - 1) / 2 == m - 1;
    }
  }

  lemma ModOne(x: nat)
    ensures Mod(x, 1) == 0
  {
  }

  /** `x & (n - 1)` is the remainder of x by n when n is a power of two. */
  lemma MaskIsMod(x: nat, n: nat)
    requires IsPow2(n)
    ensures And(x, n - 1) == Mod(x, n)
  {
    var k: nat :| n == Exp2(k);
    MaskExp2(x, k);
  }

  // ----- odd factors -----

  lemma {:induction false} OddCancel(x: int, y: int, k: nat, q: int) returns (r: int)
    requires x % 2 == 1 && x * y == Exp2(k) * q
    ensures y == Exp2(k) * r
    decreases k
  {
    if k == 0 {
      r := y;
    } else {
      var e := Exp2(k - 1);
      assert x * y == 2 * (e * q);
      var z := y / 2;
      OddFactor(x, y, e * q);
      r := OddCancel(x, z, k - 1, q);
      assert y == 2 * (e * r);
    }
  }

  lemma OddFactor(x: int, y: int, p: int)
    requires x % 2 == 1 && x * y == 2 * p
    ensures y % 2 == 0 && x * (y / 2) == p
  {
    var a, z, b := x / 2, y / 2, y % 2;
    assert x * y == 2 * (a * y) + 2 * z + b by {
      assert x * y == (2 * a + 1) * y;
      assert (2 * a + 1) * y == 2 * (a * y) + y;
    }
    assert x * y == 2 * (x * z) by {
      assert y == 2 * z;
    }
  }

  lemma PositiveMultiple(x: int, e: nat, r: int)
    requires x > 0 && x == e * r
    ensures x >= e
  {
    MulStep(e, r, 1);
    MulStep(e, 0, r);
  }

  lemma Distribute(n: int, x: int, y: int)
    ensures n * (x - y) == n * x - n * y
  {
  }

  // ----- kroundup32 -----

  function Shr(x: nat, m: nat): nat {
    if m == 0 then x else Shr(x / 2, m - 1)
  }

  /** One line of the macro: `x |= x >> m`. */
  function SmearStep(x: nat, m: nat): nat {
    Or(x, Shr(x, m))
  }

  function Smear(x: nat): nat {
    SmearStep(SmearStep(SmearStep(SmearStep(SmearStep(x, 1), 2), 4), 8), 16)
  }

  function Dec32(x: nat): nat {
    if x == 0 then TWO_32 - 1 else x - 1
  }

  function Inc32(x: nat): nat {
    if x == TWO_32 - 1 then 0 else x + 1
  }

  /** The macro on an unsigned 32-bit word: decrement, smear, increment, each wrapping. */
  function RoundUp32(x: nat): nat {
    Inc32(Smear(Dec32(x)))
  }

  function Minus(a: nat, b: nat): nat {
    if b <= a then a - b else 0
  }

  /** x has w bits and all of them but the lowest c are ones. */
  ghost predicate OnesAbove(x: nat, w: nat, c: nat) {
    c <= w && Exp2(w) - Exp2(c) <= x < Exp2(w)
  }

  lemma {:induction false} OrFills(x: nat, y: nat, w: nat, c: nat)
    requires OnesAbove(x, w, c) && y < Exp2(c)
    ensures Exp2(w) - Exp2(c) + y <= Or(x, y) < Exp2(w)
  {
    if c > 0 {
      OrFills(x / 2, y / 2, w - 1, c - 1);
    }
  }

  lemma {:induction false} ShrOnes(x: nat, w: nat, c: nat, m: nat)
    requires OnesAbove(x, w, c)
    ensures OnesAbove(Shr(x, m), Minus(w, m), Minus(c, m))
  {
    if m > 0 {
      if w > 0 {
        ShrOnes(x / 2, w - 1, Minus(c, 1), m - 1);
      } else {
        ShrOnes(x / 2, 0, 0, m - 1);
      }
    }
  }

  /** Or-ing with the word shifted by m doubles the run of m leading ones. */
  lemma SmearDoubles(x: nat, w: nat, m: nat)
    requires OnesAbove(x, w, Minus(w, m))
    ensures OnesAbove(SmearStep(x, m), w, Minus(w, 2 * m))
  {
    ShrOnes(x, w, Minus(w, m), m);
    OrFills(x, Shr(x, m), w, Minus(w, m));
  }

  lemma WidthOf(x: nat) returns (w: nat)
    ensures OnesAbove(x, w, Minus(w, 1))
  {
    w := 0;
    while x >= Exp2(w)
      invariant w > 0 ==> Exp2(w - 1) <= x
      decreases x - Exp2(w)
    {
      w := w + 1;
    }
  }

  lemma SmearFills(x: nat, w: nat)
    requires OnesAbove(x, w, Minus(w, 1)) && w <= 32
    ensures Smear(x) == Exp2(w) - 1
  {
    SmearDoubles(x, w, 1);
    var x1 := SmearStep(x, 1);
    SmearDoubles(x1, w, 2);
    var x2 := SmearStep(x1, 2);
    SmearDoubles(x2, w, 4);
    var x3 := SmearStep(x2, 4);
    SmearDoubles(x3, w, 8);
    var x4 := SmearStep(x3, 8);
    SmearDoubles(x4, w, 16);
    assert OnesAbove(Smear(x), w, 0);
  }

  /** kroundup32 computes the least power of two at or above x; it wraps to 0 exactly at 0 and
      above 2^31. */
  lemma RoundUp32Correct(x: nat)
    requires x < TWO_32
    ensures 1 <= x <= TWO_31 ==>
              IsPow2(RoundUp32(x)) && x <= RoundUp32(x) < 2 * x
    ensures x == 0 || x > TWO_31 ==> RoundUp32(x) == 0
  {
    Exp2Of32();
    var y := Dec32(x);
    var w := WidthOf(y);
    WidthBound(y, w);
    SmearFills(y, w);
    assert RoundUp32(x) == Inc32(Exp2(w) - 1);
  }

  lemma WidthBound(y: nat, w: nat)
    requires y < TWO_32 && OnesAbove(y, w, Minus(w, 1))
    ensures w <= 32
    ensures w == 32 <==> y >= TWO_31
    ensures w <= 31 ==> Exp2(w) <= TWO_31
  {
    Exp2Of32();
    if w <= 31 {
      Exp2Monotone(w, 31);
    } else {
      Exp2Monotone(31, w - 1);
      if w > 32 {
        Exp2Monotone(32, w - 1);
      }
    }
  }
}
