/** The triangular probe sequence of khash: bucket h, then h+1, h+1+2, h+1+2+3, ... modulo the
    (power of two) number of buckets. */
module Probing {
  import opened Bits

  function Tri(s: nat): nat {
    if s == 0 then 0 else Tri(s - 1) + s
  }

  /** The bucket looked at after s steps. */
  function Probe(h: nat, s: nat, n: nat): (b: nat)
    requires n > 0
    ensures b < n
  {
    if s == 0 then Mod(h, n) else Mod(Probe(h, s - 1, n) + s, n)
  }

  lemma {:induction false} TriClosed(s: nat)
    ensures 2 * Tri(s) == s * (s + 1)
  {
    if s > 0 {
      TriClosed(s - 1);
      assert s * (s + 1) == (s - 1) * s + 2 * s;
    }
  }

  lemma {:induction false} ProbeClosed(h: nat, s: nat, n: nat)
    requires n > 0
    ensures Probe(h, s, n) == Mod(h + Tri(s), n)
  {
    if s > 0 {
      ProbeClosed(h, s - 1, n);
      ModShift(h + Tri(s - 1), s, n);
    }
  }

  /** The code's step `i = (i + (++step)) & mask` follows the sequence. */
  lemma ProbeStep(h: nat, s: nat, n: nat)
    requires IsPow2(n) && n > 0
    ensures And(h, n - 1) == Probe(h, 0, n)
    ensures And(Probe(h, s, n) + (s + 1), n - 1) == Probe(h, s + 1, n)
  {
    MaskIsMod(h, n);
    MaskIsMod(Probe(h, s, n) + (s + 1), n);
  }

  lemma TriDifference(a: nat, b: nat)
    ensures (b - a) * (a + b + 1) == 2 * (Tri(b) - Tri(a))
  {
    TriClosed(a);
    TriClosed(b);
    assert (b - a) * (a + b + 1) == b * (b + 1) - a * (a + 1);
  }

  lemma DoubleExp2(k: nat, q: int)
    ensures Exp2(k + 1) * q == 2 * (Exp2(k) * q)
  {
    assert Exp2(k + 1) == 2 * Exp2(k);
  }

  lemma OtherFactorLarge(x: int, y: int, p: int, k: nat, q: int)
    requires x > 0 && y > 0 && x % 2 == 1 && p == x * y && p == Exp2(k) * q
    ensures y >= Exp2(k)
  {
    var r := OddCancel(x, y, k, q);
    PositiveMultiple(y, Exp2(k), r);
  }

  lemma Swapped(x: int, y: int)
    ensures x * y == y * x
  {
  }

  lemma OddOrEven(x: int, y: int, p: int, k: nat, q: int)
    requires x > 0 && y > 0 && (x % 2 == 1 || y % 2 == 1) && p == x * y && p == Exp2(k) * q
    ensures x >= Exp2(k) || y >= Exp2(k)
  {
    if x % 2 == 1 {
      OtherFactorLarge(x, y, p, k, q);
    } else {
      Swapped(x, y);
      OtherFactorLarge(y, x, p, k, q);
    }
  }

  lemma OneIsOdd(b: int, x: int, y: int)
    requires x + y == 2 * b + 1
    ensures x % 2 == 1 || y % 2 == 1
  {
  }

  /** Triangular numbers a < b that agree modulo n are far apart: a + b + 1 >= 2n. */
  lemma TriApart(a: nat, b: nat, k: nat, q: int)
    requires a < b && Tri(b) - Tri(a) == Exp2(k) * q
    ensures a + b + 1 >= 2 * Exp2(k)
  {
    var x, y := b - a, a + b + 1;
    TriDifference(a, b);
    DoubleExp2(k, q);
    OneIsOdd(b, x, y);
    OddOrEven(x, y, Exp2(k + 1) * q, k + 1, q);
  }

  lemma SameProbeApart(h: nat, a: nat, b: nat, n: nat)
    requires IsPow2(n) && a < b
    ensures Probe(h, a, n) == Probe(h, b, n) ==> a + b + 1 >= 2 * n
  {
    var k: nat :| n == Exp2(k);
    ProbeClosed(h, a, n);
    ProbeClosed(h, b, n);
    if Probe(h, a, n) == Probe(h, b, n) {
      var qa: int := ModQuotient(h + Tri(a), n);
      var qb: int := ModQuotient(h + Tri(b), n);
      Distribute(n, qb, qa);
      TriApart(a, b, k, qb - qa);
    }
  }

  /** Within the first n steps no bucket repeats. */
  lemma ProbeInjective(h: nat, a: nat, b: nat, n: nat)
    requires IsPow2(n) && a < b < n
    ensures Probe(h, a, n) != Probe(h, b, n)
  {
    SameProbeApart(h, a, b, n);
  }

  /** The sequence is back at its first bucket no earlier than step 2n - 1. */
  lemma FirstReturn(h: nat, s: nat, n: nat)
    requires IsPow2(n) && 1 <= s && Probe(h, s, n) == Probe(h, 0, n)
    ensures s >= 2 * n - 1
  {
    SameProbeApart(h, 0, s, n);
  }

  lemma ReturnsAtLast(h: nat, n: nat)
    requires IsPow2(n) && n > 0
    ensures Probe(h, 2 * n - 1, n) == Probe(h, 0, n)
  {
    ProbeClosed(h, 2 * n - 1, n);
    TriClosed(2 * n - 1);
    var q := 2 * n - 1;
    assert (2 * n - 1) * (2 * n) == 2 * (n * q);
    ModPeriodic(h, n, q);
  }

  /** One step of the probe loop, and exactly when it comes back to the first bucket. */
  lemma ProbeAdvance(h: nat, s: nat, n: nat)
    requires IsPow2(n) && n > 0 && s + 1 < 2 * n
    ensures And(Probe(h, s, n) + (s + 1), n - 1) == Probe(h, s + 1, n)
    ensures Probe(h, s + 1, n) == And(h, n - 1) <==> s + 1 == 2 * n - 1
  {
    ProbeStep(h, s, n);
    ReturnsAtLast(h, n);
    if Probe(h, s + 1, n) == Probe(h, 0, n) {
      FirstReturn(h, s + 1, n);
    }
  }

  ghost function Visited(h: nat, s: nat, n: nat): set<nat>
    requires n > 0
  {
    set t | 0 <= t < s :: Probe(h, t, n)
  }

  lemma {:induction false} VisitedCount(h: nat, s: nat, n: nat)
    requires IsPow2(n) && s <= n && n > 0
    ensures |Visited(h, s, n)| == s
  {
    if s > 0 {
      VisitedCount(h, s - 1, n);
      var b := Probe(h, s - 1, n);
      assert Visited(h, s, n) == Visited(h, s - 1, n) + {b};
      forall t | 0 <= t < s - 1
        ensures Probe(h, t, n) != b
      {
        ProbeInjective(h, t, s - 1, n);
      }
      assert b !in Visited(h, s - 1, n);
    }
  }

  ghost function Below(n: nat): (r: set<nat>)
    ensures |r| == n && forall i :: i in r <==> 0 <= i < n
  {
    if n == 0 then {} else Below(n - 1) + {n - 1}
  }

  lemma SubsetOfSameSize<T>(a: set<T>, b: set<T>)
    requires a <= b && |a| >= |b|
    ensures a == b
  {
    assert b == a + (b - a);
    assert |b| == |a| + |b - a|;
  }

  /** The first n steps visit every bucket. */
  lemma ProbeCovers(h: nat, b: nat, n: nat) returns (s: nat)
    requires IsPow2(n) && b < n
    ensures s < n && Probe(h, s, n) == b
  {
    VisitedCount(h, n, n);
    SubsetOfSameSize(Visited(h, n, n), Below(n));
    assert b in Visited(h, n, n);
    s :| 0 <= s < n && Probe(h, s, n) == b;
  }
}
