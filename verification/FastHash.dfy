/** fasthash64: a loop over 8-byte little-endian words, a tail word, and a final mix, all modulo
    2^64. A 64-bit word is a natural number below 2^64. */
module FastHash {
  import opened Bits

  const W: nat := 0x1_0000_0000_0000_0000
  const M: nat := 0x8803_55f2_1e6d_1965
  const MIX_FACTOR: nat := 0x2127_599b_f432_5c37
  const SEED: nat := 0x7472_6170_6578_6974

  type Word = x: nat | x < W
  type Byte = x: nat | x < 256

  // ----- exclusive or -----

  function Xor(x: nat, y: nat): nat
  {
    if x == 0 then y else if y == 0 then x
    else 2 * Xor(x / 2, y / 2) + (if x % 2 == y % 2 then 0 else 1)
  }

  lemma {:induction false} XorBound(x: nat, y: nat, j: nat)
    requires x < Exp2(j) && y < Exp2(j)
    ensures Xor(x, y) < Exp2(j)
  {
    if x != 0 && y != 0 {
      XorBound(x / 2, y / 2, j - 1);
    }
  }

  lemma XorHalves(x: nat, y: nat)
    ensures Xor(x, y) / 2 == Xor(x / 2, y / 2)
    ensures Xor(x, y) % 2 == if x % 2 == y % 2 then 0 else 1
  {
  }

  lemma {:induction false} XorCancelsLeft(x: nat, y: nat, z: nat)
    requires Xor(x, y) == Xor(x, z)
    ensures y == z
    decreases x + y + z
  {
    XorHalves(x, y);
    XorHalves(x, z);
    if x + y + z > 0 {
      XorCancelsLeft(x / 2, y / 2, z / 2);
    }
  }

  lemma {:induction false} XorCommutes(x: nat, y: nat)
    ensures Xor(x, y) == Xor(y, x)
  {
    if x != 0 && y != 0 {
      XorCommutes(x / 2, y / 2);
    }
  }

  lemma XorDoubled(h: nat, b: nat)
    requires Xor(h, b / 2) == h + b / 2
    ensures Xor(2 * h, b) == 2 * h + b
  {
    XorHalves(2 * h, b);
  }

  /** Words without common bits add up. */
  lemma {:induction false} XorOfDisjoint(a: nat, b: nat, j: nat)
    requires b < Exp2(j)
    ensures Xor(a * Exp2(j), b) == a * Exp2(j) + b
  {
    if j > 0 {
      XorOfDisjoint(a, b / 2, j - 1);
      XorDoubled(a * Exp2(j - 1), b);
      TimesExp2(a, j);
    }
  }

  // ----- the two bijections -----

  function XorShift(x: nat, k: nat): nat {
    Xor(x, Shr(x, k))
  }

  lemma {:induction false} ShrHalves(x: nat, k: nat)
    ensures Shr(x / 2, k) == Shr(x, k) / 2
  {
    if k > 0 {
      ShrHalves(x / 2, k - 1);
    }
  }

  lemma {:induction false} ShrBound(x: nat, k: nat)
    ensures Shr(x, k) <= x
  {
    if k > 0 {
      ShrBound(x / 2, k - 1);
    }
  }

  /** `h ^= h >> k` loses nothing: equal results have equal upper parts, and the lowest bit is
      only mixed with a bit of the upper part. */
  lemma {:induction false} XorShiftInjective(x: nat, y: nat, k: nat)
    requires k > 0 && XorShift(x, k) == XorShift(y, k)
    ensures x == y
    decreases x + y
  {
    if x + y > 0 {
      XorHalves(x, Shr(x, k));
      XorHalves(y, Shr(y, k));
      ShrHalves(x, k);
      ShrHalves(y, k);
      XorShiftInjective(x / 2, y / 2, k);
    }
  }

  /** Multiplication of words, keeping the low 64 bits. */
  function Mul(x: nat, m: nat): (r: Word) {
    (x * m) % W
  }

  lemma WIsExp2()
    ensures W == Exp2(64)
  {
    Exp2Of32();
    assert Exp2(40) == 0x100_0000_0000;
    assert Exp2(48) == 0x1_0000_0000_0000;
    assert Exp2(56) == 0x100_0000_0000_0000;
  }

  lemma SmallMultiple(d: int, r: int)
    requires d == W * r && d < W && -d < W
    ensures d == 0
  {
  }

  /** Multiplication by an odd factor loses nothing. */
  lemma MulInjective(x: Word, y: Word, m: nat)
    requires m % 2 == 1 && Mul(x, m) == Mul(y, m)
    ensures x == y
  {
    WIsExp2();
    var p, q := x * m, y * m;
    var u := p / W - q / W;
    assert p - q == W * u;
    var d := x - y;
    assert m * d == p - q;
    var r := OddCancel(m, d, 64, u);
    SmallMultiple(d, r);
  }

  // ----- the hash -----

  function XorWord(x: Word, y: Word): (r: Word) {
    WIsExp2();
    XorBound(x, y, 64);
    Xor(x, y)
  }

  function XorShiftWord(x: Word, k: nat): (r: Word) {
    ShrBound(x, k);
    XorWord(x, Shr(x, k))
  }

  /** The macro mix. */
  function Mix(h: Word): (r: Word) {
    XorShiftWord(Mul(XorShiftWord(h, 23), MIX_FACTOR), 47)
  }

  lemma MixInjective(x: Word, y: Word)
    requires Mix(x) == Mix(y)
    ensures x == y
  {
    var a, b := XorShiftWord(x, 23), XorShiftWord(y, 23);
    XorShiftInjective(Mul(a, MIX_FACTOR), Mul(b, MIX_FACTOR), 47);
    MulInjective(a, b, MIX_FACTOR);
    XorShiftInjective(x, y, 23);
  }

  /** `h ^= mix(v); h *= m`. */
  function Absorb(h: Word, v: Word): (r: Word) {
    Mul(XorWord(h, Mix(v)), M)
  }

  /** One round determines the old state from the word, and the word from the old state. */
  lemma AbsorbInjective(h: Word, g: Word, v: Word, u: Word)
    requires Absorb(h, v) == Absorb(g, u)
    ensures h == g <==> v == u
  {
    MulInjective(XorWord(h, Mix(v)), XorWord(g, Mix(u)), M);
    if h == g {
      XorCancelsLeft(h, Mix(v), Mix(u));
      MixInjective(v, u);
    }
    if v == u {
      XorCommutes(h, Mix(v));
      XorCommutes(g, Mix(v));
      XorCancelsLeft(Mix(v), h, g);
    }
  }

  function AbsorbAll(h: Word, ws: seq<Word>): (r: Word)
    decreases |ws|
  {
    if ws == [] then h else AbsorbAll(Absorb(h, ws[0]), ws[1..])
  }

  lemma {:induction false} AbsorbAppend(h: Word, ws: seq<Word>, v: Word)
    ensures AbsorbAll(h, ws + [v]) == Absorb(AbsorbAll(h, ws), v)
    decreases |ws|
  {
    if ws == [] {
      assert ws + [v] == [v];
    } else {
      assert (ws + [v])[1..] == ws[1..] + [v];
      AbsorbAppend(Absorb(h, ws[0]), ws[1..], v);
    }
  }

  /** Different states stay different under the same words. */
  lemma {:induction false} StatesStayApart(h: Word, g: Word, ws: seq<Word>)
    requires h != g
    ensures AbsorbAll(h, ws) != AbsorbAll(g, ws)
    decreases |ws|
  {
    if ws != [] {
      if Absorb(h, ws[0]) == Absorb(g, ws[0]) {
        AbsorbInjective(h, g, ws[0], ws[0]);
      }
      StatesStayApart(Absorb(h, ws[0]), Absorb(g, ws[0]), ws[1..]);
    }
  }

  /** Word lists that differ in exactly one place lead to different states. */
  lemma {:induction false} OneWordApart(h: Word, ws: seq<Word>, us: seq<Word>, i: nat)
    requires |ws| == |us| && i < |ws| && ws[i] != us[i]
    requires forall k :: 0 <= k < |ws| && k != i ==> ws[k] == us[k]
    ensures AbsorbAll(h, ws) != AbsorbAll(h, us)
    decreases |ws|
  {
    if i == 0 {
      if Absorb(h, ws[0]) == Absorb(h, us[0]) {
        AbsorbInjective(h, h, ws[0], us[0]);
      }
      assert ws[1..] == us[1..];
      StatesStayApart(Absorb(h, ws[0]), Absorb(h, us[0]), ws[1..]);
    } else {
      assert ws[0] == us[0];
      OneWordApart(Absorb(h, ws[0]), ws[1..], us[1..], i - 1);
    }
  }

  // ----- bytes -----

  function LoadLE(b: seq<Byte>): nat {
    if b == [] then 0 else b[0] + 256 * LoadLE(b[1..])
  }

  lemma {:induction false} LoadBound(b: seq<Byte>)
    ensures LoadLE(b) < Exp2(8 * |b|)
  {
    if b != [] {
      LoadBound(b[1..]);
      assert Exp2(8 * |b|) == 256 * Exp2(8 * (|b| - 1)) by {
        EightMore(8 * (|b| - 1));
      }
    }
  }

  lemma EightMore(k: nat)
    ensures Exp2(k + 8) == 256 * Exp2(k)
  {
    assert Exp2(k + 2) == 4 * Exp2(k);
    assert Exp2(k + 4) == 16 * Exp2(k);
    assert Exp2(k + 6) == 64 * Exp2(k);
  }

  lemma {:induction false} LoadInjective(b: seq<Byte>, c: seq<Byte>)
    requires |b| == |c| && LoadLE(b) == LoadLE(c)
    ensures b == c
  {
    if b != [] {
      LoadInjective(b[1..], c[1..]);
      assert b == [b[0]] + b[1..] && c == [c[0]] + c[1..];
    }
  }

  function LoadWord(b: seq<Byte>): (r: Word)
    requires |b| <= 8
  {
    LoadBound(b);
    WIsExp2();
    Exp2Monotone(8 * |b|, 64);
    LoadLE(b)
  }

  /** The 8-byte blocks of a string, and a last word for what is left over, if anything is. */
  function Words(s: seq<Byte>): (ws: seq<Word>)
    ensures |ws| == (|s| + 7) / 8
  {
    if s == [] then []
    else if |s| < 8 then [LoadWord(s)]
    else [LoadWord(s[..8])] + Words(s[8..])
  }

  function Min(a: nat, b: nat): nat {
    if a < b then a else b
  }

  lemma SliceOfRest<T>(s: seq<T>, k: nat, lo: nat, hi: nat)
    requires k <= lo <= hi <= |s|
    ensures s[k..][lo - k..hi - k] == s[lo..hi]
  {
  }

  lemma {:induction false} WordAt(s: seq<Byte>, i: nat)
    requires 8 * i < |s|
    ensures Words(s)[i] == LoadWord(s[8 * i..Min(8 * i + 8, |s|)])
  {
    if i > 0 {
      var rest, lo, hi := s[8..], 8 * i, Min(8 * i + 8, |s|);
      WordAt(rest, i - 1);
      assert Words(s)[i] == Words(rest)[i - 1];
      assert Min(8 * (i - 1) + 8, |rest|) == hi - 8;
      SliceOfRest(s, 8, lo, hi);
    } else {
      assert s == s[0..|s|];
    }
  }

  /** What fasthash64 computes. */
  function Hash(s: seq<Byte>, seed: Word): (h: Word) {
    Mix(AbsorbAll(XorWord(seed, Mul(|s|, M)), Words(s)))
  }

  /** Strings of one length that differ only inside one 8-byte block (the shorter last block
      included) never collide, whatever the seed. */
  lemma OneBlockNeverCollides(s: seq<Byte>, t: seq<Byte>, i: nat, seed: Word)
    requires |s| == |t| && s != t && 8 * i < |s|
    requires forall k :: 0 <= k < |s| && !(8 * i <= k < 8 * i + 8) ==> s[k] == t[k]
    ensures Hash(s, seed) != Hash(t, seed)
  {
    var h := XorWord(seed, Mul(|s|, M));
    forall j | 0 <= j < |Words(s)|
      ensures Words(s)[j] == Words(t)[j] <==> j != i
    {
      WordAt(s, j);
      WordAt(t, j);
      var a, b := 8 * j, Min(8 * j + 8, |s|);
      if j != i {
        assert s[a..b] == t[a..b];
      } else {
        BlockDiffers(s, t, i);
        if LoadLE(s[a..b]) == LoadLE(t[a..b]) {
          LoadInjective(s[a..b], t[a..b]);
        }
      }
    }
    OneWordApart(h, Words(s), Words(t), i);
    if Hash(s, seed) == Hash(t, seed) {
      MixInjective(AbsorbAll(h, Words(s)), AbsorbAll(h, Words(t)));
    }
  }

  lemma BlockDiffers(s: seq<Byte>, t: seq<Byte>, i: nat)
    requires |s| == |t| && s != t && 8 * i < |s|
    requires forall k :: 0 <= k < |s| && !(8 * i <= k < 8 * i + 8) ==> s[k] == t[k]
    ensures s[8 * i..Min(8 * i + 8, |s|)] != t[8 * i..Min(8 * i + 8, |s|)]
  {
    var lo, hi := 8 * i, Min(8 * i + 8, |s|);
    var k :| 0 <= k < |s| && s[k] != t[k];
    assert lo <= k < hi;
    assert s[lo..hi][k - lo] == s[k] && t[lo..hi][k - lo] == t[k];
  }

  /** Names of at most 8 bytes and equal length collide only if they are the same. */
  lemma ShortNamesNeverCollide(s: seq<Byte>, t: seq<Byte>, seed: Word)
    requires |s| == |t| <= 8 && Hash(s, seed) == Hash(t, seed)
    ensures s == t
  {
    if s != t {
      OneBlockNeverCollides(s, t, 0, seed);
    }
  }

  // ----- the code -----

  function Shl(x: nat, k: nat): nat {
    x * Exp2(k)
  }

  /** One case of the tail switch, which falls through to the next lower byte. */
  lemma TailStep(b: seq<Byte>, k: nat)
    requires k < |b|
    ensures Xor(Shl(LoadLE(b[k + 1..]), 8 * k + 8), Shl(b[k], 8 * k)) == Shl(LoadLE(b[k..]), 8 * k)
  {
    var up, low := LoadLE(b[k + 1..]), Shl(b[k], 8 * k);
    assert b[k..][1..] == b[k + 1..];
    ByteBelow(b[k], up, 8 * k);
    XorOfDisjoint(up, low, 8 * k + 8);
  }

  lemma ByteBelow(c: Byte, up: nat, j: nat)
    ensures Shl(c, j) < Exp2(j + 8)
    ensures Shl(up, j + 8) + Shl(c, j) == Shl(c + 256 * up, j)
  {
    EightMore(j);
    var e := Exp2(j);
    MulStep(e, c, 256);
    assert up * (256 * e) == (256 * up) * e;
  }

  /** The cases 7 down to 4 of the tail. */
  method TailHigh(b: seq<Byte>) returns (v: nat)
    requires 1 <= |b| <= 7
    ensures |b| >= 3 ==> v == Shl(LoadLE(b[3..]), 24)
    ensures |b| <= 3 ==> v == 0
  {
    v := 0;
    if |b| >= 7 { TailStep(b, 6); v := Xor(v, Shl(b[6], 48)); }
    assert |b| >= 6 ==> v == Shl(LoadLE(b[6..]), 48);
    if |b| >= 6 { TailStep(b, 5); v := Xor(v, Shl(b[5], 40)); }
    assert |b| >= 5 ==> v == Shl(LoadLE(b[5..]), 40);
    if |b| >= 5 { TailStep(b, 4); v := Xor(v, Shl(b[4], 32)); }
    assert |b| >= 4 ==> v == Shl(LoadLE(b[4..]), 32);
    if |b| >= 4 { TailStep(b, 3); v := Xor(v, Shl(b[3], 24)); }
  }

  /** The tail word, byte by byte from the top. */
  method TailWord(b: seq<Byte>) returns (v: nat)
    requires 1 <= |b| <= 7
    ensures v == LoadWord(b)
  {
    v := TailHigh(b);
    if |b| >= 3 { TailStep(b, 2); v := Xor(v, Shl(b[2], 16)); }
    assert |b| >= 2 ==> v == Shl(LoadLE(b[2..]), 16);
    if |b| >= 2 { TailStep(b, 1); v := Xor(v, Shl(b[1], 8)); }
    assert v == Shl(LoadLE(b[1..]), 8);
    TailStep(b, 0);
    v := Xor(v, Shl(b[0], 0));
    assert b[0..] == b;
  }

  lemma {:induction false} WordsPrefix(s: seq<Byte>, n: nat)
    requires 8 * n + 8 <= |s|
    ensures Words(s[..8 * n + 8]) == Words(s[..8 * n]) + [LoadWord(s[8 * n..8 * n + 8])]
  {
    if n == 0 {
      assert s[..8][..8] == s[..8] && s[..8][8..] == [];
    } else {
      WordsPrefix(s[8..], n - 1);
      assert s[..8 * n + 8][8..] == s[8..][..8 * (n - 1) + 8];
      assert s[..8 * n][8..] == s[8..][..8 * (n - 1)];
      assert s[..8 * n + 8][..8] == s[..8] == s[..8 * n][..8];
      assert s[8..][8 * (n - 1)..8 * (n - 1) + 8] == s[8 * n..8 * n + 8];
    }
  }

  lemma {:induction false} WordsTail(s: seq<Byte>, n: nat)
    requires 8 * n < |s| < 8 * n + 8
    ensures Words(s) == Words(s[..8 * n]) + [LoadWord(s[8 * n..])]
  {
    if n == 0 {
      assert s[0..] == s;
    } else {
      WordsTail(s[8..], n - 1);
      assert s[..8 * n][8..] == s[8..][..8 * (n - 1)];
      assert s[..8 * n][..8] == s[..8];
      assert s[8..][8 * (n - 1)..] == s[8 * n..];
    }
  }

  method FastHash64(buf: seq<Byte>, seed: Word) returns (r: Word)
    ensures r == Hash(buf, seed)
  {
    var len := |buf|;
    var h := XorWord(seed, Mul(len, M));
    ghost var h0 := h;
    var pos := 0;
    while pos != len / 8
      invariant 0 <= pos <= len / 8
      invariant h == AbsorbAll(h0, Words(buf[..8 * pos]))
      decreases len / 8 - pos
    {
      WordsPrefix(buf, pos);
      var v := LoadWord(buf[8 * pos..8 * pos + 8]);
      AbsorbAppend(h0, Words(buf[..8 * pos]), v);
      pos := pos + 1;
      h := XorWord(h, Mix(v));
      h := Mul(h, M);
    }
    if len % 8 != 0 {
      var tail := buf[8 * pos..];
      var v := TailWord(tail);
      WordsTail(buf, pos);
      AbsorbAppend(h0, Words(buf[..8 * pos]), v);
      h := XorWord(h, Mix(v));
      h := Mul(h, M);
    } else {
      assert buf[..8 * pos] == buf;
    }
    r := Mix(h);
  }
}
