/** The table as khash's callers see it, and its refinement of a mathematical set. */
module KHash {
  import opened Bits
  import opened HashTable
  import opened Rehash

  /** `(khint_t)(n * 0.77 + 0.5)`. */
  function Upper(n: nat): nat {
    (77 * n + 50) / 100
  }

  /** The bucket count kh_resize aims for. */
  function Target(request: nat): nat {
    if RoundUp32(request) < 4 then 4 else RoundUp32(request)
  }

  lemma {:induction false} Pow2Gap(j: nat, k: nat)
    ensures Exp2(j) < Exp2(k) ==> 2 * Exp2(j) <= Exp2(k)
  {
    if j < k {
      Exp2Monotone(j + 1, k);
    } else {
      Exp2Monotone(k, j);
    }
  }

  lemma GapOf(a: nat, b: nat)
    requires IsPow2(a) && IsPow2(b)
    ensures a < b ==> 2 * a <= b
  {
    var j: nat :| a == Exp2(j);
    var k: nat :| b == Exp2(k);
    Pow2Gap(j, k);
  }

  lemma TargetIsPow2(request: nat)
    requires request < TWO_32
    ensures IsPow2(Target(request)) && 4 <= Target(request) <= TWO_31
  {
    RoundUp32Correct(request);
    Exp2Of32();
    assert IsPow2(TWO_31) && 4 == Exp2(2);
    if 1 <= request <= TWO_31 {
      GapOf(TWO_31, RoundUp32(request));
    }
  }

  /** Asking for one bucket fewer keeps the size, asking for one more doubles it. */
  lemma TargetOfNeighbour(n: nat)
    requires IsPow2(n) && 4 <= n <= TWO_31
    ensures Target(n - 1) == n
    ensures n < TWO_31 ==> Target(n + 1) == 2 * n
  {
    RoundUp32Correct(n - 1);
    var r := RoundUp32(n - 1);
    GapOf(r, n);
    GapOf(n, r);
    if n < TWO_31 {
      RoundUp32Correct(n + 1);
      var r' := RoundUp32(n + 1);
      GapOf(n, r');
      Pow2Double(n);
      GapOf(2 * n, r');
    }
  }

  /** What kh_put asks kh_resize for: the same size again, if most of it is tombstones, or the next. */
  function Request(n: nat, size: nat): nat {
    if n > 2 * size then n - 1 else n + 1
  }

  /** That has room for the keys. */
  lemma RoomEnough(n: nat, size: nat)
    requires n == size == 0 || (IsPow2(n) && 4 <= n <= TWO_31 && size < n && size < TWO_31 / 2)
    ensures Target(Request(n, size)) == if n > 2 * size then n else if n == 0 then 4 else 2 * n
    ensures size < Upper(Target(Request(n, size))) && Request(n, size) < TWO_32
  {
    if n == 0 {
      RoundUp32Correct(1);
    } else {
      TargetOfNeighbour(n);
    }
  }

  /** Everything the fields of a table with buckets promise. */
  ghost predicate WellFormed<K(!new)>(fl: seq<Flag>, ks: seq<K>, hash: K -> nat, size: nat, occupied: nat, upper: nat)
  {
    && |fl| == |ks|
    && (|fl| == 0 ==> upper == 0)
    && (|fl| > 0 ==> 4 <= |fl| <= TWO_31 && IsPow2(|fl|) && upper == Upper(|fl|) && WellProbed(fl, ks, hash))
    && Distinct(fl, ks)
    && size == |LiveKeys(fl, ks)|
    && occupied == |Occupied(fl)|
    && occupied <= upper
  }

  /** Some bucket is always empty, so every probe ends. */
  lemma AlwaysAnEmptyBucket<K(!new)>(fl: seq<Flag>, ks: seq<K>, hash: K -> nat, size: nat, occupied: nat, upper: nat)
    requires WellFormed(fl, ks, hash, size, occupied, upper) && |fl| > 0
    ensures exists e :: 0 <= e < |fl| && fl[e].empty
    ensures size <= occupied < |fl|
  {
    var e := SomeEmpty(fl);
    LiveCount(fl, ks);
    SubsetSize(LiveBuckets(fl), Occupied(fl));
  }

  /** As many occupied buckets as keys: no bucket holds a tombstone. */
  lemma NoTombstones<K(!new)>(fl: seq<Flag>, ks: seq<K>, hash: K -> nat, size: nat, occupied: nat, upper: nat)
    requires WellFormed(fl, ks, hash, size, occupied, upper) && size == occupied
    ensures forall b :: 0 <= b < |fl| ==> Live(fl[b]) || fl[b].empty
  {
    LiveCount(fl, ks);
    var rest := Occupied(fl) - LiveBuckets(fl);
    assert Occupied(fl) == LiveBuckets(fl) + rest;
    forall b | 0 <= b < |fl| && !fl[b].empty
      ensures Live(fl[b])
    {
      assert b !in rest;
    }
  }

  lemma SubsetSize<T>(a: set<T>, b: set<T>)
    requires a <= b
    ensures |a| <= |b|
  {
    assert b == a + (b - a);
  }

  lemma WriteSlot<K(!new)>(fl: seq<Flag>, ks: seq<K>, hash: K -> nat, size: nat, occupied: nat, upper: nat, x: nat, key: K)
    requires WellFormed(fl, ks, hash, size, occupied, upper) && |fl| > 0 && occupied < upper
    requires GoodSlot(fl, ks, hash(key), key, x) && !Live(fl[x])
    ensures WellFormed(fl[x := LIVE], ks[x := key], hash, size + 1, if fl[x].empty then occupied + 1 else occupied, upper)
    ensures LiveKeys(fl[x := LIVE], ks[x := key]) == LiveKeys(fl, ks) + {key}
  {
    Place(fl, ks, hash, x, key);
    WriteCount(fl, x);
  }

  lemma WriteCount(fl: seq<Flag>, x: nat)
    requires x < |fl|
    ensures |Occupied(fl[x := LIVE])| == |Occupied(fl)| + if fl[x].empty then 1 else 0
  {
    var occupied := Occupied(fl);
    assert Occupied(fl[x := LIVE]) == occupied + {x};
    assert x in occupied <==> !fl[x].empty;
    if x in occupied {
      assert occupied + {x} == occupied;
    }
  }

  lemma EraseSlot<K(!new)>(fl: seq<Flag>, ks: seq<K>, hash: K -> nat, size: nat, occupied: nat, upper: nat, x: nat)
    requires WellFormed(fl, ks, hash, size, occupied, upper) && x < |fl| && Live(fl[x])
    ensures size > 0
    ensures WellFormed(fl[x := Tombstone(fl[x])], ks, hash, size - 1, occupied, upper)
    ensures LiveKeys(fl[x := Tombstone(fl[x])], ks) == LiveKeys(fl, ks) - {ks[x]}
  {
    Bury(fl, ks, x);
    BuryKeepsPaths(fl, ks, hash, x);
    assert ks[x] in LiveKeys(fl, ks);
    assert Occupied(fl[x := Tombstone(fl[x])]) == Occupied(fl);
  }

  lemma AllEmpty<K(!new)>(fl: seq<Flag>, ks: seq<K>, hash: K -> nat, upper: nat)
    requires |fl| == |ks| && forall b :: 0 <= b < |fl| ==> fl[b] == EMPTY
    requires |fl| == 0 ==> upper == 0
    requires |fl| > 0 ==> 4 <= |fl| <= TWO_31 && IsPow2(|fl|) && upper == Upper(|fl|)
    ensures WellFormed(fl, ks, hash, 0, 0, upper) && LiveKeys(fl, ks) == {}
  {
    assert LiveKeys(fl, ks) == {};
    assert Occupied(fl) == {};
  }

  lemma AfterRehash<K(!new)>(w: seq<Flag>, ks: seq<K>, hash: K -> nat, all: set<K>)
    requires 4 <= |w| == |ks| && |w| <= TWO_31 && IsPow2(|w|) && Rehashed(w, ks, hash, all) && |all| < Upper(|w|)
    ensures WellFormed(w, ks, hash, |all|, |all|, Upper(|w|)) && LiveKeys(w, ks) == all
  {
    LiveCount(w, ks);
    assert Occupied(w) == LiveBuckets(w);
  }

  lemma TakeKeys<K(!new)>(w: seq<Flag>, ks: seq<K>, hash: K -> nat, all: set<K>)
    requires 0 < |w| <= |ks| && Rehashed(w, ks, hash, all)
    ensures Rehashed(w, ks[..|w|], hash, all)
  {
    assert LiveKeys(w, ks[..|w|]) == LiveKeys(w, ks);
  }

  /** realloc: the common prefix survives. */
  method Realloc<K(0)>(a: array<K>, m: nat) returns (r: array<K>)
    ensures fresh(r) && r.Length == m
    ensures forall i :: 0 <= i < m && i < a.Length ==> r[i] == a[i]
  {
    r := new K[m];
    var common := if a.Length < m then a.Length else m;
    for i := 0 to common
      invariant forall k :: 0 <= k < i ==> r[k] == a[k]
    {
      r[i] := a[i];
    }
  }

  class Table<K(==,0,!new)> {
    const hash: K -> nat
    var nBuckets: nat
    var size: nat
    var nOccupied: nat
    var upperBound: nat
    var flags: array<Flag>
    var keys: array<K>

    ghost predicate Valid()
      reads this, flags, keys
    {
      && keys as object != flags && flags.Length == nBuckets
      && WellFormed(flags[..], keys[..], hash, size, nOccupied, upperBound)
    }

    /** The set this table stands for. */
    ghost function Contents(): set<K>
      reads this, flags, keys
      requires Valid()
    {
      LiveKeys(flags[..], keys[..])
    }

    constructor (hash: K -> nat)
      ensures Valid() && Contents() == {} && nBuckets == 0 && this.hash == hash
      ensures fresh(flags) && fresh(keys)
    {
      this.hash := hash;
      nBuckets, size, nOccupied, upperBound := 0, 0, 0, 0;
      flags := new Flag[0];
      keys := new K[0];
      new;
      AllEmpty(flags[..], keys[..], hash, 0);
    }

    method Clear()
      requires Valid()
      modifies this, flags
      ensures Valid() && Contents() == {} && size == 0
      ensures flags == old(flags) && keys == old(keys) && nBuckets == old(nBuckets)
    {
      forall b | 0 <= b < flags.Length {
        flags[b] := EMPTY;
      }
      size, nOccupied := 0, 0;
      AllEmpty(flags[..], keys[..], hash, upperBound);
    }

    method Find(key: K) returns (x: nat)
      requires Valid()
      ensures x <= nBuckets
      ensures x < nBuckets <==> key in Contents()
      ensures x < nBuckets ==> Live(flags[x]) && keys[x] == key
    {
      x := Lookup(flags, keys, hash, key);
    }

    method Delete(x: nat)
      requires Valid() && x <= nBuckets
      modifies this, flags
      ensures Valid() && flags == old(flags) && keys == old(keys) && nBuckets == old(nBuckets)
      ensures Contents() == if x < nBuckets && Live(old(flags[x])) then old(Contents()) - {keys[x]} else old(Contents())
    {
      if x != nBuckets && Live(flags[x]) {
        ghost var F := flags[..];
        EraseSlot(F, keys[..], hash, size, nOccupied, upperBound, x);
        flags[x] := Tombstone(flags[x]);
        assert flags[..] == F[x := Tombstone(F[x])];
        size := size - 1;
      }
    }

    /** The rehashing part of kh_resize: new flags and keys for m buckets with the same set. */
    method Rehash(m: nat) returns (newFlags: array<Flag>, ks: array<K>)
      requires Valid() && IsPow2(m) && 4 <= m <= TWO_31 && size < Upper(m)
      modifies flags, keys
      ensures fresh(newFlags) && (ks == keys || fresh(ks)) && ks as object != newFlags && newFlags.Length == ks.Length == m
      ensures LiveKeys(newFlags[..], ks[..]) == old(Contents())
      ensures WellFormed(newFlags[..], ks[..], hash, size, size, Upper(m))
    {
      newFlags := new Flag[m](_ => EMPTY);
      ks := keys;
      ghost var all := Contents();
      if nBuckets < m {
        ks := Realloc(keys, m);
        assert LiveKeys(flags[..], ks[..]) == all;
      }
      RehashAll(flags, newFlags, ks, hash);
      if nBuckets > m {
        TakeKeys(newFlags[..], ks[..], hash, all);
        var shrunk := Realloc(ks, m);
        assert shrunk[..] == ks[..][..m];
        ks := shrunk;
      }
      AfterRehash(newFlags[..], ks[..], hash, all);
    }

    /** kh_resize: a request too small for the keys is ignored; any other one rehashes. */
    method Resize(request: nat)
      requires Valid() && request < TWO_32
      modifies this, flags, keys
      ensures Valid() && Contents() == old(Contents()) && size == old(size)
      ensures flags == old(flags) || fresh(flags)
      ensures keys == old(keys) || fresh(keys)
      ensures size >= Upper(Target(request)) ==> nBuckets == old(nBuckets) && nOccupied == old(nOccupied)
      ensures size < Upper(Target(request)) ==>
        nBuckets == Target(request) && nOccupied == size && upperBound == Upper(Target(request))
    {
      var m := Target(request);
      TargetIsPow2(request);
      if size < Upper(m) {
        var newFlags, ks := Rehash(m);
        flags, keys, nBuckets := newFlags, ks, m;
        nOccupied, upperBound := size, Upper(m);
      }
    }

    /** The opening of kh_put: clear out tombstones or double the table when it is too full. */
    method MakeRoom()
      requires Valid() && size < TWO_31 / 2
      modifies this, flags, keys
      ensures Valid() && Contents() == old(Contents()) && size == old(size)
      ensures nBuckets > 0 && nOccupied < upperBound
      ensures flags == old(flags) || fresh(flags)
      ensures keys == old(keys) || fresh(keys)
      ensures old(nOccupied < upperBound) ==> unchanged(this) && flags[..] == old(flags[..]) && keys[..] == old(keys[..])
      ensures old(nOccupied >= upperBound) ==> nOccupied == size
      ensures old(nOccupied >= upperBound) ==>
        nBuckets == old(if nBuckets > 2 * size then nBuckets else if nBuckets == 0 then 4 else 2 * nBuckets)
    {
      if nOccupied >= upperBound {
        if nBuckets > 0 {
          AlwaysAnEmptyBucket(flags[..], keys[..], hash, size, nOccupied, upperBound);
        } else {
          assert Contents() == {};
        }
        RoomEnough(nBuckets, size);
        Resize(Request(nBuckets, size));
      }
    }

    /** The rest of kh_put: 0 the key was there, 1 an empty bucket was used, 2 a tombstone was. */
    method Insert(key: K) returns (x: nat, ret: int)
      requires Valid() && nBuckets > 0 && nOccupied < upperBound
      modifies this, flags, keys
      ensures Valid() && flags == old(flags) && keys == old(keys) && nBuckets == old(nBuckets)
      ensures Contents() == old(Contents()) + {key}
      ensures 0 <= ret <= 2 && (ret == 0 <==> key in old(Contents()))
      ensures size == old(size) + if ret == 0 then 0 else 1
      ensures x < nBuckets && Live(flags[x]) && keys[x] == key
      ensures ret == 1 <==> old(flags[..])[x].empty
      ensures ret == 2 ==> old(flags[..])[x].del
      ensures nOccupied == old(nOccupied) + if ret == 1 then 1 else 0
      ensures ret == 0 ==> flags[..] == old(flags[..]) && keys[..] == old(keys[..])
      ensures ret == 1 ==> exists s: nat :: Straight(old(flags[..]), hash(key), s, x)
      ensures old(nOccupied == size) ==> ret != 2
    {
      ghost var F, S := flags[..], keys[..];
      AlwaysAnEmptyBucket(F, S, hash, size, nOccupied, upperBound);
      if nOccupied == size {
        NoTombstones(F, S, hash, size, nOccupied, upperBound);
      }
      x := FindSlot(flags, keys, hash, key);
      if Live(flags[x]) {
        ret := 0;
        assert S[x] in LiveKeys(F, S);
      } else {
        WriteSlot(F, S, hash, size, nOccupied, upperBound, x, key);
        if flags[x].empty {
          nOccupied := nOccupied + 1;
          ret := 1;
        } else {
          ret := 2;
        }
        keys[x] := key;
        flags[x] := Flag(false, false);
        size := size + 1;
        assert flags[..] == F[x := LIVE] && keys[..] == S[x := key];
      }
    }

    method Put(key: K) returns (x: nat, ret: int)
      requires Valid() && size < TWO_31 / 2
      modifies this, flags, keys
      ensures Valid() && Contents() == old(Contents()) + {key}
      ensures 0 <= ret <= 2 && (ret == 0 <==> key in old(Contents()))
      ensures size == old(size) + if ret == 0 then 0 else 1
      ensures x < nBuckets && Live(flags[x]) && keys[x] == key
      ensures flags == old(flags) || fresh(flags)
      ensures keys == old(keys) || fresh(keys)
      ensures old(nOccupied >= upperBound) ==> ret != 2
      ensures old(nOccupied < upperBound) ==> flags == old(flags) && x < |old(flags[..])|
      ensures old(nOccupied < upperBound) ==> (ret == 1 <==> old(flags[..])[x].empty) && (ret == 2 ==> old(flags[..])[x].del)
    {
      MakeRoom();
      x, ret := Insert(key);
    }
  }

  // ----- whole runs -----

  datatype Op<K> = Put(key: K) | Get(key: K) | Del(key: K) | Clear | Resize(request: nat)

  /** What a caller sees of one operation: whether the key was there, and the size afterwards. */
  datatype Reply = Reply(found: bool, size: nat)

  ghost function SetStep<K(!new)>(s: set<K>, op: Op<K>): (set<K>, bool) {
    match op
    case Put(k) => (s + {k}, k in s)
    case Get(k) => (s, k in s)
    case Del(k) => (s - {k}, k in s)
    case Clear => ({}, false)
    case Resize(_) => (s, false)
  }

  /** The replies of a mathematical set. */
  ghost function SetRun<K(!new)>(s: set<K>, ops: seq<Op<K>>): seq<Reply>
    decreases |ops|
  {
    if ops == [] then [] else
      var (s', found) := SetStep(s, ops[0]);
      [Reply(found, |s'|)] + SetRun(s', ops[1..])
  }

  method RunOp<K(==,0,!new)>(t: Table<K>, op: Op<K>) returns (r: Reply)
    requires t.Valid() && (op.Put? ==> t.size < TWO_31 / 2) && (op.Resize? ==> op.request < TWO_32)
    modifies t, t.flags, t.keys
    ensures t.Valid() && t.Contents() == SetStep(old(t.Contents()), op).0
    ensures r == Reply(SetStep(old(t.Contents()), op).1, |t.Contents()|)
    ensures t.size <= old(t.size) + 1
    ensures t.flags == old(t.flags) || fresh(t.flags)
    ensures t.keys == old(t.keys) || fresh(t.keys)
  {
    var found := false;
    match op {
      case Put(k) =>
        var x, ret := t.Put(k);
        found := ret == 0;
      case Get(k) =>
        var x := t.Find(k);
        found := x != t.nBuckets;
      case Del(k) =>
        var x := t.Find(k);
        found := x != t.nBuckets;
        t.Delete(x);
      case Clear =>
        t.Clear();
      case Resize(n) =>
        t.Resize(n);
    }
    r := Reply(found, t.size);
  }

  /** Before every put the set has fewer than 2^30 keys, so the table stays below 2^31 buckets. */
  ghost predicate StaysSmall<K(!new)>(s: set<K>, ops: seq<Op<K>>)
    decreases |ops|
  {
    ops == [] || ((ops[0].Put? ==> |s| < TWO_31 / 2) && StaysSmall(SetStep(s, ops[0]).0, ops[1..]))
  }

  lemma SetRunNext<K(!new)>(s: set<K>, ops: seq<Op<K>>, i: nat)
    requires i < |ops| && StaysSmall(s, ops[i..])
    ensures ops[i].Put? ==> |s| < TWO_31 / 2
    ensures var (s', found) := SetStep(s, ops[i]);
            && StaysSmall(s', ops[i + 1..])
            && SetRun(s, ops[i..]) == [Reply(found, |s'|)] + SetRun(s', ops[i + 1..])
  {
    assert ops[i..][0] == ops[i] && ops[i..][1..] == ops[i + 1..];
  }

  lemma Shift<T>(out: seq<T>, r: T, rest: seq<T>)
    ensures out + ([r] + rest) == out + [r] + rest
  {
  }

  /** Every sequence of operations on a new table answers exactly as a set would. */
  method Run<K(==,0,!new)>(hash: K -> nat, ops: seq<Op<K>>) returns (out: seq<Reply>)
    requires StaysSmall({}, ops)
    requires forall i :: 0 <= i < |ops| && ops[i].Resize? ==> ops[i].request < TWO_32
    ensures out == SetRun({}, ops)
  {
    var t := new Table(hash);
    out := [];
    for i := 0 to |ops|
      invariant t.Valid() && StaysSmall(t.Contents(), ops[i..]) && fresh(t) && fresh(t.flags) && fresh(t.keys)
      invariant out + SetRun(t.Contents(), ops[i..]) == SetRun({}, ops)
    {
      ghost var s := t.Contents();
      SetRunNext(s, ops, i);
      var r := RunOp(t, ops[i]);
      Shift(out, r, SetRun(t.Contents(), ops[i + 1..]));
      out := out + [r];
    }
  }
}
