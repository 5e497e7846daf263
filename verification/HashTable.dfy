/** The open-addressing hash table of khash.h: two flag bits per bucket, triangular probing,
    tombstones, and a rehash that moves the keys inside one shared key array. */
module HashTable {
  import opened Bits
  import opened Probing

  /** The two bits kept for a bucket. */
  datatype Flag = Flag(empty: bool, del: bool)

  const EMPTY := Flag(true, false)
  const LIVE := Flag(false, false)

  predicate Live(f: Flag) {
    !f.empty && !f.del
  }

  // ----- what a table means -----

  ghost function LiveBuckets(fl: seq<Flag>): set<nat> {
    set b: nat | b < |fl| && Live(fl[b])
  }

  ghost function Occupied(fl: seq<Flag>): set<nat> {
    set b: nat | b < |fl| && !fl[b].empty
  }

  /** The set of keys a table stores. */
  ghost function LiveKeys<K>(fl: seq<Flag>, ks: seq<K>): set<K>
    requires |fl| <= |ks|
  {
    set b: nat | b < |fl| && Live(fl[b]) :: ks[b]
  }

  ghost predicate Distinct<K>(fl: seq<Flag>, ks: seq<K>)
    requires |fl| <= |ks|
  {
    forall a, b :: 0 <= a < b < |fl| && Live(fl[a]) && Live(fl[b]) ==> ks[a] != ks[b]
  }

  /** Bucket b is step s of the probe sequence of h, and no earlier step meets an empty bucket. */
  ghost predicate OnPath(fl: seq<Flag>, h: nat, s: nat, b: nat)
    requires |fl| > 0
  {
    Probe(h, s, |fl|) == b && forall t :: 0 <= t < s ==> !fl[Probe(h, t, |fl|)].empty
  }

  ghost predicate Reachable(fl: seq<Flag>, h: nat, b: nat)
    requires |fl| > 0
  {
    exists s: nat :: OnPath(fl, h, s, b)
  }

  ghost predicate WellProbed<K>(fl: seq<Flag>, ks: seq<K>, hash: K -> nat)
    requires |fl| <= |ks|
  {
    forall b :: 0 <= b < |fl| && Live(fl[b]) ==> Reachable(fl, hash(ks[b]), b)
  }

  /** A probe looking for key passes over bucket b. */
  predicate Passed<K(==)>(fl: seq<Flag>, ks: seq<K>, key: K, b: nat)
    requires |fl| <= |ks| && b < |fl|
  {
    !fl[b].empty && (fl[b].del || ks[b] != key)
  }

  // ----- lemmas on contents -----

  lemma {:induction false} ImageSize<K>(s: set<nat>, ks: seq<K>)
    requires forall b :: b in s ==> b < |ks|
    requires forall a, b :: a in s && b in s && a != b ==> ks[a] != ks[b]
    ensures |set b | b in s :: ks[b]| == |s|
    decreases |s|
  {
    var img := set b | b in s :: ks[b];
    if s == {} {
      assert img == {};
    } else {
      var x :| x in s;
      var s' := s - {x};
      ImageSize(s', ks);
      var img' := set b | b in s' :: ks[b];
      assert img == img' + {ks[x]};
    }
  }

  lemma LiveCount<K>(fl: seq<Flag>, ks: seq<K>)
    requires |fl| <= |ks| && Distinct(fl, ks)
    ensures |LiveKeys(fl, ks)| == |LiveBuckets(fl)|
  {
    ImageSize(LiveBuckets(fl), ks);
    assert LiveKeys(fl, ks) == set b | b in LiveBuckets(fl) :: ks[b];
  }

  lemma SomeEmpty(fl: seq<Flag>) returns (e: nat)
    requires |Occupied(fl)| < |fl|
    ensures e < |fl| && fl[e].empty
  {
    var free := Below(|fl|) - Occupied(fl);
    assert |Below(|fl|)| <= |Occupied(fl)| + |free| by {
      assert Below(|fl|) == Occupied(fl) + free;
    }
    e :| e in free;
  }

  /** A probe that passed over everything up to an empty bucket proves the key absent. */
  lemma AbsentAtEmpty<K>(fl: seq<Flag>, ks: seq<K>, hash: K -> nat, key: K, s: nat)
    requires 0 < |fl| <= |ks| && WellProbed(fl, ks, hash)
    requires forall t :: 0 <= t < s ==> Passed(fl, ks, key, Probe(hash(key), t, |fl|))
    requires fl[Probe(hash(key), s, |fl|)].empty
    ensures key !in LiveKeys(fl, ks)
  {
    var h := hash(key);
    forall b: nat | b < |fl| && Live(fl[b])
      ensures ks[b] != key
    {
      var t: nat :| OnPath(fl, hash(ks[b]), t, b);
      if t < s {
        assert Passed(fl, ks, key, Probe(h, t, |fl|));
      }
    }
  }

  /** The exit `i == last` is taken only after every bucket was passed over. */
  lemma AbsentAtReturn<K>(fl: seq<Flag>, ks: seq<K>, h: nat, key: K, s: nat)
    requires IsPow2(|fl|) && 0 < |fl| <= |ks| && s >= |fl|
    requires forall t :: 0 <= t < s ==> Passed(fl, ks, key, Probe(h, t, |fl|))
    ensures forall b :: 0 <= b < |fl| ==> Passed(fl, ks, key, b)
    ensures key !in LiveKeys(fl, ks)
  {
    forall b | 0 <= b < |fl|
      ensures Passed(fl, ks, key, b)
    {
      var t := ProbeCovers(h, b, |fl|);
    }
    forall b: nat | b < |fl| && Live(fl[b])
      ensures ks[b] != key
    {
      assert Passed(fl, ks, key, b);
    }
  }

  // ----- kh_get -----

  /** The probe for key passed over its first s buckets. */
  ghost predicate AllPassed<K(!new)>(fl: seq<Flag>, ks: seq<K>, h: nat, key: K, s: nat)
    requires 0 < |fl| <= |ks|
  {
    forall t :: 0 <= t < s ==> Passed(fl, ks, key, Probe(h, t, |fl|))
  }

  method Lookup<K(==,!new)>(fl: array<Flag>, ks: array<K>, hash: K -> nat, key: K) returns (x: nat)
    requires fl.Length > 0 ==> IsPow2(fl.Length)
    requires fl.Length == ks.Length && (fl.Length > 0 ==> WellProbed(fl[..], ks[..], hash))
    ensures x < fl.Length ==> Live(fl[x]) && ks[x] == key
    ensures x >= fl.Length ==> x == fl.Length && key !in LiveKeys(fl[..], ks[..])
  {
    var n := fl.Length;
    if n == 0 {
      return 0;
    }
    ghost var F, S := fl[..], ks[..];
    var h, mask, step := hash(key), n - 1, 0;
    var i := And(h, mask);
    ProbeStep(h, 0, n);
    var last := i;
    while !fl[i].empty && (fl[i].del || ks[i] != key)
      invariant i == Probe(h, step, n) && step < 2 * n - 1
      invariant AllPassed(F, S, h, key, step)
      decreases 2 * n - step
    {
      assert AllPassed(F, S, h, key, step + 1);
      ProbeAdvance(h, step, n);
      step := step + 1;
      i := And(i + step, mask);
      if i == last {
        AbsentAtReturn(F, S, h, key, step);
        return n;
      }
    }
    if fl[i].empty {
      AbsentAtEmpty(F, S, hash, key, step);
    }
    x := if fl[i].empty || fl[i].del then n else i;
  }

  // ----- the bucket kh_put writes to -----

  /** The probe for key passed over its first s buckets; site is a tombstone among them, or the
      number of buckets when there was none. */
  ghost predicate Scanned<K(!new)>(fl: seq<Flag>, ks: seq<K>, h: nat, key: K, s: nat, site: nat)
    requires 0 < |fl| <= |ks|
  {
    && (forall t :: 0 <= t < s ==> Passed(fl, ks, key, Probe(h, t, |fl|)))
    && site <= |fl|
    && (site == |fl| ==> forall t :: 0 <= t < s ==> !fl[Probe(h, t, |fl|)].del)
    && (site < |fl| ==> fl[site].del && !fl[site].empty && Reachable(fl, h, site))
  }

  lemma ScanStep<K(!new)>(fl: seq<Flag>, ks: seq<K>, h: nat, key: K, s: nat, site: nat)
    requires 0 < |fl| <= |ks| && Scanned(fl, ks, h, key, s, site)
    requires Passed(fl, ks, key, Probe(h, s, |fl|))
    ensures var b := Probe(h, s, |fl|);
            Scanned(fl, ks, h, key, s + 1, if fl[b].del then b else site)
  {
    assert OnPath(fl, h, s, Probe(h, s, |fl|));
  }

  /** The probe reaches bucket b without passing over a tombstone. */
  ghost predicate Straight(fl: seq<Flag>, h: nat, s: nat, b: nat)
    requires |fl| > 0
  {
    OnPath(fl, h, s, b) && forall t :: 0 <= t < s ==> !fl[Probe(h, t, |fl|)].del
  }

  /** What kh_put's choice of bucket promises: the key's own bucket, or a free one on its path, and
      an empty one only if there is no tombstone before it. */
  ghost predicate GoodSlot<K(!new)>(fl: seq<Flag>, ks: seq<K>, h: nat, key: K, x: nat)
    requires 0 < |fl| <= |ks|
  {
    && x < |fl|
    && (Live(fl[x]) ==> ks[x] == key)
    && (!Live(fl[x]) ==> key !in LiveKeys(fl, ks) && Reachable(fl, h, x))
    && (fl[x].empty ==> exists s: nat :: Straight(fl, h, s, x))
  }

  /** The exit `i == last`: every bucket was passed over, and as one of them is not live, a
      tombstone was met. */
  lemma SlotAtReturn<K(!new)>(fl: seq<Flag>, ks: seq<K>, h: nat, key: K, s: nat, site: nat)
    requires IsPow2(|fl|) && 0 < |fl| <= |ks| && s >= |fl| && Scanned(fl, ks, h, key, s, site)
    requires exists b :: 0 <= b < |fl| && !Live(fl[b])
    ensures GoodSlot(fl, ks, h, key, site)
  {
    AbsentAtReturn(fl, ks, h, key, s);
    var b :| 0 <= b < |fl| && !Live(fl[b]);
    assert Passed(fl, ks, key, b);
    var t := ProbeCovers(h, b, |fl|);
  }

  /** The probe ended at an empty bucket or at the key. */
  lemma SlotAtEnd<K(!new)>(fl: seq<Flag>, ks: seq<K>, hash: K -> nat, key: K, s: nat, site: nat)
    requires 0 < |fl| <= |ks| && WellProbed(fl, ks, hash) && Scanned(fl, ks, hash(key), key, s, site)
    requires !Passed(fl, ks, key, Probe(hash(key), s, |fl|))
    ensures var i := Probe(hash(key), s, |fl|);
            GoodSlot(fl, ks, hash(key), key, if fl[i].empty && site != |fl| then site else i)
  {
    var i := Probe(hash(key), s, |fl|);
    assert OnPath(fl, hash(key), s, i);
    assert site == |fl| ==> Straight(fl, hash(key), s, i);
    if fl[i].empty {
      AbsentAtEmpty(fl, ks, hash, key, s);
    }
  }

  /** The bucket kh_put will use. One bucket that is not live is enough to make the search good. */
  method FindSlot<K(==,!new)>(fl: array<Flag>, ks: array<K>, hash: K -> nat, key: K) returns (x: nat)
    requires IsPow2(fl.Length) && 0 < fl.Length == ks.Length && WellProbed(fl[..], ks[..], hash)
    requires exists b :: 0 <= b < fl.Length && !Live(fl[..][b])
    ensures GoodSlot(fl[..], ks[..], hash(key), key, x)
  {
    var n := fl.Length;
    ghost var F, S := fl[..], ks[..];
    var h, mask, step: nat, site: nat := hash(key), n - 1, 0, n;
    var i := And(h, mask);
    ProbeStep(h, 0, n);
    x := n;
    if fl[i].empty {
      x := i;
      SlotAtEnd(F, S, hash, key, 0, site);
    } else {
      var last := i;
      while !fl[i].empty && (fl[i].del || ks[i] != key)
        invariant i == Probe(h, step, n) && step < 2 * n - 1 && x == n
        invariant Scanned(F, S, h, key, step, site)
        decreases 2 * n - step
      {
        ScanStep(F, S, h, key, step, site);
        if fl[i].del {
          site := i;
        }
        ProbeAdvance(h, step, n);
        step := step + 1;
        i := And(i + step, mask);
        if i == last {
          SlotAtReturn(F, S, h, key, step, site);
          x := site;
          break;
        }
      }
      if x == n {
        SlotAtEnd(F, S, hash, key, step, site);
        if fl[i].empty && site != n {
          x := site;
        } else {
          x := i;
        }
      }
    }
  }
}
