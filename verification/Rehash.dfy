/** kh_resize: the rehash that shares one key array between the old and the new table. */
module Rehash {
  import opened Bits
  import opened Probing
  import opened HashTable

  // ----- single updates of a table -----

  lemma PathGrows(fl: seq<Flag>, fl': seq<Flag>, h: nat, b: nat)
    requires 0 < |fl| == |fl'| && Reachable(fl, h, b)
    requires forall c :: 0 <= c < |fl| && !fl[c].empty ==> !fl'[c].empty
    ensures Reachable(fl', h, b)
  {
    var s: nat :| OnPath(fl, h, s, b);
    assert OnPath(fl', h, s, b);
  }

  /** Writing an absent key into a free bucket of its probe path adds exactly that key. */
  lemma Place<K(!new)>(fl: seq<Flag>, ks: seq<K>, hash: K -> nat, x: nat, key: K)
    requires 0 < |fl| <= |ks| && x < |fl| && !Live(fl[x])
    requires Distinct(fl, ks) && WellProbed(fl, ks, hash)
    requires key !in LiveKeys(fl, ks) && Reachable(fl, hash(key), x)
    ensures Distinct(fl[x := LIVE], ks[x := key])
    ensures WellProbed(fl[x := LIVE], ks[x := key], hash)
    ensures LiveKeys(fl[x := LIVE], ks[x := key]) == LiveKeys(fl, ks) + {key}
  {
    var fl', ks' := fl[x := LIVE], ks[x := key];
    PlaceKeys(fl, ks, x, key);
    forall b | 0 <= b < |fl'| && Live(fl'[b])
      ensures Reachable(fl', hash(ks'[b]), b)
    {
      PathGrows(fl, fl', hash(ks'[b]), b);
    }
  }

  lemma PlaceKeys<K(!new)>(fl: seq<Flag>, ks: seq<K>, x: nat, key: K)
    requires 0 < |fl| <= |ks| && x < |fl| && !Live(fl[x])
    requires Distinct(fl, ks) && key !in LiveKeys(fl, ks)
    ensures Distinct(fl[x := LIVE], ks[x := key])
    ensures LiveKeys(fl[x := LIVE], ks[x := key]) == LiveKeys(fl, ks) + {key}
  {
    var fl', ks' := fl[x := LIVE], ks[x := key];
    assert forall b: nat :: b < |fl| && b != x ==> fl'[b] == fl[b] && ks'[b] == ks[b];
    assert Live(fl'[x]) && ks'[x] == key;
    assert key in LiveKeys(fl', ks');
  }

  function Tombstone(f: Flag): Flag {
    f.(del := true)
  }

  /** Marking a live bucket deleted removes exactly its key. */
  lemma Bury<K(!new)>(fl: seq<Flag>, ks: seq<K>, x: nat)
    requires 0 < |fl| <= |ks| && x < |fl| && Live(fl[x]) && Distinct(fl, ks)
    ensures Distinct(fl[x := Tombstone(fl[x])], ks)
    ensures LiveKeys(fl[x := Tombstone(fl[x])], ks) == LiveKeys(fl, ks) - {ks[x]}
  {
  }

  lemma BuryKeepsPaths<K(!new)>(fl: seq<Flag>, ks: seq<K>, hash: K -> nat, x: nat)
    requires 0 < |fl| <= |ks| && x < |fl| && Live(fl[x]) && WellProbed(fl, ks, hash)
    ensures WellProbed(fl[x := Tombstone(fl[x])], ks, hash)
  {
    var fl' := fl[x := Tombstone(fl[x])];
    forall b | 0 <= b < |fl'| && Live(fl'[b])
      ensures Reachable(fl', hash(ks[b]), b)
    {
      PathGrows(fl, fl', hash(ks[b]), b);
    }
  }

  /** A write to a bucket that is not live (or beyond the table) leaves the contents alone. */
  lemma WriteDead<K(!new)>(fl: seq<Flag>, ks: seq<K>, x: nat, key: K)
    requires |fl| <= |ks| && x < |ks| && (x < |fl| ==> !Live(fl[x])) && Distinct(fl, ks)
    ensures LiveKeys(fl, ks[x := key]) == LiveKeys(fl, ks) && Distinct(fl, ks[x := key])
  {
    var ks' := ks[x := key];
    assert forall b: nat :: b < |fl| && Live(fl[b]) ==> ks'[b] == ks[b];
  }

  // ----- the state of the rehash -----

  /** Between two writes of the rehash: o are the old table's flags, w the new table's, and both
      use the key array ks. The keys of the table are split without overlap into those still in the
      old table, those already in the new one, and those held in a variable. */
  ghost predicate Halfway<K(!new)>(o: seq<Flag>, w: seq<Flag>, ks: seq<K>, held: set<K>, all: set<K>, hash: K -> nat)
  {
    && 0 < |w| <= |ks| && |o| <= |ks|
    && Distinct(o, ks) && Distinct(w, ks) && WellProbed(w, ks, hash)
    && (forall b :: 0 <= b < |w| ==> !w[b].del)
    && (forall b :: 0 <= b < |o| && b < |w| && Live(o[b]) ==> w[b].empty)
    && LiveKeys(o, ks) !! LiveKeys(w, ks) !! held
    && all == LiveKeys(o, ks) + LiveKeys(w, ks) + held
  }

  lemma RoomLeft<K(!new)>(o: seq<Flag>, w: seq<Flag>, ks: seq<K>, held: set<K>, all: set<K>, hash: K -> nat)
    requires Halfway(o, w, ks, held, all, hash)
    ensures |Occupied(w)| <= |all|
  {
    LiveCount(w, ks);
    assert Occupied(w) == LiveBuckets(w);
    var rest := LiveKeys(o, ks) + held;
    assert all == LiveKeys(w, ks) + rest;
  }

  /** The held key goes to a bucket the old table no longer uses: the chain ends. */
  lemma Settle<K(!new)>(o: seq<Flag>, w: seq<Flag>, ks: seq<K>, key: K, all: set<K>, hash: K -> nat, i: nat)
    requires Halfway(o, w, ks, {key}, all, hash)
    requires i < |w| && w[i].empty && Reachable(w, hash(key), i) && !(i < |o| && Live(o[i]))
    ensures Halfway(o, w[i := LIVE], ks[i := key], {}, all, hash)
  {
    Place(w, ks, hash, i, key);
    WriteDead(o, ks, i, key);
  }

  /** The held key kicks out the unmoved key of bucket i, which becomes the held one; one unmoved
      key fewer is left. */
  lemma Kick<K(!new)>(o: seq<Flag>, w: seq<Flag>, ks: seq<K>, key: K, all: set<K>, hash: K -> nat, i: nat)
    requires Halfway(o, w, ks, {key}, all, hash)
    requires i < |w| && w[i].empty && Reachable(w, hash(key), i) && i < |o| && Live(o[i])
    ensures Halfway(o[i := Tombstone(o[i])], w[i := LIVE], ks[i := key], {ks[i]}, all, hash)
    ensures |LiveKeys(o[i := Tombstone(o[i])], ks[i := key])| < |LiveKeys(o, ks)|
  {
    var o' := o[i := Tombstone(o[i])];
    Bury(o, ks, i);
    Place(w, ks, hash, i, key);
    WriteDead(o', ks, i, key);
    assert ks[i] in LiveKeys(o, ks);
  }

  /** The outer loop picks up the key of bucket j. */
  lemma Lift<K(!new)>(o: seq<Flag>, w: seq<Flag>, ks: seq<K>, all: set<K>, hash: K -> nat, j: nat)
    requires Halfway(o, w, ks, {}, all, hash) && j < |o| && Live(o[j])
    ensures Halfway(o[j := Tombstone(o[j])], w, ks, {ks[j]}, all, hash)
  {
    Bury(o, ks, j);
    assert ks[j] in LiveKeys(o, ks);
  }

  lemma Start<K(!new)>(o: seq<Flag>, w: seq<Flag>, ks: seq<K>, hash: K -> nat)
    requires |o| <= |ks| && 0 < |w| <= |ks| && Distinct(o, ks)
    requires forall b :: 0 <= b < |w| ==> w[b] == EMPTY
    ensures Halfway(o, w, ks, {}, LiveKeys(o, ks), hash)
  {
    assert LiveKeys(w, ks) == {};
  }

  /** A table without tombstones that stores exactly the keys `all`. */
  ghost predicate Rehashed<K(!new)>(w: seq<Flag>, ks: seq<K>, hash: K -> nat, all: set<K>)
    requires 0 < |w| <= |ks|
  {
    && Distinct(w, ks) && WellProbed(w, ks, hash) && LiveKeys(w, ks) == all
    && (forall b :: 0 <= b < |w| ==> !w[b].del)
  }

  lemma Finish<K(!new)>(o: seq<Flag>, w: seq<Flag>, ks: seq<K>, all: set<K>, hash: K -> nat)
    requires Halfway(o, w, ks, {}, all, hash)
    requires forall b :: 0 <= b < |o| ==> !Live(o[b])
    ensures Rehashed(w, ks, hash, all)
  {
    assert LiveKeys(o, ks) == {};
  }

  // ----- the loops -----

  /** No bucket of the old table comes to life. */
  ghost predicate StillDead(before: seq<Flag>, after: seq<Flag>) {
    |before| == |after| && forall b :: 0 <= b < |before| && !Live(before[b]) ==> !Live(after[b])
  }

  lemma StillDeadTwice(a: seq<Flag>, b: seq<Flag>, c: seq<Flag>)
    requires StillDead(a, b) && StillDead(b, c)
    ensures StillDead(a, c)
  {
  }

  /** The new table takes bucket i for the key. */
  method Occupy<K>(w: array<Flag>, ks: array<K>, i: nat, key: K)
    requires ks as object != w && i < w.Length <= ks.Length && w[i].empty && !w[i].del
    modifies w, ks
    ensures w[..] == old(w[..])[i := LIVE] && ks[..] == old(ks[..])[i := key]
  {
    w[i] := w[i].(empty := false);
    ks[i] := key;
  }

  /** The old table lets go of bucket i. */
  method Release(o: array<Flag>, i: nat)
    requires i < o.Length
    modifies o
    ensures o[..] == old(o[..])[i := Tombstone(old(o[..])[i])] && StillDead(old(o[..]), o[..]) && !Live(o[..][i])
  {
    o[i] := Tombstone(o[i]);
  }

  method FirstEmpty(w: array<Flag>, h: nat) returns (i: nat)
    requires IsPow2(w.Length) && |Occupied(w[..])| < w.Length
    ensures i < w.Length && w[i].empty && Reachable(w[..], h, i)
  {
    var n, mask, step := w.Length, w.Length - 1, 0;
    i := And(h, mask);
    ProbeStep(h, 0, n);
    ghost var e := SomeEmpty(w[..]);
    ghost var se := ProbeCovers(h, e, n);
    while !w[i].empty
      invariant i == Probe(h, step, n) && step <= se
      invariant forall t :: 0 <= t < step ==> !w[Probe(h, t, n)].empty
      decreases se - step
    {
      ProbeStep(h, step, n);
      step := step + 1;
      i := And(i + step, mask);
    }
    assert OnPath(w[..], h, step, i);
  }

  /** One round of the kick-out loop: either the held key settles, or it takes the place of an
      unmoved key, which is held next. */
  method KickOnce<K(==,!new)>(o: array<Flag>, w: array<Flag>, ks: array<K>, hash: K -> nat, key: K, ghost all: set<K>)
    returns (done: bool, next: K)
    requires o != w && ks as object != o && ks as object != w && IsPow2(w.Length)
    requires Halfway(o[..], w[..], ks[..], {key}, all, hash) && |all| < w.Length
    modifies o, w, ks
    ensures Halfway(o[..], w[..], ks[..], if done then {} else {next}, all, hash)
    ensures !done ==> |LiveKeys(o[..], ks[..])| < old(|LiveKeys(o[..], ks[..])|)
    ensures StillDead(old(o[..]), o[..])
  {
    ghost var O, W, S := o[..], w[..], ks[..];
    RoomLeft(O, W, S, {key}, all, hash);
    var i := FirstEmpty(w, hash(key));
    next := key;
    if i < o.Length && Live(o[i]) {
      Kick(O, W, S, key, all, hash, i);
      next := ks[i];
      Occupy(w, ks, i, key);
      Release(o, i);
      done := false;
    } else {
      Settle(O, W, S, key, all, hash, i);
      Occupy(w, ks, i, key);
      done := true;
    }
  }

  /** The kick-out loop: ends with no key held. */
  method KickOut<K(==,!new)>(o: array<Flag>, w: array<Flag>, ks: array<K>, hash: K -> nat, first: K, ghost all: set<K>)
    requires o != w && ks as object != o && ks as object != w && IsPow2(w.Length)
    requires Halfway(o[..], w[..], ks[..], {first}, all, hash) && |all| < w.Length
    modifies o, w, ks
    ensures Halfway(o[..], w[..], ks[..], {}, all, hash)
    ensures StillDead(old(o[..]), o[..])
  {
    var key, done := first, false;
    while !done
      invariant Halfway(o[..], w[..], ks[..], if done then {} else {key}, all, hash)
      invariant StillDead(old(o[..]), o[..])
      decreases !done, |LiveKeys(o[..], ks[..])|
    {
      ghost var mid := o[..];
      done, key := KickOnce(o, w, ks, hash, key, all);
      StillDeadTwice(old(o[..]), mid, o[..]);
    }
  }

  /** The body of the outer loop for a bucket the old table still uses. */
  method MoveBucket<K(==,!new)>(o: array<Flag>, w: array<Flag>, ks: array<K>, hash: K -> nat, j: nat, ghost all: set<K>)
    requires o != w && ks as object != o && ks as object != w && IsPow2(w.Length)
    requires Halfway(o[..], w[..], ks[..], {}, all, hash) && |all| < w.Length
    requires j < o.Length && Live(o[j])
    modifies o, w, ks
    ensures Halfway(o[..], w[..], ks[..], {}, all, hash)
    ensures StillDead(old(o[..]), o[..]) && !Live(o[..][j])
  {
    ghost var O, W, S := o[..], w[..], ks[..];
    Lift(O, W, S, all, hash, j);
    Release(o, j);
    ghost var mid := o[..];
    KickOut(o, w, ks, hash, ks[j], all);
    StillDeadTwice(O, mid, o[..]);
  }

  ghost predicate DeadBelow(o: seq<Flag>, j: nat) {
    j <= |o| && forall b :: 0 <= b < j ==> !Live(o[b])
  }

  lemma DeadOneMore(before: seq<Flag>, after: seq<Flag>, j: nat)
    requires DeadBelow(before, j) && j < |before| && StillDead(before, after) && !Live(after[j])
    ensures DeadBelow(after, j + 1)
  {
  }

  /** The whole rehash: exactly the old table's keys end up in the new table, each once and each on
      its own probe path, and no tombstone is left. */
  method RehashAll<K(==,!new)>(o: array<Flag>, w: array<Flag>, ks: array<K>, hash: K -> nat)
    requires o != w && ks as object != o && ks as object != w && IsPow2(w.Length)
    requires o.Length <= ks.Length && 0 < w.Length <= ks.Length
    requires Distinct(o[..], ks[..]) && |LiveKeys(o[..], ks[..])| < w.Length
    requires forall b :: 0 <= b < w.Length ==> w[b] == EMPTY
    modifies o, w, ks
    ensures Rehashed(w[..], ks[..], hash, old(LiveKeys(o[..], ks[..])))
  {
    ghost var all := LiveKeys(o[..], ks[..]);
    Start(o[..], w[..], ks[..], hash);
    for j := 0 to o.Length
      invariant Halfway(o[..], w[..], ks[..], {}, all, hash)
      invariant DeadBelow(o[..], j)
    {
      ghost var mid := o[..];
      if Live(o[j]) {
        MoveBucket(o, w, ks, hash, j, all);
      }
      DeadOneMore(mid, o[..], j);
    }
    Finish(o[..], w[..], ks[..], all, hash);
  }
}
