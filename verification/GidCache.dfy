/** gid_t_cache: a sorted array of at most 256 records with binary search and random eviction. */
module GidCache {
  import opened Wrappers

  const MAXGIDS := 32
  const MAXRECS := 256

  /** The fixed array inside a record. */
  type Gids = g: seq<nat> | |g| == MAXGIDS witness seq(MAXGIDS, _ => 0)

  datatype Rec = Rec(uid: nat, size: int, gids: Gids)

  /** What getpwuid_r and getgrouplist say of a user: unknown, or all its groups. */
  datatype Lookup = Unknown | Known(groups: seq<nat>)

  // ----- sorted arrays -----

  ghost predicate Sorted(s: seq<Rec>) {
    forall i, j :: 0 <= i < j < |s| ==> s[i].uid < s[j].uid
  }

  ghost function Uids(s: seq<Rec>): set<nat> {
    set i | 0 <= i < |s| :: s[i].uid
  }

  /** lower_bound: the first record not below uid. */
  method LowerBound(a: array<Rec>, size: nat, uid: nat) returns (begin: nat)
    requires size <= a.Length && Sorted(a[..size])
    ensures begin <= size
    ensures forall i :: 0 <= i < begin ==> a[i].uid < uid
    ensures forall i :: begin <= i < size ==> a[i].uid >= uid
  {
    begin := 0;
    var count := size;
    while count > 0
      invariant 0 <= count && begin + count <= size
      invariant forall i :: 0 <= i < begin ==> a[..size][i].uid < uid
      invariant forall i :: begin + count <= i < size ==> a[..size][i].uid >= uid
    {
      var step := count / 2;
      var iter := begin + step;
      assert a[..size][iter] == a[iter];
      if a[iter].uid < uid {
        begin := iter + 1;
        count := count - (step + 1);
      } else {
        count := step;
      }
    }
    assert forall i :: 0 <= i < size ==> a[..size][i] == a[i];
  }

  // ----- std::sort by uid -----

  function Insert(r: Rec, s: seq<Rec>): (t: seq<Rec>)
    ensures |t| == |s| + 1
  {
    if s == [] || r.uid <= s[0].uid then [r] + s else [s[0]] + Insert(r, s[1..])
  }

  function SortSeq(s: seq<Rec>): (t: seq<Rec>)
    ensures |t| == |s|
  {
    if s == [] then [] else Insert(s[0], SortSeq(s[1..]))
  }

  ghost predicate Ordered(s: seq<Rec>) {
    forall i, j :: 0 <= i < j < |s| ==> s[i].uid <= s[j].uid
  }

  lemma {:induction false} InsertMembers(r: Rec, s: seq<Rec>)
    ensures multiset(Insert(r, s)) == multiset(s) + multiset{r}
  {
    if s != [] && r.uid > s[0].uid {
      InsertMembers(r, s[1..]);
      assert s == [s[0]] + s[1..];
    }
  }

  lemma {:induction false} InsertedFrom(r: Rec, s: seq<Rec>, k: nat)
    requires k < |s| + 1
    ensures Insert(r, s)[k] == r || Insert(r, s)[k] in s
  {
    if s != [] && r.uid > s[0].uid && k > 0 {
      InsertedFrom(r, s[1..], k - 1);
    }
  }

  lemma {:induction false} InsertOrdered(r: Rec, s: seq<Rec>)
    requires Ordered(s)
    ensures Ordered(Insert(r, s))
  {
    if s != [] && r.uid > s[0].uid {
      var t := Insert(r, s[1..]);
      InsertOrdered(r, s[1..]);
      forall k | 0 <= k < |t|
        ensures s[0].uid <= t[k].uid
      {
        InsertedFrom(r, s[1..], k);
      }
    }
  }

  lemma {:induction false} SortSeqOrdered(s: seq<Rec>)
    ensures Ordered(SortSeq(s)) && multiset(SortSeq(s)) == multiset(s)
  {
    if s != [] {
      SortSeqOrdered(s[1..]);
      InsertOrdered(s[0], SortSeq(s[1..]));
      InsertMembers(s[0], SortSeq(s[1..]));
      assert s == [s[0]] + s[1..];
    }
  }

  ghost predicate DistinctUids(s: seq<Rec>) {
    forall i, j :: 0 <= i < |s| && 0 <= j < |s| && s[i].uid == s[j].uid ==> i == j
  }

  ghost function Members(s: seq<Rec>): set<Rec> {
    set r | r in s
  }

  lemma {:induction false} CountByUid(s: seq<Rec>, i: nat, j: nat)
    requires i < j < |s| && s[i] == s[j]
    ensures multiset(s)[s[i]] >= 2
  {
    assert s == s[..j] + [s[j]] + s[j + 1..];
    assert s[i] in s[..j];
  }

  /** Sorting distinct uids gives a strictly sorted array with the same members. */
  lemma SortedDistinct(s: seq<Rec>, t: seq<Rec>)
    requires DistinctUids(s) && Ordered(t) && multiset(t) == multiset(s)
    ensures Sorted(t) && Members(t) == Members(s)
  {
    forall r | r in t
      ensures r in s
    {
      assert r in multiset(t);
    }
    forall r | r in s
      ensures r in t
    {
      assert r in multiset(s);
    }
    forall i, j | 0 <= i < j < |t|
      ensures t[i].uid < t[j].uid
    {
      if t[i].uid == t[j].uid {
        SameRecTwice(s, t, i, j);
      }
    }
  }

  lemma SameRecTwice(s: seq<Rec>, t: seq<Rec>, i: nat, j: nat)
    requires DistinctUids(s) && multiset(t) == multiset(s) && i < j < |t|
    ensures t[i].uid != t[j].uid
  {
    assert t[i] in multiset(t) && t[j] in multiset(t);
    var a :| 0 <= a < |s| && s[a] == t[i];
    var b :| 0 <= b < |s| && s[b] == t[j];
    if t[i].uid == t[j].uid {
      assert a == b;
      CountByUid(t, i, j);
      OnceOnly(s, a);
      assert false;
    }
  }

  lemma OnceOnly(s: seq<Rec>, a: nat)
    requires DistinctUids(s) && a < |s|
    ensures multiset(s)[s[a]] == 1
  {
    assert s == s[..a] + [s[a]] + s[a + 1..];
    assert s[a] !in s[..a] && s[a] !in s[a + 1..];
  }

  // ----- the cache -----

  /** The groups handed to setgroups: the first size entries of the record. */
  ghost predicate Usable(r: Rec) {
    1 <= r.size <= MAXGIDS
  }

  /** What one successful user lookup leaves in a record. */
  ghost predicate Holds(r: Rec, groups: seq<nat>, gid: nat) {
    && Usable(r)
    && (|groups| <= MAXGIDS ==> r.gids[..r.size] == groups)
    && (|groups| > MAXGIDS ==> r.gids[..r.size] == [gid])
  }

  lemma Replaced(s: seq<Rec>, k: nat, r: Rec)
    requires k < |s| && Sorted(s)
    requires forall i :: 0 <= i < |s| ==> s[i].uid != r.uid
    ensures DistinctUids(s[k := r])
    ensures Members(s[k := r]) == Members(s) - {s[k]} + {r}
  {
    var t := s[k := r];
    assert t[k] == r;
    forall x | x in Members(s) && x != s[k]
      ensures x in t
    {
      var i :| 0 <= i < |s| && s[i] == x;
      assert t[i] == x;
    }
    forall x | x in t
      ensures x == r || (x in s && x != s[k])
    {
      var i :| 0 <= i < |t| && t[i] == x;
      if i != k {
        assert s[i] == x && (i < k || k < i);
      }
    }
  }

  lemma Appended(s: seq<Rec>, r: Rec)
    requires Sorted(s)
    requires forall i :: 0 <= i < |s| ==> s[i].uid != r.uid
    ensures DistinctUids(s + [r])
    ensures Members(s + [r]) == Members(s) + {r}
  {
    var t := s + [r];
    assert t[|s|] == r;
    forall i, j | 0 <= i < |t| && 0 <= j < |t| && t[i].uid == t[j].uid
      ensures i == j
    {
      if i < |s| && j < |s| {
        assert s[i].uid == s[j].uid;
      }
    }
  }

  /** How a record came about: the lookup that filled it, the gid of that call, and the record whose
      slot it took, if the array was full. */
  datatype Origin = Origin(rec: Rec, lookup: Lookup, gid: nat, displaced: Option<Origin>)

  /** A known user's record holds its groups. An unknown user's holds none in a fresh slot, and else
      those of the record it displaced, which is another user's. */
  ghost predicate Genuine(o: Origin) {
    match o.lookup
    case Known(groups) => Holds(o.rec, groups, o.gid)
    case Unknown =>
      match o.displaced
      case None => o.rec.size == 0
      case Some(d) => Genuine(d) && d.rec.uid != o.rec.uid && o.rec == d.rec.(uid := o.rec.uid)
  }

  /** The successful lookup that the groups of a record come from. */
  ghost function Source(o: Origin): Option<Origin> {
    match o.lookup
    case Known(_) => Some(o)
    case Unknown => if o.displaced.None? then None else Source(o.displaced.value)
  }

  /** The record has groups, 1 to 32 of them, exactly if there is such a lookup, and then they are
      that lookup's. */
  lemma {:induction false} GroupsOfSource(o: Origin)
    requires Genuine(o)
    ensures Usable(o.rec) <==> Source(o).Some?
    ensures Source(o).None? ==> o.rec.size == 0
    ensures Source(o).Some? ==>
      var k := Source(o).value;
      k.lookup.Known? && Genuine(k) && o.rec.size == k.rec.size && o.rec.gids == k.rec.gids
  {
    if o.lookup.Unknown? && o.displaced.Some? {
      GroupsOfSource(o.displaced.value);
    }
  }

  /** Every record is the one most recently made for its uid. */
  ghost predicate Latest(s: set<Rec>, made: map<nat, Origin>) {
    && (forall r :: r in s ==> r.uid in made && made[r.uid].rec == r)
    && (forall u :: u in made ==> Genuine(made[u]))
  }

  /** The array after Fill took slot k, before it is sorted. */
  ghost function Filled(before: seq<Rec>, k: nat, r: Rec): seq<Rec>
    requires k < |before| || k == |before|
  {
    if k == |before| then before + [r] else before[k := r]
  }

  lemma FilledOk(before: seq<Rec>, k: nat, r: Rec, made: map<nat, Origin>, o: Origin)
    requires o.rec == r && Genuine(o)
    requires k <= |before| && Sorted(before) && r.uid !in Uids(before)
    requires Latest(Members(before), made)
    ensures DistinctUids(Filled(before, k, r))
    ensures Latest(Members(Filled(before, k, r)), made[r.uid := o])
    ensures k == |before| ==> Members(Filled(before, k, r)) == Members(before) + {r}
    ensures k < |before| ==> Members(Filled(before, k, r)) == Members(before) - {before[k]} + {r}
  {
    assert forall i :: 0 <= i < |before| ==> before[i].uid in Uids(before);
    if k == |before| {
      Appended(before, r);
    } else {
      Replaced(before, k, r);
    }
  }

  class Cache {
    const recs: array<Rec>
    var size: nat
    /** The record most recently made for each uid that ever missed. */
    ghost var made: map<nat, Origin>

    ghost predicate Valid()
      reads this, recs
    {
      && recs.Length == MAXRECS
      && size <= MAXRECS
      && Sorted(recs[..size])
      && Latest(Contents(), made)
      && (forall i :: size <= i < MAXRECS ==> recs[i].size == 0)
    }

    ghost function Contents(): set<Rec>
      requires size <= recs.Length
      reads this, recs
    {
      Members(recs[..size])
    }

    /** A zeroed cache. */
    constructor ()
      ensures Valid() && fresh(recs) && size == 0 && made == map[]
    {
      recs := new Rec[MAXRECS](_ => Rec(0, 0, seq(MAXGIDS, _ => 0)));
      size := 0;
      made := map[];
    }

    /** allocrec: a fresh slot, or a random victim when the array is full. */
    method AllocRec(random: nat) returns (k: nat)
      requires recs.Length == MAXRECS && size <= MAXRECS
      modifies this`size
      ensures old(size) < MAXRECS ==> k == old(size) && size == k + 1
      ensures old(size) == MAXRECS ==> size == MAXRECS && k < MAXRECS && k == random % MAXRECS
    {
      if size == MAXRECS {
        k := random % MAXRECS;
      } else {
        k := size;
        size := size + 1;
      }
    }

    /**
     * cache: fill a slot for a uid. An unknown user leaves the slot's former
     * groups in place; a user in more than MAXGIDS groups is given gid alone.
     */
    method Fill(uid: nat, gid: nat, lookup: Lookup, random: nat) returns (k: nat)
      requires recs.Length == MAXRECS && size <= MAXRECS
      requires lookup.Known? ==> lookup.groups != []
      modifies this`size, recs
      ensures old(size) < MAXRECS ==> k == old(size) && size == k + 1
      ensures old(size) == MAXRECS ==> size == MAXRECS && k < MAXRECS
      ensures recs[..size] == Filled(old(recs[..size]), k, recs[k])
      ensures forall i :: 0 <= i < MAXRECS && i != k ==> recs[i] == old(recs[i])
      ensures recs[k].uid == uid
      ensures lookup.Known? ==> Holds(recs[k], lookup.groups, gid)
      ensures lookup.Unknown? ==> recs[k] == old(recs[k]).(uid := uid)
    {
      k := AllocRec(random);
      recs[k] := recs[k].(uid := uid);
      if lookup.Known? {
        var n := if |lookup.groups| < MAXGIDS then |lookup.groups| else MAXGIDS;
        // The second getgrouplist fills what fits and fails when it does not all fit.
        recs[k] := recs[k].(size := n, gids := lookup.groups[..n] + recs[k].gids[n..]);
        assert recs[k].gids[..n] == lookup.groups[..n];
        if |lookup.groups| > n {
          recs[k] := recs[k].(gids := recs[k].gids[0 := gid], size := 1);
          assert recs[k].gids[..1] == [gid];
        }
      }
    }

    /** std::sort over the live records. */
    method Sort()
      requires recs.Length == MAXRECS && size <= MAXRECS
      requires DistinctUids(recs[..size])
      modifies recs
      ensures Sorted(recs[..size])
      ensures Contents() == old(Contents())
      ensures forall i :: size <= i < MAXRECS ==> recs[i] == old(recs[i])
    {
      var s := recs[..size];
      var t := SortSeq(s);
      SortSeqOrdered(s);
      SortedDistinct(s, t);
      forall i | 0 <= i < size {
        recs[i] := t[i];
      }
      assert recs[..size] == t;
    }

    /** A record joined the contents, and at most one left, only from a full array. */
    ghost predicate Admitted(o: Origin, was: set<Rec>, had: nat)
      requires size <= recs.Length
      reads this, recs
    {
      && (had < MAXRECS ==> o.displaced.None? && Contents() == was + {o.rec} && size == had + 1)
      && (had == MAXRECS ==>
            && o.displaced.Some? && o.displaced.value.rec in was
            && Contents() == was - {o.displaced.value.rec} + {o.rec} && size == MAXRECS)
    }

    /** The miss branch of initgroups: cache, setgroups, sort. */
    method Miss(uid: nat, gid: nat, lookup: Lookup, random: nat) returns (used: Rec)
      requires Valid()
      requires lookup.Known? ==> lookup.groups != []
      requires uid !in Uids(recs[..size])
      modifies this, recs
      ensures Valid()
      ensures used.uid == uid && used in Contents()
      ensures uid in made && made == old(made)[uid := made[uid]] && made[uid] == Origin(used, lookup, gid, made[uid].displaced)
      ensures Admitted(made[uid], old(Contents()), old(size))
      ensures made[uid].displaced.Some? ==> made[uid].displaced.value in old(made).Values
    {
      ghost var before := recs[..size];
      var k := Fill(uid, gid, lookup, random);
      used := recs[k];
      ghost var displaced := if k < |before| then Some(made[before[k].uid]) else None;
      assert k < |before| ==> before[k] in Members(before) && before[k].uid in Uids(before);
      ghost var o := Origin(used, lookup, gid, displaced);
      FilledOk(before, k, used, made, o);
      made := made[uid := o];
      Sort();
    }

    /**
     * initgroups: the record whose groups the thread is given. A hit returns
     * what the last miss of that uid stored; a miss makes a record for it.
     */
    method InitGroups(uid: nat, gid: nat, lookup: Lookup, random: nat) returns (used: Rec)
      requires Valid()
      requires lookup.Known? ==> lookup.groups != []
      modifies this, recs
      ensures Valid()
      ensures used.uid == uid && used in Contents()
      ensures uid in made && made[uid].rec == used && Genuine(made[uid])
      ensures Usable(used) <==> Source(made[uid]).Some?
      ensures uid in Uids(old(recs[..size])) ==>
        Contents() == old(Contents()) && size == old(size) && made == old(made)
      ensures uid !in Uids(old(recs[..size])) ==>
        && Admitted(made[uid], old(Contents()), old(size))
        && made == old(made)[uid := made[uid]] && made[uid].lookup == lookup && made[uid].gid == gid
        && (made[uid].displaced.Some? ==> made[uid].displaced.value in old(made).Values)
    {
      var k := LowerBound(recs, size, uid);
      if k == size || recs[k].uid != uid {
        assert forall i :: 0 <= i < size ==> recs[..size][i] == recs[i];
        used := Miss(uid, gid, lookup, random);
      } else {
        used := recs[k];
        assert recs[..size][k] == used;
      }
      GroupsOfSource(made[uid]);
    }
  }

  // ----- whole runs -----

  /** One call of initgroups, with what the system would say of the user and the random number. */
  datatype Ask = Ask(uid: nat, gid: nat, lookup: Lookup, random: nat)

  /** The groups are those the system gave at call j, or, if it knew no such user, none or those of an
      earlier call for another user. */
  ghost predicate From(asks: seq<Ask>, j: nat, size: int, gids: Gids)
    requires j < |asks|
  {
    match asks[j].lookup
    case Known(groups) => Holds(Rec(asks[j].uid, size, gids), groups, asks[j].gid)
    case Unknown => size == 0 || exists i :: 0 <= i < j && asks[i].uid != asks[j].uid && From(asks, i, size, gids)
  }

  /** The origin o is call j. */
  ghost predicate Traces(o: Origin, asks: seq<Ask>, j: nat) {
    && j < |asks| && o.rec.uid == asks[j].uid && o.lookup == asks[j].lookup && o.gid == asks[j].gid
    && (o.displaced.Some? ==> exists i :: 0 <= i < j && Traces(o.displaced.value, asks, i))
  }

  lemma {:induction false} TracedFrom(o: Origin, asks: seq<Ask>, j: nat)
    requires Genuine(o) && Traces(o, asks, j)
    ensures From(asks, j, o.rec.size, o.rec.gids)
    decreases j
  {
    match o.lookup
    case Known(groups) =>
    case Unknown =>
      if o.displaced.Some? {
        var d := o.displaced.value;
        var i :| 0 <= i < j && Traces(d, asks, i);
        TracedFrom(d, asks, i);
      }
  }

  /** Every record made so far is one of the first n calls. */
  ghost predicate AllTraced(made: map<nat, Origin>, asks: seq<Ask>, n: nat) {
    forall u :: u in made ==> exists j :: 0 <= j < n && j < |asks| && Traces(made[u], asks, j) && asks[j].uid == u
  }

  /** Call k is answered with the groups of a call for the same user, itself or an earlier one. */
  ghost predicate Answered(asks: seq<Ask>, k: nat, used: Rec)
    requires k < |asks|
  {
    used.uid == asks[k].uid && exists j :: 0 <= j <= k && asks[j].uid == asks[k].uid && From(asks, j, used.size, used.gids)
  }

  lemma OneMoreTraced(before: map<nat, Origin>, after: map<nat, Origin>, asks: seq<Ask>, k: nat)
    requires k < |asks| && AllTraced(before, asks, k)
    requires asks[k].uid in after && after[asks[k].uid].rec.uid == asks[k].uid
    requires after == before || (
      && after == before[asks[k].uid := after[asks[k].uid]]
      && after[asks[k].uid].lookup == asks[k].lookup && after[asks[k].uid].gid == asks[k].gid
      && (after[asks[k].uid].displaced.Some? ==> after[asks[k].uid].displaced.value in before.Values))
    ensures AllTraced(after, asks, k + 1)
  {
    var o := after[asks[k].uid];
    if after != before {
      if o.displaced.Some? {
        var u :| u in before && before[u] == o.displaced.value;
      }
      assert Traces(o, asks, k);
    }
    forall u | u in after
      ensures exists j :: 0 <= j < k + 1 && j < |asks| && Traces(after[u], asks, j) && asks[j].uid == u
    {
      if u in before && after[u] == before[u] {
        var j :| 0 <= j < k && j < |asks| && Traces(before[u], asks, j) && asks[j].uid == u;
      }
    }
  }

  // ----- runs without an eviction -----

  ghost function Asked(asks: seq<Ask>, n: nat): set<nat>
    requires n <= |asks|
  {
    set i | 0 <= i < n :: asks[i].uid
  }

  ghost predicate IsFirst(asks: seq<Ask>, j: nat) {
    j < |asks| && forall i :: 0 <= i < j ==> asks[i].uid != asks[j].uid
  }

  /** The record holds what the system said at call j. */
  ghost predicate Told(asks: seq<Ask>, j: nat, r: Rec)
    requires j < |asks|
  {
    match asks[j].lookup
    case Known(groups) => Holds(r, groups, asks[j].gid)
    case Unknown => r.size == 0
  }

  /** Call k is answered with what the system said at the first call for that user. */
  ghost predicate FirstServed(asks: seq<Ask>, k: nat, used: Rec)
    requires k < |asks|
  {
    forall j :: 0 <= j <= k && asks[j].uid == asks[k].uid && IsFirst(asks, j) ==> Told(asks, j, used)
  }

  ghost function UidsOf(rs: set<Rec>): set<nat> {
    set r | r in rs :: r.uid
  }

  lemma UidsOfMembers(s: seq<Rec>)
    ensures UidsOf(Members(s)) == Uids(s)
  {
    forall u | u in Uids(s)
      ensures u in UidsOf(Members(s))
    {
      var i :| 0 <= i < |s| && s[i].uid == u;
      assert s[i] in Members(s);
    }
  }

  lemma {:induction false} SortedCount(s: seq<Rec>)
    requires Sorted(s)
    ensures |Uids(s)| == |s|
  {
    if s != [] {
      var n := |s| - 1;
      SortedCount(s[..n]);
      assert s[n].uid !in Uids(s[..n]);
      forall i | 0 <= i < |s|
        ensures s[i].uid in Uids(s[..n]) + {s[n].uid}
      {
        assert i < n ==> s[..n][i] == s[i];
      }
      assert Uids(s) == Uids(s[..n]) + {s[n].uid};
    }
  }

  /** The cache has a record of each user asked for, made at the first call. */
  ghost predicate Complete(rs: set<Rec>, made: map<nat, Origin>, asks: seq<Ask>, n: nat)
    requires n <= |asks|
  {
    && UidsOf(rs) == Asked(asks, n)
    && forall u, j :: u in made && 0 <= j < n && asks[j].uid == u && IsFirst(asks, j) ==> Told(asks, j, made[u].rec)
  }

  lemma SubsetCount(a: set<nat>, b: set<nat>)
    requires a <= b
    ensures |a| <= |b| && (a != b ==> |a| < |b|)
  {
    assert b == a + (b - a);
  }

  lemma AskedMore(asks: seq<Ask>, k: nat)
    requires k < |asks|
    ensures Asked(asks, k + 1) == Asked(asks, k) + {asks[k].uid}
  {
  }

  lemma StillComplete(before: set<Rec>, after: set<Rec>, was: map<nat, Origin>, made: map<nat, Origin>, asks: seq<Ask>, k: nat)
    requires k < |asks| && Complete(before, was, asks, k)
    requires asks[k].uid in made && Genuine(made[asks[k].uid])
    requires asks[k].uid in UidsOf(before) ==> after == before && made == was
    requires asks[k].uid !in UidsOf(before) ==>
      && made == was[asks[k].uid := made[asks[k].uid]] && after == before + {made[asks[k].uid].rec}
      && made[asks[k].uid].rec.uid == asks[k].uid && made[asks[k].uid].displaced.None?
      && made[asks[k].uid].lookup == asks[k].lookup && made[asks[k].uid].gid == asks[k].gid
    ensures Complete(after, made, asks, k + 1)
  {
    AskedMore(asks, k);
    forall u, j | u in made && 0 <= j < k + 1 && asks[j].uid == u && IsFirst(asks, j)
      ensures Told(asks, j, made[u].rec)
    {
      if j < k {
        assert u in Asked(asks, k);
      } else {
        assert asks[k].uid !in Asked(asks, k);
      }
    }
    assert UidsOf(after) == Asked(asks, k + 1);
  }

  /** The counts that rule an eviction out: the array has a slot left for a user not asked for before. */
  lemma RoomLeft(s: seq<Rec>, made: map<nat, Origin>, asks: seq<Ask>, k: nat)
    requires k < |asks| && Sorted(s) && |Asked(asks, k + 1)| <= MAXRECS
    requires |Asked(asks, k)| <= MAXRECS ==> Complete(Members(s), made, asks, k)
    ensures Complete(Members(s), made, asks, k) && UidsOf(Members(s)) == Uids(s)
    ensures asks[k].uid !in Uids(s) ==> |s| < MAXRECS
  {
    AskedMore(asks, k);
    SubsetCount(Asked(asks, k), Asked(asks, k + 1));
    UidsOfMembers(s);
    SortedCount(s);
  }

  /** What the answer to call k must be: as the system said of that user, at the first call if the users
      asked for so far all fit. */
  ghost predicate Served(asks: seq<Ask>, k: nat, r: Rec)
    requires k < |asks|
  {
    Answered(asks, k, r) && (|Asked(asks, k + 1)| <= MAXRECS ==> FirstServed(asks, k, r))
  }

  /** What is known of the cache after k calls. */
  ghost predicate After(c: Cache, asks: seq<Ask>, k: nat)
    requires k <= |asks|
    reads c, c.recs
  {
    c.Valid() && AllTraced(c.made, asks, k) && (|Asked(asks, k)| <= MAXRECS ==> Complete(c.Contents(), c.made, asks, k))
  }

  /** Call k of a run. */
  method RunOne(c: Cache, asks: seq<Ask>, k: nat) returns (r: Rec)
    requires k < |asks| && (asks[k].lookup.Known? ==> asks[k].lookup.groups != [])
    requires After(c, asks, k)
    modifies c, c.recs
    ensures After(c, asks, k + 1) && Served(asks, k, r)
  {
    var a := asks[k];
    ghost var before, rs, few := c.made, c.Contents(), |Asked(asks, k + 1)| <= MAXRECS;
    if few {
      RoomLeft(c.recs[..c.size], c.made, asks, k);
    }
    r := c.InitGroups(a.uid, a.gid, a.lookup, a.random);
    OneMoreTraced(before, c.made, asks, k);
    AnswerTraced(c.made, asks, k, r);
    if few {
      StillComplete(rs, c.Contents(), before, c.made, asks, k);
    }
  }

  /** Every run of calls on a new cache, whatever it evicts: each user is given the groups the system
      gave for that user, at this or an earlier call; with at most 256 users, at the first. */
  method Run(asks: seq<Ask>) returns (used: seq<Rec>)
    requires forall k :: 0 <= k < |asks| && asks[k].lookup.Known? ==> asks[k].lookup.groups != []
    ensures |used| == |asks| && forall k :: 0 <= k < |asks| ==> Served(asks, k, used[k])
  {
    var c := new Cache();
    used := [];
    for k := 0 to |asks|
      invariant fresh(c) && fresh(c.recs) && After(c, asks, k)
      invariant |used| == k && forall i :: 0 <= i < k ==> Served(asks, i, used[i])
    {
      var r := RunOne(c, asks, k);
      used := used + [r];
    }
  }

  lemma AnswerTraced(made: map<nat, Origin>, asks: seq<Ask>, k: nat, r: Rec)
    requires k < |asks| && AllTraced(made, asks, k + 1) && asks[k].uid in made
    requires r.uid == asks[k].uid && made[r.uid].rec == r && Genuine(made[r.uid])
    ensures Answered(asks, k, r)
  {
    var j :| 0 <= j < k + 1 && j < |asks| && Traces(made[r.uid], asks, j) && asks[j].uid == r.uid;
    TracedFrom(made[r.uid], asks, j);
  }

  /** If the system knows every user, a user is never given the groups of another. */
  lemma OwnGroups(asks: seq<Ask>, k: nat, used: Rec)
    requires k < |asks| && Answered(asks, k, used) && forall i :: 0 <= i < |asks| ==> asks[i].lookup.Known?
    ensures exists j :: 0 <= j <= k && asks[j].uid == asks[k].uid && Holds(used, asks[j].lookup.groups, asks[j].gid)
  {
    var j :| 0 <= j <= k && asks[j].uid == asks[k].uid && From(asks, j, used.size, used.gids);
  }

  /** After 256 known users, each with its own number as its group, a user unknown to the system is
      given the group of one of them. */
  method StrangersGroups(random: nat) returns (used: Rec, ghost stranger: nat)
    ensures used.uid == 1000 && used.size == 1 && used.gids[0] == stranger && stranger < 256
  {
    var c := new Cache();
    for u := 0 to MAXRECS
      invariant c.Valid() && fresh(c) && fresh(c.recs) && c.size == u
      invariant forall r :: r in c.Contents() ==> r.uid < u && r.size == 1 && r.gids[0] == r.uid
    {
      assert u !in Uids(c.recs[..c.size]);
      var r := c.InitGroups(u, u, Known([u]), random);
      assert r.gids[..r.size] == [u];
    }
    assert 1000 !in Uids(c.recs[..c.size]);
    used := c.InitGroups(1000, 1000, Unknown, random);
    stranger := c.made[1000].displaced.value.rec.uid;
  }
}
