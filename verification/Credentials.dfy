/** The credentials of ugid_rwlock.hpp: one recorded (uid, gid) pair for the whole process, guarded
    by a read-write lock. Every step between two lock operations is one action. */
module Credentials {
  import opened Wrappers

  type Tid = nat

  datatype Pair = Pair(uid: nat, gid: nat)

  const ROOT := Pair(0, 0)

  /** Where a thread is in ugid_set. */
  datatype Phase =
    | WantRead               // about to take the lock for reading
    | HaveRead               // has it, has not compared yet
    | WantWrite              // gave it up, about to take it for writing
    | HaveWrite              // has it, has not compared yet
    | InUse(write: bool)     // holds the lock with the pair it asked for

  /** A thread: nothing, or nested requests. `asked` are the pairs requested, outermost first (a Set
      and the SetRootGuards inside it); `saved` the pairs the guards remember. */
  datatype Thread = Outside | Inside(asked: seq<Pair>, saved: seq<Pair>, phase: Phase)

  datatype State = State(current: Pair, euid: nat, egid: nat, writer: Option<Tid>, readers: set<Tid>, threads: map<Tid, Thread>)

  function Wanted(th: Thread): Pair
    requires th.Inside? && th.asked != []
  {
    th.asked[|th.asked| - 1]
  }

  // ----- invariant -----

  predicate Reads(th: Thread) {
    th.Inside? && (th.phase.HaveRead? || th.phase == InUse(false))
  }

  predicate Writes(th: Thread) {
    th.Inside? && (th.phase.HaveWrite? || th.phase == InUse(true))
  }

  ghost predicate ThreadOk(s: State, t: Tid)
    requires t in s.threads
  {
    var th := s.threads[t];
    && (Reads(th) <==> t in s.readers)
    && (Writes(th) <==> s.writer == Some(t))
    && (th.Inside? ==>
          && th.asked != [] && th.saved == th.asked[..|th.asked| - 1]
          && (th.phase.InUse? ==> s.current == Wanted(th)))
  }

  ghost predicate Inv(s: State) {
    && (forall t :: t in s.threads ==> ThreadOk(s, t))
    && (s.writer.Some? ==> s.writer.value in s.threads && s.readers == {})
    && (forall t :: t in s.readers ==> t in s.threads)
    && s.euid == s.current.uid
  }

  // ----- steps -----

  datatype Action =
    | Start(t: Tid, want: Pair)   // Set's constructor
    | TakeRead(t: Tid)
    | CompareRead(t: Tid)
    | TakeWrite(t: Tid)
    | CompareWrite(t: Tid)
    | Stop(t: Tid)                // Set's destructor
    | EnterRoot(t: Tid)           // SetRootGuard's constructor
    | LeaveRoot(t: Tid)           // SetRootGuard's destructor

  predicate Enabled(s: State, a: Action) {
    a.t in s.threads &&
    var th := s.threads[a.t];
    match a
    case Start(_, _) => th.Outside?
    case TakeRead(_) => th.Inside? && th.phase.WantRead? && s.writer.None?
    case CompareRead(_) => th.Inside? && th.phase.HaveRead?
    case TakeWrite(_) => th.Inside? && th.phase.WantWrite? && s.writer.None? && s.readers == {}
    case CompareWrite(_) => th.Inside? && th.phase.HaveWrite?
    case Stop(_) => th.Inside? && th.phase.InUse? && |th.asked| == 1
    case EnterRoot(_) => th.Inside? && th.phase.InUse?
    case LeaveRoot(_) => th.Inside? && th.phase.InUse? && |th.asked| > 1
  }

  function Goto(s: State, t: Tid, th: Thread): State {
    s.(threads := s.threads[t := th])
  }

  /** pthread_rwlock_unlock, whichever way the thread holds it. */
  function Unlock(s: State, t: Tid): State {
    if s.writer == Some(t) then s.(writer := None) else s.(readers := s.readers - {t})
  }

  /** The switch of ugid_set, made while holding the lock for writing. */
  function SwitchTo(s: State, new': Pair): State {
    var root := s.current.uid != 0;
    var euid1 := if root then 0 else s.euid;
    var egid1 := if root then 0 else s.egid;
    var egid2 := if new'.gid != 0 then new'.gid else egid1;
    var euid2 := if new'.uid != 0 then new'.uid else euid1;
    s.(euid := euid2, egid := egid2, current := new')
  }

  function Apply(s: State, a: Action): State
    requires Inv(s) && Enabled(s, a)
  {
    var t, th := a.t, s.threads[a.t];
    assert ThreadOk(s, t);
    match a
    case Start(_, want) => Goto(s, t, Inside([want], [], WantRead))
    case TakeRead(_) => Goto(s.(readers := s.readers + {t}), t, th.(phase := HaveRead))
    case CompareRead(_) =>
      if Wanted(th) == s.current then Goto(s, t, th.(phase := InUse(false)))
      else Goto(Unlock(s, t), t, th.(phase := WantWrite))
    case TakeWrite(_) => Goto(s.(writer := Some(t)), t, th.(phase := HaveWrite))
    case CompareWrite(_) =>
      Goto(if Wanted(th) == s.current then s else SwitchTo(s, Wanted(th)), t, th.(phase := InUse(true)))
    case Stop(_) => Goto(Unlock(s, t), t, Outside)
    case EnterRoot(_) =>
      // the pair to come back to is read from the recorded one, before the lock is given up
      Goto(Unlock(s, t), t, Inside(th.asked + [ROOT], th.saved + [s.current], WantRead))
    case LeaveRoot(_) =>
      var n := |th.asked| - 1;
      Goto(Unlock(s, t), t, Inside(th.asked[..n - 1] + [th.saved[n - 1]], th.saved[..n - 1], WantRead))
  }

  // ----- every run -----

  lemma Preserved(s: State, a: Action)
    requires Inv(s) && Enabled(s, a)
    ensures Inv(Apply(s, a))
  {
    var s' := Apply(s, a);
    assert ThreadOk(s, a.t);
    forall t | t in s'.threads
      ensures ThreadOk(s', t)
    {
      assert ThreadOk(s, t);
    }
  }

  /** ugid::init in a process started as root: the recorded pair is the effective one. */
  function Init(tids: set<Tid>, egid: nat): State {
    State(Pair(0, egid), 0, egid, None, {}, map t | t in tids :: Outside)
  }

  lemma InitInv(tids: set<Tid>, egid: nat)
    ensures Inv(Init(tids, egid))
  {
  }

  ghost predicate Legal(s: State, acts: seq<Action>)
    requires Inv(s)
    decreases |acts|
  {
    acts == [] || (Enabled(s, acts[0]) && (Preserved(s, acts[0]); Legal(Apply(s, acts[0]), acts[1..])))
  }

  ghost function Exec(s: State, acts: seq<Action>): (s': State)
    requires Inv(s) && Legal(s, acts)
    ensures Inv(s')
    decreases |acts|
  {
    if acts == [] then s else
      Preserved(s, acts[0]);
      Exec(Apply(s, acts[0]), acts[1..])
  }

  /** In every run, a thread that holds its credentials sees the pair it asked for as the recorded
      one, and the process runs under that uid. */
  lemma OwnCredentials(tids: set<Tid>, egid: nat, acts: seq<Action>, t: Tid)
    requires Inv(Init(tids, egid)) && Legal(Init(tids, egid), acts) && t in Exec(Init(tids, egid), acts).threads
    ensures var s := Exec(Init(tids, egid), acts); var th := s.threads[t];
            th.Inside? && th.phase.InUse? ==> th.asked != [] && s.current == Wanted(th) && s.euid == Wanted(th).uid
  {
    assert ThreadOk(Exec(Init(tids, egid), acts), t);
  }

  /** Two threads hold their credentials at once only if they asked for the same pair. */
  lemma SharedOnlyIfEqual(s: State, t: Tid, u: Tid)
    requires Inv(s) && t in s.threads && u in s.threads
    requires s.threads[t].Inside? && s.threads[t].phase.InUse? && s.threads[u].Inside? && s.threads[u].phase.InUse?
    ensures s.threads[t].asked != [] && s.threads[u].asked != [] && Wanted(s.threads[t]) == Wanted(s.threads[u])
  {
    assert ThreadOk(s, t) && ThreadOk(s, u);
  }

  /** The thread does nothing but settle its latest request; the others do anything. */
  ghost predicate OnlySettles(acts: seq<Action>, t: Tid) {
    forall i :: 0 <= i < |acts| && acts[i].t == t ==>
      acts[i].TakeRead? || acts[i].CompareRead? || acts[i].TakeWrite? || acts[i].CompareWrite?
  }

  lemma {:induction false} RequestsStay(s: State, acts: seq<Action>, t: Tid)
    requires Inv(s) && Legal(s, acts) && OnlySettles(acts, t) && t in s.threads && s.threads[t].Inside?
    ensures var s' := Exec(s, acts); t in s'.threads && s'.threads[t].Inside? && s'.threads[t].asked == s.threads[t].asked
    decreases |acts|
  {
    if acts != [] {
      Preserved(s, acts[0]);
      assert OnlySettles(acts[1..], t);
      RequestsStay(Apply(s, acts[0]), acts[1..], t);
    }
  }

  /** After a root guard is left, whatever the other threads do meanwhile, the thread next holds its
      credentials with the pair that enclosed the guard recorded and in effect. */
  lemma GuardRestores(s: State, t: Tid, acts: seq<Action>)
    requires Inv(s) && Enabled(s, LeaveRoot(t)) && Inv(Apply(s, LeaveRoot(t)))
    requires Legal(Apply(s, LeaveRoot(t)), acts) && OnlySettles(acts, t)
    ensures var s' := Exec(Apply(s, LeaveRoot(t)), acts); var outer := s.threads[t].asked[|s.threads[t].asked| - 2];
            && t in s'.threads && s'.threads[t].Inside?
            && s'.threads[t].asked == s.threads[t].asked[..|s.threads[t].asked| - 1]
            && (s'.threads[t].phase.InUse? ==> s'.current == outer && s'.euid == outer.uid)
  {
    assert ThreadOk(s, t);
    RequestsStay(Apply(s, LeaveRoot(t)), acts, t);
    assert ThreadOk(Exec(Apply(s, LeaveRoot(t)), acts), t);
  }

  /** After Set's constructor, whatever the other threads do meanwhile, the thread first holds its
      credentials with the requested pair recorded and its uid in effect. */
  lemma RequestHonoured(s: State, t: Tid, want: Pair, acts: seq<Action>)
    requires Inv(s) && Enabled(s, Start(t, want)) && Inv(Apply(s, Start(t, want)))
    requires Legal(Apply(s, Start(t, want)), acts) && OnlySettles(acts, t)
    ensures var s' := Exec(Apply(s, Start(t, want)), acts);
            && t in s'.threads && s'.threads[t].Inside? && s'.threads[t].asked == [want]
            && (s'.threads[t].phase.InUse? ==> s'.current == want && s'.euid == want.uid)
  {
    RequestsStay(Apply(s, Start(t, want)), acts, t);
    assert ThreadOk(Exec(Apply(s, Start(t, want)), acts), t);
  }

  /** Inside a root guard, whatever the other threads do meanwhile, the thread is root. */
  lemma GuardIsRoot(s: State, t: Tid, acts: seq<Action>)
    requires Inv(s) && Enabled(s, EnterRoot(t)) && Inv(Apply(s, EnterRoot(t)))
    requires Legal(Apply(s, EnterRoot(t)), acts) && OnlySettles(acts, t)
    ensures var s' := Exec(Apply(s, EnterRoot(t)), acts);
            && t in s'.threads && s'.threads[t].Inside?
            && s'.threads[t].asked == s.threads[t].asked + [ROOT]
            && (s'.threads[t].phase.InUse? ==> s'.current == Pair(0, 0) && s'.euid == 0)
  {
    assert ThreadOk(s, t);
    RequestsStay(Apply(s, EnterRoot(t)), acts, t);
    assert ThreadOk(Exec(Apply(s, EnterRoot(t)), acts), t);
  }

  /** The lock is never stuck: whenever some thread waits and none holds the lock, it can go on. */
  lemma NobodyStuck(s: State, t: Tid)
    requires Inv(s) && t in s.threads && s.threads[t].Inside? && (s.threads[t].phase.WantRead? || s.threads[t].phase.WantWrite?)
    requires forall u :: u in s.threads ==> !Reads(s.threads[u]) && !Writes(s.threads[u])
    ensures Enabled(s, if s.threads[t].phase.WantRead? then TakeRead(t) else TakeWrite(t))
  {
    assert forall u :: u in s.threads ==> ThreadOk(s, u);
  }

  // ----- the effective gid -----

  /** One switch. */
  lemma SwitchGid(s: State, new': Pair)
    ensures SwitchTo(s, new').egid == new'.gid <==> new'.gid != 0 || s.current.uid != 0 || s.egid == 0
  {
  }

  /** The pairs recorded in turn, up to the end of a run that starts after the pairs ps. */
  ghost function Recorded(s: State, acts: seq<Action>, ps: seq<Pair>): seq<Pair>
    requires Inv(s) && Legal(s, acts)
    decreases |acts|
  {
    if acts == [] then ps else
      Preserved(s, acts[0]);
      var s' := Apply(s, acts[0]);
      Recorded(s', acts[1..], if s'.current == s.current then ps else ps + [s'.current])
  }

  /** The gid in effect after the pairs ps were switched to one after the other, the first being the
      one the process started with: a gid other than 0 is set, and leaving a uid other than 0 sets 0. */
  function GidAfter(ps: seq<Pair>): nat
    requires ps != []
  {
    var n := |ps| - 1;
    if n == 0 || ps[n].gid != 0 then ps[n].gid
    else if ps[n - 1].uid != 0 then 0
    else GidAfter(ps[..n])
  }

  /** An earlier gid sticks: the latest pair has gid 0, and from the last pair with another gid up to
      the one before the latest the uid was 0 throughout. */
  ghost predicate Sticks(ps: seq<Pair>, k: nat) {
    && k < |ps| - 1 && ps[k].gid != 0
    && (forall j :: k <= j < |ps| - 1 ==> ps[j].uid == 0)
    && (forall j :: k < j < |ps| ==> ps[j].gid == 0)
  }

  /** How an earlier gid comes to stick once one more pair with gid 0 follows a pair with uid 0. */
  lemma SticksLonger(ps: seq<Pair>, k: nat)
    requires |ps| >= 2 && ps[|ps| - 1].gid == 0 && ps[|ps| - 2].uid == 0
    ensures var front := ps[..|ps| - 1];
            Sticks(ps, k) <==> (k == |ps| - 2 && ps[k].gid != 0) || (Sticks(front, k) && front[|front| - 1].gid == 0)
  {
    var n := |ps| - 1;
    var front := ps[..n];
    assert forall j :: 0 <= j < n ==> front[j] == ps[j];
  }

  lemma {:induction false} GidAfterExact(ps: seq<Pair>)
    requires ps != []
    ensures GidAfter(ps) == ps[|ps| - 1].gid <==> forall k: nat :: !Sticks(ps, k)
    ensures forall k: nat :: Sticks(ps, k) ==> GidAfter(ps) == ps[k].gid
  {
    var n := |ps| - 1;
    if n > 0 && ps[n].gid == 0 && ps[n - 1].uid == 0 {
      var front := ps[..n];
      GidAfterExact(front);
      forall k: nat
        ensures Sticks(ps, k) <==> (k == n - 1 && ps[k].gid != 0) || (Sticks(front, k) && front[n - 1].gid == 0)
      {
        SticksLonger(ps, k);
      }
      if front[n - 1].gid != 0 {
        assert Sticks(ps, n - 1);
      }
    }
  }

  lemma {:induction false} GidFollows(s: State, acts: seq<Action>, ps: seq<Pair>)
    requires Inv(s) && Legal(s, acts)
    requires ps != [] && ps[|ps| - 1] == s.current && s.egid == GidAfter(ps)
    ensures var qs := Recorded(s, acts, ps);
            qs != [] && qs[|qs| - 1] == Exec(s, acts).current && Exec(s, acts).egid == GidAfter(qs)
    decreases |acts|
  {
    if acts != [] {
      Preserved(s, acts[0]);
      var s' := Apply(s, acts[0]);
      assert (ps + [s'.current])[..|ps|] == ps;
      GidFollows(s', acts[1..], if s'.current == s.current then ps else ps + [s'.current]);
    }
  }

  /** In every run the effective gid is the recorded one exactly unless an earlier gid sticks, and
      then it is that one. */
  lemma EffectiveGid(tids: set<Tid>, egid: nat, acts: seq<Action>)
    requires Inv(Init(tids, egid)) && Legal(Init(tids, egid), acts)
    ensures var s := Exec(Init(tids, egid), acts);
            var ps := Recorded(Init(tids, egid), acts, [Pair(0, egid)]);
            && (s.egid == s.current.gid <==> forall k: nat :: !Sticks(ps, k))
            && (forall k: nat :: Sticks(ps, k) ==> s.egid == ps[k].gid)
  {
    var s, ps := Init(tids, egid), [Pair(0, egid)];
    GidFollows(s, acts, ps);
    GidAfterExact(Recorded(s, acts, ps));
  }

  lemma {:induction false} RunThen(s: State, a: seq<Action>, b: seq<Action>)
    requires Inv(s) && Legal(s, a) && Legal(Exec(s, a), b)
    ensures Legal(s, a + b) && Exec(s, a + b) == Exec(Exec(s, a), b)
    decreases |a|
  {
    if a == [] {
      assert a + b == b;
    } else {
      Preserved(s, a[0]);
      assert (a + b)[1..] == a[1..] + b;
      RunThen(Apply(s, a[0]), a[1..], b);
    }
  }

  lemma RunOne(s: State, a: Action)
    requires Inv(s) && Enabled(s, a)
    ensures Legal(s, [a]) && Exec(s, [a]) == Apply(s, a)
  {
    Preserved(s, a);
    assert [a][1..] == [];
  }

  lemma RunMore(s: State, acts: seq<Action>, a: Action)
    requires Inv(s) && Legal(s, acts) && Enabled(Exec(s, acts), a)
    ensures Legal(s, acts + [a]) && Exec(s, acts + [a]) == Apply(Exec(s, acts), a)
  {
    RunOne(Exec(s, acts), a);
    RunThen(s, acts, [a]);
  }

  /** A Set by one thread while nobody else is inside, asking for another pair than the recorded one. */
  function Switching(t: Tid, want: Pair): seq<Action> {
    [Start(t, want)] + [TakeRead(t)] + [CompareRead(t)] + [TakeWrite(t)] + [CompareWrite(t)]
  }

  lemma SwitchingRuns(s: State, t: Tid, want: Pair)
    requires Inv(s) && t in s.threads && s.threads[t].Outside? && s.writer.None? && s.readers == {} && s.current != want
    ensures Legal(s, Switching(t, want))
    ensures Exec(s, Switching(t, want)) ==
            SwitchTo(s, want).(writer := Some(t), threads := s.threads[t := Inside([want], [], InUse(true))])
  {
    RunOne(s, Start(t, want));
    RunMore(s, [Start(t, want)], TakeRead(t));
    RunMore(s, [Start(t, want)] + [TakeRead(t)], CompareRead(t));
    RunMore(s, [Start(t, want)] + [TakeRead(t)] + [CompareRead(t)], TakeWrite(t));
    RunMore(s, [Start(t, want)] + [TakeRead(t)] + [CompareRead(t)] + [TakeWrite(t)], CompareWrite(t));
  }

  /** A Set for the recorded pair while others may be reading: it joins them and changes nothing. */
  lemma SharingRuns(s: State, t: Tid)
    requires Inv(s) && t in s.threads && s.threads[t].Outside? && s.writer.None?
    ensures var acts := [Start(t, s.current)] + [TakeRead(t)] + [CompareRead(t)];
            && Legal(s, acts)
            && Exec(s, acts) == s.(readers := s.readers + {t}, threads := s.threads[t := Inside([s.current], [], InUse(false))])
  {
    RunOne(s, Start(t, s.current));
    RunMore(s, [Start(t, s.current)], TakeRead(t));
    RunMore(s, [Start(t, s.current)] + [TakeRead(t)], CompareRead(t));
  }

  /** A whole request: Set's constructor and destructor. */
  function Serving(t: Tid, want: Pair): seq<Action> {
    Switching(t, want) + [Stop(t)]
  }

  lemma ServingRuns(s: State, t: Tid, want: Pair)
    requires Inv(s) && t in s.threads && s.threads[t].Outside? && s.writer.None? && s.readers == {} && s.current != want
    ensures Legal(s, Serving(t, want)) && Exec(s, Serving(t, want)) == SwitchTo(s, want)
  {
    SwitchingRuns(s, t, want);
    RunMore(s, Switching(t, want), Stop(t));
    assert s.threads[t := Inside([want], [], InUse(true))][t := Outside] == s.threads;
  }

  /** The run of one thread that serves a request of uid 0 with gid 5, one of uid 0 with gid 0, and
      then one of uid 7 with gid 0. */
  function StaleRun(t: Tid): seq<Action> {
    Serving(t, Pair(0, 5)) + Serving(t, ROOT) + Switching(t, Pair(7, 0))
  }

  /** It ends with uid 7 and gid 0 recorded and in use, and gid 5 in effect. */
  lemma StaleGid(t: Tid)
    ensures Inv(Init({t}, 0)) && Legal(Init({t}, 0), StaleRun(t))
    ensures var s := Exec(Init({t}, 0), StaleRun(t));
            && s.threads == map[t := Inside([Pair(7, 0)], [], InUse(true))]
            && s.current == Pair(7, 0) && s.euid == 7 && s.egid == 5
  {
    var s, a, b := Init({t}, 0), Serving(t, Pair(0, 5)), Serving(t, ROOT);
    ServingRuns(s, t, Pair(0, 5));
    ServingRuns(Exec(s, a), t, ROOT);
    RunThen(s, a, b);
    SwitchingRuns(Exec(s, a + b), t, Pair(7, 0));
    RunThen(s, a + b, Switching(t, Pair(7, 0)));
  }
}
