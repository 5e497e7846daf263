/** The request / interrupt protocol of the low-level library. Every critical section of the
    session lock is one step; the per-request lock is part of the state, because a thread keeps it
    across several steps. A record is looked up only where the code dereferences it, so each step
    being well defined means that no freed record is ever used. */
module Interrupts {
  import opened Wrappers

  type Id = nat
  type Tid = nat
  type Callback = nat

  /** The union `u` of a request: an interrupt's target, or a registered callback. */
  datatype Payload = Target(unique: nat) | Func(func: Option<Callback>)

  /** Who has a record in hand: a list, one thread, or (once answered) only interrupt handlers. */
  datatype Home = Active | Pending | OwnedBy(tid: Tid) | Answered

  /** A request record. `home` and `called` (was the registered callback invoked since it was
      registered) are history. */
  datatype Rec = Rec(unique: nat, ctr: int, interrupted: bool, u: Payload, lock: Option<Tid>,
                     home: Home, called: bool)

  /** Where a thread is. */
  datatype Thread =
    | Idle
    | Parsed(id: Id)                       // allocated a record, has not queued it
    | Bouncing(id: Id)                     // took a stale interrupt off the pending list
    | Destroying(id: Id)                   // dropped the last reference
    | Found(cur: Id, id: Id)               // interrupt id found request cur and took a reference
    | Locked(cur: Id, id: Id)              // ... and holds the lock of cur
    | Marked(cur: Id, id: Id, func: Option<Callback>)  // ... and marked it and read its callback
    | Called(cur: Id, id: Id)              // ... and called it
    | Unlocked(cur: Id, id: Id)            // ... and released the lock
    | Registering(cur: Id, func: Option<Callback>)     // holds the lock to register a callback
    | Registered(cur: Id, func: Option<Callback>)      // ... stored it
    | Checked(cur: Id)                     // ... and invoked it if needed

  /** What became of an interrupt. */
  datatype Fate =
    | InFlight(tid: Tid)       // a handler holds its request and is about to mark it
    | Marks(cur: Id)          // request cur was marked
    | AbsorbedBy(other: Id)   // an equal interrupt was pending
    | Waiting                 // on the pending list
    | GoingBack(tid: Tid)      // taken off the pending list, EAGAIN not sent yet
    | SentBack                // answered with EAGAIN

  datatype Intr = Intr(target: nat, fate: Fate)

  datatype State = State(recs: map<Id, Rec>, next: Id, freed: set<Id>,
                         active: seq<Id>, pending: seq<Id>,
                         threads: map<Tid, Thread>, intrs: map<Id, Intr>)

  // ----- threads -----

  /** The record a thread alone is responsible for. */
  function Owned(t: Thread): Option<Id> {
    match t
    case Parsed(id) => Some(id)
    case Bouncing(id) => Some(id)
    case Destroying(id) => Some(id)
    case Found(_, id) => Some(id)
    case Locked(_, id) => Some(id)
    case Marked(_, id, _) => Some(id)
    case Called(_, id) => Some(id)
    case Unlocked(_, id) => Some(id)
    case _ => None
  }

  /** The request an interrupt handler holds a reference to. */
  function Held(t: Thread): Option<Id> {
    match t
    case Found(cur, _) => Some(cur)
    case Locked(cur, _) => Some(cur)
    case Marked(cur, _, _) => Some(cur)
    case Called(cur, _) => Some(cur)
    case Unlocked(cur, _) => Some(cur)
    case _ => None
  }

  /** The request whose callback a thread is registering. */
  function Registers(t: Thread): Option<Id> {
    match t
    case Registering(cur, _) => Some(cur)
    case Registered(cur, _) => Some(cur)
    case Checked(cur) => Some(cur)
    case _ => None
  }

  /** The request whose lock a thread holds. */
  function LockOf(t: Thread): Option<Id> {
    if t.Locked? || t.Marked? || t.Called? then Some(t.cur) else Registers(t)
  }

  ghost function Holders(ts: map<Tid, Thread>, id: Id): set<Tid> {
    set t | t in ts && Held(ts[t]) == Some(id)
  }

  // ----- lists -----

  ghost predicate NoDup(s: seq<Id>) {
    s == [] || (s[0] !in s[1..] && NoDup(s[1..]))
  }

  lemma {:induction false} NoDupAppend(s: seq<Id>, id: Id)
    requires NoDup(s) && id !in s
    ensures NoDup(s + [id])
  {
    if s != [] {
      assert (s + [id])[1..] == s[1..] + [id];
      NoDupAppend(s[1..], id);
    }
  }

  /** list_del_req; on a record that is on no list it does nothing. */
  function Remove(s: seq<Id>, id: Id): seq<Id> {
    if s == [] then [] else if s[0] == id then s[1..] else [s[0]] + Remove(s[1..], id)
  }

  lemma {:induction false} RemoveExact(s: seq<Id>, id: Id)
    requires NoDup(s)
    ensures NoDup(Remove(s, id))
    ensures forall x :: x in Remove(s, id) <==> x in s && x != id
    ensures |Remove(s, id)| == if id in s then |s| - 1 else |s|
  {
    if s != [] {
      assert s == [s[0]] + s[1..];
      RemoveExact(s[1..], id);
      if s[0] != id {
        assert Remove(s, id)[1..] == Remove(s[1..], id);
      }
    }
  }

  /** The search of find_interrupted through the active requests. */
  function FindActive(s: seq<Id>, recs: map<Id, Rec>, unique: nat): (r: Option<Id>)
    requires forall x :: x in s ==> x in recs
    ensures r.Some? ==> exists i :: 0 <= i < |s| && s[i] == r.value && recs[s[i]].unique == unique
                                    && forall j :: 0 <= j < i ==> recs[s[j]].unique != unique
    ensures r.None? ==> forall x :: x in s ==> recs[x].unique != unique
  {
    if s == [] then None
    else if recs[s[0]].unique == unique then Some(s[0])
    else FindActive(s[1..], recs, unique)
  }

  /** The search through the pending interrupts. */
  function FindPending(s: seq<Id>, recs: map<Id, Rec>, target: nat): (r: Option<Id>)
    requires forall x :: x in s ==> x in recs && recs[x].u.Target?
    ensures r.Some? ==> exists i :: 0 <= i < |s| && s[i] == r.value && recs[s[i]].u.unique == target
                                    && forall j :: 0 <= j < i ==> recs[s[j]].u.unique != target
    ensures r.None? ==> forall x :: x in s ==> recs[x].u.unique != target
  {
    if s == [] then None
    else if recs[s[0]].u.unique == target then Some(s[0])
    else FindPending(s[1..], recs, target)
  }

  // ----- the invariant -----

  /** The thread is about to invoke callback f. */
  predicate Owes(th: Thread, f: Option<Callback>) {
    (th.Marked? || th.Registered?) && th.func == f
  }

  /** The registered callback of an interrupted request was invoked, or the thread holding the
      request's lock is about to invoke it. */
  ghost predicate Invoked(s: State, r: Rec)
    requires r.u.Func?
  {
    r.interrupted && r.u.func.Some? && !r.called ==>
      r.lock.Some? && r.lock.value in s.threads && Owes(s.threads[r.lock.value], r.u.func)
  }

  /** Still to be answered; an owned record no longer is when its owner is destroying it. */
  predicate Unreplied(s: State, r: Rec) {
    match r.home
    case Active => true
    case Pending => true
    case OwnedBy(t) => t in s.threads && !s.threads[t].Destroying?
    case Answered => false
  }

  /** The reference count is one for the reply to come plus one for each handler. */
  ghost predicate Counted(s: State, id: Id, r: Rec) {
    r.ctr == (if Unreplied(s, r) then 1 else 0) + |Holders(s.threads, id)|
  }

  ghost predicate AtHome(s: State, id: Id, r: Rec) {
    match r.home
    case Active => id in s.active && r.u.Func? && Invoked(s, r)
    case Pending => id in s.pending && r.u.Target? && id in s.intrs && s.intrs[id].fate.Waiting?
    case OwnedBy(t) => t in s.threads && Owned(s.threads[t]) == Some(id)
    case Answered => r.u.Func? && r.ctr > 0
  }

  ghost predicate RecOk(s: State, id: Id)
    requires id in s.recs
  {
    var r := s.recs[id];
    && id !in s.freed
    && AtHome(s, id, r) && Counted(s, id, r)
    && (r.lock.Some? ==> r.lock.value in s.threads && LockOf(s.threads[r.lock.value]) == Some(id))
  }

  ghost predicate HasHome(s: State, id: Id, h: Home) {
    id in s.recs && s.recs[id].home == h
  }

  ghost predicate HeldOk(s: State, th: Thread, cur: Id) {
    && cur in s.recs && (s.recs[cur].home.Active? || s.recs[cur].home.Answered?) && s.recs[cur].u.Func?
    && (th.Marked? ==> s.recs[cur].interrupted && (s.recs[cur].home.Active? ==> s.recs[cur].u.func == th.func))
  }

  ghost predicate HasFate(s: State, id: Id, fate: Fate) {
    id in s.intrs && s.intrs[id].fate == fate
  }

  ghost predicate ThreadOk(s: State, t: Tid)
    requires t in s.threads
  {
    var th := s.threads[t];
    && (Owned(th).Some? ==> HasHome(s, Owned(th).value, OwnedBy(t)))
    && (Held(th).Some? ==> HeldOk(s, th, Held(th).value))
    && (Registers(th).Some? ==> HasHome(s, Registers(th).value, Active) && s.recs[Registers(th).value].u.Func?)
    && (th.Registered? ==> s.recs[th.cur].u == Func(th.func))
    && (LockOf(th).Some? ==> LockOf(th).value in s.recs && s.recs[LockOf(th).value].lock == Some(t))
    && (th.Parsed? ==> th.id !in s.intrs && s.recs[th.id].u == Func(None) && !s.recs[th.id].interrupted && !s.recs[th.id].called)
    && (th.Bouncing? ==> HasFate(s, th.id, GoingBack(t)))
    && (th.Found? || th.Locked? ==> HasFate(s, th.id, InFlight(t)) && s.recs[th.cur].unique == s.intrs[th.id].target)
  }

  ghost predicate Members(s: State) {
    && NoDup(s.active) && NoDup(s.pending)
    && (forall id :: id in s.active ==> HasHome(s, id, Active))
    && (forall id :: id in s.pending ==> HasHome(s, id, Pending) && s.recs[id].u.Target?)
  }

  /** Pending interrupts have distinct targets, none of them active. */
  ghost predicate Targets(s: State)
    requires Members(s)
  {
    && (forall a, b :: a in s.pending && b in s.pending && a != b ==> s.recs[a].u.unique != s.recs[b].u.unique)
    && (forall a, b :: a in s.active && b in s.pending ==> s.recs[a].unique != s.recs[b].u.unique)
  }

  ghost predicate IntrOk(s: State, id: Id)
    requires id in s.intrs
  {
    var target := s.intrs[id].target;
    match s.intrs[id].fate
    case InFlight(t) => t in s.threads && (s.threads[t].Found? || s.threads[t].Locked?) && s.threads[t].id == id
    case Marks(cur) =>
      cur < s.next && (cur in s.recs ==> s.recs[cur].interrupted && s.recs[cur].unique == target)
    case AbsorbedBy(o) =>
      o in s.intrs && s.intrs[o].target == target && !s.intrs[o].fate.AbsorbedBy?
    case Waiting => HasHome(s, id, Pending) && s.recs[id].u == Target(target)
    case GoingBack(t) => t in s.threads && s.threads[t] == Bouncing(id)
    case SentBack => true
  }

  /** Every record ever allocated is still allocated, or was freed. */
  ghost predicate Ids(s: State) {
    && (forall id :: id in s.recs || id in s.intrs || id in s.freed ==> id < s.next)
    && (forall id :: 0 <= id < s.next ==> id in s.recs || id in s.freed)
  }

  ghost predicate Inv(s: State) {
    && Ids(s) && Members(s) && Targets(s)
    && (forall id {:trigger RecOk(s, id)} :: id in s.recs ==> RecOk(s, id))
    && (forall t {:trigger ThreadOk(s, t)} :: t in s.threads ==> ThreadOk(s, t))
    && (forall id {:trigger IntrOk(s, id)} :: id in s.intrs ==> IntrOk(s, id))
  }

  // ----- the steps -----

  function Goto(s: State, t: Tid, th: Thread): State {
    s.(threads := s.threads[t := th])
  }

  function Update(s: State, id: Id, r: Rec): State {
    s.(recs := s.recs[id := r])
  }

  function Free(s: State, id: Id): State
    requires id in s.recs
  {
    s.(recs := s.recs - {id}, freed := s.freed + {id})
  }

  function Settle(s: State, id: Id, target: nat, fate: Fate): State {
    s.(intrs := s.intrs[id := Intr(target, fate)])
  }

  /** fuse_ll_alloc_req. */
  function DoAlloc(s: State, t: Tid, unique: nat): State {
    var r := Rec(unique, 1, false, Func(None), None, OwnedBy(t), false);
    Goto(Update(s, s.next, r), t, Parsed(s.next)).(next := s.next + 1)
  }

  /** A new request finds its own interrupt k pending: it starts out interrupted. */
  function EnqueueHit(s: State, t: Tid, id: Id, k: Id): State
    requires id in s.recs && k in s.recs && k != id
  {
    var r := s.recs[id].(home := Active, interrupted := true);
    Settle(Goto(Free(Update(s, id, r), k), t, Idle), k, r.unique, Marks(id))
      .(pending := Remove(s.pending, k), active := s.active + [id])
  }

  function EnqueuePlain(s: State, t: Tid, id: Id): State
    requires id in s.recs
  {
    Goto(Update(s, id, s.recs[id].(home := Active)), t, Idle).(active := s.active + [id])
  }

  /** The oldest pending interrupt k is given up: its thread will answer it with EAGAIN. */
  function EnqueueBounce(s: State, t: Tid, id: Id, k: Id): State
    requires id in s.recs && k in s.recs && s.recs[k].u.Target? && s.pending != []
  {
    var s' := Update(Update(s, id, s.recs[id].(home := Active)), k, s.recs[k].(home := OwnedBy(t)));
    Settle(Goto(s', t, Bouncing(k)), k, s.recs[k].u.unique, GoingBack(t))
      .(pending := s.pending[1..], active := s.active + [id])
  }

  /** check_interrupt followed by list_add_req. */
  ghost function DoEnqueue(s: State, t: Tid): State
    requires Members(s) && t in s.threads && s.threads[t].Parsed? && ThreadOk(s, t)
  {
    var id := s.threads[t].id;
    match FindPending(s.pending, s.recs, s.recs[id].unique)
    case Some(k) => EnqueueHit(s, t, id, k)
    case None => if s.pending == [] then EnqueuePlain(s, t, id) else EnqueueBounce(s, t, id, s.pending[0])
  }

  /** An interrupt finds its request cur active and takes a reference. */
  function InterruptHit(s: State, t: Tid, id: Id, cur: Id, target: nat): State
    requires id in s.recs && cur in s.recs
  {
    var s' := Update(s, id, s.recs[id].(u := Target(target)));
    Settle(Goto(Update(s', cur, s.recs[cur].(ctr := s.recs[cur].ctr + 1)), t, Found(cur, id)), id, target, InFlight(t))
  }

  function InterruptAbsorbed(s: State, t: Tid, id: Id, o: Id, target: nat): State
    requires id in s.recs
  {
    Settle(Goto(Free(s, id), t, Idle), id, target, AbsorbedBy(o))
  }

  function InterruptWaits(s: State, t: Tid, id: Id, target: nat): State
    requires id in s.recs
  {
    Settle(Goto(Update(s, id, s.recs[id].(u := Target(target), home := Pending)), t, Idle), id, target, Waiting)
      .(pending := s.pending + [id])
  }

  /** do_interrupt up to the end of its first critical section. */
  ghost function DoInterrupt(s: State, t: Tid, target: nat): State
    requires Members(s) && t in s.threads && s.threads[t].Parsed? && ThreadOk(s, t)
  {
    var id := s.threads[t].id;
    match FindActive(s.active, s.recs, target)
    case Some(cur) => InterruptHit(s, t, id, cur, target)
    case None =>
      match FindPending(s.pending, s.recs, target)
      case Some(o) => InterruptAbsorbed(s, t, id, o, target)
      case None => InterruptWaits(s, t, id, target)
  }

  /** The critical section of fuse_free_req; the caller destroys the record if the count hit 0. */
  function FreeReq(s: State, t: Tid, id: Id): State
    requires id in s.recs
  {
    var r := s.recs[id];
    var last := r.ctr - 1 == 0;
    var r' := r.(u := Func(None), ctr := r.ctr - 1, home := if last then OwnedBy(t) else Answered);
    Goto(Update(s, id, r'), t, if last then Destroying(id) else Idle).(active := Remove(s.active, id))
  }

  /** fuse_free_req of a record on no list: a rejected request, or an interrupt sent back. */
  ghost function DoFreeOwned(s: State, t: Tid): State
    requires t in s.threads && (s.threads[t].Parsed? || s.threads[t].Bouncing?) && ThreadOk(s, t)
  {
    var id := s.threads[t].id;
    var s' := FreeReq(s, t, id);
    if s.threads[t].Bouncing? then Settle(s', id, s.intrs[id].target, SentBack) else s'
  }

  ghost function DoDestroy(s: State, t: Tid): State
    requires t in s.threads && s.threads[t].Destroying? && ThreadOk(s, t)
  {
    Goto(Free(s, s.threads[t].id), t, Idle)
  }

  /** A step that changes one record and moves the thread on. */
  function Local(s: State, t: Tid, th: Thread, cur: Id, r: Rec): State {
    Goto(Update(s, cur, r), t, th)
  }

  ghost function DoLock(s: State, t: Tid): State
    requires t in s.threads && s.threads[t].Found? && ThreadOk(s, t)
  {
    var Found(cur, id) := s.threads[t];
    Local(s, t, Locked(cur, id), cur, s.recs[cur].(lock := Some(t)))
  }

  ghost function DoMark(s: State, t: Tid): State
    requires t in s.threads && s.threads[t].Locked? && ThreadOk(s, t)
  {
    var Locked(cur, id) := s.threads[t];
    var r := s.recs[cur];
    Settle(Local(s, t, Marked(cur, id, r.u.func), cur, r.(interrupted := true)), id, s.intrs[id].target, Marks(cur))
  }

  ghost function DoInvoke(s: State, t: Tid): State
    requires t in s.threads && s.threads[t].Marked? && ThreadOk(s, t)
  {
    var Marked(cur, id, func) := s.threads[t];
    var r := s.recs[cur];
    Local(s, t, Called(cur, id), cur, if func.Some? then r.(called := true) else r)
  }

  ghost function DoUnlock(s: State, t: Tid): State
    requires t in s.threads && s.threads[t].Called? && ThreadOk(s, t)
  {
    var Called(cur, id) := s.threads[t];
    Local(s, t, Unlocked(cur, id), cur, s.recs[cur].(lock := None))
  }

  /** The end of find_interrupted and of do_interrupt: both records may go. */
  ghost function DoDrop(s: State, t: Tid): State
    requires t in s.threads && s.threads[t].Unlocked? && ThreadOk(s, t)
  {
    var Unlocked(cur, id) := s.threads[t];
    var r := s.recs[cur];
    var s' := if r.ctr - 1 == 0 then Free(s, cur) else Update(s, cur, r.(ctr := r.ctr - 1));
    Goto(Free(s', id), t, Idle)
  }

  function DoBegin(s: State, t: Tid, cur: Id, func: Option<Callback>): State
    requires cur in s.recs
  {
    Local(s, t, Registering(cur, func), cur, s.recs[cur].(lock := Some(t)))
  }

  ghost function DoStore(s: State, t: Tid): State
    requires t in s.threads && s.threads[t].Registering? && ThreadOk(s, t)
  {
    var Registering(cur, func) := s.threads[t];
    Local(s, t, Registered(cur, func), cur, s.recs[cur].(u := Func(func), called := false))
  }

  ghost function DoCheck(s: State, t: Tid): State
    requires t in s.threads && s.threads[t].Registered? && ThreadOk(s, t)
  {
    var Registered(cur, func) := s.threads[t];
    var r := s.recs[cur];
    Local(s, t, Checked(cur), cur, if r.interrupted && func.Some? then r.(called := true) else r)
  }

  ghost function DoEnd(s: State, t: Tid): State
    requires t in s.threads && s.threads[t].Checked? && ThreadOk(s, t)
  {
    var cur := s.threads[t].cur;
    Local(s, t, Idle, cur, s.recs[cur].(lock := None))
  }

  datatype Action =
    | Alloc(t: Tid, unique: nat)
    | Enqueue(t: Tid)
    | Interrupt(t: Tid, target: nat)
    | Reply(t: Tid, id: Id)
    | FreeOwned(t: Tid)
    | Destroy(t: Tid)
    | LockFound(t: Tid)
    | Mark(t: Tid)
    | Invoke(t: Tid)
    | Unlock(t: Tid)
    | Drop(t: Tid)
    | BeginRegister(t: Tid, id: Id, func: Option<Callback>)
    | Store(t: Tid)
    | Check(t: Tid)
    | EndRegister(t: Tid)

  /** When a step can happen. The two steps of the filesystem, Reply and BeginRegister, obey the
      library's contract: a request is answered once, and not used after it was answered. */
  ghost predicate Enabled(s: State, a: Action)
    requires Inv(s)
  {
    a.t in s.threads && ThreadOk(s, a.t) &&
    var th := s.threads[a.t];
    match a
    case Alloc(_, _) => th.Idle?
    case Enqueue(_) => th.Parsed?
    case Interrupt(_, _) => th.Parsed?
    case Reply(_, id) => th.Idle? && id in s.active && forall t :: t in s.threads ==> Registers(s.threads[t]) != Some(id)
    case FreeOwned(_) => th.Parsed? || th.Bouncing?
    case Destroy(_) => th.Destroying?
    case LockFound(_) => th.Found? && s.recs[th.cur].lock.None?
    case Mark(_) => th.Locked?
    case Invoke(_) => th.Marked?
    case Unlock(_) => th.Called?
    case Drop(_) => th.Unlocked?
    case BeginRegister(_, id, _) => th.Idle? && id in s.active && s.recs[id].lock.None?
    case Store(_) => th.Registering?
    case Check(_) => th.Registered?
    case EndRegister(_) => th.Checked?
  }

  ghost function Apply(s: State, a: Action): State
    requires Inv(s) && Enabled(s, a)
  {
    match a
    case Alloc(t, unique) => DoAlloc(s, t, unique)
    case Enqueue(t) => DoEnqueue(s, t)
    case Interrupt(t, target) => DoInterrupt(s, t, target)
    case Reply(t, id) => FreeReq(s, t, id)
    case FreeOwned(t) => DoFreeOwned(s, t)
    case Destroy(t) => DoDestroy(s, t)
    case LockFound(t) => DoLock(s, t)
    case Mark(t) => DoMark(s, t)
    case Invoke(t) => DoInvoke(s, t)
    case Unlock(t) => DoUnlock(s, t)
    case Drop(t) => DoDrop(s, t)
    case BeginRegister(t, id, func) => DoBegin(s, t, id, func)
    case Store(t) => DoStore(s, t)
    case Check(t) => DoCheck(s, t)
    case EndRegister(t) => DoEnd(s, t)
  }

  // ----- every step keeps the invariant -----

  lemma HoldersGoto(ts: map<Tid, Thread>, t: Tid, th: Thread, id: Id)
    requires t in ts
    ensures |Holders(ts[t := th], id)| ==
              |Holders(ts, id)| - (if Held(ts[t]) == Some(id) then 1 else 0) + (if Held(th) == Some(id) then 1 else 0)
  {
    var before, after := Holders(ts, id), Holders(ts[t := th], id);
    assert after - {t} == before - {t};
    assert |after - {t}| == |after| - if t in after then 1 else 0;
    assert |before - {t}| == |before| - if t in before then 1 else 0;
  }

  lemma NotHeld(s: State, id: Id)
    requires Inv(s) && !(id in s.recs && (s.recs[id].home.Active? || s.recs[id].home.Answered?))
    ensures Holders(s.threads, id) == {}
  {
    forall t | t in s.threads
      ensures Held(s.threads[t]) != Some(id)
    {
      assert ThreadOk(s, t);
    }
  }

  lemma HoldersAtLeast(ts: map<Tid, Thread>, id: Id, t: Tid, t': Tid)
    requires t in ts && t' in ts && Held(ts[t]) == Held(ts[t']) == Some(id)
    ensures |Holders(ts, id)| >= if t == t' then 1 else 2
  {
    assert t in Holders(ts, id) && t' in Holders(ts, id);
    var rest := Holders(ts, id) - {t};
    assert |rest| == |Holders(ts, id)| - 1;
    if t != t' {
      assert t' in rest;
    }
  }

  /** What a local step must respect: it is alone with the record's lock. */
  ghost predicate LocalOk(s: State, t: Tid, th: Thread, cur: Id, r: Rec) {
    && t in s.threads && cur in s.recs
    && var prev, was := s.recs[cur], s.threads[t];
    && (prev.home.Active? || prev.home.Answered?) && prev.u.Func? && r.u.Func?
    && r.home == prev.home && r.ctr == prev.ctr && r.unique == prev.unique && (prev.interrupted ==> r.interrupted)
    && Owned(th) == Owned(was) && Held(th) == Held(was)
    && !was.Destroying? && !was.Parsed? && !was.Bouncing? && !th.Parsed? && !th.Bouncing? && !th.Destroying? && !th.Found?
    && (th.Locked? ==> was.Found? && was.id == th.id)
    && (prev.lock.None? || prev.lock == Some(t))
    && (LockOf(was).Some? ==> LockOf(was) == Some(cur))
    && r.lock == (if LockOf(th).Some? then Some(t) else None) && (LockOf(th).Some? ==> LockOf(th) == Some(cur))
    && (Registers(th).Some? ==> r.home.Active?)
    && (th.Marked? ==> r.interrupted && (r.home.Active? ==> r.u.func == th.func))
    && (th.Registered? ==> r.u == Func(th.func))
    && (r.home.Active? && r.interrupted && r.u.func.Some? && !r.called ==> Owes(th, r.u.func))
  }

  lemma LocalRec(s: State, t: Tid, th: Thread, cur: Id, r: Rec, id: Id)
    requires LocalOk(s, t, th, cur, r) && id in s.recs && RecOk(s, id) && RecOk(s, cur)
    ensures RecOk(Local(s, t, th, cur, r), id)
  {
    HoldersGoto(s.threads, t, th, id);
  }

  lemma LocalThread(s: State, t: Tid, th: Thread, cur: Id, r: Rec, t': Tid)
    requires LocalOk(s, t, th, cur, r) && t' in s.threads && ThreadOk(s, t) && ThreadOk(s, t')
    ensures ThreadOk(Local(s, t, th, cur, r), t')
  {
  }

  lemma LocalIntr(s: State, t: Tid, th: Thread, cur: Id, r: Rec, id: Id)
    requires LocalOk(s, t, th, cur, r) && id in s.intrs && IntrOk(s, id)
    requires s.threads[t].Found? || s.threads[t].Locked? ==> th.Locked?
    ensures IntrOk(Local(s, t, th, cur, r), id)
  {
  }

  lemma KeepLocal(s: State, t: Tid, th: Thread, cur: Id, r: Rec)
    requires Inv(s) && LocalOk(s, t, th, cur, r)
    requires s.threads[t].Found? || s.threads[t].Locked? ==> th.Locked?
    ensures Inv(Local(s, t, th, cur, r))
  {
    var s' := Local(s, t, th, cur, r);
    assert RecOk(s, cur) && ThreadOk(s, t);
    forall id | id in s'.recs ensures RecOk(s', id) {
      assert RecOk(s, id);
      LocalRec(s, t, th, cur, r, id);
    }
    forall t' | t' in s'.threads ensures ThreadOk(s', t') {
      assert ThreadOk(s, t');
      LocalThread(s, t, th, cur, r, t');
    }
    forall id | id in s'.intrs ensures IntrOk(s', id) {
      assert IntrOk(s, id);
      LocalIntr(s, t, th, cur, r, id);
    }
  }

  // Alloc

  lemma AllocRec(s: State, t: Tid, unique: nat, id: Id)
    requires t in s.threads && s.threads[t].Idle? && Ids(s) && s.next !in s.recs
    requires id in s.recs ==> RecOk(s, id)
    requires id == s.next ==> Holders(s.threads, id) == {}
    requires id in DoAlloc(s, t, unique).recs
    ensures RecOk(DoAlloc(s, t, unique), id)
  {
    HoldersGoto(s.threads, t, Parsed(s.next), id);
  }

  lemma AllocThread(s: State, t: Tid, unique: nat, t': Tid)
    requires t in s.threads && t' in s.threads && s.threads[t].Idle? && Ids(s) && s.next !in s.recs && ThreadOk(s, t')
    ensures ThreadOk(DoAlloc(s, t, unique), t')
  {
  }

  lemma AllocIntr(s: State, t: Tid, unique: nat, id: Id)
    requires t in s.threads && s.threads[t].Idle? && Ids(s) && s.next !in s.recs && id in s.intrs && IntrOk(s, id)
    ensures IntrOk(DoAlloc(s, t, unique), id)
  {
  }

  // Enqueue

  lemma EnqueueHitRec(s: State, t: Tid, id: Id, k: Id, x: Id)
    requires id in s.recs && t in s.threads && s.threads[t] == Parsed(id) && ThreadOk(s, t) && RecOk(s, id)
    requires HasHome(s, k, Pending) && NoDup(s.pending)
    requires x in EnqueueHit(s, t, id, k).recs && RecOk(s, x)
    ensures RecOk(EnqueueHit(s, t, id, k), x)
  {
    HoldersGoto(s.threads, t, EnqueueHit(s, t, id, k).threads[t], x);
    RemoveExact(s.pending, k);
  }

  lemma EnqueueHitThread(s: State, t: Tid, id: Id, k: Id, t': Tid)
    requires id in s.recs && t in s.threads && s.threads[t] == Parsed(id) && ThreadOk(s, t) && RecOk(s, id)
    requires HasHome(s, k, Pending) && NoDup(s.pending)
    requires t' in s.threads && ThreadOk(s, t')
    ensures ThreadOk(EnqueueHit(s, t, id, k), t')
  {
  }

  lemma EnqueueHitIntr(s: State, t: Tid, id: Id, k: Id, x: Id)
    requires id in s.recs && t in s.threads && s.threads[t] == Parsed(id) && ThreadOk(s, t) && RecOk(s, id)
    requires HasHome(s, k, Pending) && NoDup(s.pending)
    requires x in EnqueueHit(s, t, id, k).intrs && (x in s.intrs ==> IntrOk(s, x)) && Ids(s)
    requires k in s.intrs && IntrOk(s, k) && s.intrs[k].fate.Waiting? && (k in s.recs && s.recs[k].u.Target? && s.recs[k].u.unique == s.intrs[k].target)
    requires s.recs[k].u.unique == s.recs[id].unique
    ensures IntrOk(EnqueueHit(s, t, id, k), x)
  {
  }

  lemma EnqueuePlainRec(s: State, t: Tid, id: Id, x: Id)
    requires id in s.recs && t in s.threads && s.threads[t] == Parsed(id) && ThreadOk(s, t) && RecOk(s, id)
    requires x in EnqueuePlain(s, t, id).recs && RecOk(s, x)
    ensures RecOk(EnqueuePlain(s, t, id), x)
  {
    HoldersGoto(s.threads, t, EnqueuePlain(s, t, id).threads[t], x);
  }

  lemma EnqueuePlainThread(s: State, t: Tid, id: Id, t': Tid)
    requires id in s.recs && t in s.threads && s.threads[t] == Parsed(id) && ThreadOk(s, t) && RecOk(s, id)
    requires t' in s.threads && ThreadOk(s, t')
    ensures ThreadOk(EnqueuePlain(s, t, id), t')
  {
  }

  lemma EnqueuePlainIntr(s: State, t: Tid, id: Id, x: Id)
    requires id in s.recs && t in s.threads && s.threads[t] == Parsed(id) && ThreadOk(s, t) && RecOk(s, id)
    requires x in EnqueuePlain(s, t, id).intrs && (x in s.intrs ==> IntrOk(s, x)) && Ids(s)
    ensures IntrOk(EnqueuePlain(s, t, id), x)
  {
  }

  lemma EnqueueBounceRec(s: State, t: Tid, id: Id, k: Id, x: Id)
    requires id in s.recs && t in s.threads && s.threads[t] == Parsed(id) && ThreadOk(s, t) && RecOk(s, id)
    requires HasHome(s, k, Pending) && s.recs[k].u.Target? && RecOk(s, k) && s.pending != [] && s.pending[0] == k && NoDup(s.pending)
    requires x in EnqueueBounce(s, t, id, k).recs && RecOk(s, x)
    ensures RecOk(EnqueueBounce(s, t, id, k), x)
  {
    HoldersGoto(s.threads, t, EnqueueBounce(s, t, id, k).threads[t], x);
  }

  lemma EnqueueBounceThread(s: State, t: Tid, id: Id, k: Id, t': Tid)
    requires id in s.recs && t in s.threads && s.threads[t] == Parsed(id) && ThreadOk(s, t) && RecOk(s, id)
    requires HasHome(s, k, Pending) && s.recs[k].u.Target? && RecOk(s, k) && s.pending != [] && s.pending[0] == k && NoDup(s.pending)
    requires t' in s.threads && ThreadOk(s, t')
    ensures ThreadOk(EnqueueBounce(s, t, id, k), t')
  {
  }

  lemma EnqueueBounceIntr(s: State, t: Tid, id: Id, k: Id, x: Id)
    requires id in s.recs && t in s.threads && s.threads[t] == Parsed(id) && ThreadOk(s, t) && RecOk(s, id)
    requires HasHome(s, k, Pending) && s.recs[k].u.Target? && RecOk(s, k) && s.pending != [] && s.pending[0] == k && NoDup(s.pending)
    requires x in EnqueueBounce(s, t, id, k).intrs && (x in s.intrs ==> IntrOk(s, x)) && Ids(s)
    requires k in s.intrs && IntrOk(s, k) && s.intrs[k].fate.Waiting? && (k in s.recs && s.recs[k].u.Target? && s.recs[k].u.unique == s.intrs[k].target)
    ensures IntrOk(EnqueueBounce(s, t, id, k), x)
  {
  }

  // Interrupt

  lemma InterruptHitRec(s: State, t: Tid, id: Id, cur: Id, target: nat, x: Id)
    requires t in s.threads && s.threads[t] == Parsed(id) && ThreadOk(s, t)
    requires HasHome(s, cur, Active) && s.recs[cur].unique == target && RecOk(s, cur)
    requires x in InterruptHit(s, t, id, cur, target).recs && RecOk(s, x)
    ensures RecOk(InterruptHit(s, t, id, cur, target), x)
  {
    HoldersGoto(s.threads, t, InterruptHit(s, t, id, cur, target).threads[t], x);
  }

  lemma InterruptHitThread(s: State, t: Tid, id: Id, cur: Id, target: nat, t': Tid)
    requires t in s.threads && s.threads[t] == Parsed(id) && ThreadOk(s, t)
    requires HasHome(s, cur, Active) && s.recs[cur].unique == target && RecOk(s, cur)
    requires t' in s.threads && ThreadOk(s, t')
    ensures ThreadOk(InterruptHit(s, t, id, cur, target), t')
  {
  }

  lemma InterruptHitIntr(s: State, t: Tid, id: Id, cur: Id, target: nat, x: Id)
    requires t in s.threads && s.threads[t] == Parsed(id) && ThreadOk(s, t)
    requires HasHome(s, cur, Active) && s.recs[cur].unique == target && RecOk(s, cur)
    requires x in InterruptHit(s, t, id, cur, target).intrs && (x in s.intrs ==> IntrOk(s, x)) && Ids(s)
    ensures IntrOk(InterruptHit(s, t, id, cur, target), x)
  {
  }

  lemma InterruptAbsorbedRec(s: State, t: Tid, id: Id, k: Id, target: nat, x: Id)
    requires t in s.threads && s.threads[t] == Parsed(id) && ThreadOk(s, t)
    requires x in InterruptAbsorbed(s, t, id, k, target).recs && RecOk(s, x)
    ensures RecOk(InterruptAbsorbed(s, t, id, k, target), x)
  {
    HoldersGoto(s.threads, t, InterruptAbsorbed(s, t, id, k, target).threads[t], x);
  }

  lemma InterruptAbsorbedThread(s: State, t: Tid, id: Id, k: Id, target: nat, t': Tid)
    requires t in s.threads && s.threads[t] == Parsed(id) && ThreadOk(s, t)
    requires t' in s.threads && ThreadOk(s, t')
    ensures ThreadOk(InterruptAbsorbed(s, t, id, k, target), t')
  {
  }

  lemma InterruptAbsorbedIntr(s: State, t: Tid, id: Id, k: Id, target: nat, x: Id)
    requires t in s.threads && s.threads[t] == Parsed(id) && ThreadOk(s, t)
    requires k in s.intrs && s.intrs[k].fate.Waiting? && s.intrs[k].target == target
    requires x in InterruptAbsorbed(s, t, id, k, target).intrs && (x in s.intrs ==> IntrOk(s, x)) && Ids(s)
    ensures IntrOk(InterruptAbsorbed(s, t, id, k, target), x)
  {
  }

  lemma InterruptWaitsRec(s: State, t: Tid, id: Id, target: nat, x: Id)
    requires t in s.threads && s.threads[t] == Parsed(id) && ThreadOk(s, t)
    requires x in InterruptWaits(s, t, id, target).recs && RecOk(s, x)
    ensures RecOk(InterruptWaits(s, t, id, target), x)
  {
    HoldersGoto(s.threads, t, InterruptWaits(s, t, id, target).threads[t], x);
  }

  lemma InterruptWaitsThread(s: State, t: Tid, id: Id, target: nat, t': Tid)
    requires t in s.threads && s.threads[t] == Parsed(id) && ThreadOk(s, t)
    requires t' in s.threads && ThreadOk(s, t')
    ensures ThreadOk(InterruptWaits(s, t, id, target), t')
  {
  }

  lemma InterruptWaitsIntr(s: State, t: Tid, id: Id, target: nat, x: Id)
    requires t in s.threads && s.threads[t] == Parsed(id) && ThreadOk(s, t)
    requires x in InterruptWaits(s, t, id, target).intrs && (x in s.intrs ==> IntrOk(s, x)) && Ids(s)
    ensures IntrOk(InterruptWaits(s, t, id, target), x)
  {
  }

  // Reply, FreeOwned, Destroy, Drop

  lemma ReplyRec(s: State, t: Tid, id: Id, x: Id)
    requires t in s.threads && s.threads[t].Idle? && HasHome(s, id, Active) && RecOk(s, id) && NoDup(s.active)
    requires x in FreeReq(s, t, id).recs && RecOk(s, x)
    ensures RecOk(FreeReq(s, t, id), x)
  {
    HoldersGoto(s.threads, t, FreeReq(s, t, id).threads[t], x);
    RemoveExact(s.active, id);
  }

  lemma ReplyThread(s: State, t: Tid, id: Id, t': Tid)
    requires t in s.threads && s.threads[t].Idle? && HasHome(s, id, Active) && RecOk(s, id) && NoDup(s.active)
    requires t' in s.threads && Registers(s.threads[t']) != Some(id)
    requires Held(s.threads[t']) == Some(id) ==> |Holders(s.threads, id)| >= 1
    requires t' in s.threads && ThreadOk(s, t')
    ensures ThreadOk(FreeReq(s, t, id), t')
  {
  }

  lemma ReplyIntr(s: State, t: Tid, id: Id, x: Id)
    requires t in s.threads && s.threads[t].Idle? && HasHome(s, id, Active) && RecOk(s, id) && NoDup(s.active)
    requires x in FreeReq(s, t, id).intrs && (x in s.intrs ==> IntrOk(s, x)) && Ids(s)
    ensures IntrOk(FreeReq(s, t, id), x)
  {
  }

  lemma FreeOwnedRec(s: State, t: Tid, x: Id)
    requires t in s.threads && (s.threads[t].Parsed? || s.threads[t].Bouncing?) && ThreadOk(s, t)
    requires NoDup(s.active) && RecOk(s, s.threads[t].id) && Holders(s.threads, s.threads[t].id) == {}
    requires x in DoFreeOwned(s, t).recs && RecOk(s, x)
    ensures RecOk(DoFreeOwned(s, t), x)
  {
    HoldersGoto(s.threads, t, DoFreeOwned(s, t).threads[t], x);
    RemoveExact(s.active, s.threads[t].id);
  }

  lemma FreeOwnedThread(s: State, t: Tid, t': Tid)
    requires t in s.threads && (s.threads[t].Parsed? || s.threads[t].Bouncing?) && ThreadOk(s, t)
    requires NoDup(s.active) && RecOk(s, s.threads[t].id) && Holders(s.threads, s.threads[t].id) == {}
    requires t' in s.threads && ThreadOk(s, t')
    ensures ThreadOk(DoFreeOwned(s, t), t')
  {
  }

  lemma FreeOwnedIntr(s: State, t: Tid, x: Id)
    requires t in s.threads && (s.threads[t].Parsed? || s.threads[t].Bouncing?) && ThreadOk(s, t)
    requires NoDup(s.active) && RecOk(s, s.threads[t].id) && Holders(s.threads, s.threads[t].id) == {}
    requires x in DoFreeOwned(s, t).intrs && (x in s.intrs ==> IntrOk(s, x)) && Ids(s)
    ensures IntrOk(DoFreeOwned(s, t), x)
  {
  }

  lemma DestroyRec(s: State, t: Tid, x: Id)
    requires t in s.threads && s.threads[t].Destroying? && ThreadOk(s, t)
    requires x in DoDestroy(s, t).recs && RecOk(s, x)
    ensures RecOk(DoDestroy(s, t), x)
  {
    HoldersGoto(s.threads, t, DoDestroy(s, t).threads[t], x);
  }

  lemma DestroyThread(s: State, t: Tid, t': Tid)
    requires t in s.threads && s.threads[t].Destroying? && ThreadOk(s, t)
    requires t' in s.threads && ThreadOk(s, t')
    ensures ThreadOk(DoDestroy(s, t), t')
  {
  }

  lemma DestroyIntr(s: State, t: Tid, x: Id)
    requires t in s.threads && s.threads[t].Destroying? && ThreadOk(s, t)
    requires x in DoDestroy(s, t).intrs && (x in s.intrs ==> IntrOk(s, x)) && Ids(s)
    ensures IntrOk(DoDestroy(s, t), x)
  {
  }

  lemma DropRec(s: State, t: Tid, x: Id)
    requires t in s.threads && s.threads[t].Unlocked? && ThreadOk(s, t) && RecOk(s, s.threads[t].cur)
    requires |Holders(s.threads, s.threads[t].cur)| >= 1
    requires x in DoDrop(s, t).recs && RecOk(s, x)
    ensures RecOk(DoDrop(s, t), x)
  {
    HoldersGoto(s.threads, t, DoDrop(s, t).threads[t], x);
  }

  lemma DropThread(s: State, t: Tid, t': Tid)
    requires t in s.threads && s.threads[t].Unlocked? && ThreadOk(s, t) && RecOk(s, s.threads[t].cur)
    requires |Holders(s.threads, s.threads[t].cur)| >= if t' in s.threads && t' != t && Held(s.threads[t']) == Some(s.threads[t].cur) then 2 else 1
    requires t' in s.threads && ThreadOk(s, t')
    ensures ThreadOk(DoDrop(s, t), t')
  {
  }

  lemma DropIntr(s: State, t: Tid, x: Id)
    requires t in s.threads && s.threads[t].Unlocked? && ThreadOk(s, t) && RecOk(s, s.threads[t].cur)
    requires x in DoDrop(s, t).intrs && (x in s.intrs ==> IntrOk(s, x)) && Ids(s)
    ensures IntrOk(DoDrop(s, t), x)
  {
  }

  // Mark

  lemma MarkRec(s: State, t: Tid, x: Id)
    requires t in s.threads && s.threads[t].Locked? && ThreadOk(s, t) && RecOk(s, s.threads[t].cur)
    requires x in DoMark(s, t).recs && RecOk(s, x)
    ensures RecOk(DoMark(s, t), x)
  {
    HoldersGoto(s.threads, t, DoMark(s, t).threads[t], x);
  }

  lemma MarkThread(s: State, t: Tid, t': Tid)
    requires t in s.threads && s.threads[t].Locked? && ThreadOk(s, t) && RecOk(s, s.threads[t].cur)
    requires t' in s.threads && ThreadOk(s, t')
    ensures ThreadOk(DoMark(s, t), t')
  {
  }

  lemma MarkIntr(s: State, t: Tid, x: Id)
    requires t in s.threads && s.threads[t].Locked? && ThreadOk(s, t) && RecOk(s, s.threads[t].cur)
    requires x in DoMark(s, t).intrs && (x in s.intrs ==> IntrOk(s, x)) && Ids(s)
    ensures IntrOk(DoMark(s, t), x)
  {
  }

  // ----- step by step -----

  lemma EnqueueHitIds(s: State, t: Tid, id: Id, k: Id)
    requires Ids(s) && HasHome(s, id, OwnedBy(t)) && HasHome(s, k, Pending)
    ensures Ids(EnqueueHit(s, t, id, k))
  {
  }

  lemma EnqueueHitMembers(s: State, t: Tid, id: Id, k: Id)
    requires Members(s) && HasHome(s, id, OwnedBy(t)) && k in s.pending && id !in s.active
    ensures Members(EnqueueHit(s, t, id, k))
  {
    RemoveExact(s.pending, k);
    NoDupAppend(s.active, id);
    var s' := EnqueueHit(s, t, id, k);
    forall x | x in s'.pending
      ensures HasHome(s', x, Pending) && s'.recs[x].u.Target?
    {
      assert x in s.pending && x != k && x != id;
    }
    forall x | x in s'.active
      ensures HasHome(s', x, Active)
    {
      assert x == id || (x in s.active && x != k);
    }
  }

  lemma EnqueueHitLists(s: State, t: Tid, id: Id, k: Id)
    requires Ids(s) && Members(s) && Targets(s) && t in s.threads && s.threads[t] == Parsed(id) && HasHome(s, id, OwnedBy(t))
    requires k in s.pending && s.recs[k].u.unique == s.recs[id].unique && id !in s.active
    ensures Ids(EnqueueHit(s, t, id, k)) && Members(EnqueueHit(s, t, id, k)) && Targets(EnqueueHit(s, t, id, k))
  {
    EnqueueHitIds(s, t, id, k);
    EnqueueHitMembers(s, t, id, k);
    RemoveExact(s.pending, k);
    var s' := EnqueueHit(s, t, id, k);
    assert forall x :: x in s'.pending ==> x in s.pending && x != k && s'.recs[x] == s.recs[x];
    assert forall x :: x in s'.active ==> s'.recs[x].unique == s.recs[x].unique && (x == id || x in s.active);
  }

  lemma EnqueueBounceMembers(s: State, t: Tid, id: Id)
    requires Ids(s) && Members(s) && t in s.threads && HasHome(s, id, OwnedBy(t)) && s.pending != [] && s.pending[0] in s.pending && id !in s.active
    ensures Ids(EnqueueBounce(s, t, id, s.pending[0])) && Members(EnqueueBounce(s, t, id, s.pending[0]))
  {
    assert s.pending == [s.pending[0]] + s.pending[1..];
    NoDupAppend(s.active, id);
    var s' := EnqueueBounce(s, t, id, s.pending[0]);
    assert forall x :: x in s'.pending ==> x in s.pending && x != s.pending[0] && x != id && s'.recs[x] == s.recs[x];
  }

  lemma EnqueueBounceLists(s: State, t: Tid, id: Id)
    requires Ids(s) && Members(s) && Targets(s) && t in s.threads && s.threads[t] == Parsed(id) && HasHome(s, id, OwnedBy(t))
    requires s.pending != [] && s.pending[0] in s.pending && id !in s.active && forall k :: k in s.pending ==> s.recs[k].u.unique != s.recs[id].unique
    ensures Ids(EnqueueBounce(s, t, id, s.pending[0])) && Members(EnqueueBounce(s, t, id, s.pending[0])) && Targets(EnqueueBounce(s, t, id, s.pending[0]))
  {
    EnqueueBounceMembers(s, t, id);
    var s' := EnqueueBounce(s, t, id, s.pending[0]);
    assert s.pending == [s.pending[0]] + s.pending[1..];
    assert forall x :: x in s'.pending ==> x in s.pending && s'.recs[x].u == s.recs[x].u;
    assert forall x :: x in s'.active ==> s'.recs[x].unique == s.recs[x].unique && (x == id || x in s.active);
  }

  lemma DropLists(s: State, t: Tid)
    requires Ids(s) && Members(s) && Targets(s) && t in s.threads && s.threads[t].Unlocked? && ThreadOk(s, t)
    requires s.recs[s.threads[t].cur].home.Active? ==> s.recs[s.threads[t].cur].ctr > 1
    ensures Ids(DoDrop(s, t)) && Members(DoDrop(s, t)) && Targets(DoDrop(s, t))
  {
    var s' := DoDrop(s, t);
    forall x | x in s.active || x in s.pending
      ensures x in s'.recs && s'.recs[x] == s.recs[x].(ctr := s'.recs[x].ctr)
    {
    }
  }

  lemma InterruptHitLists(s: State, t: Tid, id: Id, cur: Id, target: nat)
    requires Ids(s) && Members(s) && Targets(s) && t in s.threads && s.threads[t] == Parsed(id) && HasHome(s, id, OwnedBy(t))
    requires cur in s.active
    ensures Ids(InterruptHit(s, t, id, cur, target)) && Members(InterruptHit(s, t, id, cur, target)) && Targets(InterruptHit(s, t, id, cur, target))
  {
  }

  lemma InterruptAbsorbedLists(s: State, t: Tid, id: Id, k: Id, target: nat)
    requires Ids(s) && Members(s) && Targets(s) && t in s.threads && HasHome(s, id, OwnedBy(t))
    ensures var s' := InterruptAbsorbed(s, t, id, k, target); Ids(s') && Members(s') && Targets(s')
  {
    var s' := InterruptAbsorbed(s, t, id, k, target);
    assert forall x :: x in s.active || x in s.pending ==> x in s'.recs && s'.recs[x] == s.recs[x];
  }

  lemma InterruptWaitsLists(s: State, t: Tid, id: Id, target: nat)
    requires Ids(s) && Members(s) && Targets(s) && t in s.threads && HasHome(s, id, OwnedBy(t))
    requires forall k :: k in s.active ==> s.recs[k].unique != target
    requires forall k :: k in s.pending ==> s.recs[k].u.unique != target
    ensures var s' := InterruptWaits(s, t, id, target); Ids(s') && Members(s') && Targets(s')
  {
    NoDupAppend(s.pending, id);
    var s' := InterruptWaits(s, t, id, target);
    assert forall x :: x in s.active || x in s.pending ==> s'.recs[x] == s.recs[x];
  }

  lemma AllocLists(s: State, t: Tid, unique: nat)
    requires Ids(s) && Members(s) && Targets(s)
    ensures Ids(DoAlloc(s, t, unique)) && Members(DoAlloc(s, t, unique)) && Targets(DoAlloc(s, t, unique))
  {
  }

  lemma KeepAlloc(s: State, t: Tid, unique: nat)
    requires Inv(s) && t in s.threads && s.threads[t].Idle?
    ensures Inv(DoAlloc(s, t, unique))
  {
    var s' := DoAlloc(s, t, unique);
    NotHeld(s, s.next);
    AllocLists(s, t, unique);
    forall x | x in s'.recs ensures RecOk(s', x) {
      if x in s.recs { assert RecOk(s, x); }
      AllocRec(s, t, unique, x);
    }
    forall t' | t' in s'.threads ensures ThreadOk(s', t') {
      assert ThreadOk(s, t');
      AllocThread(s, t, unique, t');
    }
    forall x | x in s'.intrs ensures IntrOk(s', x) {
      if x in s.intrs { assert IntrOk(s, x); }
      AllocIntr(s, t, unique, x);
    }
  }

  lemma KeepEnqueueHit(s: State, t: Tid, id: Id, k: Id)
    requires Inv(s) && t in s.threads && s.threads[t] == Parsed(id)
    requires id in s.recs && k in s.pending && k != id && s.recs[k].u.unique == s.recs[id].unique
    ensures Inv(EnqueueHit(s, t, id, k))
  {
    var s' := EnqueueHit(s, t, id, k);
    assert ThreadOk(s, t);
    assert RecOk(s, id);
    assert RecOk(s, k) && IntrOk(s, k);
    EnqueueHitLists(s, t, id, k);
    forall x | x in s'.recs ensures RecOk(s', x) {
      if x in s.recs { assert RecOk(s, x); }
      EnqueueHitRec(s, t, id, k, x);
    }
    forall t' | t' in s'.threads ensures ThreadOk(s', t') {
      assert ThreadOk(s, t');
      EnqueueHitThread(s, t, id, k, t');
    }
    forall x | x in s'.intrs ensures IntrOk(s', x) {
      if x in s.intrs { assert IntrOk(s, x); }
      EnqueueHitIntr(s, t, id, k, x);
    }
  }

  lemma KeepEnqueuePlain(s: State, t: Tid, id: Id)
    requires Inv(s) && t in s.threads && s.threads[t] == Parsed(id)
    requires id in s.recs && s.pending == []
    ensures Inv(EnqueuePlain(s, t, id))
  {
    var s' := EnqueuePlain(s, t, id);
    assert ThreadOk(s, t);
    assert RecOk(s, id);
    NoDupAppend(s.active, id);
    forall x | x in s'.recs ensures RecOk(s', x) {
      if x in s.recs { assert RecOk(s, x); }
      EnqueuePlainRec(s, t, id, x);
    }
    forall t' | t' in s'.threads ensures ThreadOk(s', t') {
      assert ThreadOk(s, t');
      EnqueuePlainThread(s, t, id, t');
    }
    forall x | x in s'.intrs ensures IntrOk(s', x) {
      if x in s.intrs { assert IntrOk(s, x); }
      EnqueuePlainIntr(s, t, id, x);
    }
  }

  lemma KeepEnqueueBounce(s: State, t: Tid, id: Id)
    requires Inv(s) && t in s.threads && s.threads[t] == Parsed(id)
    requires id in s.recs && s.pending != [] && s.pending[0] in s.pending && forall k :: k in s.pending ==> s.recs[k].u.unique != s.recs[id].unique
    ensures Inv(EnqueueBounce(s, t, id, s.pending[0]))
  {
    var s' := EnqueueBounce(s, t, id, s.pending[0]);
    assert ThreadOk(s, t);
    assert RecOk(s, id);
    var k := s.pending[0];
    assert RecOk(s, k) && IntrOk(s, k);
    EnqueueBounceLists(s, t, id);
    forall x | x in s'.recs ensures RecOk(s', x) {
      if x in s.recs { assert RecOk(s, x); }
      EnqueueBounceRec(s, t, id, s.pending[0], x);
    }
    forall t' | t' in s'.threads ensures ThreadOk(s', t') {
      assert ThreadOk(s, t');
      EnqueueBounceThread(s, t, id, s.pending[0], t');
    }
    forall x | x in s'.intrs ensures IntrOk(s', x) {
      if x in s.intrs { assert IntrOk(s, x); }
      EnqueueBounceIntr(s, t, id, s.pending[0], x);
    }
  }

  lemma KeepInterruptHit(s: State, t: Tid, id: Id, cur: Id, target: nat)
    requires Inv(s) && t in s.threads && s.threads[t] == Parsed(id)
    requires id in s.recs && cur in s.active && s.recs[cur].unique == target
    ensures Inv(InterruptHit(s, t, id, cur, target))
  {
    var s' := InterruptHit(s, t, id, cur, target);
    assert ThreadOk(s, t);
    assert RecOk(s, cur) && RecOk(s, id);
    InterruptHitLists(s, t, id, cur, target);
    forall x | x in s'.recs ensures RecOk(s', x) {
      if x in s.recs { assert RecOk(s, x); }
      InterruptHitRec(s, t, id, cur, target, x);
    }
    forall t' | t' in s'.threads ensures ThreadOk(s', t') {
      assert ThreadOk(s, t');
      InterruptHitThread(s, t, id, cur, target, t');
    }
    forall x | x in s'.intrs ensures IntrOk(s', x) {
      if x in s.intrs { assert IntrOk(s, x); }
      InterruptHitIntr(s, t, id, cur, target, x);
    }
  }

  lemma KeepInterruptAbsorbed(s: State, t: Tid, id: Id, k: Id, target: nat)
    requires Inv(s) && t in s.threads && s.threads[t] == Parsed(id)
    requires id in s.recs && k in s.pending && s.recs[k].u.unique == target
    ensures Inv(InterruptAbsorbed(s, t, id, k, target))
  {
    var s' := InterruptAbsorbed(s, t, id, k, target);
    assert ThreadOk(s, t);
    assert RecOk(s, k) && IntrOk(s, k);
    InterruptAbsorbedLists(s, t, id, k, target);
    forall x | x in s'.recs ensures RecOk(s', x) {
      if x in s.recs { assert RecOk(s, x); }
      InterruptAbsorbedRec(s, t, id, k, target, x);
    }
    forall t' | t' in s'.threads ensures ThreadOk(s', t') {
      assert ThreadOk(s, t');
      InterruptAbsorbedThread(s, t, id, k, target, t');
    }
    forall x | x in s'.intrs ensures IntrOk(s', x) {
      if x in s.intrs { assert IntrOk(s, x); }
      InterruptAbsorbedIntr(s, t, id, k, target, x);
    }
  }

  lemma KeepInterruptWaits(s: State, t: Tid, id: Id, target: nat)
    requires Inv(s) && t in s.threads && s.threads[t] == Parsed(id)
    requires id in s.recs
    requires forall k :: k in s.active ==> s.recs[k].unique != target
    requires forall k :: k in s.pending ==> s.recs[k].u.unique != target
    ensures Inv(InterruptWaits(s, t, id, target))
  {
    var s' := InterruptWaits(s, t, id, target);
    assert ThreadOk(s, t);
    InterruptWaitsLists(s, t, id, target);
    forall x | x in s'.recs ensures RecOk(s', x) {
      if x in s.recs { assert RecOk(s, x); }
      InterruptWaitsRec(s, t, id, target, x);
    }
    forall t' | t' in s'.threads ensures ThreadOk(s', t') {
      assert ThreadOk(s, t');
      InterruptWaitsThread(s, t, id, target, t');
    }
    forall x | x in s'.intrs ensures IntrOk(s', x) {
      if x in s.intrs { assert IntrOk(s, x); }
      InterruptWaitsIntr(s, t, id, target, x);
    }
  }

  lemma KeepReply(s: State, t: Tid, id: Id)
    requires Inv(s) && Enabled(s, Reply(t, id))
    ensures Inv(FreeReq(s, t, id))
  {
    var s' := FreeReq(s, t, id);
    assert RecOk(s, id);
    RemoveExact(s.active, id);
    forall x | x in s'.recs ensures RecOk(s', x) {
      if x in s.recs { assert RecOk(s, x); }
      ReplyRec(s, t, id, x);
    }
    forall t' | t' in s'.threads ensures ThreadOk(s', t') {
      assert ThreadOk(s, t');
      if Held(s.threads[t']) == Some(id) {
        HoldersAtLeast(s.threads, id, t', t');
      }
      ReplyThread(s, t, id, t');
    }
    forall x | x in s'.intrs ensures IntrOk(s', x) {
      if x in s.intrs { assert IntrOk(s, x); }
      ReplyIntr(s, t, id, x);
    }
  }

  lemma KeepFreeOwned(s: State, t: Tid)
    requires Inv(s) && Enabled(s, FreeOwned(t))
    ensures Inv(DoFreeOwned(s, t))
  {
    var s' := DoFreeOwned(s, t);
    assert ThreadOk(s, t);
    assert RecOk(s, s.threads[t].id);
    NotHeld(s, s.threads[t].id);
    RemoveExact(s.active, s.threads[t].id);
    forall x | x in s'.recs ensures RecOk(s', x) {
      if x in s.recs { assert RecOk(s, x); }
      FreeOwnedRec(s, t, x);
    }
    forall t' | t' in s'.threads ensures ThreadOk(s', t') {
      assert ThreadOk(s, t');
      FreeOwnedThread(s, t, t');
    }
    forall x | x in s'.intrs ensures IntrOk(s', x) {
      if x in s.intrs { assert IntrOk(s, x); }
      FreeOwnedIntr(s, t, x);
    }
  }

  lemma KeepDestroy(s: State, t: Tid)
    requires Inv(s) && Enabled(s, Destroy(t))
    ensures Inv(DoDestroy(s, t))
  {
    var s' := DoDestroy(s, t);
    assert ThreadOk(s, t);
    forall x | x in s'.recs ensures RecOk(s', x) {
      if x in s.recs { assert RecOk(s, x); }
      DestroyRec(s, t, x);
    }
    forall t' | t' in s'.threads ensures ThreadOk(s', t') {
      assert ThreadOk(s, t');
      DestroyThread(s, t, t');
    }
    forall x | x in s'.intrs ensures IntrOk(s', x) {
      if x in s.intrs { assert IntrOk(s, x); }
      DestroyIntr(s, t, x);
    }
  }

  lemma KeepDrop(s: State, t: Tid)
    requires Inv(s) && Enabled(s, Drop(t))
    ensures Inv(DoDrop(s, t))
  {
    var s' := DoDrop(s, t);
    assert ThreadOk(s, t);
    var cur := s.threads[t].cur;
    assert RecOk(s, cur);
    HoldersAtLeast(s.threads, cur, t, t);
    DropLists(s, t);
    forall x | x in s'.recs ensures RecOk(s', x) {
      if x in s.recs { assert RecOk(s, x); }
      DropRec(s, t, x);
    }
    forall t' | t' in s'.threads ensures ThreadOk(s', t') {
      assert ThreadOk(s, t');
      if Held(s.threads[t']) == Some(cur) {
        HoldersAtLeast(s.threads, cur, t, t');
      }
      DropThread(s, t, t');
    }
    forall x | x in s'.intrs ensures IntrOk(s', x) {
      if x in s.intrs { assert IntrOk(s, x); }
      DropIntr(s, t, x);
    }
  }

  lemma KeepMark(s: State, t: Tid)
    requires Inv(s) && Enabled(s, Mark(t))
    ensures Inv(DoMark(s, t))
  {
    var s' := DoMark(s, t);
    assert ThreadOk(s, t);
    assert RecOk(s, s.threads[t].cur);
    forall x | x in s'.recs ensures RecOk(s', x) {
      if x in s.recs { assert RecOk(s, x); }
      MarkRec(s, t, x);
    }
    forall t' | t' in s'.threads ensures ThreadOk(s', t') {
      assert ThreadOk(s, t');
      MarkThread(s, t, t');
    }
    forall x | x in s'.intrs ensures IntrOk(s', x) {
      if x in s.intrs { assert IntrOk(s, x); }
      MarkIntr(s, t, x);
    }
  }

  lemma KeepEnqueue(s: State, t: Tid)
    requires Inv(s) && Enabled(s, Enqueue(t))
    ensures Inv(DoEnqueue(s, t))
  {
    var id := s.threads[t].id;
    match FindPending(s.pending, s.recs, s.recs[id].unique)
    case Some(k) => KeepEnqueueHit(s, t, id, k);
    case None =>
      if s.pending == [] {
        KeepEnqueuePlain(s, t, id);
      } else {
        KeepEnqueueBounce(s, t, id);
      }
  }

  lemma KeepInterrupt(s: State, t: Tid, target: nat)
    requires Inv(s) && Enabled(s, Interrupt(t, target))
    ensures Inv(DoInterrupt(s, t, target))
  {
    var id := s.threads[t].id;
    match FindActive(s.active, s.recs, target)
    case Some(cur) => KeepInterruptHit(s, t, id, cur, target);
    case None =>
      match FindPending(s.pending, s.recs, target)
      case Some(k) => KeepInterruptAbsorbed(s, t, id, k, target);
      case None => KeepInterruptWaits(s, t, id, target);
  }

  lemma KeepOthers(s: State, a: Action)
    requires Inv(s) && Enabled(s, a)
    requires a.LockFound? || a.Invoke? || a.Unlock? || a.BeginRegister? || a.Store? || a.Check? || a.EndRegister?
    ensures Inv(Apply(s, a))
  {
    var t, th := a.t, s.threads[a.t];
    var cur := if a.BeginRegister? then a.id else th.cur;
    assert ThreadOk(s, t);
    assert RecOk(s, cur);
    var s' := Apply(s, a);
    KeepLocal(s, t, s'.threads[t], cur, s'.recs[cur]);
  }

  lemma Preserved(s: State, a: Action)
    requires Inv(s) && Enabled(s, a)
    ensures Inv(Apply(s, a))
  {
    match a
    case Alloc(t, unique) => KeepAlloc(s, t, unique);
    case Enqueue(t) => KeepEnqueue(s, t);
    case Interrupt(t, target) => KeepInterrupt(s, t, target);
    case Reply(t, id) => KeepReply(s, t, id);
    case FreeOwned(t) => KeepFreeOwned(s, t);
    case Destroy(t) => KeepDestroy(s, t);
    case Mark(t) => KeepMark(s, t);
    case Drop(t) => KeepDrop(s, t);
    case _ => KeepOthers(s, a);
  }

  // ----- whole runs -----

  function Init(tids: set<Tid>): State {
    State(map[], 0, {}, [], [], map t | t in tids :: Idle, map[])
  }

  lemma InitInv(tids: set<Tid>)
    ensures Inv(Init(tids))
  {
  }

  /** The actions can happen one after the other from s. */
  ghost predicate Legal(s: State, acts: seq<Action>)
    requires Inv(s)
    decreases |acts|
  {
    acts == [] || (Enabled(s, acts[0]) && (Preserved(s, acts[0]); Legal(Apply(s, acts[0]), acts[1..])))
  }

  ghost function Exec(s: State, acts: seq<Action>): (s': State)
    requires Inv(s) && Legal(s, acts)
    ensures Inv(s')
    decreases |acts|
  {
    if acts == [] then s else
      Preserved(s, acts[0]);
      Exec(Apply(s, acts[0]), acts[1..])
  }

  /** Reference counts, in every run: one for the reply still owed, one per interrupt handler. */
  lemma RefCount(tids: set<Tid>, acts: seq<Action>, id: Id)
    requires Inv(Init(tids)) && Legal(Init(tids), acts) && id in Exec(Init(tids), acts).recs
    ensures var s := Exec(Init(tids), acts);
            s.recs[id].ctr == (if Unreplied(s, s.recs[id]) then 1 else 0) + |Holders(s.threads, id)|
  {
    assert RecOk(Exec(Init(tids), acts), id);
  }

  /** The thread refers to the record. */
  predicate Uses(th: Thread, id: Id) {
    Owned(th) == Some(id) || Held(th) == Some(id) || Registers(th) == Some(id)
  }

  /** A step frees only allocated records that are on no list and that no other thread uses; and
      what is freed stays freed. So every record is released at most once. */
  lemma ReleasedSafely(s: State, a: Action, id: Id)
    requires Inv(s) && Enabled(s, a)
    ensures s.freed <= Apply(s, a).freed
    ensures id in s.freed ==> id !in s.recs && id !in Apply(s, a).recs
    ensures id in Apply(s, a).freed - s.freed ==>
              && id in s.recs && id !in Apply(s, a).recs
              && id !in Apply(s, a).active && id !in Apply(s, a).pending
              && forall t :: t in s.threads && t != a.t ==> !Uses(s.threads[t], id)
  {
    var s' := Apply(s, a);
    FreedGrows(s, a);
    Preserved(s, a);
    NotFreed(s, id);
    NotFreed(s', id);
    forall t | t in s.threads && t != a.t
      ensures id !in s'.recs ==> !Uses(s.threads[t], id)
    {
      OtherThreads(s, a, t);
      OnlyAllocatedUsed(s', t, id);
    }
  }

  lemma OnlyAllocatedUsed(s: State, t: Tid, id: Id)
    requires Inv(s) && t in s.threads
    ensures Uses(s.threads[t], id) ==> id in s.recs
  {
    assert ThreadOk(s, t);
  }

  lemma NotFreed(s: State, id: Id)
    requires Inv(s)
    ensures id in s.recs ==> id !in s.freed
  {
    if id in s.recs {
      assert RecOk(s, id);
    }
  }

  lemma FreedGrows(s: State, a: Action)
    requires Inv(s) && Enabled(s, a)
    ensures s.freed <= Apply(s, a).freed
    ensures forall id :: id in Apply(s, a).freed - s.freed ==> id in s.recs
  {
    assert ThreadOk(s, a.t);
  }

  lemma OtherThreads(s: State, a: Action, t: Tid)
    requires Inv(s) && Enabled(s, a) && t in s.threads && t != a.t
    ensures t in Apply(s, a).threads && Apply(s, a).threads[t] == s.threads[t]
  {
  }

  /** Every record is released: when all threads are idle, only listed records are allocated. */
  lemma NothingLeaks(s: State, id: Id)
    requires Inv(s) && forall t :: t in s.threads ==> s.threads[t].Idle?
    ensures id in s.recs <==> id in s.active || id in s.pending
  {
    if id in s.recs {
      assert RecOk(s, id);
      assert Holders(s.threads, id) == {};
    }
  }

  /** A callback registered on an unanswered interrupted request has been invoked by the time the
      request's lock is free, whether the interrupt or the registration came first. */
  lemma CallbackDelivered(s: State, id: Id)
    requires Inv(s) && id in s.active && s.recs[id].lock.None? && s.recs[id].interrupted
    ensures s.recs[id].u.Func? && (s.recs[id].u.func.Some? ==> s.recs[id].called)
  {
    assert RecOk(s, id);
  }

  /** Interrupt k marked request id. */
  ghost predicate MarkedBy(s: State, k: Id, id: Id)
    requires id in s.recs
  {
    k in s.intrs && s.intrs[k] == Intr(s.recs[id].unique, Marks(id))
  }

  /** A request is interrupted because of an interrupt for it, and its callback was invoked because it
      is interrupted. */
  ghost predicate Justified(s: State, id: Id)
    requires id in s.recs
  {
    var r := s.recs[id];
    && (r.interrupted ==> exists k :: MarkedBy(s, k, id))
    && (r.called ==> r.interrupted)
    && (r.called && r.home.Active? ==> r.u.Func? && r.u.func.Some?)
  }

  /** A record keeps its number, and stays interrupted once it is. */
  lemma RecordsKeep(s: State, a: Action, id: Id)
    requires Inv(s) && Enabled(s, a) && id in s.recs && id in Apply(s, a).recs
    ensures Apply(s, a).recs[id].unique == s.recs[id].unique
    ensures s.recs[id].interrupted ==> Apply(s, a).recs[id].interrupted
  {
    assert ThreadOk(s, a.t);
    if a.Enqueue? || a.Interrupt? {
      ArrivalKeeps(s, a, id);
    }
  }

  lemma ArrivalKeeps(s: State, a: Action, id: Id)
    requires Inv(s) && Enabled(s, a) && id in s.recs && id in Apply(s, a).recs && (a.Enqueue? || a.Interrupt?)
    ensures var r, r' := s.recs[id], Apply(s, a).recs[id];
            r'.unique == r.unique && (r.interrupted ==> r'.interrupted) && r'.called == r.called
    ensures s.recs[id].called && Apply(s, a).recs[id].home.Active? ==> s.recs[id].home.Active? && Apply(s, a).recs[id].u == s.recs[id].u
  {
    assert ThreadOk(s, a.t);
  }

  /** A record appears only by allocation, with the number that was read for it. */
  lemma RecordsAppear(s: State, a: Action, id: Id)
    requires Inv(s) && Enabled(s, a) && id !in s.recs && id in Apply(s, a).recs
    ensures a.Alloc? && id == s.next
    ensures var r := Apply(s, a).recs[id]; r.unique == a.unique && !r.interrupted && !r.called
  {
    assert ThreadOk(s, a.t);
    ArrivalsAddNone(s, a, id);
  }

  lemma ArrivalsAddNone(s: State, a: Action, id: Id)
    requires Inv(s) && Enabled(s, a) && id in Apply(s, a).recs
    ensures a.Enqueue? || a.Interrupt? ==> id in s.recs
  {
    if a.Enqueue? {
      EnqueueAddsNone(s, a.t, id);
    } else if a.Interrupt? {
      InterruptAddsNone(s, a.t, a.target, id);
    }
  }

  lemma EnqueueAddsNone(s: State, t: Tid, id: Id)
    requires Inv(s) && Enabled(s, Enqueue(t)) && id in DoEnqueue(s, t).recs
    ensures id in s.recs
  {
    assert ThreadOk(s, t);
    var own := s.threads[t].id;
    match FindPending(s.pending, s.recs, s.recs[own].unique)
    case Some(k) =>
      assert k in s.pending && DoEnqueue(s, t) == EnqueueHit(s, t, own, k);
    case None =>
      if s.pending != [] {
        assert s.pending[0] in s.pending && DoEnqueue(s, t) == EnqueueBounce(s, t, own, s.pending[0]);
      } else {
        assert DoEnqueue(s, t) == EnqueuePlain(s, t, own);
      }
  }

  lemma InterruptAddsNone(s: State, t: Tid, target: nat, id: Id)
    requires Inv(s) && Enabled(s, Interrupt(t, target)) && id in DoInterrupt(s, t, target).recs
    ensures id in s.recs
  {
    assert ThreadOk(s, t);
    match FindActive(s.active, s.recs, target)
    case Some(cur) => assert cur in s.active && DoInterrupt(s, t, target) == InterruptHit(s, t, s.threads[t].id, cur, target);
    case None =>
  }

  lemma MarksStay(s: State, a: Action, k: Id)
    requires Inv(s) && Enabled(s, a) && k in s.intrs && s.intrs[k].fate.Marks?
    ensures k in Apply(s, a).intrs && Apply(s, a).intrs[k] == s.intrs[k]
  {
    assert ThreadOk(s, a.t) && IntrOk(s, k);
    if a.Enqueue? {
      var f := FindPending(s.pending, s.recs, s.recs[s.threads[a.t].id].unique);
      if f.Some? {
        assert RecOk(s, f.value);
      } else if s.pending != [] {
        assert s.pending[0] in s.pending;
        assert RecOk(s, s.pending[0]);
      }
    }
  }

  lemma BecomesInterrupted(s: State, a: Action, id: Id)
    requires Inv(s) && Enabled(s, a) && id in s.recs && id in Apply(s, a).recs
    requires !s.recs[id].interrupted && Apply(s, a).recs[id].interrupted
    ensures exists k :: MarkedBy(Apply(s, a), k, id)
  {
    assert ThreadOk(s, a.t);
    var s' := Apply(s, a);
    OthersDoNotMark(s, a, id);
    if a.Mark? {
      assert MarkedBy(s', s.threads[a.t].id, id);
    } else {
      EnqueueMarks(s, a.t, id);
    }
  }

  lemma OthersDoNotMark(s: State, a: Action, id: Id)
    requires Inv(s) && Enabled(s, a) && id in s.recs && id in Apply(s, a).recs
    ensures !a.Mark? && !a.Enqueue? ==> Apply(s, a).recs[id].interrupted == s.recs[id].interrupted
  {
    assert ThreadOk(s, a.t);
    if a.Interrupt? {
      InterruptDoesNotMark(s, a.t, a.target, id);
    }
  }

  lemma InterruptDoesNotMark(s: State, t: Tid, target: nat, id: Id)
    requires Inv(s) && Enabled(s, Interrupt(t, target)) && id in s.recs && id in Apply(s, Interrupt(t, target)).recs
    ensures Apply(s, Interrupt(t, target)).recs[id].interrupted == s.recs[id].interrupted
  {
    assert ThreadOk(s, t);
  }

  lemma EnqueueMarks(s: State, t: Tid, id: Id)
    requires Inv(s) && Enabled(s, Enqueue(t)) && id in s.recs && id in Apply(s, Enqueue(t)).recs
    requires !s.recs[id].interrupted && Apply(s, Enqueue(t)).recs[id].interrupted
    ensures exists k :: MarkedBy(Apply(s, Enqueue(t)), k, id)
  {
    assert ThreadOk(s, t);
    var f := FindPending(s.pending, s.recs, s.recs[s.threads[t].id].unique);
    assert MarkedBy(Apply(s, Enqueue(t)), f.value, id);
  }

  lemma CallsJustified(s: State, a: Action, id: Id)
    requires Inv(s) && Enabled(s, a) && id in s.recs && id in Apply(s, a).recs && Justified(s, id)
    ensures var r := Apply(s, a).recs[id];
            (r.called ==> r.interrupted) && (r.called && r.home.Active? ==> r.u.Func? && r.u.func.Some?)
  {
    assert ThreadOk(s, a.t) && RecOk(s, id);
    if a.Enqueue? || a.Interrupt? {
      ArrivalKeeps(s, a, id);
    }
  }

  lemma KeepJustified(s: State, a: Action, id: Id)
    requires Inv(s) && Enabled(s, a) && id in Apply(s, a).recs && (id in s.recs ==> Justified(s, id))
    ensures Justified(Apply(s, a), id)
  {
    if id !in s.recs {
      RecordsAppear(s, a, id);
    } else {
      CallsJustified(s, a, id);
      RecordsKeep(s, a, id);
      if s.recs[id].interrupted {
        var k :| MarkedBy(s, k, id);
        MarksStay(s, a, k);
        assert MarkedBy(Apply(s, a), k, id);
      } else if Apply(s, a).recs[id].interrupted {
        BecomesInterrupted(s, a, id);
      }
    }
  }

  lemma {:induction false} RunJustified(s: State, acts: seq<Action>)
    requires Inv(s) && Legal(s, acts) && forall id :: id in s.recs ==> Justified(s, id)
    ensures forall id :: id in Exec(s, acts).recs ==> Justified(Exec(s, acts), id)
    decreases |acts|
  {
    if acts != [] {
      Preserved(s, acts[0]);
      forall id | id in Apply(s, acts[0]).recs
        ensures Justified(Apply(s, acts[0]), id)
      {
        KeepJustified(s, acts[0], id);
      }
      RunJustified(Apply(s, acts[0]), acts[1..]);
    }
  }

  /** The targets of the interrupts that arrive in a run. */
  ghost function TargetsIn(acts: seq<Action>): set<nat> {
    set i | 0 <= i < |acts| && acts[i].Interrupt? :: acts[i].target
  }

  lemma {:induction false} RunTargets(s: State, acts: seq<Action>, known: set<nat>)
    requires Inv(s) && Legal(s, acts) && forall k :: k in s.intrs ==> s.intrs[k].target in known
    ensures forall k :: k in Exec(s, acts).intrs ==> Exec(s, acts).intrs[k].target in known + TargetsIn(acts)
    decreases |acts|
  {
    if acts != [] {
      var a, rest := acts[0], acts[1..];
      Preserved(s, a);
      InterruptsRemembered(s, a);
      var more := if a.Interrupt? then {a.target} else {};
      RunTargets(Apply(s, a), rest, known + more);
      assert a.Interrupt? ==> acts[0].target in TargetsIn(acts);
      forall x | x in TargetsIn(rest)
        ensures x in TargetsIn(acts)
      {
        var i :| 0 <= i < |rest| && rest[i].Interrupt? && rest[i].target == x;
        assert acts[i + 1] == rest[i];
      }
    }
  }

  /** In every run, a request is interrupted only if an interrupt with its number arrived and marked
      it, and a callback is invoked only on an interrupted request. */
  lemma OnlyInterrupted(tids: set<Tid>, acts: seq<Action>, id: Id)
    requires Inv(Init(tids)) && Legal(Init(tids), acts) && id in Exec(Init(tids), acts).recs
    ensures var s := Exec(Init(tids), acts); var r := s.recs[id];
            && (r.interrupted ==> r.unique in TargetsIn(acts) && exists k :: MarkedBy(s, k, id))
            && (r.called ==> r.interrupted)
  {
    RunJustified(Init(tids), acts);
    RunTargets(Init(tids), acts, {});
    assert Justified(Exec(Init(tids), acts), id);
  }

  /** An answered request has no callback left. */
  ghost predicate Silent(s: State, id: Id)
    requires id in s.recs
  {
    s.recs[id].home.Answered? ==> s.recs[id].u == Func(None)
  }

  lemma ArrivalsKeepSilent(s: State, a: Action, id: Id)
    requires Inv(s) && Enabled(s, a) && id in Apply(s, a).recs && (id in s.recs ==> Silent(s, id)) && (a.Enqueue? || a.Interrupt?)
    ensures Silent(Apply(s, a), id)
  {
    assert ThreadOk(s, a.t);
  }

  lemma KeepSilent(s: State, a: Action, id: Id)
    requires Inv(s) && Enabled(s, a) && id in Apply(s, a).recs && (id in s.recs ==> Silent(s, id))
    ensures Silent(Apply(s, a), id)
  {
    assert ThreadOk(s, a.t);
    if a.Enqueue? || a.Interrupt? {
      ArrivalsKeepSilent(s, a, id);
    }
  }

  lemma {:induction false} RunSilent(s: State, acts: seq<Action>)
    requires Inv(s) && Legal(s, acts) && forall id :: id in s.recs ==> Silent(s, id)
    ensures forall id :: id in Exec(s, acts).recs ==> Silent(Exec(s, acts), id)
    decreases |acts|
  {
    if acts != [] {
      Preserved(s, acts[0]);
      forall id | id in Apply(s, acts[0]).recs
        ensures Silent(Apply(s, acts[0]), id)
      {
        KeepSilent(s, acts[0], id);
      }
      RunSilent(Apply(s, acts[0]), acts[1..]);
    }
  }

  /** In every run, a handler that gets to a request after its reply finds no callback to invoke. */
  lemma AnsweredSilent(tids: set<Tid>, acts: seq<Action>, t: Tid)
    requires Inv(Init(tids)) && Legal(Init(tids), acts) && Enabled(Exec(Init(tids), acts), Mark(t))
    ensures var s := Exec(Init(tids), acts);
            && s.threads[t].cur in s.recs
            && (s.recs[s.threads[t].cur].home.Answered? ==> Apply(s, Mark(t)).threads[t].func.None?)
  {
    RunSilent(Init(tids), acts);
    var s := Exec(Init(tids), acts);
    assert ThreadOk(s, t) && Silent(s, s.threads[t].cur);
  }

  // ----- what the steps do, from the lists alone -----

  /** A request that arrives becomes active. It is interrupted exactly if an interrupt for it is
      pending, which is then used up; else the oldest pending interrupt, if any, goes back. */
  lemma ArrivalOutcome(s: State, t: Tid)
    requires Inv(s) && Enabled(s, Enqueue(t))
    ensures var s', id := Apply(s, Enqueue(t)), s.threads[t].id;
            && s'.active == s.active + [id] && id in s'.recs
            && (s'.recs[id].interrupted <==> exists k :: k in s.pending && s.recs[k].u.unique == s.recs[id].unique)
    ensures var s', id := Apply(s, Enqueue(t)), s.threads[t].id;
            if k :| k in s.pending && s.recs[k].u.unique == s.recs[id].unique
            then s'.threads[t] == Idle && k in s'.freed && k !in s'.pending
            else if s.pending == [] then s'.threads[t] == Idle && s'.pending == []
            else s'.threads[t] == Bouncing(s.pending[0]) && s'.pending == s.pending[1..]
  {
    assert ThreadOk(s, t);
    var f := FindPending(s.pending, s.recs, s.recs[s.threads[t].id].unique);
    if f.Some? {
      RemoveExact(s.pending, f.value);
    }
  }

  /** An interrupt takes hold of the active request with its target; without one it is absorbed by a
      pending interrupt with its target; without that it becomes pending. */
  lemma InterruptOutcome(s: State, t: Tid, target: nat)
    requires Inv(s) && Enabled(s, Interrupt(t, target))
    ensures var s', id := Apply(s, Interrupt(t, target)), s.threads[t].id;
            && s'.active == s.active && id in s'.intrs && s'.intrs[id].target == target
            && if exists k :: k in s.active && s.recs[k].unique == target then
                 && s'.threads[t].Found? && s'.threads[t].id == id && s'.threads[t].cur in s.active
                 && s.recs[s'.threads[t].cur].unique == target && s'.pending == s.pending
               else if exists k :: k in s.pending && s.recs[k].u.unique == target then
                 && s'.threads[t] == Idle && id in s'.freed && s'.pending == s.pending
                 && s'.intrs[id].fate.AbsorbedBy? && s'.intrs[id].fate.other in s.pending
               else
                 s'.threads[t] == Idle && s'.pending == s.pending + [id] && s'.intrs[id].fate == Waiting
  {
    assert ThreadOk(s, t);
  }

  /** A reply takes the request, and nothing else, off the active list; its thread destroys the record
      exactly if no handler holds it. */
  lemma ReplyOutcome(s: State, t: Tid, id: Id)
    requires Inv(s) && Enabled(s, Reply(t, id))
    ensures var s' := Apply(s, Reply(t, id));
            && (forall x :: x in s'.active <==> x in s.active && x != id) && s'.pending == s.pending && s'.intrs == s.intrs
            && s'.threads[t] == if Holders(s.threads, id) == {} then Destroying(id) else Idle
  {
    assert RecOk(s, id);
    RemoveExact(s.active, id);
  }

  /** A registration that nothing gets in the way of leaves the function asked for, invoked exactly if
      the request is interrupted and there is one. */
  lemma RegisterOutcome(s: State, t: Tid, id: Id, func: Option<Callback>)
    requires Inv(s) && Enabled(s, BeginRegister(t, id, func))
    ensures var acts := [BeginRegister(t, id, func)] + [Store(t)] + [Check(t)] + [EndRegister(t)];
            && Legal(s, acts)
            && var s' := Exec(s, acts);
            && id in s.recs && id in s'.recs && t in s'.threads && s'.threads[t] == Idle && s'.active == s.active && s'.recs[id].lock.None?
            && s'.recs[id].u == Func(func) && s'.recs[id].interrupted == s.recs[id].interrupted
            && s'.recs[id].called == (s.recs[id].interrupted && func.Some?)
  {
    RunOne(s, BeginRegister(t, id, func));
    RunMore(s, [BeginRegister(t, id, func)], Store(t));
    RunMore(s, [BeginRegister(t, id, func)] + [Store(t)], Check(t));
    RunMore(s, [BeginRegister(t, id, func)] + [Store(t)] + [Check(t)], EndRegister(t));
  }

  /** A handler that nothing gets in the way of marks its request, invokes the registered function,
      gives its reference back and destroys the interrupt. */
  lemma HandlerOutcome(s: State, t: Tid)
    requires Inv(s) && Enabled(s, LockFound(t)) && s.threads[t].cur in s.active
    ensures var acts := [LockFound(t)] + [Mark(t)] + [Invoke(t)] + [Unlock(t)] + [Drop(t)];
            && Legal(s, acts)
            && var s', cur, id := Exec(s, acts), s.threads[t].cur, s.threads[t].id;
            && cur in s.recs && cur in s'.recs && t in s'.threads && s'.threads[t] == Idle && s'.active == s.active && id in s'.freed
            && s'.recs[cur].interrupted && s'.recs[cur].lock.None? && s'.recs[cur].ctr == s.recs[cur].ctr - 1
            && s'.recs[cur].u == s.recs[cur].u && (s.recs[cur].u.Func? && s.recs[cur].u.func.Some? ==> s'.recs[cur].called)
  {
    var th := s.threads[t];
    assert ThreadOk(s, t) && RecOk(s, th.cur);
    HoldersAtLeast(s.threads, th.cur, t, t);
    MarkingOutcome(s, t);
    RunMore(s, [LockFound(t)] + [Mark(t)] + [Invoke(t)] + [Unlock(t)], Drop(t));
  }

  lemma MarkingOutcome(s: State, t: Tid)
    requires Inv(s) && Enabled(s, LockFound(t)) && s.threads[t].cur in s.active
    ensures var acts := [LockFound(t)] + [Mark(t)] + [Invoke(t)] + [Unlock(t)];
            && Legal(s, acts)
            && var s', Found(cur, id) := Exec(s, acts), s.threads[t];
            && cur in s.recs && s.recs[cur].u.Func? && s'.active == s.active && t in s'.threads && cur in s'.recs
            && s'.threads[t] == Unlocked(cur, id)
            && s'.recs[cur] == s.recs[cur].(interrupted := true, called := s.recs[cur].called || s.recs[cur].u.func.Some?)
  {
    LockingOutcome(s, t);
    RunMore(s, [LockFound(t)] + [Mark(t)], Invoke(t));
    RunMore(s, [LockFound(t)] + [Mark(t)] + [Invoke(t)], Unlock(t));
  }

  lemma LockingOutcome(s: State, t: Tid)
    requires Inv(s) && Enabled(s, LockFound(t)) && s.threads[t].cur in s.active
    ensures var acts := [LockFound(t)] + [Mark(t)];
            && Legal(s, acts)
            && var s', Found(cur, id) := Exec(s, acts), s.threads[t];
            && cur in s.recs && s.recs[cur].u.Func? && s.recs[cur].lock.None? && s'.active == s.active && t in s'.threads && cur in s'.recs
            && s'.threads[t] == Marked(cur, id, s.recs[cur].u.func)
            && s'.recs[cur] == s.recs[cur].(interrupted := true, lock := Some(t))
  {
    assert ThreadOk(s, t);
    RunOne(s, LockFound(t));
    RunMore(s, [LockFound(t)], Mark(t));
  }

  lemma {:induction false} RunThen(s: State, a: seq<Action>, b: seq<Action>)
    requires Inv(s) && Legal(s, a) && Legal(Exec(s, a), b)
    ensures Legal(s, a + b) && Exec(s, a + b) == Exec(Exec(s, a), b)
    decreases |a|
  {
    if a == [] {
      assert a + b == b;
    } else {
      var first, rest, all := a[0], a[1..], a + b;
      assert all[0] == first && all[1..] == rest + b;
      Preserved(s, first);
      RunThen(Apply(s, first), rest, b);
    }
  }

  lemma RunOne(s: State, a: Action)
    requires Inv(s) && Enabled(s, a)
    ensures Legal(s, [a]) && Exec(s, [a]) == Apply(s, a)
  {
    Preserved(s, a);
    assert [a][1..] == [];
  }

  lemma RunMore(s: State, acts: seq<Action>, a: Action)
    requires Inv(s) && Legal(s, acts) && Enabled(Exec(s, acts), a)
    ensures Legal(s, acts + [a]) && Exec(s, acts + [a]) == Apply(Exec(s, acts), a)
  {
    RunOne(Exec(s, acts), a);
    RunThen(s, acts, [a]);
  }

  /** A handler about to call a callback of an unanswered request calls the registered one: once a
      new one (or none) is stored, the previous one is never called again. */
  lemma NoStaleCallback(s: State, t: Tid)
    requires Inv(s) && t in s.threads && s.threads[t].Marked? && s.threads[t].cur in s.active
    ensures s.threads[t].cur in s.recs && s.recs[s.threads[t].cur].u == Func(s.threads[t].func)
  {
    assert ThreadOk(s, t);
  }

  /** Each request that arrives shortens a nonempty list of pending interrupts by one. */
  lemma ArrivalShortens(s: State, t: Tid)
    requires Inv(s) && Enabled(s, Enqueue(t))
    ensures |DoEnqueue(s, t).pending| == if s.pending == [] then 0 else |s.pending| - 1
  {
    var f := FindPending(s.pending, s.recs, s.recs[s.threads[t].id].unique);
    if f.Some? {
      RemoveExact(s.pending, f.value);
    }
  }

  /** An interrupt is remembered with its target from its arrival on, in every later state. */
  lemma InterruptsRemembered(s: State, a: Action)
    requires Inv(s) && Enabled(s, a)
    ensures forall id :: id in s.intrs ==> id in Apply(s, a).intrs && Apply(s, a).intrs[id].target == s.intrs[id].target
    ensures a.Interrupt? ==> s.threads[a.t].id in Apply(s, a).intrs && Apply(s, a).intrs[s.threads[a.t].id].target == a.target
    ensures forall id :: id in Apply(s, a).intrs && id !in s.intrs ==> a.Interrupt? && id == s.threads[a.t].id
  {
    assert ThreadOk(s, a.t);
    if a.Enqueue? {
      var f := FindPending(s.pending, s.recs, s.recs[s.threads[a.t].id].unique);
      if f.Some? {
        PendingTarget(s, f.value);
      } else if s.pending != [] {
        PendingTarget(s, s.pending[0]);
      }
    }
  }

  lemma PendingTarget(s: State, k: Id)
    requires Inv(s) && k in s.pending
    ensures k in s.intrs && s.recs[k].u == Target(s.intrs[k].target)
  {
    assert RecOk(s, k);
    assert IntrOk(s, k);
  }

  /** The settled fates of an interrupt with the given target. */
  ghost predicate Settled(s: State, id: Id, i: Intr) {
    match i.fate
    case Marks(cur) => cur in s.recs ==> s.recs[cur].interrupted && s.recs[cur].unique == i.target
    case Waiting => id in s.pending
    case SentBack => true
    case _ => false
  }

  /** No interrupt is lost: when the threads are idle, it marked its request, or it is pending, or
      it was answered with EAGAIN, or one of these holds of an equal interrupt that absorbed it. */
  lemma InterruptsNeverLost(s: State, id: Id)
    requires Inv(s) && id in s.intrs && forall t :: t in s.threads ==> s.threads[t].Idle?
    ensures var i := s.intrs[id];
            if i.fate.AbsorbedBy? then
              i.fate.other in s.intrs && s.intrs[i.fate.other].target == i.target && Settled(s, i.fate.other, s.intrs[i.fate.other])
            else Settled(s, id, i)
  {
    assert IntrOk(s, id);
    var other := if s.intrs[id].fate.AbsorbedBy? then s.intrs[id].fate.other else id;
    assert IntrOk(s, other);
    if s.intrs[other].fate.Waiting? {
      assert RecOk(s, other);
    }
  }

  // ----- the search loops -----

  method SearchActive(s: seq<Id>, recs: map<Id, Rec>, unique: nat) returns (r: Option<Id>)
    requires forall x :: x in s ==> x in recs
    ensures r == FindActive(s, recs, unique)
  {
    var curr := 0;
    while curr != |s|
      invariant 0 <= curr <= |s|
      invariant FindActive(s, recs, unique) == FindActive(s[curr..], recs, unique)
      decreases |s| - curr
    {
      if recs[s[curr]].unique == unique {
        return Some(s[curr]);
      }
      curr := curr + 1;
    }
    r := None;
  }

  method SearchPending(s: seq<Id>, recs: map<Id, Rec>, target: nat) returns (r: Option<Id>)
    requires forall x :: x in s ==> x in recs && recs[x].u.Target?
    ensures r == FindPending(s, recs, target)
  {
    var curr := 0;
    while curr != |s|
      invariant 0 <= curr <= |s|
      invariant FindPending(s, recs, target) == FindPending(s[curr..], recs, target)
      decreases |s| - curr
    {
      if recs[s[curr]].u.unique == target {
        return Some(s[curr]);
      }
      curr := curr + 1;
    }
    r := None;
  }
}
