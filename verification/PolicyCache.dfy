/** PolicyCache: timed answers of a search policy, against the history of what the policy said. */
module PolicyCache {
  import opened Wrappers

  const TWO64 := 0x1_0000_0000_0000_0000

  datatype Value = Value(time: nat, branch: string)

  /** What a call of the policy itself gives, and what a call of the cache returns. */
  datatype Reply = Branch(path: string) | Failed

  const BLANK := Value(0, "")

  /** Unsigned 64-bit subtraction. */
  function Sub64(a: nat, b: nat): (r: int)
    ensures b <= a ==> r == a - b
    ensures a < TWO64 && b < TWO64 ==> 0 <= r < TWO64 && (r + b == a || r + b == a + TWO64)
  {
    if b <= a then a - b else a - b + TWO64
  }

  // ----- the history -----

  datatype Event =
    | Answered(path: string, v: Value)
    | Erased(path: string)
    | Cleared

  datatype Standing = Nothing | Given(v: Value)

  /** The answer of the policy for a path that still stands: given, and not dropped since. */
  ghost function Stands(log: seq<Event>, path: string): Standing
  {
    if log == [] then Nothing
    else
      match log[|log| - 1]
      case Answered(p, v) => if p == path then Given(v) else Stands(log[..|log| - 1], path)
      case Erased(p) => if p == path then Nothing else Stands(log[..|log| - 1], path)
      case Cleared => Nothing
  }

  /** The event drops or replaces what stood for the path. */
  ghost predicate Touches(e: Event, path: string) {
    match e
    case Answered(p, _) => p == path
    case Erased(p) => p == path
    case Cleared => true
  }

  lemma StandsAfter(log: seq<Event>, e: Event, path: string)
    ensures !Touches(e, path) ==> Stands(log + [e], path) == Stands(log, path)
    ensures e.Answered? && e.path == path ==> Stands(log + [e], path) == Given(e.v)
    ensures Touches(e, path) && !e.Answered? ==> Stands(log + [e], path) == Nothing
  {
    assert (log + [e])[..|log|] == log;
  }

  // ----- the specification: a cache with no storage at all -----

  ghost predicate Young(v: Value, now: nat, timeout: nat) {
    now - v.time < timeout
  }

  /**
   * Without asking the policy: a standing answer while it is young. Where nothing stands, the
   * blank entry counts as stored at time zero, so a clock still below the timeout serves it.
   */
  ghost function Served(log: seq<Event>, path: string, now: nat, timeout: nat): Reply
  {
    match Stands(log, path)
    case Given(v) => if Young(v, now, timeout) then Branch(v.branch) else Failed
    case Nothing => if now < timeout then Branch("") else Failed
  }

  ghost function Told(log: seq<Event>, path: string, now: nat, asked: Reply, timeout: nat): Reply {
    if Served(log, path, now, timeout).Branch? then Served(log, path, now, timeout) else asked
  }

  ghost function LogAfter(log: seq<Event>, path: string, now: nat, asked: Reply, timeout: nat): seq<Event> {
    if Served(log, path, now, timeout).Branch? || asked.Failed? then log
    else log + [Answered(path, Value(now, asked.path))]
  }

  // ----- the cache -----

  /** What the cache holds for a path, reading a missing entry as the blank one. */
  function View(cache: map<string, Value>, path: string): Value {
    if path in cache then cache[path] else BLANK
  }

  /** The cache agrees with the history on one path: it may only have forgotten what is too old. */
  ghost predicate Agrees(view: Value, stands: Standing, clock: nat, timeout: nat) {
    match stands
    case Nothing => view == BLANK
    case Given(v) => v.time <= clock && (view == v || (view == BLANK && !Young(v, clock, timeout)))
  }

  lemma AgesWell(view: Value, stands: Standing, clock: nat, now: nat, timeout: nat)
    requires Agrees(view, stands, clock, timeout) && clock <= now
    ensures Agrees(view, stands, now, timeout)
  {
  }

  /** The entry alone tells what the history would serve. */
  lemma EntryDecides(view: Value, log: seq<Event>, path: string, now: nat, timeout: nat)
    requires Agrees(view, Stands(log, path), now, timeout)
    ensures Sub64(now, view.time) == now - view.time
    ensures Served(log, path, now, timeout) == if now - view.time < timeout then Branch(view.branch) else Failed
  {
  }

  /** The map a call leaves. */
  function Stored(cache: map<string, Value>, path: string, now: nat, asked: Reply, timeout: nat): map<string, Value> {
    var v := View(cache, path);
    if timeout == 0 then cache
    else cache[path := if Sub64(now, v.time) >= timeout && asked.Branch? then Value(now, asked.path) else v]
  }

  lemma StoredAgrees(cache: map<string, Value>, log: seq<Event>, path: string, clock: nat, now: nat, asked: Reply, timeout: nat, p: string)
    requires timeout == 0 ==> cache == map[]
    requires Agrees(View(cache, p), Stands(log, p), clock, timeout)
    requires Agrees(View(cache, path), Stands(log, path), clock, timeout) && clock <= now
    ensures Agrees(View(Stored(cache, path, now, asked, timeout), p), Stands(LogAfter(log, path, now, asked, timeout), p), now, timeout)
  {
    AgesWell(View(cache, p), Stands(log, p), clock, now, timeout);
    AgesWell(View(cache, path), Stands(log, path), clock, now, timeout);
    EntryDecides(View(cache, path), log, path, now, timeout);
    if asked.Branch? {
      StandsAfter(log, Answered(path, Value(now, asked.path)), p);
    }
  }

  class Cache {
    const timeout: nat
    var cache: map<string, Value>
    ghost var log: seq<Event>
    /** The latest time any call has seen. */
    ghost var clock: nat

    ghost predicate Valid()
      reads this
    {
      && clock < TWO64
      && (timeout == 0 ==> cache == map[])
      && forall p :: Agrees(View(cache, p), Stands(log, p), clock, timeout)
    }

    constructor (timeout: nat)
      ensures Valid() && log == [] && clock == 0 && this.timeout == timeout
    {
      this.timeout := timeout;
      cache := map[];
      log := [];
      clock := 0;
    }

    method Erase(path: string)
      requires Valid()
      modifies this
      ensures Valid() && clock == old(clock)
      ensures log == old(log) + [Erased(path)]
    {
      ghost var was := cache;
      cache := cache - {path};
      log := log + [Erased(path)];
      forall p
        ensures Agrees(View(cache, p), Stands(log, p), clock, timeout)
      {
        StandsAfter(old(log), Erased(path), p);
        assert Agrees(View(was, p), Stands(old(log), p), clock, timeout);
      }
    }

    method Clear()
      requires Valid()
      modifies this
      ensures Valid() && clock == old(clock)
      ensures log == old(log) + [Cleared]
    {
      cache := map[];
      log := log + [Cleared];
    }

    lemma TimesBounded()
      requires Valid()
      ensures forall p :: p in cache ==> cache[p].time <= clock
    {
      forall p | p in cache
        ensures cache[p].time <= clock
      {
        assert Agrees(View(cache, p), Stands(log, p), clock, timeout);
      }
    }

    /** cleanup: drop what has timed out, when the dice say so. The history does not notice. */
    method Cleanup(dice: nat, prob: nat, now: nat)
      requires Valid() && prob != 0
      requires clock <= now < TWO64
      modifies this
      ensures Valid() && log == old(log)
      ensures clock == if dice % prob != 0 then old(clock) else now
      ensures dice % prob == 0 ==>
        cache == map p | p in old(cache) && Young(old(cache)[p], now, timeout) :: old(cache)[p]
    {
      if dice % prob != 0 {
        return;
      }
      TimesBounded();
      ghost var was := cache;
      var todo := cache.Keys;
      while todo != {}
        invariant todo <= cache.Keys <= was.Keys
        invariant log == old(log) && clock == old(clock)
        invariant forall p :: p in cache ==> cache[p] == was[p]
        invariant forall p :: p in cache && p !in todo ==> Young(was[p], now, timeout)
        invariant forall p :: p in was && p !in cache ==> !Young(was[p], now, timeout)
      {
        var p :| p in todo;
        todo := todo - {p};
        if Sub64(now, cache[p].time) >= timeout {
          cache := cache - {p};
        }
      }
      clock := now;
      forall p
        ensures Agrees(View(cache, p), Stands(log, p), clock, timeout)
      {
        assert Agrees(View(was, p), Stands(log, p), old(clock), timeout);
      }
    }

    /**
     * operator(): serve the entry while it is young, otherwise ask the policy.
     * asked is what the policy would say now.
     */
    method Call(path: string, now: nat, asked: Reply) returns (r: Reply)
      requires Valid()
      requires clock <= now < TWO64
      modifies this
      ensures Valid() && clock == now
      ensures r == Told(old(log), path, now, asked, timeout)
      ensures log == LogAfter(old(log), path, now, asked, timeout)
    {
      ghost var was := cache;
      AgesWell(View(cache, path), Stands(log, path), clock, now, timeout);
      EntryDecides(View(cache, path), log, path, now, timeout);
      forall p
        ensures Agrees(View(Stored(cache, path, now, asked, timeout), p), Stands(LogAfter(log, path, now, asked, timeout), p), now, timeout)
      {
        StoredAgrees(cache, log, path, clock, now, asked, timeout, p);
      }
      log := LogAfter(log, path, now, asked, timeout);
      clock := now;
      if timeout == 0 {
        r := asked;
      } else {
        cache := cache[path := View(cache, path)];
        if Sub64(now, cache[path].time) >= timeout {
          if asked.Failed? {
            r := Failed;
          } else {
            cache := cache[path := Value(now, asked.path)];
            r := Branch(cache[path].branch);
          }
        } else {
          r := Branch(cache[path].branch);
        }
      }
      assert cache == Stored(was, path, now, asked, timeout);
    }
  }

  // ----- whole runs -----

  datatype Op =
    | Ask(path: string, now: nat, asked: Reply)
    | Forget(path: string)
    | ForgetAll
    | Sweep(dice: nat, prob: nat, now: nat)

  predicate Timed(op: Op) {
    op.Ask? || op.Sweep?
  }

  /** The clock never runs backwards. */
  ghost predicate Timely(ops: seq<Op>) {
    && (forall i :: 0 <= i < |ops| && Timed(ops[i]) ==> ops[i].now < TWO64)
    && (forall i :: 0 <= i < |ops| && ops[i].Sweep? ==> ops[i].prob != 0)
    && (forall i, j :: 0 <= i < j < |ops| && Timed(ops[i]) && Timed(ops[j]) ==> ops[i].now <= ops[j].now)
  }

  predicate Asks(op: Op, path: string) {
    op.Ask? && op.path == path
  }

  predicate Forgets(op: Op, path: string) {
    op.ForgetAll? || (op.Forget? && op.path == path)
  }

  // What the calls alone prescribe, with no reference to a cache or a log.

  /** The latest of the first k calls that fetched an answer for the path, if it was not forgotten. */
  ghost function LastFetch(ops: seq<Op>, path: string, k: nat, timeout: nat): Option<nat>
    requires k <= |ops|
    decreases k, 0
  {
    if k == 0 then None
    else if Forgets(ops[k - 1], path) then None
    else if Asks(ops[k - 1], path) && Fetches(ops, k - 1, timeout) then Some(k - 1)
    else LastFetch(ops, path, k - 1, timeout)
  }

  /** Call j asks the policy and gets a branch: the clock has reached the timeout and what was fetched
      last is too old. */
  ghost predicate Fetches(ops: seq<Op>, j: nat, timeout: nat)
    requires j < |ops|
    decreases j, 1
  {
    && ops[j].Ask? && ops[j].asked.Branch? && timeout <= ops[j].now
    && !Fresh(ops, LastFetch(ops, ops[j].path, j, timeout), ops[j].now, timeout)
  }

  ghost predicate Fresh(ops: seq<Op>, last: Option<nat>, now: nat, timeout: nat) {
    last.Some? && last.value < |ops| && ops[last.value].Ask? && now - ops[last.value].now < timeout
  }

  /** The reply to call k. */
  ghost function Expected(ops: seq<Op>, k: nat, timeout: nat): Reply
    requires k < |ops| && ops[k].Ask?
  {
    var last := LastFetch(ops, ops[k].path, k, timeout);
    if Fresh(ops, last, ops[k].now, timeout) then ops[last.value].asked
    else if last.None? && ops[k].now < timeout then Branch("")
    else ops[k].asked
  }

  /** Call j of a run ends what was fetched for the path. */
  ghost predicate Disturbs(ops: seq<Op>, j: nat, path: string, timeout: nat)
    requires j < |ops|
  {
    Forgets(ops[j], path) || (Asks(ops[j], path) && Fetches(ops, j, timeout))
  }

  lemma {:induction false} LastFetchMeans(ops: seq<Op>, path: string, k: nat, timeout: nat, i: nat)
    requires k <= |ops|
    ensures LastFetch(ops, path, k, timeout) == Some(i) <==>
      && i < k && Asks(ops[i], path) && Fetches(ops, i, timeout)
      && forall j :: i < j < k ==> !Disturbs(ops, j, path, timeout)
  {
    if k > 0 {
      LastFetchMeans(ops, path, k - 1, timeout, i);
      if i < k - 1 && Disturbs(ops, k - 1, path, timeout) {
        assert !(forall j :: i < j < k ==> !Disturbs(ops, j, path, timeout));
      }
    }
  }

  /**
   * Once the clock has reached the timeout, every branch returned is one the policy gave for the
   * path: just now, or less than timeout ago with no erase of it and no clear since. A failure is
   * the policy's own.
   */
  lemma AnswersAreGenuine(ops: seq<Op>, k: nat, timeout: nat)
    requires k < |ops| && ops[k].Ask? && timeout <= ops[k].now
    ensures var r := Expected(ops, k, timeout);
            r == ops[k].asked || (r.Branch? && exists i :: GivenAt(ops, i, k, r, timeout))
  {
    var path := ops[k].path;
    var last := LastFetch(ops, path, k, timeout);
    if Fresh(ops, last, ops[k].now, timeout) {
      LastFetchMeans(ops, path, k, timeout, last.value);
      forall j | last.value < j < k
        ensures !Forgets(ops[j], path)
      {
        assert !Disturbs(ops, j, path, timeout);
      }
      assert GivenAt(ops, last.value, k, Expected(ops, k, timeout), timeout);
    }
  }

  /** Call i, of the same path, was less than timeout before call k, the policy answered r to it, and
      nothing since made the cache forget it. */
  ghost predicate GivenAt(ops: seq<Op>, i: int, k: nat, r: Reply, timeout: nat)
    requires k < |ops| && ops[k].Ask?
  {
    && 0 <= i < k && Asks(ops[i], ops[k].path) && ops[i].asked == r && ops[k].now - ops[i].now < timeout
    && forall j :: i < j < k ==> !Forgets(ops[j], ops[k].path)
  }

  /** The first answer for a path, once the clock has reached the timeout, is the reply for the whole
      of the timeout, unless it is forgotten, whatever the policy would say by then. */
  lemma FirstAnswerServed(ops: seq<Op>, i: nat, k: nat, timeout: nat)
    requires Timely(ops) && i < k < |ops| && ops[k].Ask?
    requires ops[i].Ask? && timeout <= ops[i].now && ops[i].asked.Branch? && GivenAt(ops, i, k, ops[i].asked, timeout)
    requires forall j :: 0 <= j < i ==> !Asks(ops[j], ops[k].path)
    ensures Expected(ops, k, timeout) == ops[i].asked
  {
    NeverFetched(ops, ops[k].path, i, timeout);
    StaysFetched(ops, i, k, timeout);
  }

  lemma {:induction false} NeverFetched(ops: seq<Op>, path: string, k: nat, timeout: nat)
    requires k <= |ops| && forall j :: 0 <= j < k ==> !(Asks(ops[j], path) && ops[j].asked.Branch?)
    ensures LastFetch(ops, path, k, timeout).None?
  {
    if k > 0 {
      NeverFetched(ops, path, k - 1, timeout);
    }
  }

  lemma {:induction false} StaysFetched(ops: seq<Op>, i: nat, k: nat, timeout: nat)
    requires Timely(ops) && i < k <= |ops| && ops[i].Ask? && Fetches(ops, i, timeout)
    requires forall j :: i < j < k ==> !Forgets(ops[j], ops[i].path)
    requires forall j :: i < j < k && Asks(ops[j], ops[i].path) ==> ops[j].now - ops[i].now < timeout
    ensures LastFetch(ops, ops[i].path, k, timeout) == Some(i)
  {
    if k > i + 1 {
      StaysFetched(ops, i, k - 1, timeout);
    }
  }

  /** For a path on which the policy has always failed, a call succeeds without asking it exactly
      while the clock is below the timeout, with the empty branch. */
  lemma BlankServedIff(ops: seq<Op>, k: nat, timeout: nat)
    requires k < |ops| && ops[k].Ask? && forall j :: 0 <= j <= k && Asks(ops[j], ops[k].path) ==> ops[j].asked.Failed?
    ensures Expected(ops, k, timeout).Branch? <==> ops[k].now < timeout
    ensures ops[k].now < timeout ==> Expected(ops, k, timeout) == Branch("")
  {
    NeverFetched(ops, ops[k].path, k, timeout);
  }

  // A cleanup plays no part in it.

  function Without(ops: seq<Op>, k: nat): seq<Op>
    requires k < |ops|
  {
    ops[..k] + ops[k + 1..]
  }

  /** The number of a call of the shortened run in the whole run. */
  function Back(last: Option<nat>, k: nat): Option<nat> {
    if last.Some? && last.value >= k then Some(last.value + 1) else last
  }

  lemma {:induction false} SamePrefix(ops: seq<Op>, k: nat, path: string, j: nat, timeout: nat)
    requires j <= k < |ops|
    ensures LastFetch(ops, path, j, timeout) == LastFetch(Without(ops, k), path, j, timeout)
    ensures LastFetch(ops, path, j, timeout).Some? ==> LastFetch(ops, path, j, timeout).value < j
    decreases j
  {
    if j > 0 {
      SamePrefix(ops, k, path, j - 1, timeout);
      if ops[j - 1].Ask? {
        SamePrefix(ops, k, ops[j - 1].path, j - 1, timeout);
      }
    }
  }

  lemma {:induction false} SameLater(ops: seq<Op>, k: nat, path: string, j: nat, timeout: nat)
    requires k < j <= |ops| && ops[k].Sweep?
    ensures LastFetch(ops, path, j, timeout) == Back(LastFetch(Without(ops, k), path, j - 1, timeout), k)
    decreases j
  {
    var short := Without(ops, k);
    if j == k + 1 {
      SamePrefix(ops, k, path, k, timeout);
    } else {
      assert short[j - 2] == ops[j - 1];
      SameLater(ops, k, path, j - 1, timeout);
      if ops[j - 1].Ask? {
        SameLater(ops, k, ops[j - 1].path, j - 1, timeout);
        FreshSame(ops, k, LastFetch(short, ops[j - 1].path, j - 2, timeout), ops[j - 1].now, timeout);
      }
    }
  }

  lemma FreshSame(ops: seq<Op>, k: nat, last: Option<nat>, now: nat, timeout: nat)
    requires k < |ops|
    ensures Fresh(ops, Back(last, k), now, timeout) <==> Fresh(Without(ops, k), last, now, timeout)
  {
  }

  /** A run without one of its cleanups gives the same replies to every other call. */
  lemma SweepsInvisible(ops: seq<Op>, k: nat, j: nat, timeout: nat)
    requires k < |ops| && ops[k].Sweep? && j < |ops| && ops[j].Ask?
    ensures j < k ==> Expected(ops, j, timeout) == Expected(Without(ops, k), j, timeout)
    ensures j > k ==> Expected(ops, j, timeout) == Expected(Without(ops, k), j - 1, timeout)
  {
    if j < k {
      SamePrefix(ops, k, ops[j].path, j, timeout);
    } else {
      SameLater(ops, k, ops[j].path, j, timeout);
      FreshSame(ops, k, LastFetch(Without(ops, k), ops[j].path, j - 1, timeout), ops[j].now, timeout);
    }
  }

  // The cache gives these replies.

  ghost function Fetched(ops: seq<Op>, last: Option<nat>): Standing {
    if last.Some? && last.value < |ops| && ops[last.value].Ask? && ops[last.value].asked.Branch?
    then Given(Value(ops[last.value].now, ops[last.value].asked.path)) else Nothing
  }

  /** The log holds what the first k calls fetched. */
  ghost predicate Linked(log: seq<Event>, ops: seq<Op>, k: nat, timeout: nat)
    requires k <= |ops|
  {
    forall p :: Stands(log, p) == Fetched(ops, LastFetch(ops, p, k, timeout))
  }

  lemma LinkedStep(log: seq<Event>, log': seq<Event>, ops: seq<Op>, k: nat, timeout: nat)
    requires k < |ops| && Linked(log, ops, k, timeout)
    requires match ops[k]
             case Ask(p, now, asked) => log' == LogAfter(log, p, now, asked, timeout)
             case Forget(p) => log' == log + [Erased(p)]
             case ForgetAll => log' == log + [Cleared]
             case Sweep(_, _, _) => log' == log
    ensures Linked(log', ops, k + 1, timeout)
    ensures ops[k].Ask? ==> Told(log, ops[k].path, ops[k].now, ops[k].asked, timeout) == Expected(ops, k, timeout)
  {
    if ops[k].Ask? {
      var last := LastFetch(ops, ops[k].path, k, timeout);
      if last.Some? {
        LastFetchMeans(ops, ops[k].path, k, timeout, last.value);
      }
      assert Stands(log, ops[k].path) == Fetched(ops, last);
    }
    forall p
      ensures Stands(log', p) == Fetched(ops, LastFetch(ops, p, k + 1, timeout))
    {
      assert Stands(log, p) == Fetched(ops, LastFetch(ops, p, k, timeout));
      if log' != log {
        StandsAfter(log, log'[|log|], p);
      }
    }
  }

  /** Every run of a new cache replies as the calls alone prescribe. */
  method Run(timeout: nat, ops: seq<Op>) returns (rs: seq<Option<Reply>>)
    requires Timely(ops)
    ensures |rs| == |ops|
    ensures forall k :: 0 <= k < |ops| ==> rs[k] == if ops[k].Ask? then Some(Expected(ops, k, timeout)) else None
  {
    var c := new Cache(timeout);
    rs := [];
    for k := 0 to |ops|
      invariant c.Valid() && fresh(c) && c.timeout == timeout && |rs| == k
      invariant Linked(c.log, ops, k, timeout)
      invariant forall j :: k <= j < |ops| && Timed(ops[j]) ==> c.clock <= ops[j].now
      invariant forall j :: 0 <= j < k ==> rs[j] == if ops[j].Ask? then Some(Expected(ops, j, timeout)) else None
    {
      ghost var log := c.log;
      match ops[k]
      case Ask(p, now, asked) =>
        var r := c.Call(p, now, asked);
        LinkedStep(log, c.log, ops, k, timeout);
        rs := rs + [Some(r)];
      case Forget(p) =>
        c.Erase(p);
        LinkedStep(log, c.log, ops, k, timeout);
        rs := rs + [None];
      case ForgetAll =>
        c.Clear();
        LinkedStep(log, c.log, ops, k, timeout);
        rs := rs + [None];
      case Sweep(dice, prob, now) =>
        c.Cleanup(dice, prob, now);
        LinkedStep(log, c.log, ops, k, timeout);
        rs := rs + [None];
    }
  }

  /** Such a case: at time 5 with timeout 10, the first call for a path succeeds with the empty
      branch although the policy would fail. */
  method FailureServedEarly() returns (r: Reply)
    ensures r == Branch("")
  {
    var rs := Run(10, [Ask("/a", 5, Failed)]);
    r := rs[0].value;
  }
}
