/** Branch selection: the one-pass policy loops against filter, then select. */
module Policies {
  import opened Wrappers

  const TIME_MIN := -0x8000_0000_0000_0000
  const TIME_MAX := 0x7fff_ffff_ffff_ffff
  const U64_MAX := 0xffff_ffff_ffff_ffff

  type TimeT = t: int | TIME_MIN <= t <= TIME_MAX
  type U64 = u: int | 0 <= u <= U64_MAX

  datatype Errno = ENOENT | ENOSPC | EROFS | Other(code: int)

  datatype Mode = RW | RO | NC

  /** fs::info: read-only flag, available and used bytes. */
  datatype Info = Info(readonly: bool, avail: U64, used: U64)

  /** What a policy can learn about one branch: the mtime of the path on it, and its statistics. */
  datatype Branch = Branch(mode: Mode, mtime: Option<TimeT>, info: Option<Info>)

  /** A policy picks a branch by index or fails with an error. */
  datatype Choice = Chosen(index: nat) | Refused(error: Errno)

  // ----- the error join -----

  /** calc_error. */
  function CalcError(cur: Errno, err: Errno): Errno {
    match cur
    case ENOSPC => if err != ENOENT then err else cur
    case EROFS => if err != ENOENT && err != ENOSPC then err else cur
    case _ => err
  }

  /** The order in which one reason outranks another. */
  function Rank(e: Errno): nat {
    match e
    case ENOENT => 0
    case ENOSPC => 1
    case EROFS => 2
    case Other(_) => 3
  }

  predicate Reason(e: Errno) {
    !e.Other?
  }

  /** On the reasons policies use, calc_error is the maximum, so the order of branches is immaterial. */
  lemma CalcErrorIsJoin(a: Errno, b: Errno, c: Errno)
    requires Reason(a) && Reason(b) && Reason(c)
    ensures Rank(CalcError(a, b)) == if Rank(a) < Rank(b) then Rank(b) else Rank(a)
    ensures CalcError(a, b) == CalcError(b, a)
    ensures CalcError(a, a) == a
    ensures CalcError(CalcError(a, b), c) == CalcError(a, CalcError(b, c))
  {
  }

  // ----- filter, then select -----

  /** A branch as the filter leaves it: rejected for a reason, or a candidate with a key. */
  datatype View = Rejected(why: Errno) | Candidate(key: int)

  ghost predicate NoCandidate(vs: seq<View>) {
    forall i :: 0 <= i < |vs| ==> vs[i].Rejected?
  }

  /** The worst of the reasons, ENOENT when there are none. */
  ghost predicate WorstReason(vs: seq<View>, e: Errno) {
    && Reason(e)
    && (forall i :: 0 <= i < |vs| && vs[i].Rejected? ==> Rank(vs[i].why) <= Rank(e))
    && (e == ENOENT || exists i :: 0 <= i < |vs| && vs[i] == Rejected(e))
  }

  /** The last of the candidates with the largest key. */
  ghost predicate LastMax(vs: seq<View>, k: nat) {
    && k < |vs| && vs[k].Candidate?
    && (forall i :: 0 <= i < |vs| && vs[i].Candidate? ==> vs[i].key <= vs[k].key)
    && (forall i :: k < i < |vs| && vs[i].Candidate? ==> vs[i].key < vs[k].key)
  }

  /** The first of the candidates with the smallest key. */
  ghost predicate FirstMin(vs: seq<View>, k: nat) {
    && k < |vs| && vs[k].Candidate?
    && (forall i :: 0 <= i < |vs| && vs[i].Candidate? ==> vs[k].key <= vs[i].key)
    && (forall i :: 0 <= i < k && vs[i].Candidate? ==> vs[k].key < vs[i].key)
  }

  ghost predicate SelectsLargest(vs: seq<View>, r: Choice) {
    match r
    case Chosen(k) => LastMax(vs, k)
    case Refused(e) => NoCandidate(vs) && WorstReason(vs, e)
  }

  ghost predicate SelectsSmallest(vs: seq<View>, r: Choice) {
    match r
    case Chosen(k) => FirstMin(vs, k)
    case Refused(e) => NoCandidate(vs) && WorstReason(vs, e)
  }

  /** The same branches in any order give the same error, or a branch with the same key. */
  lemma OrderImmaterial(vs: seq<View>, ws: seq<View>, r: Choice, s: Choice)
    requires multiset(vs) == multiset(ws)
    requires (SelectsLargest(vs, r) && SelectsLargest(ws, s)) || (SelectsSmallest(vs, r) && SelectsSmallest(ws, s))
    ensures r.Refused? ==> r == s
    ensures r.Chosen? ==> s.Chosen? && vs[r.index] == ws[s.index]
  {
    SameViews(vs, ws);
    SameViews(ws, vs);
    assert r.Chosen? ==> vs[r.index] in ws;
    assert s.Chosen? ==> ws[s.index] in vs;
    if r.Refused? && s.Refused? {
      assert r.error == ENOENT || Rejected(r.error) in ws;
      assert s.error == ENOENT || Rejected(s.error) in vs;
    }
  }

  lemma SameViews(vs: seq<View>, ws: seq<View>)
    requires multiset(vs) == multiset(ws)
    ensures forall v :: v in vs ==> v in ws
  {
    forall v | v in vs
      ensures v in ws
    {
      assert v in multiset(vs);
    }
  }

  // ----- what the loops carry -----

  /** Before a candidate is found the bound is at its floor and the error is the worst reason so far. */
  ghost predicate Scanned(vs: seq<View>, n: nat, best: int, at: Option<nat>, error: Errno, floor: int)
    requires n <= |vs|
  {
    match at
    case Some(k) => LastMax(vs[..n], k) && vs[k].key == best
    case None => NoCandidate(vs[..n]) && WorstReason(vs[..n], error) && best == floor
  }

  /** A candidate below the bound, or a rejected branch, leaves the winner in place. */
  lemma KeepsMax(vs: seq<View>, n: nat, k: nat)
    requires n < |vs| && LastMax(vs[..n], k)
    requires vs[n].Rejected? || vs[n].key < vs[k].key
    ensures LastMax(vs[..n + 1], k)
  {
    var front, all := vs[..n], vs[..n + 1];
    assert forall i :: 0 <= i < n ==> all[i] == front[i];
  }

  /** A candidate at or above every earlier one takes over. */
  lemma TakesMax(vs: seq<View>, n: nat)
    requires n < |vs| && vs[n].Candidate?
    requires forall i :: 0 <= i < n && vs[i].Candidate? ==> vs[i].key <= vs[n].key
    ensures LastMax(vs[..n + 1], n)
  {
  }

  /** A further reason is joined to the error. */
  lemma JoinsReason(vs: seq<View>, n: nat, error: Errno)
    requires n < |vs| && vs[n].Rejected? && Reason(vs[n].why)
    requires NoCandidate(vs[..n]) && WorstReason(vs[..n], error)
    ensures NoCandidate(vs[..n + 1]) && WorstReason(vs[..n + 1], CalcError(error, vs[n].why))
  {
    var front, all := vs[..n], vs[..n + 1];
    assert forall i :: 0 <= i < n ==> all[i] == front[i];
    CalcErrorIsJoin(error, vs[n].why, ENOENT);
    var e := CalcError(error, vs[n].why);
    if e != ENOENT {
      if e == vs[n].why {
        assert all[n] == Rejected(e);
      } else {
        var i :| 0 <= i < |front| && front[i] == Rejected(e);
        assert all[i] == Rejected(e);
      }
    }
  }

  lemma LargestStep(vs: seq<View>, n: nat, best: int, at: Option<nat>, error: Errno, floor: int)
    requires n < |vs| && Scanned(vs, n, best, at, error, floor)
    requires vs[n].Rejected? ==> Reason(vs[n].why)
    requires vs[n].Candidate? ==> floor <= vs[n].key
    ensures vs[n].Rejected? ==> Scanned(vs, n + 1, best, at, CalcError(error, vs[n].why), floor)
    ensures vs[n].Rejected? && at.Some? ==> Scanned(vs, n + 1, best, at, error, floor)
    ensures vs[n].Candidate? && vs[n].key < best ==> Scanned(vs, n + 1, best, at, error, floor)
    ensures vs[n].Candidate? && vs[n].key >= best ==> Scanned(vs, n + 1, vs[n].key, Some(n), error, floor)
  {
    match at
    case Some(k) =>
      if vs[n].Rejected? || vs[n].key < best {
        KeepsMax(vs, n, k);
      } else {
        assert forall i :: 0 <= i < n ==> vs[..n][i] == vs[i];
        TakesMax(vs, n);
      }
    case None =>
      assert forall i :: 0 <= i < n ==> vs[..n][i] == vs[i];
      if vs[n].Rejected? {
        JoinsReason(vs, n, error);
      } else {
        TakesMax(vs, n);
      }
  }

  // ----- the filters -----

  /** What a policy asks of a branch: to create below an existing path or anywhere, to act on an
      existing path, to find one where the space is known, or just to find one. */
  datatype Rule = CreateOnPath | CreateAnywhere | ActOnPath | FindWithSpace | FindPath

  ghost predicate Eligible(rule: Rule, b: Branch, minfree: U64) {
    match rule
    case CreateOnPath =>
      b.mtime.Some? && b.mode == RW && b.info.Some? && !b.info.value.readonly && minfree <= b.info.value.avail
    case CreateAnywhere => b.mode == RW && b.info.Some? && !b.info.value.readonly && minfree <= b.info.value.avail
    case ActOnPath => b.mtime.Some? && b.mode != RO && b.info.Some? && !b.info.value.readonly
    case FindWithSpace => b.mtime.Some? && b.info.Some?
    case FindPath => b.mtime.Some?
  }

  /** The branch has the path, if one is asked for, and the mode or the file system forbids the change. */
  ghost predicate Forbidden(rule: Rule, b: Branch) {
    match rule
    case CreateOnPath => b.mtime.Some? && (b.mode != RW || (b.info.Some? && b.info.value.readonly))
    case CreateAnywhere => b.mode != RW || (b.info.Some? && b.info.value.readonly)
    case ActOnPath => b.mtime.Some? && (b.mode == RO || (b.info.Some? && b.info.value.readonly))
    case FindWithSpace => false
    case FindPath => false
  }

  /** Only the space is missing. */
  ghost predicate Full(rule: Rule, b: Branch, minfree: U64) {
    !Eligible(rule, b, minfree) && Eligible(rule, b, 0)
  }

  /** What the branches are compared by. */
  datatype Order = Space | Age | Use

  ghost function Amount(order: Order, b: Branch): int {
    match order
    case Space => if b.info.Some? then b.info.value.avail else 0
    case Age => if b.mtime.Some? then b.mtime.value else 0
    case Use => if b.info.Some? then b.info.value.used else 0
  }

  ghost function See(rule: Rule, order: Order, b: Branch, minfree: U64): View {
    if Eligible(rule, b, minfree) then Candidate(Amount(order, b))
    else if Forbidden(rule, b) then Rejected(EROFS)
    else if Full(rule, b, minfree) then Rejected(ENOSPC)
    else Rejected(ENOENT)
  }

  ghost function Views(bs: seq<Branch>, rule: Rule, order: Order, minfree: U64): seq<View> {
    seq(|bs|, i requires 0 <= i < |bs| => See(rule, order, bs[i], minfree))
  }

  /** What the error tells: of a forbidden branch, else of a full one, else of none. */
  ghost predicate Tells(bs: seq<Branch>, rule: Rule, minfree: U64, e: Errno) {
    e == if exists b :: b in bs && Forbidden(rule, b) then EROFS
         else if exists b :: b in bs && Full(rule, b, minfree) then ENOSPC
         else ENOENT
  }

  /** No branch is eligible, and the error tells why. */
  ghost predicate RefusedFor(bs: seq<Branch>, rule: Rule, minfree: U64, e: Errno) {
    (forall b :: b in bs ==> !Eligible(rule, b, minfree)) && Tells(bs, rule, minfree, e)
  }

  lemma WhyRefused(bs: seq<Branch>, rule: Rule, order: Order, minfree: U64, e: Errno)
    requires NoCandidate(Views(bs, rule, order, minfree)) && WorstReason(Views(bs, rule, order, minfree), e)
    ensures RefusedFor(bs, rule, minfree, e)
  {
    var vs := Views(bs, rule, order, minfree);
    forall b | b in bs
      ensures !Eligible(rule, b, minfree)
      ensures Forbidden(rule, b) ==> e == EROFS
      ensures Full(rule, b, minfree) ==> Rank(ENOSPC) <= Rank(e)
    {
      var i :| 0 <= i < |bs| && bs[i] == b;
      assert vs[i].Rejected?;
    }
    if e != ENOENT {
      var i :| 0 <= i < |vs| && vs[i] == Rejected(e);
      assert bs[i] in bs;
    }
  }

  /** The winner in terms of the branches. */
  lemma WhyChosen(bs: seq<Branch>, rule: Rule, order: Order, minfree: U64, k: nat)
    requires LastMax(Views(bs, rule, order, minfree), k)
    ensures k < |bs| && Eligible(rule, bs[k], minfree)
    ensures forall b :: b in bs && Eligible(rule, b, minfree) ==> Amount(order, b) <= Amount(order, bs[k])
  {
    var vs := Views(bs, rule, order, minfree);
    forall b | b in bs && Eligible(rule, b, minfree)
      ensures Amount(order, b) <= Amount(order, bs[k])
    {
      var i :| 0 <= i < |bs| && bs[i] == b;
      assert vs[i].Candidate?;
    }
  }

  lemma Explain(bs: seq<Branch>, rule: Rule, order: Order, minfree: U64, r: Choice)
    requires SelectsLargest(Views(bs, rule, order, minfree), r)
    ensures r.Chosen? ==> r.index < |bs| && Eligible(rule, bs[r.index], minfree)
    ensures r.Chosen? ==> forall b :: b in bs && Eligible(rule, b, minfree) ==> Amount(order, b) <= Amount(order, bs[r.index])
    ensures r.Refused? ==> RefusedFor(bs, rule, minfree, r.error)
  {
    match r
    case Chosen(k) => WhyChosen(bs, rule, order, minfree, k);
    case Refused(e) => WhyRefused(bs, rule, order, minfree, e);
  }

  // ----- epmfs: most free space among the branches that have the path -----

  method EpmfsCreate(bs: seq<Branch>, minfree: U64) returns (r: Choice)
    ensures SelectsLargest(Views(bs, CreateOnPath, Space, minfree), r)
    ensures r.Chosen? ==> r.index < |bs| && Eligible(CreateOnPath, bs[r.index], minfree)
    ensures r.Chosen? ==> forall b :: b in bs && Eligible(CreateOnPath, b, minfree) ==> b.info.value.avail <= bs[r.index].info.value.avail
    ensures r.Refused? ==> RefusedFor(bs, CreateOnPath, minfree, r.error)
  {
    ghost var vs := Views(bs, CreateOnPath, Space, minfree);
    var error, epmfs, at: Option<nat> := ENOENT, 0, None;
    for i := 0 to |bs|
      invariant Scanned(vs, i, epmfs, at, error, 0)
    {
      LargestStep(vs, i, epmfs, at, error, 0);
      var b := bs[i];
      if b.mtime.None? {
        error := CalcError(error, ENOENT);
      } else if b.mode == RO || b.mode == NC {
        error := CalcError(error, EROFS);
      } else if b.info.None? {
        error := CalcError(error, ENOENT);
      } else if b.info.value.readonly {
        error := CalcError(error, EROFS);
      } else if b.info.value.avail < minfree {
        error := CalcError(error, ENOSPC);
      } else if b.info.value.avail < epmfs {
      } else {
        epmfs := b.info.value.avail;
        at := Some(i);
      }
    }
    assert vs[..|bs|] == vs;
    r := if at.None? then Refused(error) else Chosen(at.value);
    Explain(bs, CreateOnPath, Space, minfree, r);
  }

  method EpmfsAction(bs: seq<Branch>) returns (r: Choice)
    ensures SelectsLargest(Views(bs, ActOnPath, Space, 0), r)
    ensures r.Chosen? ==> r.index < |bs| && Eligible(ActOnPath, bs[r.index], 0)
    ensures r.Chosen? ==> forall b :: b in bs && Eligible(ActOnPath, b, 0) ==> b.info.value.avail <= bs[r.index].info.value.avail
    ensures r.Refused? ==> RefusedFor(bs, ActOnPath, 0, r.error)
  {
    ghost var vs := Views(bs, ActOnPath, Space, 0);
    var error, epmfs, at: Option<nat> := ENOENT, 0, None;
    for i := 0 to |bs|
      invariant Scanned(vs, i, epmfs, at, error, 0)
    {
      LargestStep(vs, i, epmfs, at, error, 0);
      var b := bs[i];
      if b.mtime.None? {
        error := CalcError(error, ENOENT);
      } else if b.mode == RO {
        error := CalcError(error, EROFS);
      } else if b.info.None? {
        error := CalcError(error, ENOENT);
      } else if b.info.value.readonly {
        error := CalcError(error, EROFS);
      } else if b.info.value.avail < epmfs {
      } else {
        epmfs := b.info.value.avail;
        at := Some(i);
      }
    }
    assert vs[..|bs|] == vs;
    r := if at.None? then Refused(error) else Chosen(at.value);
    Explain(bs, ActOnPath, Space, 0, r);
  }

  method EpmfsSearch(bs: seq<Branch>) returns (r: Choice)
    ensures SelectsLargest(Views(bs, FindWithSpace, Space, 0), r)
    ensures r.Chosen? ==> r.index < |bs| && Eligible(FindWithSpace, bs[r.index], 0)
    ensures r.Chosen? ==> forall b :: b in bs && Eligible(FindWithSpace, b, 0) ==> b.info.value.avail <= bs[r.index].info.value.avail
    ensures r.Refused? ==> RefusedFor(bs, FindWithSpace, 0, r.error)
  {
    ghost var vs := Views(bs, FindWithSpace, Space, 0);
    var epmfs, at: Option<nat> := 0, None;
    for i := 0 to |bs|
      invariant Scanned(vs, i, epmfs, at, ENOENT, 0)
    {
      LargestStep(vs, i, epmfs, at, ENOENT, 0);
      var b := bs[i];
      if b.mtime.None? || b.info.None? || b.info.value.avail < epmfs {
      } else {
        epmfs := b.info.value.avail;
        at := Some(i);
      }
    }
    assert vs[..|bs|] == vs;
    r := if at.None? then Refused(ENOENT) else Chosen(at.value);
    Explain(bs, FindWithSpace, Space, 0, r);
  }

  // ----- newest: the mtime test comes before the file system is looked at -----

  method NewestCreate(bs: seq<Branch>, minfree: U64) returns (r: Choice)
    ensures SelectsLargest(Views(bs, CreateOnPath, Age, minfree), r)
    ensures r.Chosen? ==> r.index < |bs| && Eligible(CreateOnPath, bs[r.index], minfree)
    ensures r.Chosen? ==> forall b :: b in bs && Eligible(CreateOnPath, b, minfree) ==> b.mtime.value <= bs[r.index].mtime.value
    ensures r.Refused? ==> RefusedFor(bs, CreateOnPath, minfree, r.error)
  {
    ghost var vs := Views(bs, CreateOnPath, Age, minfree);
    var error, newest: int, at: Option<nat> := ENOENT, TIME_MIN, None;
    for i := 0 to |bs|
      invariant Scanned(vs, i, newest, at, error, TIME_MIN)
    {
      LargestStep(vs, i, newest, at, error, TIME_MIN);
      var b := bs[i];
      if b.mtime.None? {
        error := CalcError(error, ENOENT);
      } else if b.mode == RO || b.mode == NC {
        error := CalcError(error, EROFS);
      } else if b.mtime.value < newest {
        assert at.Some?;
      } else if b.info.None? {
        error := CalcError(error, ENOENT);
      } else if b.info.value.readonly {
        error := CalcError(error, EROFS);
      } else if b.info.value.avail < minfree {
        error := CalcError(error, ENOSPC);
      } else {
        newest := b.mtime.value;
        at := Some(i);
      }
    }
    assert vs[..|bs|] == vs;
    r := if at.None? then Refused(error) else Chosen(at.value);
    Explain(bs, CreateOnPath, Age, minfree, r);
  }

  method NewestAction(bs: seq<Branch>) returns (r: Choice)
    ensures SelectsLargest(Views(bs, ActOnPath, Age, 0), r)
    ensures r.Chosen? ==> r.index < |bs| && Eligible(ActOnPath, bs[r.index], 0)
    ensures r.Chosen? ==> forall b :: b in bs && Eligible(ActOnPath, b, 0) ==> b.mtime.value <= bs[r.index].mtime.value
    ensures r.Refused? ==> RefusedFor(bs, ActOnPath, 0, r.error)
  {
    ghost var vs := Views(bs, ActOnPath, Age, 0);
    var error, newest: int, at: Option<nat> := ENOENT, TIME_MIN, None;
    for i := 0 to |bs|
      invariant Scanned(vs, i, newest, at, error, TIME_MIN)
    {
      LargestStep(vs, i, newest, at, error, TIME_MIN);
      var b := bs[i];
      if b.mtime.None? {
        error := CalcError(error, ENOENT);
      } else if b.mode == RO {
        error := CalcError(error, EROFS);
      } else if b.mtime.value < newest {
        assert at.Some?;
      } else if b.info.None? {
        error := CalcError(error, ENOENT);
      } else if b.info.value.readonly {
        error := CalcError(error, EROFS);
      } else {
        newest := b.mtime.value;
        at := Some(i);
      }
    }
    assert vs[..|bs|] == vs;
    r := if at.None? then Refused(error) else Chosen(at.value);
    Explain(bs, ActOnPath, Age, 0, r);
  }

  method NewestSearch(bs: seq<Branch>) returns (r: Choice)
    ensures SelectsLargest(Views(bs, FindPath, Age, 0), r)
    ensures r.Chosen? ==> r.index < |bs| && Eligible(FindPath, bs[r.index], 0)
    ensures r.Chosen? ==> forall b :: b in bs && Eligible(FindPath, b, 0) ==> b.mtime.value <= bs[r.index].mtime.value
    ensures r.Refused? ==> RefusedFor(bs, FindPath, 0, r.error)
  {
    ghost var vs := Views(bs, FindPath, Age, 0);
    var newest: int, at: Option<nat> := TIME_MIN, None;
    for i := 0 to |bs|
      invariant Scanned(vs, i, newest, at, ENOENT, TIME_MIN)
    {
      LargestStep(vs, i, newest, at, ENOENT, TIME_MIN);
      var b := bs[i];
      if b.mtime.None? || b.mtime.value < newest {
      } else {
        newest := b.mtime.value;
        at := Some(i);
      }
    }
    assert vs[..|bs|] == vs;
    r := if at.None? then Refused(ENOENT) else Chosen(at.value);
    Explain(bs, FindPath, Age, 0, r);
  }

  // ----- eplus: a search whose bound starts at the least value there is -----

  /** The search of eplus never selects a branch. */
  method EplusSearch(bs: seq<Branch>) returns (r: Choice)
    ensures r == Refused(ENOENT)
  {
    var eplus, at := 0, -1;
    for i := 0 to |bs|
      invariant eplus == 0 && at == -1
    {
      var b := bs[i];
      if b.mtime.None? || b.info.None? || b.info.value.used >= eplus {
      } else {
        eplus, at := b.info.value.used, i;
      }
    }
    r := Refused(ENOENT);
    if at != -1 {
      assert false;
    }
  }

  // ----- lus: least used space -----

  /** What the loop sees: its starting bound hides a candidate that uses 2^64-1 bytes. */
  ghost function LusSeen(bs: seq<Branch>, minfree: U64): seq<View> {
    seq(|bs|, i requires 0 <= i < |bs| =>
      var v := See(CreateAnywhere, Use, bs[i], minfree);
      if v == Candidate(U64_MAX) then Rejected(ENOENT) else v)
  }

  ghost predicate ScannedDown(vs: seq<View>, n: nat, best: int, at: Option<nat>, error: Errno)
    requires n <= |vs|
  {
    match at
    case Some(k) => FirstMin(vs[..n], k) && vs[k].key == best
    case None => NoCandidate(vs[..n]) && WorstReason(vs[..n], error) && best == U64_MAX
  }

  lemma SmallestStep(vs: seq<View>, n: nat, best: int, at: Option<nat>, error: Errno)
    requires n < |vs| && ScannedDown(vs, n, best, at, error)
    requires vs[n].Rejected? ==> Reason(vs[n].why)
    ensures vs[n].Rejected? ==> ScannedDown(vs, n + 1, best, at, CalcError(error, vs[n].why))
    ensures vs[n] == Rejected(ENOENT) ==> CalcError(error, ENOENT) == error || at.Some?
    ensures at.Some? && (vs[n].Rejected? || vs[n].key >= best) ==> ScannedDown(vs, n + 1, best, at, error)
    ensures vs[n].Candidate? && vs[n].key < best ==> ScannedDown(vs, n + 1, vs[n].key, Some(n), error)
  {
    var front, all := vs[..n], vs[..n + 1];
    assert forall i :: 0 <= i < n ==> all[i] == front[i];
    if at.None? && vs[n].Rejected? {
      JoinsReason(vs, n, error);
    }
  }

  /** The branch can take the file and the starting bound does not hide it. */
  ghost predicate Visible(b: Branch, minfree: U64) {
    Eligible(CreateAnywhere, b, minfree) && b.info.value.used < U64_MAX
  }

  lemma ExplainLus(bs: seq<Branch>, minfree: U64, r: Choice)
    requires SelectsSmallest(LusSeen(bs, minfree), r)
    ensures r.Chosen? ==> r.index < |bs| && Visible(bs[r.index], minfree)
    ensures r.Chosen? ==> forall b :: b in bs && Visible(b, minfree) ==> bs[r.index].info.value.used <= b.info.value.used
    ensures r.Refused? ==> (forall b :: b in bs ==> !Visible(b, minfree)) && Tells(bs, CreateAnywhere, minfree, r.error)
  {
    var vs := LusSeen(bs, minfree);
    forall b | b in bs
      ensures Visible(b, minfree) ==> r.Chosen? && bs[r.index].info.Some? && bs[r.index].info.value.used <= b.info.value.used
      ensures r.Refused? && Forbidden(CreateAnywhere, b) ==> r.error == EROFS
      ensures r.Refused? && Full(CreateAnywhere, b, minfree) ==> Rank(ENOSPC) <= Rank(r.error)
    {
      var i :| 0 <= i < |bs| && bs[i] == b;
      assert vs[i] == if Visible(b, minfree) then Candidate(b.info.value.used) else vs[i];
    }
    if r.Refused? && r.error != ENOENT {
      var i :| 0 <= i < |vs| && vs[i] == Rejected(r.error);
      assert bs[i] in bs;
    }
  }

  method LusCreate(bs: seq<Branch>, minfree: U64) returns (r: Choice)
    ensures SelectsSmallest(LusSeen(bs, minfree), r)
    ensures r.Chosen? ==> r.index < |bs| && Visible(bs[r.index], minfree)
    ensures r.Chosen? ==> forall b :: b in bs && Visible(b, minfree) ==> bs[r.index].info.value.used <= b.info.value.used
    ensures r.Refused? ==> (forall b :: b in bs ==> !Visible(b, minfree)) && Tells(bs, CreateAnywhere, minfree, r.error)
  {
    ghost var vs := LusSeen(bs, minfree);
    var error, lus: int, at: Option<nat> := ENOENT, U64_MAX, None;
    for i := 0 to |bs|
      invariant ScannedDown(vs, i, lus, at, error)
    {
      SmallestStep(vs, i, lus, at, error);
      var b := bs[i];
      if b.mode == RO || b.mode == NC {
        error := CalcError(error, EROFS);
      } else if b.info.None? {
        error := CalcError(error, ENOENT);
      } else if b.info.value.readonly {
        error := CalcError(error, EROFS);
      } else if b.info.value.avail < minfree {
        error := CalcError(error, ENOSPC);
      } else if b.info.value.used >= lus {
      } else {
        lus := b.info.value.used;
        at := Some(i);
      }
    }
    assert vs[..|bs|] == vs;
    r := if at.None? then Refused(error) else Chosen(at.value);
    ExplainLus(bs, minfree, r);
  }

  /** Some branch may take the file, and each that may uses 2^64-1 bytes. */
  ghost predicate OnlyFull(vs: seq<View>) {
    && !NoCandidate(vs)
    && forall i :: 0 <= i < |vs| && vs[i].Candidate? ==> vs[i].key == U64_MAX
  }

  /** lus selects the least used branch exactly when some eligible branch uses less than 2^64-1 bytes. */
  lemma LusExact(bs: seq<Branch>, minfree: U64, r: Choice)
    requires SelectsSmallest(LusSeen(bs, minfree), r)
    ensures SelectsSmallest(Views(bs, CreateAnywhere, Use, minfree), r) <==> !OnlyFull(Views(bs, CreateAnywhere, Use, minfree))
  {
    var seen, vs := LusSeen(bs, minfree), Views(bs, CreateAnywhere, Use, minfree);
    assert forall i :: 0 <= i < |bs| ==> vs[i] == seen[i] || (vs[i] == Candidate(U64_MAX) && seen[i] == Rejected(ENOENT));
    if r.Refused? && r.error != ENOENT {
      var i :| 0 <= i < |seen| && seen[i] == Rejected(r.error);
      assert vs[i] == Rejected(r.error);
    }
  }

  lemma LusFullBranch()
    ensures var bs := [Branch(RW, None, Some(Info(false, 1, U64_MAX)))];
            SelectsSmallest(LusSeen(bs, 0), Refused(ENOENT)) && OnlyFull(Views(bs, CreateAnywhere, Use, 0))
  {
    var bs := [Branch(RW, None, Some(Info(false, 1, U64_MAX)))];
    assert Views(bs, CreateAnywhere, Use, 0)[0] == Candidate(U64_MAX);
  }
}
