/** FUSE::rename over all branches, for every outcome of every system call. */
module Rename {
  import opened Paths
  import opened Pool
  import opened Wrappers
  import P = Policies

  /** What happened on one branch. */
  datatype Outcome =
    | Unselected
    | CloneFailed(errno: int)    // the directory for the new name could not be made
    | RenameFailed(errno: int)
    | Renamed
    | Phantom(errno: int)        // counted as a success although nothing was renamed

  /** What a policy returns. */
  datatype Lookup = Found(branches: seq<Branch>) | NotFound(errno: int)

  type Outcomes = map<Branch, Outcome>

  function Of(os: Outcomes, b: Branch): Outcome {
    if b in os then os[b] else Unselected
  }

  // ----- the error code -----

  /** error::calc: one success makes a success, otherwise the latest error stands. */
  function Calc(rv: int, prev: int, cur: int): int {
    if rv == -1 then (if prev == 0 then 0 else cur) else 0
  }

  function CalcOutcome(o: Outcome, prev: int): int {
    match o
    case Unselected => prev
    case CloneFailed(e) => Calc(-1, prev, e)
    case RenameFailed(e) => Calc(-1, prev, e)
    case Renamed => Calc(0, prev, 0)
    case Phantom(e) => Calc(-e, prev, e)
  }

  /** The code after the branches bs, starting from -1. */
  function Code(bs: seq<Branch>, os: Outcomes): int {
    if bs == [] then -1 else CalcOutcome(Of(os, bs[|bs| - 1]), Code(bs[..|bs| - 1], os))
  }

  predicate Succeeds(o: Outcome) {
    o.Renamed? || o.Phantom?
  }

  predicate Fails(o: Outcome) {
    o.CloneFailed? || o.RenameFailed?
  }

  ghost predicate GoodErrno(o: Outcome) {
    match o
    case CloneFailed(e) => e > 0
    case RenameFailed(e) => e > 0
    case Phantom(e) => e > 0 && e != EPERM
    case _ => true
  }

  ghost predicate LastSelected(bs: seq<Branch>, os: Outcomes, i: nat)
    requires i < |bs|
  {
    Fails(Of(os, bs[i])) && forall j :: i < j < |bs| ==> Of(os, bs[j]).Unselected?
  }

  /** The code is 0 exactly when some branch succeeded; without a success it is the error of the
      last selected branch; without a selected branch it stays -1. */
  lemma {:induction false} CodeMeaning(bs: seq<Branch>, os: Outcomes)
    requires forall b :: b in os ==> GoodErrno(os[b])
    ensures Code(bs, os) == 0 <==> exists i :: 0 <= i < |bs| && Succeeds(Of(os, bs[i]))
    ensures Code(bs, os) == -1 <==> forall i :: 0 <= i < |bs| ==> Of(os, bs[i]).Unselected?
    ensures forall i :: 0 <= i < |bs| && Code(bs, os) != 0 && LastSelected(bs, os, i) ==> Code(bs, os) == Of(os, bs[i]).errno
  {
    if bs != [] {
      var n := |bs| - 1;
      CodeMeaning(bs[..n], os);
      assert forall i :: 0 <= i < n ==> bs[..n][i] == bs[i];
      if exists i :: 0 <= i < n && Succeeds(Of(os, bs[..n][i])) {
        var i :| 0 <= i < n && Succeeds(Of(os, bs[..n][i]));
        assert Succeeds(Of(os, bs[i]));
      }
      assert Succeeds(Of(os, bs[n])) ==> Code(bs, os) == 0;
      forall i | 0 <= i < n && Code(bs, os) != 0 && LastSelected(bs, os, i)
        ensures Code(bs, os) == Of(os, bs[i]).errno
      {
        assert LastSelected(bs[..n], os, i);
      }
    }
  }

  // ----- the file system -----

  /** One entry after the loop over the branches, given what happened on its branch. */
  ghost predicate EntryOk(before: Nodes, now: Nodes, k: Key, o: Outcome, oldPath: Path, newPath: Path) {
    if o.Renamed? && k.path == oldPath then k !in now
    else if o.Renamed? && k.path == newPath then
      Key(k.branch, oldPath) in before && k in now && now[k] == before[Key(k.branch, oldPath)]
    else if k in before then k in now && now[k] == before[k]
    else k in now ==> now[k] == Directory && k.path in Ancestors(Dir(newPath)) && !o.Unselected?
  }

  ghost predicate Moved(before: Nodes, now: Nodes, os: Outcomes, oldPath: Path, newPath: Path) {
    forall k: Key :: EntryOk(before, now, k, Of(os, k.branch), oldPath, newPath)
  }

  /** The removals that an overall success asks for on a branch. */
  ghost predicate ToRemove(k: Key, o: Outcome, oldPath: Path, newPath: Path) {
    (o.Unselected? && k.path == newPath) || (o.RenameFailed? && k.path == oldPath)
  }

  ghost predicate Possible(nodes: Nodes, b: Branch, oldPath: Path, newPath: Path) {
    Key(b, oldPath) in nodes && oldPath !in Ancestors(newPath)
  }

  /** The error of the system call, 0 for none: what the kernel wants to answer; else a missing name
      and a path put below itself fail in any case. */
  function KernelErrno(nodes: Nodes, b: Branch, oldPath: Path, newPath: Path, want: nat): nat {
    if want != 0 then want
    else if Key(b, oldPath) !in nodes then ENOENT
    else if oldPath in Ancestors(newPath) then EINVAL
    else 0
  }

  method RenameCall(fs: FileSystem, b: Branch, oldPath: Path, newPath: Path, want: nat) returns (rv: int, errno: int)
    requires oldPath != newPath
    modifies fs
    ensures rv == 0 <==> KernelErrno(old(fs.nodes), b, oldPath, newPath, want) == 0
    ensures rv == 0 || (rv == -1 && errno == KernelErrno(old(fs.nodes), b, oldPath, newPath, want) && fs.nodes == old(fs.nodes))
    ensures rv == 0 ==> fs.nodes == (old(fs.nodes) - {Key(b, oldPath)})[Key(b, newPath) := old(fs.nodes)[Key(b, oldPath)]]
  {
    rv, errno := -1, KernelErrno(fs.nodes, b, oldPath, newPath, want);
    if errno == 0 {
      rv := 0;
      fs.nodes := (fs.nodes - {Key(b, oldPath)})[Key(b, newPath) := fs.nodes[Key(b, oldPath)]];
    }
  }

  method Member(haystack: seq<Branch>, needle: Branch) returns (found: bool)
    ensures found <==> needle in haystack
  {
    for i := 0 to |haystack|
      invariant needle !in haystack[..i]
    {
      if haystack[i] == needle {
        return true;
      }
    }
    found := false;
  }

  // ----- one branch, create-path variant -----

  lemma CloneStep(before: Nodes, mid: Nodes, now: Nodes, os: Outcomes, b: Branch, from: Branch, o: Outcome, oldPath: Path, newPath: Path)
    requires Moved(before, mid, os, oldPath, newPath) && b !in os && !o.Unselected? && !o.Renamed?
    requires Cloned(mid, now, from, b, Dir(newPath))
    ensures Moved(before, now, os[b := o], oldPath, newPath)
  {
    forall k: Key
      ensures EntryOk(before, now, k, Of(os[b := o], k.branch), oldPath, newPath)
    {
      assert EntryOk(before, mid, k, Of(os, k.branch), oldPath, newPath);
      if k in now && k !in mid {
        assert k.branch == b;
      }
    }
  }

  lemma RenameStep(before: Nodes, mid: Nodes, now: Nodes, os: Outcomes, b: Branch, o: Outcome, oldPath: Path, newPath: Path)
    requires Moved(before, mid, os[b := o], oldPath, newPath) && !o.Renamed? && oldPath != newPath
    requires Key(b, oldPath) in mid && oldPath !in Ancestors(newPath)
    requires now == (mid - {Key(b, oldPath)})[Key(b, newPath) := mid[Key(b, oldPath)]]
    ensures Moved(before, now, os[b := Renamed], oldPath, newPath)
  {
    forall k: Key
      ensures EntryOk(before, now, k, Of(os[b := Renamed], k.branch), oldPath, newPath)
    {
      assert EntryOk(before, mid, k, Of(os[b := o], k.branch), oldPath, newPath);
      assert EntryOk(before, mid, Key(b, oldPath), o, oldPath, newPath);
      if newPath != "" {
        DirShorter(newPath);
        assert Ancestors(Dir(newPath)) <= Ancestors(newPath);
      }
    }
  }

  /** An entry of the removal list; a clone that failed leaves an empty path there. */
  datatype Target = Nowhere | At(key: Key)

  /** The answers of the kernel while branch b is worked on: to the cloning of each directory, and the
      error of the rename, 0 for none. */
  datatype CreateAnswers = CreateAnswers(clone: Path -> CloneAnswers, rename: nat)

  /** The directories for the new name can be had on branch b. */
  ghost predicate DirsCase(before: Nodes, b: Branch, search: Branch, a: CreateAnswers, newPath: Path) {
    b == search || CloneOk(before, search, Dir(newPath), a.clone)
  }

  /** When a branch is renamed: they can, and the rename is possible and allowed. */
  ghost predicate CreateCase(before: Nodes, b: Branch, search: Branch, a: CreateAnswers, oldPath: Path, newPath: Path) {
    DirsCase(before, b, search, a, newPath) && a.rename == 0 && Possible(before, b, oldPath, newPath)
  }

  /** The branch the directories are cloned from has them as it had them. */
  ghost predicate SearchSame(before: Nodes, now: Nodes, search: Branch, newPath: Path) {
    forall a :: a in Ancestors(Dir(newPath)) ==>
      (Key(search, a) in before <==> Key(search, a) in now) && (Key(search, a) in now ==> now[Key(search, a)] == before[Key(search, a)])
  }

  lemma CasesSame(before: Nodes, mid: Nodes, os: Outcomes, b: Branch, search: Branch, a: CreateAnswers, oldPath: Path, newPath: Path)
    requires Moved(before, mid, os, oldPath, newPath) && b !in os && SearchSame(before, mid, search, newPath)
    ensures DirsCase(mid, b, search, a, newPath) <==> DirsCase(before, b, search, a, newPath)
    ensures Possible(mid, b, oldPath, newPath) <==> Possible(before, b, oldPath, newPath)
  {
    assert EntryOk(before, mid, Key(b, oldPath), Unselected, oldPath, newPath);
    forall p | p in Ancestors(Dir(newPath))
      ensures StepOk(mid, search, p, a.clone(p)) <==> StepOk(before, search, p, a.clone(p))
    {
    }
  }

  lemma ParentsShorter(p: Path)
    ensures p !in Ancestors(Dir(p)) && Ancestors(Dir(p)) <= Ancestors(p)
  {
    if p != "" {
      DirShorter(p);
    }
  }

  lemma SearchCloned(before: Nodes, mid: Nodes, now: Nodes, search: Branch, b: Branch, newPath: Path)
    requires SearchSame(before, mid, search, newPath) && Cloned(mid, now, search, b, Dir(newPath))
    ensures SearchSame(before, now, search, newPath)
  {
  }

  /** A rename keeps what the search branch has, and the directories of the new name. */
  lemma SearchRenamed(before: Nodes, mid: Nodes, now: Nodes, search: Branch, b: Branch, oldPath: Path, newPath: Path)
    requires SearchSame(before, mid, search, newPath) && Possible(mid, b, oldPath, newPath)
    requires now == (mid - {Key(b, oldPath)})[Key(b, newPath) := mid[Key(b, oldPath)]]
    ensures SearchSame(before, now, search, newPath)
    ensures AllPresent(mid, b, Dir(newPath)) ==> AllPresent(now, b, Dir(newPath))
  {
    ParentsShorter(newPath);
    forall p | p in Ancestors(Dir(newPath))
      ensures (Key(search, p) in now <==> Key(search, p) in mid) && (Key(search, p) in now ==> now[Key(search, p)] == mid[Key(search, p)])
    {
    }
  }

  /** _rename_create_path_core on a selected branch. */
  method CreateCore(fs: FileSystem, b: Branch, search: Branch, a: CreateAnswers, oldPath: Path, newPath: Path, ghost before: Nodes, ghost os: Outcomes)
    returns (rv: int, errno: int, remove: Target, ghost o: Outcome)
    requires oldPath != newPath && b !in os && Moved(before, fs.nodes, os, oldPath, newPath) && SearchSame(before, fs.nodes, search, newPath)
    modifies fs
    ensures Moved(before, fs.nodes, os[b := o], oldPath, newPath) && SearchSame(before, fs.nodes, search, newPath)
    ensures forall k: Key :: k.branch != b ==> (k in fs.nodes <==> k in old(fs.nodes))
    ensures GoodErrno(o) && (o.Renamed? || Fails(o))
    ensures o.CloneFailed? <==> !DirsCase(before, b, search, a, newPath)
    ensures o.Renamed? <==> CreateCase(before, b, search, a, oldPath, newPath)
    ensures o.Renamed? && b != search ==> AllPresent(fs.nodes, b, Dir(newPath))
    ensures o.RenameFailed? && a.rename != 0 ==> o.errno == a.rename
    ensures o.Renamed? ==> rv == 0
    ensures Fails(o) ==> rv == -1 && errno == o.errno && remove == if o.RenameFailed? then At(Key(b, oldPath)) else Nowhere
  {
    ghost var mid := fs.nodes;
    CasesSame(before, mid, os, b, search, a, oldPath, newPath);
    remove := Nowhere;
    var dir := Dirname(newPath);
    rv, errno := ClonePathAsRoot(fs, search, b, dir, a.clone);
    o := CloneFailed(errno);
    ghost var cloned := fs.nodes;
    if rv != -1 {
      remove := At(Key(b, oldPath));
      rv, errno := RenameCall(fs, b, oldPath, newPath, a.rename);
      o := RenameFailed(errno);
    }
    CloneStep(before, mid, cloned, os, b, search, o, oldPath, newPath);
    PossibleSame(mid, cloned, search, b, oldPath, newPath);
    SearchCloned(before, mid, cloned, search, b, newPath);
    if rv == 0 {
      SearchRenamed(before, cloned, fs.nodes, search, b, oldPath, newPath);
      RenameStep(before, cloned, fs.nodes, os, b, o, oldPath, newPath);
      o := Renamed;
    }
  }

  lemma PossibleSame(mid: Nodes, cloned: Nodes, search: Branch, b: Branch, oldPath: Path, newPath: Path)
    requires Cloned(mid, cloned, search, b, Dir(newPath))
    ensures Possible(cloned, b, oldPath, newPath) <==> Possible(mid, b, oldPath, newPath)
  {
    ParentsShorter(newPath);
  }

  /** The removal list after the branches bs. */
  ghost predicate Listed(targets: seq<Target>, bs: seq<Branch>, os: Outcomes, oldPath: Path, newPath: Path) {
    forall k: Key :: At(k) in targets <==> k.branch in bs && ToRemove(k, Of(os, k.branch), oldPath, newPath)
  }

  lemma ListedMore(targets: seq<Target>, bs: seq<Branch>, b: Branch, os: Outcomes, o: Outcome, t: seq<Target>, oldPath: Path, newPath: Path)
    requires Listed(targets, bs, os, oldPath, newPath) && b !in bs && b !in os
    requires t == [] ==> !o.Unselected? && !o.RenameFailed?
    requires t != [] ==> |t| == 1 && t[0] == (if o.Unselected? then At(Key(b, newPath)) else if o.RenameFailed? then At(Key(b, oldPath)) else Nowhere)
    ensures Listed(targets + t, bs + [b], os[b := o], oldPath, newPath)
  {
    forall k: Key
      ensures At(k) in targets + t <==> k.branch in bs + [b] && ToRemove(k, Of(os[b := o], k.branch), oldPath, newPath)
    {
    }
  }

  lemma {:induction false} CodeMore(bs: seq<Branch>, b: Branch, os: Outcomes, o: Outcome)
    requires b !in bs && b !in os
    ensures Code(bs, os[b := o]) == Code(bs, os)
    ensures Code(bs + [b], os[b := o]) == CalcOutcome(o, Code(bs, os))
  {
    assert (bs + [b])[..|bs|] == bs;
    if bs != [] {
      CodeMore(bs[..|bs| - 1], b, os, o);
    }
  }

  ghost predicate Distinct(bs: seq<Branch>) {
    forall i, j :: 0 <= i < j < |bs| ==> bs[i] != bs[j]
  }

  /** All that is known after the branches bs. */
  ghost predicate Done(before: Nodes, now: Nodes, bs: seq<Branch>, selected: seq<Branch>, os: Outcomes,
                       targets: seq<Target>, error: int, oldPath: Path, newPath: Path)
  {
    && Moved(before, now, os, oldPath, newPath) && Listed(targets, bs, os, oldPath, newPath) && error == Code(bs, os)
    && (forall b :: b in os <==> b in bs)
    && (forall b :: b in bs ==> GoodErrno(os[b]) && (os[b].Unselected? <==> b !in selected))
  }

  lemma DoneMore(before: Nodes, now: Nodes, bs: seq<Branch>, selected: seq<Branch>, os: Outcomes, targets: seq<Target>, error: int,
                 b: Branch, o: Outcome, now': Nodes, t: seq<Target>, error': int, oldPath: Path, newPath: Path)
    requires Done(before, now, bs, selected, os, targets, error, oldPath, newPath) && b !in bs
    requires Moved(before, now', os[b := o], oldPath, newPath) && GoodErrno(o) && (o.Unselected? <==> b !in selected)
    requires error' == CalcOutcome(o, error)
    requires t == [] ==> !o.Unselected? && !o.RenameFailed?
    requires t != [] ==> |t| == 1 && t[0] == (if o.Unselected? then At(Key(b, newPath)) else if o.RenameFailed? then At(Key(b, oldPath)) else Nowhere)
    ensures Done(before, now', bs + [b], selected, os[b := o], targets + t, error', oldPath, newPath)
  {
    ListedMore(targets, bs, b, os, o, t, oldPath, newPath);
    CodeMore(bs, b, os, o);
  }

  /** _remove. Each removal may fail unless `works`. */
  method RemoveAll(fs: FileSystem, targets: seq<Target>, works: bool)
    modifies fs
    ensures forall k :: k in fs.nodes ==> k in old(fs.nodes) && fs.nodes[k] == old(fs.nodes)[k]
    ensures forall k :: k in old(fs.nodes) && At(k) !in targets ==> k in fs.nodes
    ensures works ==> forall k :: At(k) in targets ==> k !in fs.nodes
  {
    for i := 0 to |targets|
      invariant forall k :: k in fs.nodes ==> k in old(fs.nodes) && fs.nodes[k] == old(fs.nodes)[k]
      invariant forall k :: k in old(fs.nodes) && At(k) !in targets[..i] ==> k in fs.nodes
      invariant works ==> forall k :: At(k) in targets[..i] ==> k !in fs.nodes
    {
      if targets[i].At? {
        if works {
          fs.nodes := fs.nodes - {targets[i].key};
        } else {
          if * {
            fs.nodes := fs.nodes - {targets[i].key};
          }
        }
      }
    }
    assert targets[..|targets|] == targets;
  }

  /** One entry at the end of a rename that succeeded somewhere. */
  ghost predicate FinalOk(before: Nodes, now: Nodes, bs: seq<Branch>, os: Outcomes, k: Key, oldPath: Path, newPath: Path) {
    if k.branch in bs && ToRemove(k, Of(os, k.branch), oldPath, newPath) then k !in now
    else EntryOk(before, now, k, Of(os, k.branch), oldPath, newPath)
  }

  /** The whole pool at the end: on an error only directories were added; on a success every entry
      is as FinalOk says. */
  ghost predicate Ended(before: Nodes, now: Nodes, bs: seq<Branch>, os: Outcomes, oldPath: Path, newPath: Path) {
    if Code(bs, os) != 0 then
      && Kept(before, now)
      && (forall k :: k in now && k !in before ==> now[k] == Directory && k.path in Ancestors(Dir(newPath)))
    else forall k: Key :: FinalOk(before, now, bs, os, k, oldPath, newPath)
  }

  lemma EndedError(before: Nodes, now: Nodes, bs: seq<Branch>, selected: seq<Branch>, os: Outcomes,
                   targets: seq<Target>, error: int, oldPath: Path, newPath: Path)
    requires Done(before, now, bs, selected, os, targets, error, oldPath, newPath) && error != 0
    ensures Ended(before, now, bs, os, oldPath, newPath)
  {
    CodeMeaning(bs, os);
    forall k: Key
      ensures k in before ==> k in now && now[k] == before[k]
      ensures k in now && k !in before ==> now[k] == Directory && k.path in Ancestors(Dir(newPath))
    {
      assert EntryOk(before, now, k, Of(os, k.branch), oldPath, newPath);
      if k.branch in bs {
        var i :| 0 <= i < |bs| && bs[i] == k.branch;
        assert !Succeeds(Of(os, bs[i]));
      }
    }
  }

  lemma EndedSuccess(before: Nodes, mid: Nodes, now: Nodes, bs: seq<Branch>, selected: seq<Branch>, os: Outcomes,
                     targets: seq<Target>, error: int, oldPath: Path, newPath: Path)
    requires Done(before, mid, bs, selected, os, targets, error, oldPath, newPath) && error == 0 && oldPath != newPath
    requires forall k :: k in now ==> k in mid && now[k] == mid[k]
    requires forall k :: k in mid && At(k) !in targets ==> k in now
    requires forall k :: At(k) in targets ==> k !in now
    ensures Ended(before, now, bs, os, oldPath, newPath)
  {
    forall k: Key
      ensures FinalOk(before, now, bs, os, k, oldPath, newPath)
    {
      assert EntryOk(before, mid, k, Of(os, k.branch), oldPath, newPath);
      assert At(k) in targets <==> k.branch in bs && ToRemove(k, Of(os, k.branch), oldPath, newPath);
    }
  }

  /** What a caller sees of a finished rename: os tells what happened on each branch. */
  ghost predicate Outcome0(os: Outcomes, bs: seq<Branch>, selected: seq<Branch>) {
    && (forall b :: b in os <==> b in bs)
    && (forall b :: b in bs ==> GoodErrno(os[b]) && (os[b].Unselected? <==> b !in selected))
  }

  /** The end of both variants: the removals, if some branch succeeded. */
  method Conclude(fs: FileSystem, targets: seq<Target>, error: int, works: bool, ghost before: Nodes, ghost bs: seq<Branch>,
                  ghost selected: seq<Branch>, ghost os: Outcomes, ghost oldPath: Path, ghost newPath: Path)
    requires Done(before, fs.nodes, bs, selected, os, targets, error, oldPath, newPath) && oldPath != newPath
    modifies fs
    ensures works || error != 0 ==> Ended(before, fs.nodes, bs, os, oldPath, newPath)
    ensures forall k: Key :: k in old(fs.nodes) && Of(os, k.branch).Renamed? ==> k in fs.nodes
  {
    ghost var mid := fs.nodes;
    if error == 0 {
      RemoveAll(fs, targets, works);
      if works {
        EndedSuccess(before, mid, fs.nodes, bs, selected, os, targets, error, oldPath, newPath);
      }
    } else {
      EndedError(before, mid, bs, selected, os, targets, error, oldPath, newPath);
    }
  }

  /** The outcome on a branch follows from the pool as it was and the kernel's answers. */
  ghost predicate CreateOutcome(before: Nodes, b: Branch, chosen: seq<Branch>, search: Branch, a: CreateAnswers, o: Outcome, oldPath: Path, newPath: Path) {
    && !o.Phantom?
    && (o.CloneFailed? <==> b in chosen && !DirsCase(before, b, search, a, newPath))
    && (o.Renamed? <==> b in chosen && CreateCase(before, b, search, a, oldPath, newPath))
    && (o.RenameFailed? && a.rename != 0 ==> o.errno == a.rename)
  }

  /** Every renamed branch but the one they are cloned from has the directories of the new name. */
  ghost predicate DirsThere(now: Nodes, os: Outcomes, search: Branch, newPath: Path) {
    forall b :: b in os && os[b].Renamed? && b != search ==> AllPresent(now, b, Dir(newPath))
  }

  /** One round of the loop over the branches: _rename_create_path_core, with the selection. */
  method CreateRound(fs: FileSystem, b: Branch, chosen: seq<Branch>, search: Branch, a: CreateAnswers, oldPath: Path, newPath: Path,
                     targets: seq<Target>, error: int, ghost before: Nodes, ghost seen: seq<Branch>, ghost os: Outcomes)
    returns (targets': seq<Target>, error': int, ghost o: Outcome)
    requires Done(before, fs.nodes, seen, chosen, os, targets, error, oldPath, newPath)
    requires b !in seen && oldPath != newPath && SearchSame(before, fs.nodes, search, newPath)
    modifies fs
    ensures Done(before, fs.nodes, seen + [b], chosen, os[b := o], targets', error', oldPath, newPath)
    ensures SearchSame(before, fs.nodes, search, newPath)
    ensures forall k: Key :: k.branch != b ==> (k in fs.nodes <==> k in old(fs.nodes))
    ensures CreateOutcome(before, b, chosen, search, a, o, oldPath, newPath)
    ensures o.Renamed? && b != search ==> AllPresent(fs.nodes, b, Dir(newPath))
  {
    ghost var mid := fs.nodes;
    o := Unselected;
    var push: seq<Target> := [];
    error' := error;
    var selected := Member(chosen, b);
    if selected {
      var rv, errno, t;
      rv, errno, t, o := CreateCore(fs, b, search, a, oldPath, newPath, before, os);
      error' := Calc(rv, error, errno);
      if rv == -1 {
        push := [t];
      }
    } else {
      push := [At(Key(b, newPath))];
    }
    DoneMore(before, mid, seen, chosen, os, targets, error, b, o, fs.nodes, push, error', oldPath, newPath);
    targets' := targets + push;
  }

  /** _rename_create_path. */
  method RenameCreatePath(fs: FileSystem, branches: seq<Branch>, action: Lookup, search: Lookup, ask: Branch -> CreateAnswers,
                          oldPath: Path, newPath: Path, works: bool)
    returns (res: int, ghost os: Outcomes)
    requires Distinct(branches) && oldPath != newPath && (search.Found? ==> search.branches != [])
    modifies fs
    ensures action.NotFound? ==> res == -action.errno && fs.nodes == old(fs.nodes)
    ensures action.Found? && search.NotFound? ==> res == -search.errno && fs.nodes == old(fs.nodes)
    ensures action.Found? && search.Found? ==>
              && Outcome0(os, branches, action.branches)
              && (forall b :: b in branches ==> CreateOutcome(old(fs.nodes), b, action.branches, search.branches[0], ask(b), os[b], oldPath, newPath))
              && DirsThere(fs.nodes, os, search.branches[0], newPath)
              && res == -Code(branches, os)
              && (works || res != 0 ==> Ended(old(fs.nodes), fs.nodes, branches, os, oldPath, newPath))
              && (works && res == 0 ==> PromiseKept(old(fs.nodes), fs.nodes, branches, oldPath, newPath))
  {
    os := map[];
    if action.NotFound? {
      return -action.errno, os;
    }
    if search.NotFound? {
      return -search.errno, os;
    }
    ghost var before := fs.nodes;
    var error, targets := -1, [];
    for i := 0 to |branches|
      invariant Done(before, fs.nodes, branches[..i], action.branches, os, targets, error, oldPath, newPath)
      invariant SearchSame(before, fs.nodes, search.branches[0], newPath) && DirsThere(fs.nodes, os, search.branches[0], newPath)
      invariant forall b :: b in os ==> CreateOutcome(before, b, action.branches, search.branches[0], ask(b), os[b], oldPath, newPath)
    {
      var b := branches[i];
      ghost var o;
      targets, error, o := CreateRound(fs, b, action.branches, search.branches[0], ask(b), oldPath, newPath, targets, error, before, branches[..i], os);
      os := os[b := o];
      assert branches[..i + 1] == branches[..i] + [b];
    }
    assert branches[..|branches|] == branches;
    Conclude(fs, targets, error, works, before, branches, action.branches, os, oldPath, newPath);
    if works && error == 0 {
      SuccessMeans(before, fs.nodes, branches, action.branches, os, oldPath, newPath);
    }
    res := -error;
  }

  // ----- the preserve-path variant -----

  /** The answers of kernel and policies while branch b is worked on: errors of the two rename calls
      (0 for none), the create policy and the search policy for the new directory. */
  datatype Answers = Answers(first: nat, create: Lookup, search: Lookup, second: nat, clone: Path -> CloneAnswers)

  ghost predicate Sane(a: Answers) {
    && (a.create.Found? ==> a.create.branches != []) && (a.search.Found? ==> a.search.branches != [])
    && (a.create.NotFound? ==> a.create.errno > 0) && (a.search.NotFound? ==> a.search.errno > 0)
  }

  /** When a branch counts as a success although nothing was renamed there: the name was not found,
      the create policy would use this branch, and the search policy does not find the directory. The
      search error is passed on as -errno, which is no -1 unless it is EPERM. */
  ghost predicate PhantomCase(before: Nodes, b: Branch, a: Answers, oldPath: Path, newPath: Path) {
    && KernelErrno(before, b, oldPath, newPath, a.first) == ENOENT
    && Picks(a.create, b) && a.search.NotFound? && a.search.errno != EPERM
  }

  ghost predicate Picks(l: Lookup, b: Branch) {
    l.Found? && l.branches != [] && l.branches[0] == b
  }

  /** When a branch is renamed: at once, or, after a missing name, on the second try, which comes if
      the create policy would use this branch and the search policy finds the directory. */
  ghost predicate RenameCase(before: Nodes, b: Branch, a: Answers, oldPath: Path, newPath: Path) {
    && Possible(before, b, oldPath, newPath)
    && (a.first == 0 || (a.first == ENOENT && Picks(a.create, b) && a.search.Found? && a.second == 0))
  }

  /** The error with which the directories are not cloned, 0 when they are. */
  function CloneErrno(b: Branch, a: Answers): int
    requires a.create.Found? ==> a.create.branches != []
  {
    if a.create.NotFound? then a.create.errno
    else if a.create.branches[0] != b then EXDEV
    else if a.search.NotFound? then a.search.errno
    else 0
  }

  /** The error of a branch that fails, unless the second rename finds the old name missing or above
      the new one. */
  function FailErrno(before: Nodes, b: Branch, a: Answers, oldPath: Path, newPath: Path): int
    requires a.create.Found? ==> a.create.branches != []
  {
    var e := KernelErrno(before, b, oldPath, newPath, a.first);
    if e != ENOENT then e
    else if CloneErrno(b, a) != 0 then CloneErrno(b, a)
    else a.second
  }

  /** _clonepath_if_would_create and _clonepath. */
  method ClonePathIfWouldCreate(fs: FileSystem, b: Branch, a: Answers, newPath: Path, ghost from: Branch) returns (rv: int, errno: int)
    requires Sane(a) && (a.search.Found? ==> from == a.search.branches[0])
    modifies fs
    ensures Cloned(old(fs.nodes), fs.nodes, from, b, Dir(newPath))
    ensures rv <= 0 && (rv != 0 ==> errno > 0)
    ensures errno == CloneErrno(b, a)
    ensures rv == 0 <==> Picks(a.create, b) && a.search.Found?
    ensures rv < 0 && rv != -1 <==> Picks(a.create, b) && a.search.NotFound? && a.search.errno != EPERM
    ensures rv < 0 && rv != -1 ==> errno == a.search.errno && rv == -errno
    ensures rv == 0 && from != b && CloneOk(old(fs.nodes), from, Dir(newPath), a.clone) ==> AllPresent(fs.nodes, b, Dir(newPath))
  {
    if a.create.NotFound? {
      return -1, a.create.errno;
    }
    if b == a.create.branches[0] {
      if a.search.NotFound? {
        return -a.search.errno, a.search.errno;
      }
      var dir := Dirname(newPath);
      var ignored, e := ClonePathAsRoot(fs, a.search.branches[0], b, dir, a.clone);
      return 0, 0;
    }
    return -1, EXDEV;
  }

  /** _rename_preserve_path_core on a selected branch. */
  method PreserveCore(fs: FileSystem, b: Branch, a: Answers, oldPath: Path, newPath: Path, ghost before: Nodes, ghost os: Outcomes)
    returns (rv: int, errno: int, ghost o: Outcome)
    requires oldPath != newPath && b !in os && Moved(before, fs.nodes, os, oldPath, newPath) && Sane(a)
    modifies fs
    ensures Moved(before, fs.nodes, os[b := o], oldPath, newPath) && GoodErrno(o)
    ensures o.Renamed? || o.RenameFailed? || o.Phantom?
    ensures o.Phantom? <==> PhantomCase(before, b, a, oldPath, newPath)
    ensures o.Renamed? <==> RenameCase(before, b, a, oldPath, newPath)
    ensures o.Phantom? || (o.RenameFailed? && FailErrno(before, b, a, oldPath, newPath) != 0) ==> o.errno == FailErrno(before, b, a, oldPath, newPath)
    ensures o.Renamed? && a.first != 0 && a.search.branches[0] != b && CloneOk(old(fs.nodes), a.search.branches[0], Dir(newPath), a.clone) ==>
              AllPresent(fs.nodes, b, Dir(newPath))
    ensures o.Renamed? ==> rv == 0
    ensures o.RenameFailed? ==> rv == -1 && errno == o.errno
    ensures o.Phantom? ==> rv == -errno && rv != -1 && rv != 0 && errno == o.errno
  {
    ghost var mid := fs.nodes;
    assert EntryOk(before, mid, Key(b, oldPath), Unselected, oldPath, newPath);
    ghost var from := if a.search.Found? then a.search.branches[0] else "";
    rv, errno := RenameCall(fs, b, oldPath, newPath, a.first);
    o := RenameFailed(errno);
    if rv == 0 {
      CloneStep(before, mid, mid, os, b, from, o, oldPath, newPath);
      RenameStep(before, mid, fs.nodes, os, b, o, oldPath, newPath);
      o := Renamed;
      return;
    }
    if errno == ENOENT {
      rv, errno := ClonePathIfWouldCreate(fs, b, a, newPath, from);
    }
    ghost var cloned := fs.nodes;
    o := if rv == -1 || rv == 0 then RenameFailed(if rv == 0 then 1 else errno) else Phantom(errno);
    CloneStep(before, mid, cloned, os, b, from, o, oldPath, newPath);
    if rv == 0 {
      ghost var o' := o;
      rv, errno := RenameCall(fs, b, oldPath, newPath, a.second);
      o := RenameFailed(errno);
      if rv == 0 {
        RenameStep(before, cloned, fs.nodes, os, b, o', oldPath, newPath);
        o := Renamed;
      } else {
        CloneStep(before, mid, cloned, os, b, from, o, oldPath, newPath);
      }
    }
  }

  /** The outcomes follow from the pool as it was and the answers of kernel and policies. */
  ghost predicate Decided(before: Nodes, selected: seq<Branch>, ask: Branch -> Answers, os: Outcomes, oldPath: Path, newPath: Path) {
    forall b :: b in os ==>
      && !os[b].CloneFailed?
      && (os[b].Phantom? <==> b in selected && PhantomCase(before, b, ask(b), oldPath, newPath))
      && (os[b].Renamed? <==> b in selected && RenameCase(before, b, ask(b), oldPath, newPath))
      && (os[b].RenameFailed? && Sane(ask(b)) && FailErrno(before, b, ask(b), oldPath, newPath) != 0 ==>
            os[b].errno == FailErrno(before, b, ask(b), oldPath, newPath))
  }

  /** One round of the loop over the branches: _rename_preserve_path_core, with the selection. */
  method PreserveRound(fs: FileSystem, b: Branch, chosen: seq<Branch>, a: Answers, oldPath: Path, newPath: Path,
                       targets: seq<Target>, error: int, ghost before: Nodes, ghost seen: seq<Branch>, ghost os: Outcomes)
    returns (targets': seq<Target>, error': int, ghost o: Outcome)
    requires Done(before, fs.nodes, seen, chosen, os, targets, error, oldPath, newPath)
    requires b !in seen && oldPath != newPath && Sane(a)
    modifies fs
    ensures Done(before, fs.nodes, seen + [b], chosen, os[b := o], targets', error', oldPath, newPath)
    ensures !o.CloneFailed?
    ensures o.Phantom? <==> b in chosen && PhantomCase(before, b, a, oldPath, newPath)
    ensures o.Renamed? <==> b in chosen && RenameCase(before, b, a, oldPath, newPath)
    ensures o.RenameFailed? && FailErrno(before, b, a, oldPath, newPath) != 0 ==> o.errno == FailErrno(before, b, a, oldPath, newPath)
  {
    ghost var mid := fs.nodes;
    o := Unselected;
    var push: seq<Target> := [];
    error' := error;
    var selected := Member(chosen, b);
    if selected {
      var rv, errno;
      rv, errno, o := PreserveCore(fs, b, a, oldPath, newPath, before, os);
      error' := Calc(rv, error, errno);
      if rv == -1 {
        push := [At(Key(b, oldPath))];
      }
    } else {
      push := [At(Key(b, newPath))];
    }
    DoneMore(before, mid, seen, chosen, os, targets, error, b, o, fs.nodes, push, error', oldPath, newPath);
    targets' := targets + push;
  }

  /** _rename_preserve_path. */
  method RenamePreservePath(fs: FileSystem, branches: seq<Branch>, action: Lookup, ask: Branch -> Answers, oldPath: Path, newPath: Path, works: bool)
    returns (res: int, ghost os: Outcomes)
    requires Distinct(branches) && oldPath != newPath && forall b :: Sane(ask(b))
    modifies fs
    ensures action.NotFound? ==> res == -action.errno && fs.nodes == old(fs.nodes)
    ensures action.Found? ==>
              && Outcome0(os, branches, action.branches)
              && Decided(old(fs.nodes), action.branches, ask, os, oldPath, newPath)
              && res == -Code(branches, os)
              && (works || res != 0 ==> Ended(old(fs.nodes), fs.nodes, branches, os, oldPath, newPath))
              && (works ==> ((res == 0 ==> PromiseKept(old(fs.nodes), fs.nodes, branches, oldPath, newPath)) <==>
                             PromiseCase(old(fs.nodes), branches, action.branches, ask, oldPath, newPath)))
  {
    os := map[];
    if action.NotFound? {
      return -action.errno, os;
    }
    ghost var before := fs.nodes;
    var error, targets := -1, [];
    for i := 0 to |branches|
      invariant Done(before, fs.nodes, branches[..i], action.branches, os, targets, error, oldPath, newPath)
      invariant Decided(before, action.branches, ask, os, oldPath, newPath)
    {
      var b := branches[i];
      ghost var o;
      targets, error, o := PreserveRound(fs, b, action.branches, ask(b), oldPath, newPath, targets, error, before, branches[..i], os);
      os := os[b := o];
      assert branches[..i + 1] == branches[..i] + [b];
    }
    assert branches[..|branches|] == branches;
    Conclude(fs, targets, error, works, before, branches, action.branches, os, oldPath, newPath);
    if works {
      PromiseExact(before, fs.nodes, branches, action.branches, ask, os, oldPath, newPath);
    }
    res := -error;
  }

  // ----- what a finished rename means -----

  /** A branch where the old content is now under the new name. */
  ghost predicate Holds(before: Nodes, now: Nodes, b: Branch, oldPath: Path, newPath: Path) {
    && Key(b, oldPath) in before && Key(b, oldPath) !in now
    && Key(b, newPath) in now && now[Key(b, newPath)] == before[Key(b, oldPath)]
  }

  /** A success without phantoms: some selected branch holds the old content under the new name, the
      new name is gone from every unselected branch, and the old name from every selected branch
      whose directories could be made. */
  lemma SuccessMeans(before: Nodes, now: Nodes, bs: seq<Branch>, selected: seq<Branch>, os: Outcomes, oldPath: Path, newPath: Path)
    requires Ended(before, now, bs, os, oldPath, newPath) && Outcome0(os, bs, selected) && Code(bs, os) == 0
    requires oldPath != newPath && forall b :: b in bs ==> !os[b].Phantom?
    ensures exists b :: b in bs && b in selected && Holds(before, now, b, oldPath, newPath)
    ensures forall b :: b in bs && b !in selected ==> Key(b, newPath) !in now
    ensures forall b :: b in bs && b in selected && !os[b].CloneFailed? ==> Key(b, oldPath) !in now
  {
    CodeMeaning(bs, os);
    var i :| 0 <= i < |bs| && Succeeds(Of(os, bs[i]));
    var w := bs[i];
    assert FinalOk(before, now, bs, os, Key(w, oldPath), oldPath, newPath);
    assert FinalOk(before, now, bs, os, Key(w, newPath), oldPath, newPath);
    assert Holds(before, now, w, oldPath, newPath);
    forall b | b in bs
      ensures b !in selected ==> Key(b, newPath) !in now
      ensures b in selected && !os[b].CloneFailed? ==> Key(b, oldPath) !in now
    {
      assert FinalOk(before, now, bs, os, Key(b, newPath), oldPath, newPath);
      assert FinalOk(before, now, bs, os, Key(b, oldPath), oldPath, newPath);
    }
  }

  ghost predicate SuccessCase(before: Nodes, b: Branch, a: Answers, oldPath: Path, newPath: Path) {
    RenameCase(before, b, a, oldPath, newPath) || PhantomCase(before, b, a, oldPath, newPath)
  }

  /** The preserve-path variant reports success exactly when some selected branch is renamed or its
      error is lost. */
  lemma SuccessExact(before: Nodes, bs: seq<Branch>, selected: seq<Branch>, ask: Branch -> Answers, os: Outcomes, oldPath: Path, newPath: Path)
    requires Outcome0(os, bs, selected) && Decided(before, selected, ask, os, oldPath, newPath)
    ensures Code(bs, os) == 0 <==> exists b :: b in bs && b in selected && SuccessCase(before, b, ask(b), oldPath, newPath)
  {
    CodeMeaning(bs, os);
    if Code(bs, os) == 0 {
      var i :| 0 <= i < |bs| && Succeeds(Of(os, bs[i]));
      assert bs[i] in os;
    }
    if b :| b in bs && b in selected && SuccessCase(before, b, ask(b), oldPath, newPath) {
      var i :| 0 <= i < |bs| && bs[i] == b;
      assert Succeeds(Of(os, bs[i]));
    }
  }

  /** Before the call, the branch had the same content under both names. */
  ghost predicate Twin(before: Nodes, b: Branch, oldPath: Path, newPath: Path) {
    Key(b, oldPath) in before && Key(b, newPath) in before && before[Key(b, oldPath)] == before[Key(b, newPath)]
  }

  /** When the promise that a success leaves the old content under the new name is kept: some
      selected branch is renamed, or no selected branch loses its error, or the content was there
      already on one that fails. */
  ghost predicate PromiseCase(before: Nodes, bs: seq<Branch>, selected: seq<Branch>, ask: Branch -> Answers, oldPath: Path, newPath: Path) {
    || (exists b :: b in bs && b in selected && RenameCase(before, b, ask(b), oldPath, newPath))
    || (forall b :: b in bs && b in selected ==> !PhantomCase(before, b, ask(b), oldPath, newPath))
    || (exists b :: b in bs && b in selected && !PhantomCase(before, b, ask(b), oldPath, newPath) && Twin(before, b, oldPath, newPath))
  }

  ghost predicate PromiseKept(before: Nodes, now: Nodes, bs: seq<Branch>, oldPath: Path, newPath: Path) {
    exists b :: b in bs && Holds(before, now, b, oldPath, newPath)
  }

  /** The promise is kept exactly in that case. */
  lemma PromiseExact(before: Nodes, now: Nodes, bs: seq<Branch>, selected: seq<Branch>, ask: Branch -> Answers, os: Outcomes, oldPath: Path, newPath: Path)
    requires Ended(before, now, bs, os, oldPath, newPath) && Outcome0(os, bs, selected) && oldPath != newPath
    requires Decided(before, selected, ask, os, oldPath, newPath)
    ensures (Code(bs, os) == 0 ==> PromiseKept(before, now, bs, oldPath, newPath)) <==>
            PromiseCase(before, bs, selected, ask, oldPath, newPath)
  {
    SuccessExact(before, bs, selected, ask, os, oldPath, newPath);
    if Code(bs, os) == 0 {
      forall b | b in bs
        ensures Holds(before, now, b, oldPath, newPath) <==>
                os[b].Renamed? || (os[b].RenameFailed? && Twin(before, b, oldPath, newPath))
      {
        assert FinalOk(before, now, bs, os, Key(b, oldPath), oldPath, newPath);
        assert FinalOk(before, now, bs, os, Key(b, newPath), oldPath, newPath);
      }
      if b :| b in bs && Holds(before, now, b, oldPath, newPath) {
        assert b in selected;
      }
    }
  }

  /** The promise is broken when the search fails. Branch a has /x, and at /y a link that leads
      nowhere; branch b has the directory /y with z in it. With the create policy epmfs, which takes
      the link for the path, and eplus to look the directory up, renaming /x to /y/z returns 0,
      leaves /x where it is, and deletes the unrelated /y/z of branch b. */
  method PhantomExample() returns (fs: FileSystem, res: int)
    ensures fresh(fs) && res == 0
    ensures fs.nodes == map[Key("a", "/x") := File(1), Key("a", "/y") := Link(7), Key("b", "/y") := Directory]
  {
    var bs, forX, forY := ["a", "b"], [On(10), P.Branch(P.RW, None, None)], [On(10), On(5)];
    var action := P.EpmfsAction(forX);
    var create := P.EpmfsCreate(forY, 0);
    var search := P.EplusSearch(forY);
    FirstChosen(P.Views(forX, P.ActOnPath, P.Space, 0), action);
    FirstChosen(P.Views(forY, P.CreateOnPath, P.Space, 0), create);
    var answers := Answers(ENOENT, ToLookup(bs, create), ToLookup(bs, search), 0, (p: Path) => CloneAnswers(0, false, 0, 0, 0, 0, 0));
    fs := new FileSystem(map[Key("a", "/x") := File(1), Key("a", "/y") := Link(7),
                             Key("b", "/y") := Directory, Key("b", "/y/z") := File(2)]);
    ghost var before, os := fs.nodes, map[];
    res, os := RenamePreservePath(fs, bs, ToLookup(bs, action), (b: Branch) => answers, "/x", "/y/z", true);
    assert PhantomCase(before, "a", answers, "/x", "/y/z");
    SuccessExact(before, bs, ["a"], (b: Branch) => answers, os, "/x", "/y/z");
    assert "a" in bs && "b" in bs;
    PhantomNodes(before, fs.nodes, os);
  }

  /** A branch that has the path, with some space. */
  function On(avail: P.U64): P.Branch {
    P.Branch(P.RW, Some(0), Some(P.Info(false, avail, 10)))
  }

  /** The error numbers of the policies. */
  function Number(e: P.Errno): int {
    match e
    case ENOENT => ENOENT
    case ENOSPC => 28
    case EROFS => 30
    case Other(code) => code
  }

  /** What a policy's choice means to its caller. */
  function ToLookup(bs: seq<Branch>, c: P.Choice): Lookup
    requires c.Chosen? ==> c.index < |bs|
  {
    match c
    case Chosen(i) => Found([bs[i]])
    case Refused(e) => NotFound(Number(e))
  }

  lemma FirstChosen(vs: seq<P.View>, c: P.Choice)
    requires P.SelectsLargest(vs, c) && |vs| == 2 && vs[0].Candidate? && (vs[1].Candidate? ==> vs[1].key < vs[0].key)
    ensures c == P.Chosen(0)
  {
  }

  lemma PhantomNodes(before: Nodes, now: Nodes, os: Outcomes)
    requires before == map[Key("a", "/x") := File(1), Key("a", "/y") := Link(7),
                           Key("b", "/y") := Directory, Key("b", "/y/z") := File(2)]
    requires Ended(before, now, ["a", "b"], os, "/x", "/y/z") && Code(["a", "b"], os) == 0
    requires "a" in os && "b" in os && os["a"].Phantom? && os["b"].Unselected?
    requires forall b :: b in os ==> b in ["a", "b"]
    ensures now == map[Key("a", "/x") := File(1), Key("a", "/y") := Link(7), Key("b", "/y") := Directory]
  {
    assert Dir("/y/z") == "/y" && Dir("/y") == "";
    forall k: Key
      ensures k in now <==> k in before && k != Key("b", "/y/z")
      ensures k in now ==> now[k] == before[k]
    {
      assert FinalOk(before, now, ["a", "b"], os, k, "/x", "/y/z");
    }
  }
}
