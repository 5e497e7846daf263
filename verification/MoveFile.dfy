/** fs::movefile: moving an open file to the branch with the most free space, as a sequence of
    system calls each of which may fail. */
module MoveFile {
  import opened Paths
  import opened Pool
  import opened Wrappers

  type Ino = nat
  type Fd = nat

  /** What a file holds: complete content, or the state in the middle of being written. */
  datatype Content = Whole(data: nat) | Partial

  /** Names, files and open descriptors. */
  datatype Disk = Disk(names: map<Key, Ino>, files: map<Ino, Content>, fds: map<Fd, Ino>)

  ghost predicate Consistent(d: Disk) {
    && (forall k :: k in d.names ==> d.names[k] in d.files)
    && (forall f :: f in d.fds ==> d.fds[f] in d.files)
  }

  /** Branch b holds the content c under path p. */
  ghost predicate HoldsAt(d: Disk, b: Branch, p: Path, c: Content) {
    Key(b, p) in d.names && d.names[Key(b, p)] in d.files && d.files[d.names[Key(b, p)]] == c
  }

  ghost predicate SomeCopy(d: Disk, p: Path, c: Content) {
    exists b :: HoldsAt(d, b, p, c)
  }

  class Machine {
    var disk: Disk
    ghost var history: seq<Disk>   // the disk after each system call, oldest first

    constructor (disk: Disk)
      ensures this.disk == disk && history == [disk]
    {
      this.disk := disk;
      history := [disk];
    }

    ghost predicate Recorded()
      reads this
    {
      history != [] && history[|history| - 1] == disk && Consistent(disk)
    }
  }

  // ----- choosing the branches -----

  /** Branch i may take the file. */
  predicate Eligible(avail: seq<Option<nat>>, min: nat, i: nat)
    requires i < |avail|
  {
    avail[i].Some? && avail[i].value >= min && avail[i].value > 0
  }

  /** Branch i is the first with the most space among those with at least min bytes. A branch
      without any free byte is never taken. */
  ghost predicate IsTarget(avail: seq<Option<nat>>, min: nat, i: nat) {
    && i < |avail| && Eligible(avail, min, i)
    && (forall j :: 0 <= j < |avail| && Eligible(avail, min, j) ==>
          avail[j].value <= avail[i].value && (j < i ==> avail[j].value < avail[i].value))
  }

  /** fs::mfs. */
  method Mfs(avail: seq<Option<nat>>, min: nat) returns (r: Option<nat>)
    ensures r.None? <==> forall i :: 0 <= i < |avail| ==> !Eligible(avail, min, i)
    ensures r.Some? ==> IsTarget(avail, min, r.value)
  {
    var mfs := 0;
    r := None;
    for i := 0 to |avail|
      invariant r.None? ==> mfs == 0 && forall j :: 0 <= j < i ==> !Eligible(avail, min, j)
      invariant r.Some? ==> r.value < i && Eligible(avail, min, r.value) && mfs == avail[r.value].value
      invariant r.Some? ==> forall j :: 0 <= j < i && Eligible(avail, min, j) ==>
                  avail[j].value <= mfs && (j < r.value ==> avail[j].value < mfs)
    {
      if avail[i].None? {
        continue;
      }
      if avail[i].value < min {
        continue;
      }
      if avail[i].value <= mfs {
        continue;
      }
      mfs := avail[i].value;
      r := Some(i);
    }
  }

  /** Branch i is the first that has the path on the device. lstat gives the device of the path on
      each branch, or nothing. */
  ghost predicate IsSource(lstat: seq<Option<nat>>, dev: nat, i: nat) {
    i < |lstat| && lstat[i] == Some(dev) && forall j :: 0 <= j < i ==> lstat[j] != Some(dev)
  }

  /** fs::findonfs. */
  method FindOnFs(lstat: seq<Option<nat>>, dev: nat) returns (r: Option<nat>)
    ensures r.Some? ==> IsSource(lstat, dev, r.value)
    ensures r.None? ==> forall i :: 0 <= i < |lstat| ==> lstat[i] != Some(dev)
  {
    for i := 0 to |lstat|
      invariant forall j :: 0 <= j < i ==> lstat[j] != Some(dev)
    {
      if lstat[i] == Some(dev) {
        return Some(i);
      }
    }
    r := None;
  }

  /** What fstat says of the descriptor, what lstat of the path on each branch, and each branch's
      space. */
  datatype View = View(stat: Option<(nat, nat)>, lstat: seq<Option<nat>>, extra: nat, avail: seq<Option<nat>>)

  /** The move goes from branch i to branch j. */
  ghost predicate Route(v: View, i: nat, j: nat) {
    v.stat.Some? && IsSource(v.lstat, v.stat.value.0, i) && IsTarget(v.avail, v.stat.value.1 + v.extra, j)
  }

  lemma RouteUnique(v: View, i: nat, j: nat, i': nat, j': nat)
    requires Route(v, i, j) && Route(v, i', j')
    ensures i == i' && j == j'
  {
  }

  // ----- system calls -----

  /** Which of the calls the kernel lets succeed. */
  datatype Calls = Calls(clonepath: bool, open: bool, mkstemp: bool, clonefile: bool, setfl: bool, rename: bool)

  method Open(m: Machine, k: Key, ok: bool) returns (rv: int, fd: Fd)
    requires m.Recorded()
    modifies m
    ensures m.Recorded() && m.history == old(m.history) + [m.disk]
    ensures rv == 0 <==> ok && k in old(m.disk).names
    ensures rv == 0 ==> fd !in old(m.disk).fds && m.disk == old(m.disk).(fds := old(m.disk).fds[fd := old(m.disk).names[k]])
    ensures rv != 0 ==> m.disk == old(m.disk)
  {
    rv, fd := -1, 0;
    if ok && k in m.disk.names {
      fd := FreshFd(m.disk.fds);
      rv := 0;
      m.disk := m.disk.(fds := m.disk.fds[fd := m.disk.names[k]]);
    }
    m.history := m.history + [m.disk];
  }

  method FreshFd(fds: map<Fd, Ino>) returns (fd: Fd)
    ensures fd !in fds
  {
    fd := 0;
    var left := fds.Keys;
    while fd in left
      invariant forall f :: f in fds && f !in left ==> f < fd
      decreases |left|
    {
      left := left - {fd};
      fd := fd + 1;
    }
  }

  method FreshIno(files: map<Ino, Content>) returns (i: Ino)
    ensures i !in files
  {
    i := 0;
    var left := files.Keys;
    while i in left
      invariant forall f :: f in files && f !in left ==> f < i
      decreases |left|
    {
      left := left - {i};
      i := i + 1;
    }
  }

  /** mkstemp: a new empty file under a name that was not there. */
  method Mkstemp(m: Machine, k: Key, ok: bool) returns (rv: int, fd: Fd)
    requires m.Recorded()
    modifies m
    ensures m.Recorded() && m.history == old(m.history) + [m.disk]
    ensures rv == 0 <==> ok && k !in old(m.disk).names
    ensures rv != 0 ==> m.disk == old(m.disk)
    ensures rv == 0 ==>
              && k !in old(m.disk).names && fd !in old(m.disk).fds
              && k in m.disk.names && m.disk.names[k] !in old(m.disk).files
              && m.disk == Disk(old(m.disk).names[k := m.disk.names[k]], old(m.disk).files[m.disk.names[k] := Partial],
                                old(m.disk).fds[fd := m.disk.names[k]])
  {
    rv, fd := -1, 0;
    if ok && k !in m.disk.names {
      fd := FreshFd(m.disk.fds);
      var ino := FreshIno(m.disk.files);
      rv := 0;
      m.disk := Disk(m.disk.names[k := ino], m.disk.files[ino := Partial], m.disk.fds[fd := ino]);
    }
    m.history := m.history + [m.disk];
  }

  /** fs::clonefile: content and metadata; a failure may leave the target incomplete. */
  method CloneFile(m: Machine, fdin: Fd, fdout: Fd, ok: bool) returns (rv: int)
    requires m.Recorded() && fdin in m.disk.fds && fdout in m.disk.fds
    modifies m
    ensures m.Recorded() && m.history == old(m.history) + [m.disk]
    ensures rv == 0 <==> ok
    ensures rv == 0 ==> m.disk == old(m.disk).(files := old(m.disk).files[old(m.disk).fds[fdout] := old(m.disk).files[old(m.disk).fds[fdin]]])
    ensures rv != 0 ==> m.disk == old(m.disk).(files := old(m.disk).files[old(m.disk).fds[fdout] := Partial])
  {
    var c := m.disk.files[m.disk.fds[fdin]];
    rv := 0;
    if !ok {
      rv, c := -1, Partial;
    }
    m.disk := m.disk.(files := m.disk.files[m.disk.fds[fdout] := c]);
    m.history := m.history + [m.disk];
  }

  method RenameTemp(m: Machine, temp: Key, k: Key, ok: bool) returns (rv: int)
    requires m.Recorded() && temp in m.disk.names && temp != k
    modifies m
    ensures m.Recorded() && m.history == old(m.history) + [m.disk]
    ensures rv == 0 <==> ok
    ensures rv == 0 ==> m.disk == old(m.disk).(names := (old(m.disk).names - {temp})[k := old(m.disk).names[temp]])
    ensures rv != 0 ==> m.disk == old(m.disk)
  {
    rv := -1;
    if ok {
      rv := 0;
      m.disk := m.disk.(names := (m.disk.names - {temp})[k := m.disk.names[temp]]);
    }
    m.history := m.history + [m.disk];
  }

  /** unlink; its result is ignored. It takes the name away if `works`. */
  method Unlink(m: Machine, k: Key, works: bool)
    requires m.Recorded()
    modifies m
    ensures m.Recorded() && m.history == old(m.history) + [m.disk]
    ensures m.disk == old(m.disk) || m.disk == old(m.disk).(names := old(m.disk).names - {k})
    ensures works ==> m.disk == old(m.disk).(names := old(m.disk).names - {k})
  {
    if works {
      m.disk := m.disk.(names := m.disk.names - {k});
    } else {
      if * {
        m.disk := m.disk.(names := m.disk.names - {k});
      }
    }
    m.history := m.history + [m.disk];
  }

  method Close(m: Machine, fd: Fd)
    requires m.Recorded()
    modifies m
    ensures m.Recorded() && m.history == old(m.history) + [m.disk]
    ensures m.disk == old(m.disk).(fds := old(m.disk).fds - {fd})
  {
    m.disk := m.disk.(fds := m.disk.fds - {fd});
    m.history := m.history + [m.disk];
  }

  // ----- the move -----

  /** Since position n of the history, some branch always held c under p. */
  ghost predicate AlwaysSomeCopy(history: seq<Disk>, n: nat, p: Path, c: Content) {
    forall i :: n <= i < |history| ==> SomeCopy(history[i], p, c)
  }

  /** Nothing but descriptors differs, and of those only additional ones. */
  ghost predicate Untouched(before: Disk, after: Disk) {
    && after.names == before.names
    && (forall f :: f in before.files ==> f in after.files && after.files[f] == before.files[f])
    && (forall f :: f in before.fds ==> f in after.fds && after.fds[f] == before.fds[f])
  }

  /** From clonefile on: rv == 0 when the copy has taken the name k, otherwise the cleanup ran. */
  method CopyAndSwitch(m: Machine, fdin: Fd, fdout: Fd, temp: Key, k: Key, calls: Calls, works: bool, ghost src: Key, ghost c: Content, ghost n: nat)
    returns (rv: int)
    requires m.Recorded() && fdin in m.disk.fds && fdout in m.disk.fds && fdin != fdout
    requires temp in m.disk.names && m.disk.fds[fdout] == m.disk.names[temp] && temp != k && temp != src && src.path == k.path
    requires src in m.disk.names && m.disk.names[src] != m.disk.names[temp] && m.disk.files[m.disk.names[src]] == c
    requires m.disk.fds[fdin] == m.disk.names[src]
    requires n <= |m.history| && AlwaysSomeCopy(m.history, n, k.path, c)
    modifies m
    ensures m.Recorded() && |m.history| >= n && old(m.history) <= m.history && AlwaysSomeCopy(m.history, n, k.path, c)
    ensures rv == 0 <==> calls.clonefile && calls.setfl && calls.rename
    ensures rv == 0 ==>
              && m.disk.names == (old(m.disk).names - {temp})[k := old(m.disk).names[temp]] && m.disk.fds == old(m.disk).fds
              && m.disk.files == old(m.disk).files[old(m.disk).names[temp] := c]
    ensures rv != 0 ==>
              && m.disk.fds == old(m.disk).fds - {fdin, fdout}
              && (forall f :: f in old(m.disk).files && f != old(m.disk).names[temp] ==>
                    f in m.disk.files && m.disk.files[f] == old(m.disk).files[f])
              && (works ==> m.disk.names == old(m.disk).names - {temp})
  {
    assert forall d: Disk :: HoldsAt(d, src.branch, k.path, c) ==> SomeCopy(d, k.path, c);
    rv := CloneFile(m, fdin, fdout, calls.clonefile);
    assert HoldsAt(m.disk, src.branch, k.path, c);
    if rv == 0 {
      if !calls.setfl {
        rv := -1;
      }
      if rv == 0 {
        rv := RenameTemp(m, temp, k, calls.rename);
        assert HoldsAt(m.disk, src.branch, k.path, c);
      }
    }
    if rv != 0 {
      Close(m, fdin);
      assert HoldsAt(m.disk, src.branch, k.path, c);
      Close(m, fdout);
      assert HoldsAt(m.disk, src.branch, k.path, c);
      Unlink(m, temp, works);
      assert HoldsAt(m.disk, src.branch, k.path, c);
    }
  }

  ghost predicate Denotes(d: Disk, fd: Fd, c: Content) {
    fd in d.fds && d.fds[fd] in d.files && d.files[d.fds[fd]] == c
  }

  /** The end of a successful move: the source name goes, and the new descriptor takes over. */
  method Finish(m: Machine, src: Branch, dst: Branch, p: Path, fdin: Fd, fdout: Fd, origfd: Fd, works: bool, ghost c: Content)
    requires m.Recorded() && HoldsAt(m.disk, dst, p, c) && Denotes(m.disk, fdout, c)
    requires fdin != fdout && fdout != origfd
    modifies m
    ensures m.Recorded() && old(m.history) <= m.history
    ensures m.disk.files == old(m.disk).files && m.disk.fds == old(m.disk).fds - {fdin} - {origfd}
    ensures m.disk.names == old(m.disk).names - {Key(src, p)} || (!works && m.disk.names == old(m.disk).names)
    ensures src != dst ==> AlwaysSomeCopy(m.history, |old(m.history)|, p, c)
  {
    assert forall d: Disk :: HoldsAt(d, dst, p, c) ==> SomeCopy(d, p, c);
    Unlink(m, Key(src, p), works);
    Close(m, fdin);
    Close(m, origfd);
  }

  /** The disk after a successful move: the content in a new file, the target name on it, then the
      source name gone if the unlink works, and fd on the new file instead of origfd. */
  ghost predicate Switched(before: Disk, after: Disk, src: Branch, dst: Branch, p: Path, c: Content, origfd: Fd, fd: Fd, works: bool) {
    && fd in after.fds && after.fds[fd] !in before.files
    && var ino := after.fds[fd];
    && after.files == before.files[ino := c]
    && after.fds == before.fds[fd := ino] - {origfd}
    && (after.names == before.names[Key(dst, p) := ino] - {Key(src, p)}
        || (!works && after.names == before.names[Key(dst, p) := ino]))
  }

  /** The content is then on branch dst, exactly unless that is the source branch: there the unlink
      takes the new name away. */
  lemma SwitchedMeans(before: Disk, after: Disk, src: Branch, dst: Branch, p: Path, c: Content, origfd: Fd, fd: Fd, works: bool)
    requires Switched(before, after, src, dst, p, c, origfd, fd, works) && fd != origfd
    ensures Denotes(after, fd, c)
    ensures src != dst ==> HoldsAt(after, dst, p, c)
    ensures works ==> Key(src, p) !in after.names && (HoldsAt(after, dst, p, c) <==> src != dst)
  {
  }

  /** The source opened for reading and a temporary file next to the target name. If that file
      cannot be made, the source stays open: a descriptor leaks. */
  method OpenBoth(m: Machine, src: Branch, dst: Branch, p: Path, temp: Path, calls: Calls, ghost c: Content)
    returns (rv: int, fdin: Fd, fdout: Fd, ghost leaked: bool)
    requires m.Recorded() && HoldsAt(m.disk, src, p, c) && temp != p
    modifies m
    ensures m.Recorded() && old(m.history) <= m.history && AlwaysSomeCopy(m.history, |old(m.history)|, p, c)
    ensures rv == 0 <==> calls.open && calls.mkstemp && Key(dst, temp) !in old(m.disk).names
    ensures rv != 0 ==> Untouched(old(m.disk), m.disk)
    ensures leaked <==> Leaks(old(m.disk), calls, Key(dst, temp))
    ensures rv != 0 ==> if leaked then |m.disk.fds| == |old(m.disk).fds| + 1 else m.disk.fds == old(m.disk).fds
    ensures rv == 0 ==> Opened(old(m.disk), m.disk, Key(src, p), Key(dst, temp), fdin, fdout)
  {
    assert forall d: Disk :: HoldsAt(d, src, p, c) ==> SomeCopy(d, p, c);
    leaked, fdout := false, 0;
    rv, fdin := Open(m, Key(src, p), calls.open);
    if rv == 0 {
      rv, fdout := Mkstemp(m, Key(dst, temp), calls.mkstemp);
      leaked := rv != 0;
    }
  }

  lemma AddRemove<K, V>(m: map<K, V>, k: K, v: V)
    requires k !in m
    ensures m[k := v] - {k} == m
  {
  }

  lemma AddRemoveTwo<K, V>(m: map<K, V>, a: K, b: K, v: V, w: V)
    requires a !in m && b !in m
    ensures m[a := v][b := w] - {a, b} == m
  {
  }

  lemma Chain(h1: seq<Disk>, h2: seq<Disk>, n: nat, p: Path, c: Content)
    requires h1 <= h2 && AlwaysSomeCopy(h1, n, p, c) && AlwaysSomeCopy(h2, |h1|, p, c)
    ensures AlwaysSomeCopy(h2, n, p, c)
  {
  }

  /** Every call but clonepath succeeds, and the temporary name is free. */
  ghost predicate GoesThrough(d: Disk, calls: Calls, temp: Key) {
    calls.open && calls.mkstemp && calls.clonefile && calls.setfl && calls.rename && temp !in d.names
  }

  /** The descriptor of the opened source is left open: no temporary file could be made. */
  ghost predicate Leaks(d: Disk, calls: Calls, temp: Key) {
    calls.open && !(calls.mkstemp && temp !in d.names)
  }

  lemma SwitchedNames(names: map<Key, Ino>, temp: Key, k: Key, ino: Ino)
    requires temp !in names && temp != k
    ensures (names[temp := ino] - {temp})[k := ino] == names[k := ino]
  {
  }

  lemma SwitchedFds(fds: map<Fd, Ino>, fdin: Fd, fdout: Fd, origfd: Fd, i: Ino, j: Ino)
    requires fdin !in fds && fdin != fdout && origfd in fds
    ensures fds[fdin := i][fdout := j] - {fdin} - {origfd} == fds[fdout := j] - {origfd}
  {
  }

  /** From open on, with the branches chosen: the new descriptor, and whether a descriptor leaked. */
  method MoveData(m: Machine, src: Branch, dst: Branch, p: Path, temp: Path, origfd: Fd, calls: Calls, works: bool, ghost c: Content)
    returns (rv: int, fd: Fd, ghost leaked: bool)
    requires m.Recorded() && origfd in m.disk.fds && HoldsAt(m.disk, src, p, c) && temp != p
    modifies m
    ensures m.Recorded() && old(m.history) <= m.history && (rv == -1 || rv == 0)
    ensures rv == 0 <==> GoesThrough(old(m.disk), calls, Key(dst, temp))
    ensures rv == -1 ==> fd == origfd && (works ==> Untouched(old(m.disk), m.disk))
    ensures rv == -1 ==> if leaked then |m.disk.fds| == |old(m.disk).fds| + 1 else m.disk.fds == old(m.disk).fds
    ensures leaked <==> Leaks(old(m.disk), calls, Key(dst, temp))
    ensures rv == 0 ==> fd != origfd && Switched(old(m.disk), m.disk, src, dst, p, c, origfd, fd, works)
    ensures src != dst || rv != 0 ==> AlwaysSomeCopy(m.history, |old(m.history)|, p, c)
  {
    fd := origfd;
    ghost var n, before := |m.history|, m.disk;
    var fdin, fdout;
    rv, fdin, fdout, leaked := OpenBoth(m, src, dst, p, temp, calls, c);
    if rv != 0 {
      return -1, origfd, leaked;
    }
    ghost var h0 := m.history;
    rv, fd := CompleteMove(m, src, dst, p, temp, origfd, fdin, fdout, calls, works, before, c);
    if src != dst || rv != 0 {
      Chain(h0, m.history, n, p, c);
    }
  }

  /** The disk once the source is open and the temporary file made. */
  ghost predicate Opened(before: Disk, now: Disk, source: Key, temp: Key, fdin: Fd, fdout: Fd) {
    && source in before.names && temp !in before.names && fdin !in before.fds && fdout !in before.fds && fdin != fdout
    && temp in now.names && now.names[temp] !in before.files
    && var ino := now.names[temp];
       now == Disk(before.names[temp := ino], before.files[ino := Partial],
                   before.fds[fdin := before.names[source]][fdout := ino])
  }

  /** From clonefile on. */
  method CompleteMove(m: Machine, src: Branch, dst: Branch, p: Path, temp: Path, origfd: Fd, fdin: Fd, fdout: Fd,
                      calls: Calls, works: bool, ghost before: Disk, ghost c: Content)
    returns (rv: int, fd: Fd)
    requires m.Recorded() && Consistent(before) && origfd in before.fds && HoldsAt(before, src, p, c) && temp != p
    requires Opened(before, m.disk, Key(src, p), Key(dst, temp), fdin, fdout)
    modifies m
    ensures m.Recorded() && old(m.history) <= m.history && (rv == -1 || rv == 0)
    ensures rv == 0 <==> calls.clonefile && calls.setfl && calls.rename
    ensures rv == -1 ==> fd == origfd && m.disk.fds == before.fds && (works ==> Untouched(before, m.disk))
    ensures rv == 0 ==> fd != origfd && Switched(before, m.disk, src, dst, p, c, origfd, fd, works)
    ensures src != dst || rv != 0 ==> AlwaysSomeCopy(m.history, |old(m.history)|, p, c)
  {
    ghost var n, ino := |m.history|, m.disk.names[Key(dst, temp)];
    rv := CopyAndSwitch(m, fdin, fdout, Key(dst, temp), Key(dst, p), calls, works, Key(src, p), c, n);
    if rv != 0 {
      AddRemoveTwo(before.fds, fdin, fdout, before.names[Key(src, p)], ino);
      AddRemove(before.names, Key(dst, temp), ino);
      return -1, origfd;
    }
    ghost var h1 := m.history;
    SwitchedNames(before.names, Key(dst, temp), Key(dst, p), ino);
    SwitchedFds(before.fds, fdin, fdout, origfd, before.names[Key(src, p)], ino);
    Finish(m, src, dst, p, fdin, fdout, origfd, works, c);
    if src != dst {
      Chain(h1, m.history, n, p, c);
    }
    fd := fdout;
  }

  /** The content of the file the descriptor is on. */
  ghost function ContentOf(d: Disk, fd: Fd): Content
    requires Consistent(d) && fd in d.fds
  {
    d.files[d.fds[fd]]
  }

  ghost function ContentAt(d: Disk, b: Branch, p: Path): Content
    requires Consistent(d) && Key(b, p) in d.names
  {
    d.files[d.names[Key(b, p)]]
  }

  /** After a successful move from branch src to branch dst. */
  ghost predicate MovedTo(before: Disk, after: Disk, src: Branch, dst: Branch, p: Path, origfd: Fd, fd: Fd, works: bool)
    requires Consistent(before) && Key(src, p) in before.names && origfd in before.fds
  {
    var c := ContentAt(before, src, p);
    && Switched(before, after, src, dst, p, c, origfd, fd, works)
    && Denotes(after, fd, c)
    // the content survives at the target exactly if the branches differ
    && (works ==> (HoldsAt(after, dst, p, c) <==> src != dst))
    && (src != dst ==> HoldsAt(after, dst, p, c))
    // the descriptor denotes what it did exactly if the file found has that content
    && (Denotes(after, fd, ContentOf(before, origfd)) <==> c == ContentOf(before, origfd))
  }

  /** fs::movefile. */
  method Movefile(m: Machine, branches: seq<Branch>, p: Path, temp: Path, v: View, origfd: Fd, calls: Calls, works: bool)
    returns (rv: int, fd: Fd, ghost leaked: bool)
    requires m.Recorded() && origfd in m.disk.fds && temp != p && |v.lstat| == |v.avail| == |branches|
    requires forall i :: 0 <= i < |branches| && v.lstat[i].Some? ==> Key(branches[i], p) in m.disk.names
    modifies m
    ensures m.Recorded() && old(m.history) <= m.history && (rv == -1 || rv == 0)
    ensures rv == 0 <==> calls.clonepath && exists i: nat, j: nat :: Route(v, i, j) && GoesThrough(old(m.disk), calls, Key(branches[j], temp))
    ensures rv == -1 ==> fd == origfd && (works ==> Untouched(old(m.disk), m.disk))
    ensures rv == -1 ==> if leaked then |m.disk.fds| == |old(m.disk).fds| + 1 else m.disk.fds == old(m.disk).fds
    ensures leaked <==> calls.clonepath && exists i: nat, j: nat :: Route(v, i, j) && Leaks(old(m.disk), calls, Key(branches[j], temp))
    ensures forall i: nat, j: nat :: rv == 0 && Route(v, i, j) ==>
              fd != origfd && MovedTo(old(m.disk), m.disk, branches[i], branches[j], p, origfd, fd, works)
    ensures forall i: nat, j: nat :: Route(v, i, j) && (branches[i] != branches[j] || rv != 0) ==>
              AlwaysSomeCopy(m.history, |old(m.history)|, p, ContentAt(old(m.disk), branches[i], p))
  {
    rv, fd, leaked := -1, origfd, false;
    if v.stat.None? {
      return;
    }
    var from := FindOnFs(v.lstat, v.stat.value.0);
    if from.None? {
      return;
    }
    var to := Mfs(v.avail, v.stat.value.1 + v.extra);
    if to.None? {
      return;
    }
    if !calls.clonepath {
      return;
    }
    var src, dst := branches[from.value], branches[to.value];
    ghost var c := ContentAt(m.disk, src, p);
    rv, fd, leaked := MoveData(m, src, dst, p, temp, origfd, calls, works, c);
    assert Route(v, from.value, to.value);
    forall i: nat, j: nat | Route(v, i, j)
      ensures i == from.value && j == to.value
    {
      RouteUnique(v, i, j, from.value, to.value);
    }
    if rv == 0 {
      SwitchedMeans(old(m.disk), m.disk, src, dst, p, c, origfd, fd, works);
    }
  }

  const ALL_WORK := Calls(true, true, true, true, true, true)

  /** The only branch has room, as when a quota is exceeded: the file is moved onto itself, and after
      the success no branch has it. */
  method MovedOntoItself() returns (m: Machine, rv: int, fd: Fd)
    ensures fresh(m) && rv == 0 && Denotes(m.disk, fd, Whole(9))
    ensures m.disk.names == map[]
  {
    var disk := Disk(map[Key("a", "/f") := 1], map[1 := Whole(9)], map[3 := 1]);
    m := new Machine(disk);
    var v := View(Some((5, 10)), [Some(5)], 1, [Some(100)]);
    assert Route(v, 0, 0);
    ghost var leaked;
    rv, fd, leaked := Movefile(m, ["a"], "/f", "/f.tmp", v, 3, ALL_WORK, true);
    assert MovedTo(disk, m.disk, "a", "a", "/f", 3, fd, true);
  }

  /** Two branches share a device and both have the path: the descriptor was on the second branch's
      file, the first one's is moved, and the descriptor ends on that. */
  method OtherFileMoved() returns (m: Machine, rv: int, fd: Fd)
    ensures fresh(m) && rv == 0 && Denotes(m.disk, fd, Whole(1)) && !Denotes(m.disk, fd, Whole(2))
    ensures HoldsAt(m.disk, "b", "/f", Whole(2)) && HoldsAt(m.disk, "c", "/f", Whole(1)) && Key("a", "/f") !in m.disk.names
  {
    var disk := Disk(map[Key("a", "/f") := 1, Key("b", "/f") := 2], map[1 := Whole(1), 2 := Whole(2)], map[3 := 2]);
    m := new Machine(disk);
    var v := View(Some((5, 4)), [Some(5), Some(5), None], 1, [Some(10), Some(10), Some(100)]);
    assert Route(v, 0, 2);
    ghost var leaked;
    rv, fd, leaked := Movefile(m, ["a", "b", "c"], "/f", "/f.tmp", v, 3, ALL_WORK, true);
    assert MovedTo(disk, m.disk, "a", "c", "/f", 3, fd, true);
  }
}
