/** statfs over the pool: one record per device, scaled to a common fragment size and summed. */
module StatFs {

  const ULONG_MAX := 0xffff_ffff_ffff_ffff

  datatype Mode = RW | RO | NC

  datatype Ignore = IgnoreNone | IgnoreRO | IgnoreNC

  datatype StatVfs = StatVfs(
    bsize: nat, frsize: nat, namemax: nat,
    blocks: nat, bfree: nat, bavail: nat,
    files: nat, ffree: nat, favail: nat,
    readonly: bool)

  /** What lstat and lstatvfs answer for one branch. */
  datatype Branch = Branch(mode: Mode, statOk: bool, dev: nat, vfsOk: bool, vfs: StatVfs)

  datatype Field = Blocks | Bfree | Bavail | Files | Ffree | Favail

  function Get(v: StatVfs, f: Field): nat {
    match f
    case Blocks => v.blocks
    case Bfree => v.bfree
    case Bavail => v.bavail
    case Files => v.files
    case Ffree => v.ffree
    case Favail => v.favail
  }

  predicate Reached(b: Branch) {
    b.statOk && b.vfsOk
  }

  // ----- one record per device -----

  predicate ShouldIgnore(ignore: Ignore, mode: Mode, readonly: bool) {
    || ((ignore == IgnoreRO || readonly) && (mode == RO || mode == NC))
    || (ignore == IgnoreNC && mode == NC)
  }

  /** An ignored branch offers no available space. */
  function Offered(b: Branch, ignore: Ignore): StatVfs {
    if ShouldIgnore(ignore, b.mode, b.vfs.readonly) then b.vfs.(bavail := 0, favail := 0) else b.vfs
  }

  /** The record v shows branch b: its own numbers, but nothing available where the mode of the branch
      forbids creating files and either its file system or the setting makes that count. */
  ghost predicate Shows(v: StatVfs, b: Branch, ignore: Ignore) {
    && v.(bavail := b.vfs.bavail, favail := b.vfs.favail) == b.vfs
    && match b.mode
       case RW => v == b.vfs
       case RO => if b.vfs.readonly || ignore == IgnoreRO then v.bavail == 0 && v.favail == 0 else v == b.vfs
       case NC => if b.vfs.readonly || ignore != IgnoreNone then v.bavail == 0 && v.favail == 0 else v == b.vfs
  }

  /** Branch i is the first reachable one on its device. */
  ghost predicate First(bs: seq<Branch>, i: nat) {
    i < |bs| && Reached(bs[i]) && forall j :: 0 <= j < i && Reached(bs[j]) ==> bs[j].dev != bs[i].dev
  }

  /** One of the first n branches is reachable and lies on the device. */
  ghost predicate Seen(bs: seq<Branch>, n: nat, d: nat)
    requires n <= |bs|
  {
    exists i :: 0 <= i < n && Reached(bs[i]) && bs[i].dev == d
  }

  /** The table holds each device among the first n branches once, as its first reachable branch shows it. */
  ghost predicate OncePerDevice(stats: map<nat, StatVfs>, bs: seq<Branch>, n: nat, ignore: Ignore)
    requires n <= |bs|
  {
    && (forall d :: d in stats <==> Seen(bs, n, d))
    && (forall i :: 0 <= i < n && First(bs, i) && bs[i].dev in stats ==> Shows(stats[bs[i].dev], bs[i], ignore))
  }

  /** The table is determined by the branches. */
  lemma OncePerDeviceUnique(a: map<nat, StatVfs>, b: map<nat, StatVfs>, bs: seq<Branch>, n: nat, ignore: Ignore)
    requires n <= |bs|
    requires OncePerDevice(a, bs, n, ignore) && OncePerDevice(b, bs, n, ignore)
    ensures a == b
  {
    forall d | d in a
      ensures d in b && a[d] == b[d]
    {
      var i :| 0 <= i < n && Reached(bs[i]) && bs[i].dev == d;
      var k := FirstOn(bs, i);
      assert First(bs, k) && bs[k].dev == d;
    }
  }

  lemma {:induction false} FirstOn(bs: seq<Branch>, i: nat) returns (k: nat)
    requires i < |bs| && Reached(bs[i])
    ensures k <= i && First(bs, k) && bs[k].dev == bs[i].dev
  {
    k := i;
    if j :| 0 <= j < i && Reached(bs[j]) && bs[j].dev == bs[i].dev {
      k := FirstOn(bs, j);
    }
  }

  datatype Unit = Bsize | Frsize | Namemax

  function Size(v: StatVfs, u: Unit): nat {
    match u
    case Bsize => v.bsize
    case Frsize => v.frsize
    case Namemax => v.namemax
  }

  /** The least nonzero value among the reachable ones of the first n, or the largest number there is. */
  ghost predicate LeastNonzero(m: nat, bs: seq<Branch>, n: nat, u: Unit)
    requires n <= |bs|
  {
    && 0 < m <= ULONG_MAX
    && (forall i :: 0 <= i < n && Reached(bs[i]) && Size(bs[i].vfs, u) != 0 ==> m <= Size(bs[i].vfs, u))
    && (m == ULONG_MAX || exists i :: 0 <= i < n && Reached(bs[i]) && Size(bs[i].vfs, u) == m)
  }

  /** A smaller nonzero size replaces the minimum so far. */
  function Lower(m: nat, size: nat): nat {
    if size != 0 && m > size then size else m
  }

  lemma LeastStep(m: nat, bs: seq<Branch>, n: nat, u: Unit)
    requires n < |bs| && LeastNonzero(m, bs, n, u)
    ensures Reached(bs[n]) ==> LeastNonzero(Lower(m, Size(bs[n].vfs, u)), bs, n + 1, u)
    ensures !Reached(bs[n]) ==> LeastNonzero(m, bs, n + 1, u)
  {
    if m != ULONG_MAX {
      var i :| 0 <= i < n && Reached(bs[i]) && Size(bs[i].vfs, u) == m;
    }
    assert bs[n] == bs[n];
  }

  /** All three minima over the first n branches. */
  ghost predicate Minima(bsize: nat, frsize: nat, namemax: nat, bs: seq<Branch>, n: nat)
    requires n <= |bs|
  {
    && LeastNonzero(bsize, bs, n, Bsize)
    && LeastNonzero(frsize, bs, n, Frsize)
    && LeastNonzero(namemax, bs, n, Namemax)
  }

  lemma MinimaStep(bsize: nat, frsize: nat, namemax: nat, bs: seq<Branch>, n: nat)
    requires n < |bs| && Minima(bsize, frsize, namemax, bs, n)
    ensures Reached(bs[n]) ==>
      var v := bs[n].vfs;
      Minima(Lower(bsize, v.bsize), Lower(frsize, v.frsize), Lower(namemax, v.namemax), bs, n + 1)
    ensures !Reached(bs[n]) ==> Minima(bsize, frsize, namemax, bs, n + 1)
  {
    LeastStep(bsize, bs, n, Bsize);
    LeastStep(frsize, bs, n, Frsize);
    LeastStep(namemax, bs, n, Namemax);
  }

  /** map::insert keeps the entry a device already has. */
  function Insert(stats: map<nat, StatVfs>, b: Branch, ignore: Ignore): map<nat, StatVfs> {
    if b.dev in stats then stats else stats[b.dev := Offered(b, ignore)]
  }

  /** The loop over the branches. */
  method Collect(bs: seq<Branch>, ignore: Ignore)
    returns (bsize: nat, frsize: nat, namemax: nat, stats: map<nat, StatVfs>)
    ensures Minima(bsize, frsize, namemax, bs, |bs|)
    ensures OncePerDevice(stats, bs, |bs|, ignore)
  {
    bsize, frsize, namemax := ULONG_MAX, ULONG_MAX, ULONG_MAX;
    stats := map[];
    for i := 0 to |bs|
      invariant Minima(bsize, frsize, namemax, bs, i)
      invariant OncePerDevice(stats, bs, i, ignore)
    {
      MinimaStep(bsize, frsize, namemax, bs, i);
      Inserted(stats, bs, i, ignore);
      var b := bs[i];
      if b.statOk && b.vfsOk {
        bsize := Lower(bsize, b.vfs.bsize);
        frsize := Lower(frsize, b.vfs.frsize);
        namemax := Lower(namemax, b.vfs.namemax);
        stats := Insert(stats, b, ignore);
      }
    }
  }

  lemma OfferedShows(b: Branch, ignore: Ignore)
    ensures Shows(Offered(b, ignore), b, ignore)
  {
  }

  lemma Inserted(before: map<nat, StatVfs>, bs: seq<Branch>, n: nat, ignore: Ignore)
    requires n < |bs| && OncePerDevice(before, bs, n, ignore)
    ensures OncePerDevice(if Reached(bs[n]) then Insert(before, bs[n], ignore) else before, bs, n + 1, ignore)
  {
    var after := if Reached(bs[n]) then Insert(before, bs[n], ignore) else before;
    forall d: nat
      ensures Seen(bs, n + 1, d) <==> d in after
    {
      SeenStep(bs, n, d);
    }
    forall i | 0 <= i < n + 1 && First(bs, i) && bs[i].dev in after
      ensures Shows(after[bs[i].dev], bs[i], ignore)
    {
      if i < n {
        assert Seen(bs, n, bs[i].dev);
      } else {
        assert !Seen(bs, n, bs[n].dev);
        OfferedShows(bs[n], ignore);
      }
    }
  }

  lemma SeenStep(bs: seq<Branch>, n: nat, d: nat)
    requires n < |bs|
    ensures Seen(bs, n + 1, d) <==> Seen(bs, n, d) || (Reached(bs[n]) && bs[n].dev == d)
  {
    if Seen(bs, n, d) {
      var i :| 0 <= i < n && Reached(bs[i]) && bs[i].dev == d;
      assert 0 <= i < n + 1 && Reached(bs[i]) && bs[i].dev == d;
    }
  }

  // ----- totals over devices -----

  /** The sum of a field over the devices below n. */
  ghost function Total(stats: map<nat, StatVfs>, f: Field, n: nat): nat {
    if n == 0 then 0
    else Total(stats, f, n - 1) + if n - 1 in stats then Get(stats[n - 1], f) else 0
  }

  /** The sum of a field in bytes. */
  ghost function Bytes(stats: map<nat, StatVfs>, f: Field, n: nat): nat {
    if n == 0 then 0
    else Bytes(stats, f, n - 1) + if n - 1 in stats then Get(stats[n - 1], f) * stats[n - 1].frsize else 0
  }

  /** How many devices there are below n. */
  ghost function Count(stats: map<nat, StatVfs>, n: nat): nat {
    if n == 0 then 0 else Count(stats, n - 1) + if n - 1 in stats then 1 else 0
  }

  // ----- normalising -----

  /** normalize_statvfs: counts of frsize-sized fragments, rounded down. */
  function Normalize(v: StatVfs, bsize: nat, frsize: nat, namemax: nat): StatVfs
    requires frsize > 0
  {
    v.(blocks := v.blocks * v.frsize / frsize,
    bfree := v.bfree * v.frsize / frsize,
    bavail := v.bavail * v.frsize / frsize,
    bsize := bsize, frsize := frsize, namemax := namemax)
  }

  lemma DivBounds(x: nat, m: nat)
    requires m > 0
    ensures x / m * m <= x < x / m * m + m
  {
  }

  lemma DivMonotone(x: nat, y: nat, m: nat)
    requires m > 0 && x <= y
    ensures x / m <= y / m
  {
    if x / m > y / m {
      assert x / m >= y / m + 1;
      assert x / m * m >= (y / m + 1) * m == y / m * m + m;
      DivBounds(x, m);
      DivBounds(y, m);
      assert false;
    }
  }

  ghost predicate Counts(f: Field) {
    f == Blocks || f == Bfree || f == Bavail
  }

  /** Every device scaled to the common sizes. */
  ghost function Normalized(stats: map<nat, StatVfs>, bsize: nat, frsize: nat, namemax: nat): map<nat, StatVfs>
    requires frsize > 0
  {
    map d | d in stats :: Normalize(stats[d], bsize, frsize, namemax)
  }

  lemma SumTimes(a: nat, b: nat, m: nat)
    ensures (a + b) * m == a * m + b * m
  {
  }

  /** r fragments of m bytes, one short for each of count devices at most, stand for the bytes. */
  ghost predicate Rounded(r: nat, bytes: nat, count: nat, m: nat) {
    r * m <= bytes <= r * m + count * m && (count > 0 ==> bytes < r * m + count * m)
  }

  lemma RoundStep(r: nat, bytes: nat, count: nat, x: nat, m: nat)
    requires m > 0 && Rounded(r, bytes, count, m)
    ensures Rounded(r + x / m, bytes + x, count + 1, m)
  {
    DivBounds(x, m);
    SumTimes(r, x / m, m);
    SumTimes(count, 1, m);
  }

  /** Rounding loses less than one fragment per device. */
  lemma {:induction false} RoundingError(stats: map<nat, StatVfs>, bsize: nat, frsize: nat, namemax: nat, f: Field, n: nat)
    requires frsize > 0 && Counts(f)
    ensures Rounded(Total(Normalized(stats, bsize, frsize, namemax), f, n), Bytes(stats, f, n), Count(stats, n), frsize)
  {
    if n > 0 {
      RoundingError(stats, bsize, frsize, namemax, f, n - 1);
      if n - 1 in stats {
        var v := stats[n - 1];
        var x := Get(v, f) * v.frsize;
        assert Get(Normalize(v, bsize, frsize, namemax), f) == x / frsize;
        RoundStep(Total(Normalized(stats, bsize, frsize, namemax), f, n - 1), Bytes(stats, f, n - 1), Count(stats, n - 1), x, frsize);
      }
    }
  }

  /** What the device could hold bounds what it has free, and that what it offers. */
  ghost predicate Sane(v: StatVfs) {
    v.bavail <= v.bfree <= v.blocks
  }

  ghost predicate AllSane(stats: map<nat, StatVfs>) {
    forall d :: d in stats ==> Sane(stats[d])
  }

  lemma DevicesSane(stats: map<nat, StatVfs>, bs: seq<Branch>, ignore: Ignore)
    requires OncePerDevice(stats, bs, |bs|, ignore)
    requires forall b :: b in bs && Reached(b) ==> Sane(b.vfs)
    ensures AllSane(stats)
  {
    forall d | d in stats
      ensures Sane(stats[d])
    {
      assert Seen(bs, |bs|, d);
      var i :| 0 <= i < |bs| && Reached(bs[i]) && bs[i].dev == d;
      var k := FirstOn(bs, i);
      assert bs[k] in bs && Shows(stats[d], bs[k], ignore);
    }
  }

  lemma ScaleMonotone(x: nat, y: nat, k: nat)
    requires x <= y
    ensures x * k <= y * k
  {
  }

  lemma NormalizeSane(v: StatVfs, bsize: nat, frsize: nat, namemax: nat)
    requires frsize > 0 && Sane(v)
    ensures Sane(Normalize(v, bsize, frsize, namemax))
  {
    ScaleMonotone(v.bavail, v.bfree, v.frsize);
    ScaleMonotone(v.bfree, v.blocks, v.frsize);
    DivMonotone(v.bavail * v.frsize, v.bfree * v.frsize, frsize);
    DivMonotone(v.bfree * v.frsize, v.blocks * v.frsize, frsize);
  }

  lemma {:induction false} TotalsSane(stats: map<nat, StatVfs>, n: nat)
    requires AllSane(stats)
    ensures Total(stats, Bavail, n) <= Total(stats, Bfree, n) <= Total(stats, Blocks, n)
  {
    if n > 0 {
      TotalsSane(stats, n - 1);
    }
  }

  // ----- merging -----

  /** merge_statvfs. */
  function Merge(out: StatVfs, v: StatVfs): (r: StatVfs)
    ensures forall f :: Get(r, f) == Get(out, f) + Get(v, f)
  {
    out.(blocks := out.blocks + v.blocks, bfree := out.bfree + v.bfree, bavail := out.bavail + v.bavail,
    files := out.files + v.files, ffree := out.ffree + v.ffree, favail := out.favail + v.favail)
  }

  lemma {:induction false} Gap(stats: map<nat, StatVfs>, f: Field, lo: nat, hi: nat)
    requires lo <= hi && forall d :: lo <= d < hi ==> d !in stats
    ensures Total(stats, f, lo) == Total(stats, f, hi)
    decreases hi - lo
  {
    if lo < hi {
      Gap(stats, f, lo, hi - 1);
    }
  }

  lemma {:induction false} Least(keys: set<nat>) returns (d: nat)
    requires keys != {}
    ensures d in keys && forall e :: e in keys ==> d <= e
    decreases |keys|
  {
    d :| d in keys;
    var rest := keys - {d};
    assert keys == rest + {d};
    if rest != {} {
      var e := Least(rest);
      if e < d {
        d := e;
      }
    }
  }

  /** No device number reaches n. */
  ghost predicate Above(stats: map<nat, StatVfs>, n: nat) {
    forall d :: d in stats ==> d < n
  }

  /** The walk over the device map in key order: the first record is copied, the others merged in. */
  method Walk(stats: map<nat, StatVfs>, bsize: nat, frsize: nat, namemax: nat) returns (out: StatVfs)
    requires stats != map[] && frsize > 0
    ensures out.bsize == bsize && out.frsize == frsize && out.namemax == namemax
    ensures forall n, f :: Above(stats, n) ==> Get(out, f) == Total(Normalized(stats, bsize, frsize, namemax), f, n)
  {
    ghost var norm := Normalized(stats, bsize, frsize, namemax);
    var todo := stats.Keys;
    ghost var l := Least(todo);
    var d :| d in todo && forall e :: e in todo ==> d <= e;
    out := Normalize(stats[d], bsize, frsize, namemax);
    todo := todo - {d};
    forall f
      ensures Get(out, f) == Total(norm, f, d + 1)
    {
      Gap(norm, f, 0, d);
    }
    while todo != {}
      invariant todo <= stats.Keys && d in stats
      invariant forall e :: e in stats ==> (e in todo <==> e > d)
      invariant out.bsize == bsize && out.frsize == frsize && out.namemax == namemax
      invariant forall f :: Get(out, f) == Total(norm, f, d + 1)
    {
      l := Least(todo);
      var e :| e in todo && forall x :: x in todo ==> e <= x;
      out := Merge(out, Normalize(stats[e], bsize, frsize, namemax));
      forall f
        ensures Get(out, f) == Total(norm, f, e + 1)
      {
        Gap(norm, f, d + 1, e);
      }
      todo := todo - {e};
      d := e;
    }
    forall n, f | Above(stats, n)
      ensures Get(out, f) == Total(norm, f, n)
    {
      Gap(norm, f, d + 1, n);
    }
  }

  /** What the pool reports, against the devices in it. */
  ghost predicate Reports(out: StatVfs, stats: map<nat, StatVfs>, n: nat)
  {
    && (forall f :: Counts(f) ==>
          Get(out, f) * out.frsize <= Bytes(stats, f, n) < Get(out, f) * out.frsize + Count(stats, n) * out.frsize)
    && (forall f :: !Counts(f) ==> Get(out, f) == Total(stats, f, n))
    && (AllSane(stats) ==> Sane(out))
  }

  lemma {:induction false} SomeDevice(stats: map<nat, StatVfs>, d: nat, n: nat)
    requires d in stats && d < n
    ensures Count(stats, n) > 0
  {
    if d < n - 1 {
      SomeDevice(stats, d, n - 1);
    }
  }

  lemma {:induction false} FilesUnscaled(stats: map<nat, StatVfs>, bsize: nat, frsize: nat, namemax: nat, f: Field, n: nat)
    requires frsize > 0 && !Counts(f)
    ensures Total(Normalized(stats, bsize, frsize, namemax), f, n) == Total(stats, f, n)
  {
    if n > 0 {
      FilesUnscaled(stats, bsize, frsize, namemax, f, n - 1);
    }
  }

  lemma WalkReports(out: StatVfs, stats: map<nat, StatVfs>, bsize: nat, namemax: nat, n: nat)
    requires stats != map[] && Above(stats, n) && out.frsize > 0
    requires forall f :: Get(out, f) == Total(Normalized(stats, bsize, out.frsize, namemax), f, n)
    ensures Reports(out, stats, n)
  {
    var d :| d in stats;
    SomeDevice(stats, d, n);
    var norm := Normalized(stats, bsize, out.frsize, namemax);
    forall f
      ensures Counts(f) ==>
        Get(out, f) * out.frsize <= Bytes(stats, f, n) < Get(out, f) * out.frsize + Count(stats, n) * out.frsize
      ensures !Counts(f) ==> Get(out, f) == Total(stats, f, n)
    {
      if Counts(f) {
        RoundingError(stats, bsize, out.frsize, namemax, f, n);
      } else {
        FilesUnscaled(stats, bsize, out.frsize, namemax, f, n);
      }
    }
    if AllSane(stats) {
      forall d | d in norm
        ensures Sane(norm[d])
      {
        NormalizeSane(stats[d], bsize, out.frsize, namemax);
      }
      TotalsSane(norm, n);
      assert Get(out, Bavail) <= Get(out, Bfree) <= Get(out, Blocks);
    }
  }

  /** The device table, built branch by branch. */
  ghost function Devices(bs: seq<Branch>, n: nat, ignore: Ignore): map<nat, StatVfs>
    requires n <= |bs|
  {
    if n == 0 then map[]
    else
      var before := Devices(bs, n - 1, ignore);
      if Reached(bs[n - 1]) then Insert(before, bs[n - 1], ignore) else before
  }

  lemma {:induction false} DevicesOk(bs: seq<Branch>, n: nat, ignore: Ignore)
    requires n <= |bs|
    ensures OncePerDevice(Devices(bs, n, ignore), bs, n, ignore)
  {
    if n > 0 {
      DevicesOk(bs, n - 1, ignore);
      Inserted(Devices(bs, n - 1, ignore), bs, n - 1, ignore);
    }
  }

  /** The table is empty exactly if no branch answers. */
  lemma NoDevices(bs: seq<Branch>, ignore: Ignore)
    ensures Devices(bs, |bs|, ignore) == map[] <==> forall b :: b in bs ==> !Reached(b)
  {
    var stats := Devices(bs, |bs|, ignore);
    DevicesOk(bs, |bs|, ignore);
    if b :| b in bs && Reached(b) {
      assert Seen(bs, |bs|, b.dev);
      assert b.dev in stats;
    }
  }

  /**
   * statfs. The fuse-side record is left alone when no branch answers. Otherwise each device
   * counts once, block counts are right to within a fragment per device, file counts are exact,
   * and available never exceeds free nor free the total.
   */
  method StatFs(bs: seq<Branch>, ignore: Ignore, prior: StatVfs) returns (out: StatVfs)
    ensures (forall b :: b in bs ==> !Reached(b)) ==> out == prior
    ensures (exists b :: b in bs && Reached(b)) ==>
      && Minima(out.bsize, out.frsize, out.namemax, bs, |bs|)
      && OncePerDevice(Devices(bs, |bs|, ignore), bs, |bs|, ignore)
      && (forall n :: Above(Devices(bs, |bs|, ignore), n) ==> Reports(out, Devices(bs, |bs|, ignore), n))
      && ((forall b :: b in bs && Reached(b) ==> Sane(b.vfs)) ==> Sane(out))
  {
    var bsize, frsize, namemax, fsstats := Collect(bs, ignore);
    DevicesOk(bs, |bs|, ignore);
    OncePerDeviceUnique(fsstats, Devices(bs, |bs|, ignore), bs, |bs|, ignore);
    NoDevices(bs, ignore);
    out := prior;
    if fsstats != map[] {
      out := Walk(fsstats, bsize, frsize, namemax);
      forall n | Above(fsstats, n)
        ensures Reports(out, fsstats, n)
      {
        WalkReports(out, fsstats, bsize, namemax, n);
      }
      if forall b :: b in bs && Reached(b) ==> Sane(b.vfs) {
        DevicesSane(fsstats, bs, ignore);
        ghost var n := Bound(fsstats.Keys);
        assert Above(fsstats, n);
      }
    }
  }

  lemma {:induction false} Bound(keys: set<nat>) returns (n: nat)
    ensures forall d :: d in keys ==> d < n
    decreases |keys|
  {
    n := 0;
    if keys != {} {
      var d :| d in keys;
      var rest := keys - {d};
      assert keys == rest + {d};
      n := Bound(rest);
      n := if d < n then n else d + 1;
    }
  }
}
