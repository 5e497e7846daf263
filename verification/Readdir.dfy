/** HashSet and the union listing of a directory over all branches. */
module Readdir {
  import opened Bits
  import opened KHash
  import opened FastHash
  import opened FirstOccurrence

  type Name = seq<Byte>

  function NameHash(s: Name): Word {
    Hash(s, SEED)
  }

  /** kh_int64_hash_func: where a 64-bit key starts probing. */
  function Int64Hash(key: Word): nat {
    Mod(Xor(Xor(Shr(key, 33), key), Mod(key * 2048, W)), TWO_32)
  }

  class HashSet {
    const table: Table<Word>

    ghost predicate Valid()
      reads table, table.flags, table.keys
    {
      table.Valid()
    }

    ghost function Contents(): set<Word>
      reads table, table.flags, table.keys
      requires Valid()
    {
      table.Contents()
    }

    constructor ()
      ensures Valid() && Contents() == {} && table.size == 0
      ensures fresh(table) && fresh(table.flags) && fresh(table.keys)
    {
      table := new Table(Int64Hash);
    }

    /** 0 when a name with this hash was put before, positive otherwise. */
    method Put(name: Name) returns (rv: int)
      requires Valid() && table.size < TWO_31 / 2
      modifies table, table.flags, table.keys
      ensures Valid() && Contents() == old(Contents()) + {NameHash(name)}
      ensures rv >= 0 && (rv == 0 <==> NameHash(name) in old(Contents()))
      ensures table.size <= old(table.size) + 1
      ensures table.flags == old(table.flags) || fresh(table.flags)
      ensures table.keys == old(table.keys) || fresh(table.keys)
    {
      var h := FastHash64(name, SEED);
      var x, r := table.Put(h);
      if r != 0 {
        ghost var before := table.keys[..];
        table.keys[x] := h;
        assert table.keys[..] == before;
      }
      rv := r;
    }
  }

  datatype Entry = Entry(name: Name, ino: Word, kind: nat)

  /** What opendir and devid give for one branch. */
  datatype Branch = Unreadable | Readable(dev: Word, entries: seq<Entry>)

  /** What is handed to the filler. */
  datatype Item = Item(name: Name, ino: nat, kind: nat, dev: nat)

  datatype Status = Success | OutOfMemory

  /** The device number, or the branch's index when it could not be had. */
  function DeviceOf(b: Branch, i: nat): nat
    requires b.Readable?
  {
    if b.dev == W - 1 then i else b.dev
  }

  /** fs::inode::recompute, with 64-bit inode numbers: `ino | dev << 32`. */
  function Recompute(ino: nat, dev: nat): nat {
    Or(ino, Mod(Shl(dev, 32), W))
  }

  lemma OrDoubled(x: nat, z: nat)
    requires Or(x / 2, z) == x / 2 + z
    ensures Or(x, 2 * z) == x + 2 * z
  {
  }

  lemma {:induction false} OrApart(x: nat, y: nat, k: nat)
    requires x < Exp2(k)
    ensures Or(x, y * Exp2(k)) == x + y * Exp2(k)
  {
    if k > 0 {
      OrApart(x / 2, y, k - 1);
      OrDoubled(x, y * Exp2(k - 1));
      TimesExp2(y, k);
    }
  }

  lemma RecomputeSum(ino: nat, dev: nat)
    requires ino < TWO_32 && dev < TWO_32
    ensures Recompute(ino, dev) == ino + dev * TWO_32
  {
    Exp2Of32();
    OrApart(ino, dev, 32);
  }

  lemma SumsApart(a: nat, b: nat, c: nat, d: nat)
    requires a < TWO_32 && c < TWO_32 && a + b * TWO_32 == c + d * TWO_32
    ensures a == c && b == d
  {
    MulStep(TWO_32, b, d);
    MulStep(TWO_32, d, b);
  }

  /** Inode numbers and devices below 2^32 stay apart: entries of different branches' devices, or
      different entries of one device, are handed over with different numbers. */
  lemma InodesApart(ino: nat, dev: nat, ino': nat, dev': nat)
    requires ino < TWO_32 && dev < TWO_32 && ino' < TWO_32 && dev' < TWO_32
    ensures Recompute(ino, dev) == Recompute(ino', dev') <==> ino == ino' && dev == dev'
  {
    RecomputeSum(ino, dev);
    RecomputeSum(ino', dev');
    if Recompute(ino, dev) == Recompute(ino', dev') {
      SumsApart(ino, dev, ino', dev');
    }
  }

  // ----- specification -----

  function Tagged(es: seq<Entry>, dev: nat): (r: seq<Item>)
    ensures |r| == |es|
  {
    seq(|es|, k requires 0 <= k < |es| => Item(es[k].name, Recompute(es[k].ino, dev), es[k].kind, dev))
  }

  function BranchItems(b: Branch, i: nat): seq<Item> {
    if b.Readable? then Tagged(b.entries, DeviceOf(b, i)) else []
  }

  /** Every entry of the first n branches that can be read, in the order they are read. */
  function ItemsUpTo(bs: seq<Branch>, n: nat): seq<Item>
    requires n <= |bs|
  {
    if n == 0 then [] else ItemsUpTo(bs, n - 1) + BranchItems(bs[n - 1], n - 1)
  }

  function AllItems(bs: seq<Branch>): seq<Item> {
    ItemsUpTo(bs, |bs|)
  }

  function ItemKey(x: Item): Word {
    NameHash(x.name)
  }

  function ItemName(x: Item): Name {
    x.name
  }

  /** The listing the directory should have. */
  function Listing(bs: seq<Branch>): seq<Item> {
    FirstSeen(AllItems(bs), ItemKey)
  }

  lemma PrefixMore<T>(a: seq<T>, b: seq<T>, more: seq<T>)
    requires a <= b
    ensures a <= b + more
  {
  }

  lemma {:induction false} ItemsPrefix(bs: seq<Branch>, k: nat, n: nat)
    requires k <= n <= |bs|
    ensures ItemsUpTo(bs, k) <= ItemsUpTo(bs, n)
  {
    if k < n {
      ItemsPrefix(bs, k, n - 1);
      PrefixMore(ItemsUpTo(bs, k), ItemsUpTo(bs, n - 1), BranchItems(bs[n - 1], n - 1));
    }
  }

  // ----- what the listing promises -----

  /** Where the entries of branch i start among all entries. */
  ghost function Start(bs: seq<Branch>, i: nat): nat
    requires i <= |bs|
  {
    if i == 0 then 0
    else Start(bs, i - 1) + if bs[i - 1].Readable? then |bs[i - 1].entries| else 0
  }

  ghost predicate IsPlace(bs: seq<Branch>, i: nat, k: nat) {
    i < |bs| && bs[i].Readable? && k < |bs[i].entries|
  }

  /** x is entry k of branch i: its name and kind, the device of the branch (its index if the device
      could not be had), and the inode number made from both. */
  ghost predicate Shows(x: Item, bs: seq<Branch>, i: nat, k: nat)
    requires IsPlace(bs, i, k)
  {
    var e := bs[i].entries[k];
    && x.name == e.name && x.kind == e.kind
    && x.dev == (if bs[i].dev == W - 1 then i else bs[i].dev)
    && x.ino == Or(e.ino, Mod(Shl(x.dev, 32), W))
  }

  lemma {:induction false} ItemsCount(bs: seq<Branch>, n: nat)
    requires n <= |bs|
    ensures |ItemsUpTo(bs, n)| == Start(bs, n)
  {
    if n > 0 {
      ItemsCount(bs, n - 1);
    }
  }

  /** Every entry of a branch that can be read is there. */
  lemma ItemAt(bs: seq<Branch>, i: nat, k: nat)
    requires IsPlace(bs, i, k)
    ensures Start(bs, i) + k < |AllItems(bs)| && Shows(AllItems(bs)[Start(bs, i) + k], bs, i, k)
  {
    ItemsCount(bs, i);
    ItemsPrefix(bs, i + 1, |bs|);
    var xs := ItemsUpTo(bs, i + 1);
    assert xs[Start(bs, i) + k] == BranchItems(bs[i], i)[k];
  }

  /** And nothing else is. */
  lemma {:induction false} PlaceOf(bs: seq<Branch>, n: nat, p: nat) returns (i: nat, k: nat)
    requires n <= |bs| && p < Start(bs, n)
    ensures IsPlace(bs, i, k) && i < n && p == Start(bs, i) + k
  {
    if p < Start(bs, n - 1) {
      i, k := PlaceOf(bs, n - 1, p);
    } else {
      i, k := n - 1, p - Start(bs, n - 1);
    }
  }

  lemma {:induction false} StartGrows(bs: seq<Branch>, i: nat, j: nat)
    requires i <= j <= |bs|
    ensures Start(bs, i) <= Start(bs, j)
    ensures i < j && bs[i].Readable? ==> Start(bs, i) + |bs[i].entries| <= Start(bs, j)
  {
    if i < j {
      StartGrows(bs, i, j - 1);
    }
  }

  ghost predicate Before(i: nat, k: nat, i': nat, k': nat) {
    i < i' || (i == i' && k < k')
  }

  lemma PlacesOrdered(bs: seq<Branch>, i: nat, k: nat, i': nat, k': nat)
    requires IsPlace(bs, i, k) && IsPlace(bs, i', k')
    ensures Before(i, k, i', k') <==> Start(bs, i) + k < Start(bs, i') + k'
  {
    if i < i' {
      StartGrows(bs, i, i');
    } else {
      StartGrows(bs, i', i);
    }
  }

  /** No entry before this one has a name with the same hash. */
  ghost predicate FirstOfHash<K(!new)>(bs: seq<Branch>, hash: Name -> K, i: nat, k: nat)
    requires IsPlace(bs, i, k)
  {
    forall i': nat, k': nat :: IsPlace(bs, i', k') && Before(i', k', i, k) ==>
      hash(bs[i'].entries[k'].name) != hash(bs[i].entries[k].name)
  }

  lemma KeyAt<K>(bs: seq<Branch>, key: Item -> K, hash: Name -> K, i: nat, k: nat)
    requires IsPlace(bs, i, k) && forall x: Item :: key(x) == hash(x.name)
    ensures Start(bs, i) + k < |AllItems(bs)|
    ensures key(AllItems(bs)[Start(bs, i) + k]) == hash(bs[i].entries[k].name)
  {
    ItemAt(bs, i, k);
  }

  lemma FirstPlace<K(!new)>(bs: seq<Branch>, key: Item -> K, hash: Name -> K, i: nat, k: nat)
    requires IsPlace(bs, i, k) && forall x: Item :: key(x) == hash(x.name)
    requires IsFirst(AllItems(bs), key, Start(bs, i) + k)
    ensures FirstOfHash(bs, hash, i, k)
  {
    KeyAt(bs, key, hash, i, k);
    forall i': nat, k': nat | IsPlace(bs, i', k') && Before(i', k', i, k)
      ensures hash(bs[i'].entries[k'].name) != hash(bs[i].entries[k].name)
    {
      KeyAt(bs, key, hash, i', k');
      PlacesOrdered(bs, i', k', i, k);
    }
  }

  /** Item a of the listing is the first entry with its hash, and shows that entry. */
  lemma ListedEntry<K(!new)>(bs: seq<Branch>, key: Item -> K, hash: Name -> K, a: nat) returns (i: nat, k: nat)
    requires a < |FirstSeen(AllItems(bs), key)| && forall x: Item :: key(x) == hash(x.name)
    ensures IsPlace(bs, i, k) && Shows(FirstSeen(AllItems(bs), key)[a], bs, i, k) && FirstOfHash(bs, hash, i, k)
  {
    var at := FirstSeenOrder(AllItems(bs), key);
    assert IsFirst(AllItems(bs), key, at[a]);
    ItemsCount(bs, |bs|);
    i, k := PlaceOf(bs, |bs|, at[a]);
    ItemAt(bs, i, k);
    FirstPlace(bs, key, hash, i, k);
  }

  lemma OneFirst<K(!new)>(bs: seq<Branch>, hash: Name -> K, i: nat, k: nat, i': nat, k': nat)
    requires IsPlace(bs, i, k) && IsPlace(bs, i', k') && hash(bs[i].entries[k].name) == hash(bs[i'].entries[k'].name)
    requires FirstOfHash(bs, hash, i, k) && FirstOfHash(bs, hash, i', k')
    ensures i == i' && k == k'
  {
    assert !Before(i', k', i, k) && !Before(i, k, i', k');
  }

  /** Every hash is listed, and an entry is listed as itself if no entry before it has its hash. */
  lemma EntryListed<K(!new)>(bs: seq<Branch>, key: Item -> K, hash: Name -> K, i: nat, k: nat) returns (a: nat)
    requires IsPlace(bs, i, k) && forall x: Item :: key(x) == hash(x.name)
    ensures a < |FirstSeen(AllItems(bs), key)| && hash(FirstSeen(AllItems(bs), key)[a].name) == hash(bs[i].entries[k].name)
    ensures FirstOfHash(bs, hash, i, k) ==> Shows(FirstSeen(AllItems(bs), key)[a], bs, i, k)
  {
    var out := FirstSeen(AllItems(bs), key);
    KeyAt(bs, key, hash, i, k);
    FirstSeenKeys(AllItems(bs), key);
    var h := hash(bs[i].entries[k].name);
    assert h in Keys(out, key);
    a :| 0 <= a < |out| && key(out[a]) == h;
    var i', k' := ListedEntry(bs, key, hash, a);
    if FirstOfHash(bs, hash, i, k) {
      OneFirst(bs, hash, i, k, i', k');
    }
  }

  /** x is the first entry with its hash, over all branches. */
  ghost predicate IsListed<K(!new)>(x: Item, bs: seq<Branch>, hash: Name -> K) {
    exists i: nat, k: nat :: IsPlace(bs, i, k) && Shows(x, bs, i, k) && FirstOfHash(bs, hash, i, k)
  }

  lemma AllListed<K(!new)>(bs: seq<Branch>, key: Item -> K, hash: Name -> K)
    requires forall x: Item :: key(x) == hash(x.name)
    ensures Genuine(FirstSeen(AllItems(bs), key), bs, hash)
  {
    forall a | 0 <= a < |FirstSeen(AllItems(bs), key)|
      ensures IsListed(FirstSeen(AllItems(bs), key)[a], bs, hash)
    {
      var i, k := ListedEntry(bs, key, hash, a);
    }
  }

  /** Whatever is handed over is the first entry with its hash. */
  ghost predicate Genuine<K(!new)>(out: seq<Item>, bs: seq<Branch>, hash: Name -> K) {
    forall a :: 0 <= a < |out| ==> IsListed(out[a], bs, hash)
  }

  lemma PrefixListed(out: seq<Item>, bs: seq<Branch>)
    requires out <= Listing(bs)
    ensures Genuine(out, bs, NameHash)
  {
    AllListed(bs, ItemKey, NameHash);
  }

  ghost predicate CollisionFree(xs: seq<Item>) {
    forall a, b :: 0 <= a < |xs| && 0 <= b < |xs| && ItemKey(xs[a]) == ItemKey(xs[b]) ==> xs[a].name == xs[b].name
  }

  /** Without collisions the listing is the union of the branches, each name once. */
  lemma ListingIsUnion(bs: seq<Branch>)
    requires CollisionFree(AllItems(bs))
    ensures Keys(Listing(bs), ItemName) == Keys(AllItems(bs), ItemName)
    ensures forall a, b :: 0 <= a < b < |Listing(bs)| ==> Listing(bs)[a].name != Listing(bs)[b].name
  {
    FirstSeenIsUnion(AllItems(bs), ItemKey, ItemName);
    forall a, b | 0 <= a < b < |Listing(bs)|
      ensures Listing(bs)[a].name != Listing(bs)[b].name
    {
      assert ItemName(Listing(bs)[a]) != ItemName(Listing(bs)[b]);
    }
  }

  /** The collision-free case is real: names of one length of at most 8 bytes. */
  lemma ShortNamesListed(bs: seq<Branch>, len: nat)
    requires len <= 8 && forall k :: 0 <= k < |AllItems(bs)| ==> |AllItems(bs)[k].name| == len
    ensures Keys(Listing(bs), ItemName) == Keys(AllItems(bs), ItemName)
  {
    var xs := AllItems(bs);
    forall a, b | 0 <= a < |xs| && 0 <= b < |xs| && ItemKey(xs[a]) == ItemKey(xs[b])
      ensures xs[a].name == xs[b].name
    {
      ShortNamesNeverCollide(xs[a].name, xs[b].name, SEED);
    }
    ListingIsUnion(bs);
  }

  // ----- the loops -----

  /** So far the filler took exactly the first occurrences of xs, and their hashes are in the set. */
  ghost predicate Listed(xs: seq<Item>, out: seq<Item>, contents: set<Word>, fails: nat -> bool) {
    && out == FirstSeen(xs, ItemKey) && contents == Keys(xs, ItemKey)
    && (forall k: nat :: k < |out| ==> !fails(k))
  }

  /** The filler took exactly out, and refused the next item of the listing. */
  ghost predicate Refused(xs: seq<Item>, out: seq<Item>, fails: nat -> bool) {
    && out < FirstSeen(xs, ItemKey) && fails(|out|)
    && (forall k: nat :: k < |out| ==> !fails(k))
  }

  lemma RefusedLonger(xs: seq<Item>, all: seq<Item>, out: seq<Item>, fails: nat -> bool)
    requires Refused(xs, out, fails) && xs <= all
    ensures Refused(all, out, fails)
  {
    FirstSeenPrefix(xs, all[|xs|..], ItemKey);
    assert xs + all[|xs|..] == all;
  }

  lemma Known(xs: seq<Item>, x: Item, out: seq<Item>, contents: set<Word>, fails: nat -> bool)
    requires Listed(xs, out, contents, fails) && ItemKey(x) in contents
    ensures Listed(xs + [x], out, contents + {ItemKey(x)}, fails)
  {
    FirstSeenStep(xs, x, ItemKey);
  }

  lemma Fresh(xs: seq<Item>, x: Item, out: seq<Item>, contents: set<Word>, fails: nat -> bool)
    requires Listed(xs, out, contents, fails) && ItemKey(x) !in contents
    ensures fails(|out|) ==> Refused(xs + [x], out, fails)
    ensures !fails(|out|) ==> Listed(xs + [x], out + [x], contents + {ItemKey(x)}, fails)
  {
    FirstSeenStep(xs, x, ItemKey);
  }

  /** The items have fewer than 2^30 different hashes, so the table stays below 2^31 buckets. */
  ghost predicate Fits(xs: seq<Item>) {
    |Keys(xs, ItemKey)| < TWO_31 / 2
  }

  lemma FitsPrefix(xs: seq<Item>, all: seq<Item>)
    requires xs <= all && Fits(all)
    ensures Fits(xs)
  {
    SubsetSize(Keys(xs, ItemKey), Keys(all, ItemKey));
  }

  /** The body of the entry loop. `fails(k)` says whether the k-th call of the filler fails. */
  method ListEntry(names: HashSet, x: Item, fails: nat -> bool, before: seq<Item>, ghost xs: seq<Item>)
    returns (status: Status, out: seq<Item>)
    requires names.Valid() && Fits(xs)
    requires Listed(xs, before, names.Contents(), fails)
    modifies names.table, names.table.flags, names.table.keys
    ensures names.Valid()
    ensures names.table.flags == old(names.table.flags) || fresh(names.table.flags)
    ensures names.table.keys == old(names.table.keys) || fresh(names.table.keys)
    ensures status.Success? ==> Listed(xs + [x], out, names.Contents(), fails)
    ensures status.OutOfMemory? ==> Refused(xs + [x], out, fails)
  {
    ghost var was := names.Contents();
    status, out := Success, before;
    var rv := names.Put(x.name);
    if rv == 0 {
      Known(xs, x, out, was, fails);
    } else {
      Fresh(xs, x, out, was, fails);
      if fails(|out|) {
        status := OutOfMemory;
      } else {
        out := out + [x];
      }
    }
  }

  lemma OneMore<T>(xs: seq<T>, t: seq<T>, k: nat)
    requires k < |t|
    ensures xs + t[..k] + [t[k]] == xs + t[..k + 1] <= xs + t
    ensures k + 1 == |t| ==> xs + t[..k + 1] == xs + t
  {
  }

  method ListBranch(names: HashSet, es: seq<Entry>, dev: nat, fails: nat -> bool, before: seq<Item>, ghost xs: seq<Item>)
    returns (status: Status, out: seq<Item>)
    requires names.Valid() && Fits(xs + Tagged(es, dev))
    requires Listed(xs, before, names.Contents(), fails)
    modifies names.table, names.table.flags, names.table.keys
    ensures names.Valid()
    ensures names.table.flags == old(names.table.flags) || fresh(names.table.flags)
    ensures names.table.keys == old(names.table.keys) || fresh(names.table.keys)
    ensures status.Success? ==> Listed(xs + Tagged(es, dev), out, names.Contents(), fails)
    ensures status.OutOfMemory? ==> Refused(xs + Tagged(es, dev), out, fails)
  {
    status, out := Success, before;
    ghost var t, done := Tagged(es, dev), xs;
    assert xs + t[..0] == xs && xs + t[..|t|] == xs + t;
    for k := 0 to |es|
      invariant names.Valid()
      invariant names.table.flags == old(names.table.flags) || fresh(names.table.flags)
      invariant names.table.keys == old(names.table.keys) || fresh(names.table.keys)
      invariant status.Success? && done == xs + t[..k] && Listed(done, out, names.Contents(), fails)
    {
      var x := Item(es[k].name, Recompute(es[k].ino, dev), es[k].kind, dev);
      OneMore(xs, t, k);
      FitsPrefix(done, xs + t);
      status, out := ListEntry(names, x, fails, out, done);
      done := done + [x];
      if status.OutOfMemory? {
        RefusedLonger(done, xs + t, out, fails);
        return;
      }
    }
  }

  /** The body of the branch loop: a branch that cannot be opened is passed over. */
  method ListOne(names: HashSet, b: Branch, i: nat, fails: nat -> bool, before: seq<Item>, ghost xs: seq<Item>)
    returns (status: Status, out: seq<Item>)
    requires names.Valid() && Fits(xs + BranchItems(b, i))
    requires Listed(xs, before, names.Contents(), fails)
    modifies names.table, names.table.flags, names.table.keys
    ensures names.Valid()
    ensures names.table.flags == old(names.table.flags) || fresh(names.table.flags)
    ensures names.table.keys == old(names.table.keys) || fresh(names.table.keys)
    ensures status.Success? ==> Listed(xs + BranchItems(b, i), out, names.Contents(), fails)
    ensures status.OutOfMemory? ==> Refused(xs + BranchItems(b, i), out, fails)
  {
    if b.Readable? {
      status, out := ListBranch(names, b.entries, DeviceOf(b, i), fails, before, xs);
    } else {
      assert xs + [] == xs;
      status, out := Success, before;
    }
  }

  lemma RefusedWhole(bs: seq<Branch>, n: nat, out: seq<Item>, fails: nat -> bool)
    requires n <= |bs| && Refused(ItemsUpTo(bs, n), out, fails)
    ensures Refused(AllItems(bs), out, fails) && !(forall k: nat :: !fails(k))
  {
    ItemsPrefix(bs, n, |bs|);
    RefusedLonger(ItemsUpTo(bs, n), AllItems(bs), out, fails);
  }

  /** The whole listing. When the filler refuses an item, what was handed over is still a prefix
      of the full listing. */
  method ListDirectory(bs: seq<Branch>, fails: nat -> bool) returns (status: Status, out: seq<Item>)
    requires Fits(AllItems(bs))
    ensures status.Success? ==> out == Listing(bs)
    ensures status.OutOfMemory? ==> Refused(AllItems(bs), out, fails)
    ensures (forall k: nat :: !fails(k)) ==> status.Success?
    ensures Genuine(out, bs, NameHash)
  {
    var names := new HashSet();
    status, out := Success, [];
    ghost var done := [];
    for i := 0 to |bs|
      invariant names.Valid() && fresh(names.table) && fresh(names.table.flags) && fresh(names.table.keys)
      invariant status.Success? && done == ItemsUpTo(bs, i) && Listed(done, out, names.Contents(), fails)
    {
      ItemsPrefix(bs, i + 1, |bs|);
      FitsPrefix(ItemsUpTo(bs, i + 1), AllItems(bs));
      status, out := ListOne(names, bs[i], i, fails, out, done);
      done := done + BranchItems(bs[i], i);
      if status.OutOfMemory? {
        RefusedWhole(bs, i + 1, out, fails);
        PrefixListed(out, bs);
        return;
      }
    }
    PrefixListed(out, bs);
  }
}
