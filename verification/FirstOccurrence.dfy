/** Keeping the first item of every key: the theory behind the union listing of a directory. */
module FirstOccurrence {

  function Keys<T, K>(xs: seq<T>, key: T -> K): set<K> {
    set k | 0 <= k < |xs| :: key(xs[k])
  }

  /** The items of xs whose key no earlier item has. */
  function FirstSeen<T, K(==)>(xs: seq<T>, key: T -> K): seq<T> {
    if xs == [] then []
    else
      var n := |xs| - 1;
      FirstSeen(xs[..n], key) + if key(xs[n]) in Keys(xs[..n], key) then [] else [xs[n]]
  }

  lemma KeysStep<T, K>(xs: seq<T>, x: T, key: T -> K)
    ensures Keys(xs + [x], key) == Keys(xs, key) + {key(x)}
  {
    var ys := xs + [x];
    forall h | h in Keys(xs, key) + {key(x)}
      ensures h in Keys(ys, key)
    {
      if h == key(x) {
        assert key(ys[|xs|]) == h;
      } else {
        var k :| 0 <= k < |xs| && key(xs[k]) == h;
        assert key(ys[k]) == h;
      }
    }
  }

  lemma FirstSeenStep<T, K>(xs: seq<T>, x: T, key: T -> K)
    ensures Keys(xs + [x], key) == Keys(xs, key) + {key(x)}
    ensures FirstSeen(xs + [x], key) == FirstSeen(xs, key) + if key(x) in Keys(xs, key) then [] else [x]
  {
    KeysStep(xs, x, key);
    assert (xs + [x])[..|xs|] == xs;
  }

  lemma {:induction false} FirstSeenPrefix<T, K>(xs: seq<T>, ys: seq<T>, key: T -> K)
    ensures FirstSeen(xs, key) <= FirstSeen(xs + ys, key)
    decreases |ys|
  {
    if ys == [] {
      assert xs + ys == xs;
    } else {
      var n := |ys| - 1;
      FirstSeenPrefix(xs, ys[..n], key);
      FirstSeenStep(xs + ys[..n], ys[n], key);
      assert xs + ys[..n] + [ys[n]] == xs + ys;
    }
  }

  /** No key is listed twice, and none is missing. */
  lemma {:induction false} FirstSeenKeys<T, K>(xs: seq<T>, key: T -> K)
    ensures Keys(FirstSeen(xs, key), key) == Keys(xs, key)
    ensures forall a, b :: 0 <= a < b < |FirstSeen(xs, key)| ==>
              key(FirstSeen(xs, key)[a]) != key(FirstSeen(xs, key)[b])
  {
    if xs != [] {
      var n := |xs| - 1;
      FirstSeenKeys(xs[..n], key);
      FirstSeenStep(xs[..n], xs[n], key);
      assert xs[..n] + [xs[n]] == xs;
      var f := FirstSeen(xs[..n], key);
      assert f + [] == f;
      if key(xs[n]) !in Keys(xs[..n], key) {
        KeysStep(f, xs[n], key);
        forall a | 0 <= a < |f|
          ensures key(f[a]) != key(xs[n])
        {
          assert key(f[a]) in Keys(f, key);
        }
      }
    }
  }

  /** Item k is the first with its key. */
  ghost predicate IsFirst<T(!new), K>(xs: seq<T>, key: T -> K, k: int) {
    0 <= k < |xs| && forall j :: 0 <= j < k ==> key(xs[j]) != key(xs[k])
  }

  /** The items ys are read off xs at increasing positions, each the first of its key. */
  ghost predicate ReadOff<T(!new), K>(ys: seq<T>, xs: seq<T>, key: T -> K, at: seq<nat>) {
    && |at| == |ys|
    && (forall a :: 0 <= a < |at| ==> IsFirst(xs, key, at[a]) && ys[a] == xs[at[a]])
    && (forall a, b :: 0 <= a < b < |at| ==> at[a] < at[b])
  }

  lemma ReadOffLonger<T(!new), K>(ys: seq<T>, xs: seq<T>, x: T, key: T -> K, at: seq<nat>)
    requires ReadOff(ys, xs, key, at)
    ensures ReadOff(ys, xs + [x], key, at)
  {
    var zs := xs + [x];
    forall a | 0 <= a < |at|
      ensures IsFirst(zs, key, at[a]) && ys[a] == zs[at[a]]
    {
      assert IsFirst(xs, key, at[a]);
    }
  }

  lemma ReadOffMore<T(!new), K>(ys: seq<T>, xs: seq<T>, x: T, key: T -> K, at: seq<nat>)
    requires ReadOff(ys, xs + [x], key, at) && key(x) !in Keys(xs, key) && forall a :: 0 <= a < |at| ==> at[a] < |xs|
    ensures ReadOff(ys + [x], xs + [x], key, at + [|xs|])
  {
    var zs := xs + [x];
    forall j | 0 <= j < |xs|
      ensures key(zs[j]) != key(x)
    {
      assert key(xs[j]) in Keys(xs, key);
    }
    assert IsFirst(zs, key, |xs|);
  }

  /** The listing is read off xs. */
  lemma {:induction false} FirstSeenOrder<T(!new), K>(xs: seq<T>, key: T -> K) returns (at: seq<nat>)
    ensures ReadOff(FirstSeen(xs, key), xs, key, at)
  {
    at := [];
    if xs != [] {
      var n := |xs| - 1;
      var front, x := xs[..n], xs[n];
      assert front + [x] == xs;
      at := FirstSeenOrder(front, key);
      FirstSeenStep(front, x, key);
      assert forall a :: 0 <= a < |at| ==> IsFirst(front, key, at[a]);
      ReadOffLonger(FirstSeen(front, key), front, x, key, at);
      if key(x) !in Keys(front, key) {
        ReadOffMore(FirstSeen(front, key), front, x, key, at);
        at := at + [n];
      } else {
        assert FirstSeen(front, key) + [] == FirstSeen(front, key);
      }
    }
  }

  ghost predicate Agree<T(!new), K, L>(xs: seq<T>, key: T -> K, name: T -> L) {
    forall a, b :: 0 <= a < |xs| && 0 <= b < |xs| && key(xs[a]) == key(xs[b]) ==> name(xs[a]) == name(xs[b])
  }

  /** If items with equal keys have equal names, the listing has every name, each once. */
  lemma FirstSeenIsUnion<T(!new), K, L>(xs: seq<T>, key: T -> K, name: T -> L)
    requires Agree(xs, key, name)
    requires forall x, y :: name(x) == name(y) ==> key(x) == key(y)
    ensures Keys(FirstSeen(xs, key), name) == Keys(xs, name)
    ensures forall a, b :: 0 <= a < b < |FirstSeen(xs, key)| ==>
              name(FirstSeen(xs, key)[a]) != name(FirstSeen(xs, key)[b])
  {
    FirstSeenKeys(xs, key);
    var at := FirstSeenOrder(xs, key);
    var f := FirstSeen(xs, key);
    forall k | 0 <= k < |xs|
      ensures name(xs[k]) in Keys(f, name)
    {
      assert key(xs[k]) in Keys(f, key);
      var a :| 0 <= a < |f| && key(f[a]) == key(xs[k]);
      assert f[a] == xs[at[a]];
      assert name(f[a]) == name(xs[k]);
    }
    forall a | 0 <= a < |f|
      ensures name(f[a]) in Keys(xs, name)
    {
      assert f[a] == xs[at[a]];
    }
  }
}
