/** fs::path::dirname, against the components of a path. */
module Paths {
  type Path = string

  // ----- the three scans, from the end -----

  /** The path without its trailing slashes. */
  function DropSlashes(p: Path): (r: Path)
    ensures r <= p && (r == "" || r[|r| - 1] != '/')
  {
    if p != "" && p[|p| - 1] == '/' then DropSlashes(p[..|p| - 1]) else p
  }

  /** The path without its trailing run of other characters. */
  function DropName(p: Path): (r: Path)
    ensures r <= p && (r == "" || r[|r| - 1] == '/')
  {
    if p != "" && p[|p| - 1] != '/' then DropName(p[..|p| - 1]) else p
  }

  function Dir(p: Path): Path {
    DropSlashes(DropName(DropSlashes(p)))
  }

  method BackOverSlashes(path: Path, n: nat) returns (i: nat)
    requires n <= |path|
    ensures i <= n && path[..i] == DropSlashes(path[..n])
  {
    i := n;
    while i != 0 && path[i - 1] == '/'
      invariant 0 <= i <= n && DropSlashes(path[..i]) == DropSlashes(path[..n])
    {
      assert path[..i][..i - 1] == path[..i - 1];
      i := i - 1;
    }
  }

  method BackOverName(path: Path, n: nat) returns (i: nat)
    requires n <= |path|
    ensures i <= n && path[..i] == DropName(path[..n])
  {
    i := n;
    while i != 0 && path[i - 1] != '/'
      invariant 0 <= i <= n && DropName(path[..i]) == DropName(path[..n])
    {
      assert path[..i][..i - 1] == path[..i - 1];
      i := i - 1;
    }
  }

  method Dirname(path: Path) returns (rv: Path)
    ensures rv == Dir(path)
  {
    assert path[..|path|] == path;
    var i := BackOverSlashes(path, |path|);
    i := BackOverName(path, i);
    i := BackOverSlashes(path, i);
    rv := path[..i];
  }

  /** dirname shortens every nonempty path: the recursion of clonepath ends. */
  lemma DirShorter(p: Path)
    requires p != ""
    ensures |Dir(p)| < |p| && Dir(p) <= p
  {
    var q := DropSlashes(p);
    if q == p {
      assert DropName(p) <= p[..|p| - 1];
    }
  }

  // ----- components -----

  /** The leading run of characters other than '/'. */
  function Name(p: Path): (r: Path)
    ensures r <= p && (forall i :: 0 <= i < |r| ==> r[i] != '/')
    ensures |r| < |p| ==> p[|r|] == '/'
  {
    if p == "" || p[0] == '/' then "" else [p[0]] + Name(p[1..])
  }

  /** The names a path walks through. */
  function Components(p: Path): seq<Path>
    decreases |p|
  {
    if p == "" then []
    else if p[0] == '/' then Components(p[1..])
    else [Name(p)] + Components(p[|Name(p)|..])
  }

  ghost predicate IsName(s: Path) {
    s != "" && forall i :: 0 <= i < |s| ==> s[i] != '/'
  }

  lemma {:induction false} NameOfName(s: Path)
    requires forall i :: 0 <= i < |s| ==> s[i] != '/'
    ensures Name(s) == s
  {
    if s != "" {
      NameOfName(s[1..]);
    }
  }

  lemma {:induction false} NameStops(a: Path, b: Path)
    requires b == "" || b[0] == '/'
    ensures Name(a + b) == Name(a)
  {
    if a == "" {
      assert a + b == b;
    } else if a[0] != '/' {
      assert (a + b)[1..] == a[1..] + b;
      NameStops(a[1..], b);
    }
  }

  /** Components of a path followed by something that starts with a slash. */
  lemma {:induction false} ComponentsSplit(a: Path, b: Path)
    requires b == "" || b[0] == '/'
    ensures Components(a + b) == Components(a) + Components(b)
    decreases |a|
  {
    if a == "" {
      assert a + b == b;
    } else if a[0] == '/' {
      assert (a + b)[1..] == a[1..] + b;
      ComponentsSplit(a[1..], b);
    } else {
      NameStops(a, b);
      var n := |Name(a)|;
      assert (a + b)[n..] == a[n..] + b;
      ComponentsSplit(a[n..], b);
    }
  }

  lemma {:induction false} ComponentsTrailing(p: Path)
    ensures Components(p) == Components(DropSlashes(p))
  {
    if p != "" && p[|p| - 1] == '/' {
      var q := p[..|p| - 1];
      ComponentsTrailing(q);
      assert p == q + "/";
      ComponentsSplit(q, "/");
      assert Components("/") == [];
    }
  }

  lemma {:induction false} DropNameRest(p: Path)
    ensures forall i :: |DropName(p)| <= i < |p| ==> p[i] != '/'
  {
    if p != "" && p[|p| - 1] != '/' {
      DropNameRest(p[..|p| - 1]);
    }
  }

  lemma SplitLast(q: Path)
    requires q != "" && q[|q| - 1] != '/'
    ensures Components(q) == Components(DropName(q)) + [q[|DropName(q)|..]]
  {
    var d := DropName(q);
    DropNameRest(q);
    var name := q[|d|..];
    assert q == d + name;
    if d == "" {
      NameOfName(name);
      assert name[|name|..] == "";
    } else {
      LastComponent(d, name);
    }
  }

  /** dirname removes exactly the last component. */
  lemma DirDropsLast(p: Path)
    ensures Components(p) == [] ==> Dir(p) == ""
    ensures Components(p) != [] ==> Components(Dir(p)) == Components(p)[..|Components(p)| - 1]
  {
    var q := DropSlashes(p);
    ComponentsTrailing(p);
    ComponentsTrailing(DropName(q));
    if q != "" {
      SplitLast(q);
    }
  }

  lemma {:induction false} LastComponent(d: Path, name: Path)
    requires d != "" && d[|d| - 1] == '/' && IsName(name)
    ensures Components(d + name) == Components(d) + [name]
    decreases |d|
  {
    if d == "/" {
      assert (d + name)[1..] == name;
      NameOfName(name);
      assert name[|name|..] == "";
      assert Components("") == [];
    } else if d[0] == '/' {
      assert (d + name)[1..] == d[1..] + name;
      LastComponent(d[1..], name);
    } else {
      var n := |Name(d)|;
      assert n < |d|;
      NamePrefix(d, name);
      assert (d + name)[n..] == d[n..] + name;
      LastComponent(d[n..], name);
    }
  }

  lemma {:induction false} NamePrefix(d: Path, s: Path)
    requires d != "" && d[|d| - 1] == '/'
    ensures Name(d + s) == Name(d) && |Name(d)| < |d|
    decreases |d|
  {
    if d[0] != '/' {
      assert (d + s)[1..] == d[1..] + s;
      NamePrefix(d[1..], s);
    }
  }

  // ----- ancestors -----

  /** The path itself and every nonempty path dirname leads to. */
  function Ancestors(p: Path): (r: set<Path>)
    ensures forall a :: a in r ==> a != "" && |a| <= |p|
    decreases |p|
  {
    if p == "" then {} else
      DirShorter(p);
      {p} + Ancestors(Dir(p))
  }
}
