/** The branches' directory trees, and clonepath: recreating a directory path of one branch on
    another. Every system call may fail with any error that its outcome allows. */
module Pool {
  import opened Paths

  type Branch = string

  /** An entry; the content of a file or tree, and what a link points to, is opaque. */
  datatype Node = Directory | File(content: nat) | Link(target: nat)

  datatype Key = Key(branch: Branch, path: Path)

  type Nodes = map<Key, Node>

  class FileSystem {
    var nodes: Nodes

    constructor (nodes: Nodes)
      ensures this.nodes == nodes
    {
      this.nodes := nodes;
    }
  }

  const EPERM := 1
  const ENOENT := 2
  const EXDEV := 18
  const EEXIST := 17
  const EINVAL := 22
  const ENOTDIR := 20
  const ENOTTY := 25
  const ENOTSUP := 95

  /** What the kernel answers while one directory is cloned, as error numbers with 0 for none: to the
      stat of the source (and whether a link leads to a directory), to mkdir, and to the copying of
      attributes, extended attributes, owner and times. */
  datatype CloneAnswers = CloneAnswers(stat: nat, leadsToDir: bool, mkdir: nat, attr: nat, xattr: nat, owner: nat, times: nat)

  /** The entry is a directory for those who follow links. */
  predicate IsDir(node: Node, leadsToDir: bool) {
    node.Directory? || (node.Link? && leadsToDir)
  }

  method Stat(fs: FileSystem, k: Key, a: CloneAnswers) returns (rv: int, errno: int, dir: bool)
    ensures rv == 0 || (rv == -1 && errno > 0)
    ensures rv == 0 <==> a.stat == 0 && k in fs.nodes
    ensures rv == 0 ==> dir == IsDir(fs.nodes[k], a.leadsToDir)
  {
    rv, errno, dir := -1, if a.stat != 0 then a.stat else ENOENT, false;
    if a.stat == 0 && k in fs.nodes {
      rv, dir := 0, IsDir(fs.nodes[k], a.leadsToDir);
    }
  }

  ghost predicate ParentExists(nodes: Nodes, k: Key) {
    Dir(k.path) == "" || Key(k.branch, Dir(k.path)) in nodes
  }

  /** mkdir: an error of the kernel's own; else EEXIST if something is there and ENOENT without the
      parent. */
  method Mkdir(fs: FileSystem, k: Key, want: nat) returns (rv: int, errno: int)
    modifies fs
    ensures rv == 0 || (rv == -1 && errno > 0)
    ensures rv == 0 ==> k !in old(fs.nodes) && ParentExists(old(fs.nodes), k) && fs.nodes == old(fs.nodes)[k := Directory]
    ensures rv == -1 ==> fs.nodes == old(fs.nodes)
    ensures errno == EEXIST && rv == -1 <==> k in old(fs.nodes) && (want == 0 || want == EEXIST)
    ensures rv == 0 <==> k !in old(fs.nodes) && ParentExists(old(fs.nodes), k) && (want == 0 || want == EEXIST)
  {
    rv, errno := -1, want;
    var dir := Dirname(k.path);
    if want == 0 || want == EEXIST {
      if k in fs.nodes {
        errno := EEXIST;
      } else if dir == "" || Key(k.branch, dir) in fs.nodes {
        rv := 0;
        fs.nodes := fs.nodes[k := Directory];
      } else {
        errno := ENOENT;
      }
    }
  }

  predicate IgnorableError(err: int) {
    err == ENOTTY || err == ENOTSUP
  }

  // ----- what cloning may do -----

  /** Everything that was there is still there, unchanged. */
  ghost predicate Kept(before: Nodes, after: Nodes) {
    forall k :: k in before ==> k in after && after[k] == before[k]
  }

  /** What was added is directories of branch `to` on the way to path rel, each with its parent
      present and a directory, or a link to one, on branch `from` as its model. */
  ghost predicate OnlyAncestors(before: Nodes, after: Nodes, from: Branch, to: Branch, rel: Path) {
    forall k :: k in after && k !in before ==>
      && k.branch == to && k.path in Ancestors(rel) && after[k] == Directory && ParentExists(after, k)
      && Key(from, k.path) in before && !before[Key(from, k.path)].File?
  }

  ghost predicate Cloned(before: Nodes, after: Nodes, from: Branch, to: Branch, rel: Path) {
    Kept(before, after) && OnlyAncestors(before, after, from, to, rel)
  }

  ghost predicate AllPresent(nodes: Nodes, b: Branch, rel: Path) {
    forall a :: a in Ancestors(rel) ==> Key(b, a) in nodes
  }

  lemma CloneOneMore(before: Nodes, mid: Nodes, from: Branch, to: Branch, rel: Path)
    requires rel != "" && Cloned(before, mid, from, to, Dir(rel))
    requires Key(from, rel) in mid && !mid[Key(from, rel)].File?
    requires Key(to, rel) !in mid && ParentExists(mid, Key(to, rel))
    ensures Cloned(before, mid[Key(to, rel) := Directory], from, to, rel)
  {
    DirShorter(rel);
    assert rel in Ancestors(rel) && Ancestors(Dir(rel)) <= Ancestors(rel);
    assert rel !in Ancestors(Dir(rel));
  }

  lemma CloneNoMore(before: Nodes, mid: Nodes, from: Branch, to: Branch, rel: Path)
    requires rel != "" && Cloned(before, mid, from, to, Dir(rel))
    ensures Cloned(before, mid, from, to, rel)
  {
    assert Ancestors(Dir(rel)) <= Ancestors(rel);
  }

  /** The directory a can be cloned once its parents are: the source has it, and the target has
      something there or lets it be made. */
  ghost predicate StepOk(nodes: Nodes, from: Branch, a: Path, ans: CloneAnswers) {
    && ans.stat == 0 && Key(from, a) in nodes && IsDir(nodes[Key(from, a)], ans.leadsToDir)
    && (ans.mkdir == 0 || ans.mkdir == EEXIST)
  }

  /** Every directory on the way can be cloned. */
  ghost predicate CloneOk(nodes: Nodes, from: Branch, rel: Path, ask: Path -> CloneAnswers) {
    forall a :: a in Ancestors(rel) ==> StepOk(nodes, from, a, ask(a))
  }

  /** The metadata of a directory that had to be made meet an error that counts. */
  ghost predicate MetadataFails(nodes: Nodes, to: Branch, rel: Path, a: CloneAnswers, returnErrors: bool) {
    returnErrors && rel != "" && Key(to, rel) !in nodes && FirstCounting(a) != 0
  }

  /** fs::clonepath. */
  method ClonePath(fs: FileSystem, from: Branch, to: Branch, rel: Path, ask: Path -> CloneAnswers, returnMetadataErrors: bool)
    returns (rv: int, errno: int)
    modifies fs
    ensures rv == 0 || (rv == -1 && errno > 0)
    ensures Cloned(old(fs.nodes), fs.nodes, from, to, rel)
    ensures rv == 0 <==> CloneOk(old(fs.nodes), from, rel, ask) && !MetadataFails(old(fs.nodes), to, rel, ask(rel), returnMetadataErrors)
    ensures rv == 0 ==> AllPresent(fs.nodes, to, rel)
    decreases |rel|
  {
    rv, errno := 0, 0;
    ghost var before := fs.nodes;
    if rel == "" {
      return;
    }
    DirShorter(rel);
    var dirname := Dirname(rel);
    if dirname != "" {
      rv, errno := ClonePath(fs, from, to, dirname, ask, false);
    }
    CloneNoMore(before, fs.nodes, from, to, rel);
    if rv == -1 {
      return;
    }
    StepSame(before, fs.nodes, from, to, rel, ask);
    rv, errno := CloneLast(fs, from, to, rel, ask(rel), returnMetadataErrors, before);
  }

  /** Cloning the parents does not change whether the last component can be cloned. */
  lemma StepSame(before: Nodes, mid: Nodes, from: Branch, to: Branch, rel: Path, ask: Path -> CloneAnswers)
    requires rel != "" && Cloned(before, mid, from, to, Dir(rel))
    ensures StepOk(mid, from, rel, ask(rel)) <==> StepOk(before, from, rel, ask(rel))
    ensures Key(to, rel) in mid <==> Key(to, rel) in before
    ensures CloneOk(before, from, rel, ask) <==> CloneOk(before, from, Dir(rel), ask) && StepOk(before, from, rel, ask(rel))
  {
    DirShorter(rel);
    assert rel !in Ancestors(Dir(rel));
    assert Ancestors(rel) == {rel} + Ancestors(Dir(rel));
  }

  /** The last component, once its parents are there. */
  method CloneLast(fs: FileSystem, from: Branch, to: Branch, rel: Path, a: CloneAnswers, returnMetadataErrors: bool, ghost before: Nodes)
    returns (rv: int, errno: int)
    requires rel != "" && Cloned(before, fs.nodes, from, to, Dir(rel)) && AllPresent(fs.nodes, to, Dir(rel))
    modifies fs
    ensures rv == 0 || (rv == -1 && errno > 0)
    ensures Cloned(before, fs.nodes, from, to, rel)
    ensures rv == 0 <==> StepOk(old(fs.nodes), from, rel, a) && !MetadataFails(old(fs.nodes), to, rel, a, returnMetadataErrors)
    ensures rv == 0 ==> AllPresent(fs.nodes, to, rel)
  {
    CloneNoMore(before, fs.nodes, from, to, rel);
    var dir;
    rv, errno, dir := Stat(fs, Key(from, rel), a);
    if rv == -1 {
      return;
    }
    if !dir {
      return -1, ENOTDIR;
    }
    ghost var mid := fs.nodes;
    rv, errno := Mkdir(fs, Key(to, rel), a.mkdir);
    if rv == -1 {
      if errno == EEXIST {
        return 0, 0;
      }
      return;
    }
    CloneOneMore(before, mid, from, to, rel);
    rv, errno := CopyMetadata(returnMetadataErrors, a);
  }

  /** The first error that counts: not one of attributes or extended attributes that tells of missing
      support. 0 is no error. */
  function FirstCounting(a: CloneAnswers): nat {
    if a.attr != 0 && !IgnorableError(a.attr) then a.attr
    else if a.xattr != 0 && !IgnorableError(a.xattr) then a.xattr
    else if a.owner != 0 then a.owner
    else a.times
  }

  /** Attributes and extended attributes, then owner and times. Nothing fails unless errors are asked
      for. */
  method CopyMetadata(returnErrors: bool, a: CloneAnswers) returns (rv: int, errno: int)
    ensures rv == -1 <==> returnErrors && FirstCounting(a) != 0
    ensures rv == -1 ==> errno == FirstCounting(a)
    ensures rv == -1 || rv == 0
  {
    rv, errno := if a.attr != 0 then -1 else 0, a.attr;
    if returnErrors && rv == -1 && !IgnorableError(errno) {
      return -1, errno;
    }
    rv, errno := if a.xattr != 0 then -1 else 0, a.xattr;
    if returnErrors && rv == -1 && !IgnorableError(errno) {
      return -1, errno;
    }
    rv, errno := if a.owner != 0 then -1 else 0, a.owner;
    if returnErrors && rv == -1 {
      return -1, errno;
    }
    rv, errno := if a.times != 0 then -1 else 0, a.times;
    if returnErrors && rv == -1 {
      return -1, errno;
    }
    rv, errno := 0, 0;
  }

  /** fs::clonepath_as_root: nothing to do for the root, or onto the same branch. */
  method ClonePathAsRoot(fs: FileSystem, from: Branch, to: Branch, rel: Path, ask: Path -> CloneAnswers) returns (rv: int, errno: int)
    modifies fs
    ensures rv == 0 || (rv == -1 && errno > 0)
    ensures Cloned(old(fs.nodes), fs.nodes, from, to, rel)
    ensures rv == 0 <==> from == to || CloneOk(old(fs.nodes), from, rel, ask)
    ensures rv == 0 && from != to ==> AllPresent(fs.nodes, to, rel)
    ensures from == to ==> fs.nodes == old(fs.nodes)
  {
    if rel == "" || from == to {
      return 0, 0;
    }
    rv, errno := ClonePath(fs, from, to, rel, ask, false);
  }
}
