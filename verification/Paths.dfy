/** Path lookup: `vfs_open` and `vfs_finddir` of fs/vfs.c over the directory tree that fs/memfs.c keeps.
    Nothing creates or renames inodes, so the tree is a value; sizes and data live elsewhere. */
module Paths {
  import opened Heap

  const MAX_COMPONENT := 256
  const NODE_SIZE := 312
  const FS_FILE := 1
  const FS_DIRECTORY := 2

  /** `children` and `next` are the linked list of fs/memfs.c; `file` is the inode's number. */
  datatype Inode = Inode(name: string, isDir: bool, file: nat, children: Siblings)
  datatype Siblings = End | Sib(child: Inode, next: Siblings)

  /** The part of an `fs_node_t` that lookup uses. */
  datatype FsNode = FsNode(inode: Inode, flags: nat, hasFinddir: bool)

  function NodeOf(inode: Inode): FsNode {
    FsNode(inode, if inode.isDir then FS_DIRECTORY else FS_FILE, inode.isDir)
  }

  function ToSeq(l: Siblings): seq<Inode> {
    match l case End => [] case Sib(child, next) => [child] + ToSeq(next)
  }

  /** The first child of that name. */
  function Find(l: Siblings, name: string): Option<Inode> {
    match l
    case End => None
    case Sib(child, next) => if child.name == name then Some(child) else Find(next, name)
  }

  /** `vfs_finddir` over `memfs_finddir`. */
  function Lookup(node: FsNode, name: string): Option<FsNode> {
    if node.flags % 8 == FS_DIRECTORY && node.hasFinddir && node.inode.isDir then
      match Find(node.inode.children, name) case None => None case Some(child) => Some(NodeOf(child))
    else None
  }

  /** Characters up to the next '/' or the end. */
  function FirstLen(path: string): (n: nat)
    ensures n <= |path| && (forall k | 0 <= k < n :: path[k] != '/') && (n < |path| ==> path[n] == '/')
  {
    FirstSlash(path, 0)
  }

  function FirstSlash(path: string, from: nat): (n: nat)
    requires from <= |path|
    ensures from <= n <= |path| && (forall k | from <= k < n :: path[k] != '/') && (n < |path| ==> path[n] == '/')
    decreases |path| - from
  {
    if from == |path| || path[from] == '/' then from else FirstSlash(path, from + 1)
  }

  function AfterFirst(path: string): string {
    var n := FirstLen(path);
    if n < |path| then path[n + 1..] else ""
  }

  /** The components of what follows the leading '/'. A trailing '/' adds none; "//" holds an empty one. */
  function Components(path: string): seq<string>
    decreases |path|
  {
    if path == "" then [] else [path[..FirstLen(path)]] + Components(AfterFirst(path))
  }

  function Walk(node: FsNode, components: seq<string>): Option<FsNode>
    decreases components
  {
    if components == [] then Some(node)
    else if |components[0]| >= MAX_COMPONENT then None
    else
      match Lookup(node, components[0])
      case None => None
      case Some(next) => Walk(next, components[1..])
  }

  function OpenPath(root: FsNode, filename: string): Option<FsNode> {
    if filename == "" || filename[0] != '/' then None else Walk(root, Components(filename[1..]))
  }

  // ----- laws of the walk

  lemma {:induction false} WalkAppend(node: FsNode, a: seq<string>, b: seq<string>)
    ensures Walk(node, a + b) == match Walk(node, a) case None => None case Some(n) => Walk(n, b)
    decreases a
  {
    if a == [] {
      assert a + b == b;
    } else if |a[0]| < MAX_COMPONENT {
      assert (a + b)[0] == a[0] && (a + b)[1..] == a[1..] + b;
      if Lookup(node, a[0]).Some? {
        WalkAppend(Lookup(node, a[0]).value, a[1..], b);
      }
    }
  }

  lemma FirstLenIs(path: string, n: nat)
    requires n <= |path| && (forall k | 0 <= k < n :: path[k] != '/') && (n < |path| ==> path[n] == '/')
    ensures FirstLen(path) == n
  {
    if FirstLen(path) > n {
      assert false;
    }
  }

  lemma FirstOfJoin(p: string, q: string)
    ensures FirstLen(p + "/" + q) == FirstLen(p)
    ensures var n := FirstLen(p); (p + "/" + q)[..n] == p[..n]
  {
    var whole, n := p + "/" + q, FirstLen(p);
    assert forall k | 0 <= k < |p| :: whole[k] == p[k];
    assert forall k | 0 <= k < n :: p[k] == p[..n][k];
    assert whole[|p|] == '/';
    FirstLenIs(whole, n);
  }

  lemma RestOfJoin(p: string, q: string, n: nat)
    requires n <= |p|
    ensures n < |p| ==> (p + "/" + q)[n + 1..] == p[n + 1..] + "/" + q
    ensures (p + "/" + q)[|p| + 1..] == q
  {
  }

  /** Components of p/q are those of p, then those of q, if p does not end in '/'. */
  lemma {:induction false} ComponentsJoin(p: string, q: string)
    requires p != "" && p[|p| - 1] != '/'
    ensures Components(p + "/" + q) == Components(p) + Components(q)
    decreases |p|
  {
    JoinHead(p, q);
    if FirstLen(p) < |p| {
      var rest := p[FirstLen(p) + 1..];
      assert rest != "" && rest[|rest| - 1] == p[|p| - 1];
      ComponentsJoin(rest, q);
      SplitMiddle(p);
      ConsJoins(p[..FirstLen(p)], Components(rest), Components(q));
    } else {
      OneComponent(p);
    }
  }

  /** The first component of p/q is that of p. */
  lemma JoinHead(p: string, q: string)
    requires p != ""
    ensures FirstLen(p) < |p| ==>
      Components(p + "/" + q) == [p[..FirstLen(p)]] + Components(p[FirstLen(p) + 1..] + "/" + q)
    ensures FirstLen(p) == |p| ==> Components(p + "/" + q) == [p] + Components(q)
  {
    var n := FirstLen(p);
    FirstOfJoin(p, q);
    RestOfJoin(p, q, n);
    if n < |p| {
      SplitAt(p + "/" + q, n, p[..n], p[n + 1..] + "/" + q);
    } else {
      assert p[..n] == p;
      SplitAt(p + "/" + q, n, p, q);
    }
  }

  lemma SplitAt(path: string, n: nat, head: string, rest: string)
    requires FirstLen(path) == n < |path| && path[..n] == head && path[n + 1..] == rest
    ensures Components(path) == [head] + Components(rest)
  {
    SplitMiddle(path);
  }

  lemma ConsJoins(x: string, a: seq<string>, b: seq<string>)
    ensures [x] + (a + b) == [x] + a + b
  {
  }

  lemma SplitMiddle(path: string)
    requires FirstLen(path) < |path|
    ensures var n := FirstLen(path); Components(path) == [path[..n]] + Components(path[n + 1..])
  {
  }

  lemma OneComponent(path: string)
    requires path != "" && FirstLen(path) == |path|
    ensures Components(path) == [path]
  {
    assert path[..|path|] == path && Components(AfterFirst(path)) == [];
  }

  /** Walking p/q is walking q from where p leads. */
  lemma OpenJoin(root: FsNode, p: string, q: string)
    requires |p| > 1 && p[0] == '/' && p[|p| - 1] != '/'
    ensures OpenPath(root, p + "/" + q)
         == match OpenPath(root, p) case None => None case Some(n) => Walk(n, Components(q))
  {
    assert (p + "/" + q)[1..] == p[1..] + "/" + q;
    ComponentsJoin(p[1..], q);
    WalkAppend(root, Components(p[1..]), Components(q));
  }

  /** One trailing slash never changes the result for a path that is not the root. */
  lemma TrailingSlash(root: FsNode, p: string)
    requires |p| > 1 && p[0] == '/' && p[|p| - 1] != '/'
    ensures OpenPath(root, p + "/") == OpenPath(root, p)
  {
    assert p + "/" == p + "/" + "";
    OpenJoin(root, p, "");
  }

  // ----- components that never resolve

  /** No inode of the tree has an empty name. */
  ghost predicate NamedBelow(l: Siblings) {
    match l
    case End => true
    case Sib(child, next) => child.name != "" && NamedBelow(child.children) && NamedBelow(next)
  }

  lemma {:induction false} FindIsNamed(l: Siblings, name: string)
    requires NamedBelow(l) && Find(l, name).Some?
    ensures name != "" && NamedBelow(Find(l, name).value.children)
    decreases l
  {
    if l.child.name != name {
      FindIsNamed(l.next, name);
    }
  }

  predicate Resolvable(component: string) { 0 < |component| < MAX_COMPONENT }

  /** With non-empty names, a path with an empty or over-long component gives null. */
  lemma {:induction false} BadComponentFails(node: FsNode, components: seq<string>)
    requires NamedBelow(node.inode.children) && exists c :: c in components && !Resolvable(c)
    ensures Walk(node, components) == None
    decreases components
  {
    if |components[0]| < MAX_COMPONENT && Lookup(node, components[0]).Some? {
      FindIsNamed(node.inode.children, components[0]);
      var c :| c in components && !Resolvable(c);
      assert c != components[0] && c in components[1..];
      BadComponentFails(Lookup(node, components[0]).value, components[1..]);
    }
  }

  // ----- every inode has a path that opens it

  function Join(components: seq<string>): string {
    if components == [] then ""
    else if |components| == 1 then components[0]
    else components[0] + "/" + Join(components[1..])
  }

  ghost predicate SlashFree(components: seq<string>) {
    forall c | c in components :: '/' !in c && c != ""
  }

  /** Splitting undoes joining. */
  lemma {:induction false} SplitJoin(components: seq<string>)
    requires SlashFree(components)
    ensures Components(Join(components)) == components
    decreases components
  {
    if components != [] {
      var c := components[0];
      assert c in components;
      PlainComponent(c);
      if |components| > 1 {
        assert forall d | d in components[1..] :: d in components;
        SplitJoin(components[1..]);
        ComponentsJoin(c, Join(components[1..]));
      }
    }
  }

  lemma PlainComponent(c: string)
    requires '/' !in c && c != ""
    ensures Components(c) == [c] && c[|c| - 1] != '/'
  {
    assert c[|c| - 1] in c;
    assert forall k | 0 <= k < |c| :: c[k] in c;
    FirstLenIs(c, |c|);
    OneComponent(c);
  }

  /** A name is found exactly if some child has it, and then it is the first such child. */
  lemma {:induction false} FindsFirst(l: Siblings, name: string)
    ensures Find(l, name).Some? <==> exists k :: 0 <= k < |ToSeq(l)| && ToSeq(l)[k].name == name
    ensures Find(l, name).Some? ==> FirstNamed(l, Find(l, name).value) && Find(l, name).value.name == name
    decreases l
  {
    match l
    case End =>
    case Sib(child, next) =>
      FindsFirst(next, name);
      assert ToSeq(l)[0] == child && ToSeq(l)[1..] == ToSeq(next);
      if child.name == name {
        assert ToSeq(l)[0].name == name && IsFirst(ToSeq(l), 0, child);
      } else {
        if exists k :: 0 <= k < |ToSeq(next)| && ToSeq(next)[k].name == name {
          var k :| 0 <= k < |ToSeq(next)| && ToSeq(next)[k].name == name;
          assert ToSeq(l)[k + 1].name == name;
        }
        if exists k :: 0 <= k < |ToSeq(l)| && ToSeq(l)[k].name == name {
          var k :| 0 <= k < |ToSeq(l)| && ToSeq(l)[k].name == name;
          assert ToSeq(next)[k - 1].name == name;
        }
        if Find(next, name).Some? {
          FirstLater(l, Find(next, name).value);
        }
      }
  }

  /** The inode is a child, and no child before it has its name. */
  ghost predicate FirstNamed(l: Siblings, c: Inode) {
    exists k :: 0 <= k < |ToSeq(l)| && IsFirst(ToSeq(l), k, c)
  }

  ghost predicate IsFirst(s: seq<Inode>, k: nat, c: Inode)
    requires k < |s|
  {
    s[k] == c && forall j | 0 <= j < k :: s[j].name != c.name
  }

  lemma FirstLater(l: Siblings, c: Inode)
    requires l.Sib? && l.child.name != c.name && FirstNamed(l.next, c)
    ensures FirstNamed(l, c)
  {
    var s, t := ToSeq(l), ToSeq(l.next);
    var k :| 0 <= k < |t| && IsFirst(t, k, c);
    assert s == [l.child] + t;
    assert IsFirst(s, k + 1, c);
  }

  lemma FirstIsFound(l: Siblings, c: Inode)
    requires FirstNamed(l, c)
    ensures Find(l, c.name) == Some(c)
  {
    var s := ToSeq(l);
    var k :| 0 <= k < |s| && IsFirst(s, k, c);
    assert ToSeq(l)[k].name == c.name;
    FindsFirst(l, c.name);
    var d := Find(l, c.name).value;
    var j :| 0 <= j < |s| && IsFirst(s, j, d);
    assert !(j < k) && !(k < j);
  }

  /** A chain of inodes from a directory: each is the first child of its name in the one before it. */
  ghost predicate Leads(dir: Inode, chain: seq<Inode>)
    decreases chain
  {
    chain == [] ||
    (dir.isDir && FirstNamed(dir.children, chain[0]) && |chain[0].name| < 256 && Leads(chain[0], chain[1..]))
  }

  /** The end of a chain, as a lookup returns it. */
  function EndOf(node: FsNode, chain: seq<Inode>): FsNode {
    if chain == [] then node else NodeOf(chain[|chain| - 1])
  }

  lemma {:induction false} WalkBack(node: FsNode, components: seq<string>) returns (chain: seq<Inode>)
    requires Walk(node, components).Some?
    ensures Leads(node.inode, chain) && Names(chain) == components
    ensures Walk(node, components).value == EndOf(node, chain)
    decreases components
  {
    if components == [] {
      chain := [];
    } else {
      FindsFirst(node.inode.children, components[0]);
      var child := Find(node.inode.children, components[0]).value;
      var rest := WalkBack(NodeOf(child), components[1..]);
      chain := [child] + rest;
      assert Names(chain) == [child.name] + Names(rest);
      assert chain[1..] == rest;
    }
  }

  lemma {:induction false} WalkLeads(node: FsNode, chain: seq<Inode>)
    requires Leads(node.inode, chain)
    requires chain != [] ==> node.flags % 8 == FS_DIRECTORY && node.hasFinddir
    ensures Walk(node, Names(chain)) == Some(EndOf(node, chain))
    decreases chain
  {
    if chain != [] {
      FirstIsFound(node.inode.children, chain[0]);
      assert Names(chain)[0] == chain[0].name && Names(chain)[1..] == Names(chain[1..]);
      WalkLeads(NodeOf(chain[0]), chain[1..]);
    }
  }

  /** A path opens a node exactly if it is absolute and its components are the names along a chain of inodes
      from the root that ends in that node. A name that no chain has opens nothing. */
  lemma OpensExactly(root: FsNode, filename: string, node: FsNode)
    requires root.flags % 8 == FS_DIRECTORY && root.hasFinddir
    ensures OpenPath(root, filename) == Some(node) <==>
            filename != "" && filename[0] == '/'
            && exists chain :: Leads(root.inode, chain) && Names(chain) == Components(filename[1..])
                               && node == EndOf(root, chain)
  {
    if filename != "" && filename[0] == '/' {
      var components := Components(filename[1..]);
      if Walk(root, components).Some? {
        var chain := WalkBack(root, components);
        assert Leads(root.inode, chain);
      }
      forall chain | Leads(root.inode, chain) && Names(chain) == components
        ensures Walk(root, components) == Some(EndOf(root, chain))
      {
        WalkLeads(root, chain);
      }
    }
  }

  /** Each inode is a child of the one before it, in directories whose children have distinct names. */
  ghost predicate Chain(dir: Inode, chain: seq<Inode>)
    decreases chain
  {
    chain == [] ||
    (dir.isDir && chain[0] in ToSeq(dir.children) && DistinctNames(dir.children)
     && '/' !in chain[0].name && Resolvable(chain[0].name) && Chain(chain[0], chain[1..]))
  }

  ghost predicate DistinctNames(l: Siblings) {
    forall i, j | 0 <= i < j < |ToSeq(l)| :: ToSeq(l)[i].name != ToSeq(l)[j].name
  }

  function Names(chain: seq<Inode>): (names: seq<string>)
    ensures |names| == |chain|
  {
    seq(|chain|, k requires 0 <= k < |chain| => chain[k].name)
  }

  lemma {:induction false} FindsMember(l: Siblings, c: Inode)
    requires c in ToSeq(l) && DistinctNames(l)
    ensures Find(l, c.name) == Some(c)
  {
    var s := ToSeq(l);
    var i :| 0 <= i < |s| && s[i] == c;
    match l
    case Sib(child, next) =>
      if i > 0 {
        assert s[1..] == ToSeq(next) && s[0].name != s[i].name;
        assert s[1..][i - 1] == c;
        forall a, b | 0 <= a < b < |ToSeq(next)|
          ensures ToSeq(next)[a].name != ToSeq(next)[b].name
        {
          assert s[a + 1].name != s[b + 1].name;
        }
        FindsMember(next, c);
      }
  }

  lemma {:induction false} WalkChain(node: FsNode, chain: seq<Inode>)
    requires Chain(node.inode, chain)
    requires chain != [] ==> node.flags % 8 == FS_DIRECTORY && node.hasFinddir
    ensures Walk(node, Names(chain)) == Some(if chain == [] then node else NodeOf(chain[|chain| - 1]))
    ensures SlashFree(Names(chain))
    decreases chain
  {
    if chain != [] {
      FindsMember(node.inode.children, chain[0]);
      assert Names(chain)[1..] == Names(chain[1..]);
      WalkChain(NodeOf(chain[0]), chain[1..]);
      assert Names(chain) == [chain[0].name] + Names(chain[1..]);
    }
  }

  /** Opening the joined names of any chain of directories opens exactly the inode at its end. */
  lemma OpenReaches(root: FsNode, chain: seq<Inode>)
    requires chain != [] && Chain(root.inode, chain)
    requires root.flags % 8 == FS_DIRECTORY && root.hasFinddir
    ensures OpenPath(root, "/" + Join(Names(chain))) == Some(NodeOf(chain[|chain| - 1]))
  {
    WalkChain(root, chain);
    SplitJoin(Names(chain));
    assert ("/" + Join(Names(chain)))[1..] == Join(Names(chain));
  }

  // ----- lookups allocate

  /** The walk and the heap position after it: each component found allocates an `fs_node_t`; if there
      is no memory the null pointer reads as "not found". */
  function WalkMem(node: FsNode, components: seq<string>, pos: nat): (Option<FsNode>, nat)
    decreases components
  {
    if components == [] then (Some(node), pos)
    else if |components[0]| >= MAX_COMPONENT then (None, pos)
    else
      match Lookup(node, components[0])
      case None => (None, pos)
      case Some(next) =>
        if AllocResult(pos, NODE_SIZE).None? then (None, pos)
        else WalkMem(next, components[1..], AllocPos(pos, NODE_SIZE))
  }

  /** With memory for every component the allocations do not show in the result. */
  lemma {:induction false} EnoughMemory(node: FsNode, components: seq<string>, pos: nat)
    requires Aligned(pos) && pos + NODE_SIZE * |components| <= HEAP_SIZE
    ensures WalkMem(node, components, pos).0 == Walk(node, components)
    ensures Walk(node, components).Some? ==> WalkMem(node, components, pos).1 == pos + 312 * |components|
    decreases components
  {
    if components != [] && |components[0]| < MAX_COMPONENT && Lookup(node, components[0]).Some? {
      AllocKeepsAligned(pos, NODE_SIZE);
      EnoughMemory(Lookup(node, components[0]).value, components[1..], AllocPos(pos, NODE_SIZE));
    }
  }

  /** Without it the only other result is null. */
  lemma {:induction false} LessMemory(node: FsNode, components: seq<string>, pos: nat)
    requires Aligned(pos)
    ensures WalkMem(node, components, pos).0.Some? ==> WalkMem(node, components, pos).0 == Walk(node, components)
    ensures Aligned(WalkMem(node, components, pos).1) && WalkMem(node, components, pos).1 >= pos
    decreases components
  {
    if components != [] && |components[0]| < MAX_COMPONENT && Lookup(node, components[0]).Some? {
      AllocKeepsAligned(pos, NODE_SIZE);
      LessMemory(Lookup(node, components[0]).value, components[1..], AllocPos(pos, NODE_SIZE));
    }
  }

  // ----- directory listing

  function Nth(l: Siblings, index: nat): Option<Inode> {
    match l case End => None case Sib(child, next) => if index == 0 then Some(child) else Nth(next, index - 1)
  }

  /** Reading entries 0, 1, 2, ... lists the children in order and then gives null for ever. */
  lemma {:induction false} ListsAll(l: Siblings, index: nat)
    ensures Nth(l, index) == if index < |ToSeq(l)| then Some(ToSeq(l)[index]) else None
  {
    match l
    case End =>
    case Sib(child, next) =>
      if index > 0 {
        ListsAll(next, index - 1);
      }
  }

  /** `memfs_readdir`. */
  method ReadDir(inode: Inode, index: nat) returns (r: Option<Inode>)
    ensures r == if inode.isDir then Nth(inode.children, index) else None
  {
    if !inode.isDir {
      return None;
    }
    var child := inode.children;
    var i := 0;
    while i < index && child.Sib?
      invariant i <= index && Nth(child, index - i) == Nth(inode.children, index)
    {
      child := child.next;
      i := i + 1;
    }
    r := if child.Sib? then Some(child.child) else None;
  }
}
