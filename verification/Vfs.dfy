/** fs/vfs.c as the kernel runs it: path lookup, the descriptor table and the calls on it, over the
    store and the heap. */
module Vfs {
  import opened Heap
  import Files
  import opened Paths
  import opened MemFs

  /** Every inode below has a number in the inode table. */
  ghost predicate Numbered(l: Siblings, n: nat) {
    match l
    case End => true
    case Sib(child, next) => child.file < n && Numbered(child.children, n) && Numbered(next, n)
  }

  lemma {:induction false} FindNumbered(l: Siblings, name: string, n: nat)
    requires Numbered(l, n) && Find(l, name).Some?
    ensures Find(l, name).value.file < n && Numbered(Find(l, name).value.children, n)
    decreases l
  {
    if l.child.name != name {
      FindNumbered(l.next, name, n);
    }
  }

  class FileSystem {
    const store: Store
    const fds: array<Files.Fd>
    const root: FsNode          // any root node with lookup; see README
    const rootLength: nat

    ghost predicate Valid()
      reads this, store, store.heap, store.heap.bytes, store.inodes, fds
    {
      && store.Valid() && Files.IsSys(View())
      && root.inode.file < |store.files| && Numbered(root.inode.children, |store.files|)
      && rootLength <= |store.files[root.inode.file]|
    }

    ghost function View(): Files.Sys
      reads store, fds
    {
      Files.Sys(store.files, fds[..])
    }

    constructor (store: Store, root: FsNode, rootLength: nat)
      requires store.Valid() && root.inode.file < |store.files| && Numbered(root.inode.children, |store.files|)
      requires rootLength <= |store.files[root.inode.file]|
      ensures Valid() && this.store == store && this.root == root && fresh(fds)
      ensures forall fd :: !Files.IsOpen(View(), fd)
    {
      this.store, this.root, this.rootLength := store, root, rootLength;
      fds := new Files.Fd[Files.MAX_FDS](_ => Files.Closed);
    }

    /** `memfs_finddir` behind the test of `vfs_finddir`. A null node reads as "not found". */
    method FindDir(node: FsNode, name: string) returns (r: Option<FsNode>)
      requires store.heap.Valid()
      modifies store.heap
      ensures store.heap.Valid()
      ensures var found := Lookup(node, name); var pos := old(store.heap.pos);
              if found.None? then r == None && store.heap.pos == pos
              else r == (if AllocResult(pos, NODE_SIZE).None? then None else found)
                   && store.heap.pos == AllocPos(pos, NODE_SIZE)
    {
      if !(node.flags % 8 == FS_DIRECTORY && node.hasFinddir) || !node.inode.isDir {
        return None;
      }
      var child := node.inode.children;
      while child.Sib?
        invariant Find(child, name) == Find(node.inode.children, name)
        decreases child
      {
        if child.child.name == name {
          var ptr := store.heap.KMalloc(NODE_SIZE);
          return if ptr.None? then None else Some(NodeOf(child.child));
        }
        child := child.next;
      }
      r := None;
    }

    /** The component loop of `vfs_open`. */
    method WalkPath(filename: string) returns (r: Option<FsNode>)
      requires store.heap.Valid()
      modifies store.heap
      ensures store.heap.Valid() && store.heap.pos >= old(store.heap.pos)
      ensures WalkMem(root, Components(filename), old(store.heap.pos)) == (r, store.heap.pos)
    {
      var current := root;
      var path := filename;
      while path != ""
        invariant store.heap.Valid() && store.heap.pos >= old(store.heap.pos)
        invariant WalkMem(current, Components(path), store.heap.pos)
               == WalkMem(root, Components(filename), old(store.heap.pos))
        decreases |path|
      {
        var len := FindSlash(path);
        SplitPath(path);
        if len >= MAX_COMPONENT {
          return None;
        }
        AllocKeepsAligned(store.heap.pos, NODE_SIZE);
        var next := FindDir(current, path[..len]);
        if next.None? {
          return None;
        }
        current := next.value;
        path := path[len..];
        if path != "" && path[0] == '/' {
          path := path[1..];
        }
      }
      r := Some(current);
    }

    lemma SplitPath(path: string)
      requires path != ""
      ensures var n := FirstLen(path);
              Components(path) == [path[..n]] + Components(if n < |path| then path[n + 1..] else "")
    {
    }

    lemma {:induction false} WalkNumbered(node: FsNode, components: seq<string>, pos: nat)
      requires node.inode.file < |store.files| && Numbered(node.inode.children, |store.files|)
      ensures var r := WalkMem(node, components, pos).0; r.Some? ==> r.value.inode.file < |store.files|
      decreases components
    {
      if components != [] && |components[0]| < MAX_COMPONENT && Lookup(node, components[0]).Some? {
        FindNumbered(node.inode.children, components[0], |store.files|);
        WalkNumbered(Lookup(node, components[0]).value, components[1..], AllocPos(pos, NODE_SIZE));
      }
    }

    /** `vfs_open`: the flags play no part, and a relative path is never found. */
    method VfsOpen(filename: string) returns (r: Option<Files.Node>)
      requires Valid()
      modifies store.heap
      ensures Valid() && store.heap.pos >= old(store.heap.pos)
      ensures r.Some? ==> Files.IsNode(View(), r.value)
      ensures if filename == "" || filename[0] != '/' then r == None && store.heap.pos == old(store.heap.pos)
              else var (found, pos) := WalkMem(root, Components(filename[1..]), old(store.heap.pos));
                   && store.heap.pos == pos
                   && r == if found.None? then None else Some(ToNode(found.value, filename == "/"))
    {
      if |filename| == 0 || filename[0] != '/' {
        return None;
      }
      if filename[1..] == "" {
        return Some(Files.Node(root.inode.file, root.inode.isDir, rootLength));
      }
      var node := WalkPath(filename[1..]);
      WalkNumbered(root, Components(filename[1..]), old(store.heap.pos));
      if node.None? {
        return None;
      }
      var inode := node.value.inode;
      assert store.Holds(store.inodes[inode.file], store.files[inode.file]);
      r := Some(Files.Node(inode.file, inode.isDir, store.inodes[inode.file].size));
    }

    /** `strchr(path, '/')`, or the end of the path. */
    method FindSlash(path: string) returns (n: nat)
      ensures n == FirstLen(path)
    {
      n := 0;
      while n < |path| && path[n] != '/'
        invariant n <= |path| && forall k | 0 <= k < n :: path[k] != '/'
      {
        n := n + 1;
      }
      FirstLenIs(path, n);
    }

    /** The node `open` keeps: a looked-up node carries the file's size of that moment. */
    ghost function ToNode(node: FsNode, isRoot: bool): Files.Node
      reads store
    {
      var file := node.inode.file;
      Files.Node(file, node.inode.isDir,
        if isRoot then rootLength else if file < |store.files| then |store.files[file]| else 0)
    }

    // ----- calls on descriptors

    /** `open` walks the path: there is a free descriptor and the path is absolute. */
    predicate Walks(fds: seq<Files.Fd>, filename: string) {
      Files.FreeFd(fds, 0) < |fds| && filename != "" && filename[0] == '/'
    }

    /** What `open` finds from heap position `pos`. */
    function Opens(fds: seq<Files.Fd>, filename: string, pos: nat): Option<FsNode> {
      if Walks(fds, filename) then WalkMem(root, Components(filename[1..]), pos).0 else None
    }

    /** Where it leaves the heap. */
    function PosAfterOpen(fds: seq<Files.Fd>, filename: string, pos: nat): nat {
      if Walks(fds, filename) then WalkMem(root, Components(filename[1..]), pos).1 else pos
    }

    /** The search for a free slot. */
    method FirstFree() returns (k: nat)
      requires fds.Length == Files.MAX_FDS
      ensures k == Files.FreeFd(fds[..], 0)
    {
      k := 0;
      while k < fds.Length && fds[k].Open?
        invariant k <= fds.Length && Files.FreeFd(fds[..], k) == Files.FreeFd(fds[..], 0)
      {
        k := k + 1;
      }
    }

    method SetFd(k: nat, fd: Files.Fd)
      requires Valid() && k < Files.MAX_FDS
      requires fd.Open? ==> Files.IsNode(View(), fd.node) && fd.pos < WORD
      modifies fds
      ensures Valid() && View() == old(View()).(fds := old(fds[..])[k := fd])
    {
      fds[k] := fd;
    }

    /** `open`: the lowest free descriptor, searched for before the path is walked. */
    method Open(filename: string, flags: nat) returns (fd: int)
      requires Valid()
      modifies store.heap, fds
      ensures Valid()
      ensures store.heap.pos == PosAfterOpen(old(fds[..]), filename, old(store.heap.pos))
      ensures var found := Opens(old(fds[..]), filename, old(store.heap.pos));
        if found.None? then fd == -1 && View() == old(View())
        else
          && fd == Files.FreeFd(old(fds[..]), 0) < Files.MAX_FDS
          && var op := Files.OpenNode(ToNode(found.value, filename == "/"), flags);
             Files.Legal(old(View()), op) && View() == Files.Step(old(View()), op)
      ensures fd >= 0 ==>
        var f, inode := View().fds[fd], Opens(old(fds[..]), filename, old(store.heap.pos)).value.inode;
        && f.Open? && f.pos == 0 && f.flags == flags && f.node.file == inode.file && f.node.isDir == inode.isDir
        && inode.file < |store.files|
        && f.node.length == if filename == "/" then rootLength else |store.files[inode.file]|
    {
      var k := FirstFree();
      if k == fds.Length {
        return -1;
      }
      var node := VfsOpen(filename);
      if node.None? {
        return -1;
      }
      SetFd(k, Files.Open(node.value, 0, flags));
      fd := k;
    }

    method Close(fd: int) returns (ret: int)
      requires Valid()
      modifies fds
      ensures Valid() && ret == (if Files.IsOpen(old(View()), fd) then 0 else -1)
      ensures View() == Files.Step(old(View()), Files.Close(fd))
    {
      if fd < 0 || fd >= fds.Length || fds[fd].Closed? {
        return -1;
      }
      SetFd(fd, Files.Closed);
      ret := 0;
    }

    method Read(fd: int, size: nat) returns (ret: int, data: seq<Byte>)
      requires Valid() && Files.Legal(View(), Files.Read(fd, size))
      modifies fds
      ensures Valid() && View() == Files.Step(old(View()), Files.Read(fd, size))
      ensures if Files.IsOpen(old(View()), fd) && Files.Readable(old(fds[fd]).flags)
              then ret == |data| && data == Files.ReadData(old(View()), fd, size)
              else ret == -1 && data == []
      ensures Files.IsOpen(old(View()), fd) && old(fds[fd]).flags % 4 >= 2 ==>
        var left := |store.files[old(fds[fd]).node.file]| - old(fds[fd]).pos;
        ret == if left <= 0 then 0 else Files.Min(size, left)
    {
      if fd < 0 || fd >= fds.Length || fds[fd].Closed? {
        return -1, [];
      }
      var desc := fds[fd];
      if desc.flags / 2 % 2 == 0 {
        return -1, [];
      }
      data := ReadNode(desc, size);
      SetFd(fd, desc.(pos := desc.pos + |data|));
      ret := |data|;
    }

    /** `vfs_read`: the bytes of the node's file from the position on. */
    method ReadNode(desc: Files.Fd, size: nat) returns (data: seq<Byte>)
      requires Valid() && desc.Open? && Files.IsNode(View(), desc.node)
      requires desc.pos < |store.files[desc.node.file]| ==> desc.pos + size < WORD
      ensures var content := store.files[desc.node.file];
        && |data| == (if desc.pos < |content| then Files.Min(size, |content| - desc.pos) else 0)
        && data == if desc.pos < |content| then content[desc.pos..desc.pos + |data|] else []
    {
      data := store.Read(desc.node.file, desc.pos, size);
    }

    /** `write`. Growing needs memory: a null block would be written through unchecked. */
    method Write(fd: int, data: seq<Byte>) returns (ret: int, ghost gap: seq<Byte>)
      requires Valid()
      requires Files.Writes(View(), Files.Write(fd, data, [])) ==>
        var f := fds[fd];
        && f.pos + |data| < WORD
        && (f.pos + |data| > |store.files[f.node.file]| ==> store.heap.pos + f.pos + |data| <= HEAP_SIZE)
      modifies fds, store, store.heap, store.heap.bytes, store.inodes
      ensures Valid()
      ensures Files.Legal(old(View()), Files.Write(fd, data, gap))
      ensures View() == Files.Step(old(View()), Files.Write(fd, data, gap))
      ensures store.heap.pos == old(store.heap.pos) + Files.WriteCost(old(View()), Files.Write(fd, data, gap))
      ensures ret == if !Files.IsOpen(old(View()), fd) || !Files.Writable(old(fds[fd]).flags) then -1
                     else if old(fds[fd]).node.isDir then 0 else |data|
    {
      gap := [];
      if fd < 0 || fd >= fds.Length || fds[fd].Closed? {
        return -1, gap;
      }
      var desc := fds[fd];
      if desc.flags % 2 == 0 && desc.flags / 2 % 2 == 0 {
        return -1, gap;
      }
      ret, gap := WriteNode(desc, data);
      SetFd(fd, desc.(pos := desc.pos + ret));
      assert desc.node.isDir ==> old(fds[..])[fd := desc] == old(fds[..]);
    }

    /** `vfs_write`: the node's write, which may grow the file. */
    method WriteNode(desc: Files.Fd, data: seq<Byte>) returns (n: nat, ghost gap: seq<Byte>)
      requires Valid() && desc.Open? && Files.IsNode(View(), desc.node)
      requires !desc.node.isDir ==>
        && desc.pos + |data| < WORD
        && (desc.pos + |data| > |store.files[desc.node.file]| ==> store.heap.pos + desc.pos + |data| <= HEAP_SIZE)
      modifies store, store.heap, store.heap.bytes, store.inodes
      ensures Valid() && n == if desc.node.isDir then 0 else |data|
      ensures |gap| == Files.GapSize(old(store.files)[desc.node.file], desc.pos, |data|)
      ensures var content := old(store.files)[desc.node.file];
        && store.files == (if desc.node.isDir then old(store.files)
             else old(store.files)[desc.node.file := Files.Overlay(content, desc.pos, data, gap)])
        && Files.IsNode(View(), desc.node)
        && store.heap.pos == old(store.heap.pos)
             + if !desc.node.isDir && desc.pos + |data| > |content| then RoundUp(desc.pos + |data|) else 0
    {
      n, gap := store.Write(desc.node.file, desc.node.isDir, desc.pos, data);
      Files.OverlaySize(old(store.files)[desc.node.file], desc.pos, data, gap);
    }

    /** `lseek`: any whence but 0, 1 and 2 is refused; the result is the position as a signed word. */
    method Lseek(fd: int, offset: int, whence: int) returns (ret: int)
      requires Valid()
      modifies fds
      ensures Valid() && View() == Files.Step(old(View()), Files.Seek(fd, offset, whence))
      ensures if Files.IsOpen(old(View()), fd) && Files.IsWhence(whence)
              then ret % WORD == Files.SeekPos(old(fds[fd]), offset, whence) && -0x8000_0000 <= ret < 0x8000_0000
              else ret == -1
    {
      if fd < 0 || fd >= fds.Length || fds[fd].Closed? {
        return -1;
      }
      var desc := fds[fd];
      var pos;
      if whence == Files.SEEK_SET {
        pos := offset % WORD;
      } else if whence == Files.SEEK_CUR {
        pos := (desc.pos + offset) % WORD;
      } else if whence == Files.SEEK_END {
        pos := (desc.node.length + offset) % WORD;
      } else {
        return -1;
      }
      SetFd(fd, desc.(pos := pos));
      ret := if pos >= 0x8000_0000 then pos - WORD else pos;
    }
  }
}
