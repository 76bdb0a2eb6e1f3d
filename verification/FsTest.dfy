/** Programs over the calls of fs/vfs.c: the test of fs/fs_test.c, and writing and reading back a file in
    any pieces. */
module FsTest {
  import opened Heap
  import opened Files
  import opened Paths
  import opened MemFs
  import opened Chunks
  import opened Vfs

  const O_RDONLY := 0x0000
  const O_CREAT := 0x0100

  /** No file is larger than the heap. */
  lemma FilesFit(fs: FileSystem)
    requires fs.Valid()
    ensures forall f | 0 <= f < |fs.store.files| :: |fs.store.files[f]| <= HEAP_SIZE
  {
    forall f | 0 <= f < |fs.store.files|
      ensures |fs.store.files[f]| <= HEAP_SIZE
    {
      assert fs.store.Holds(fs.store.inodes[f], fs.store.files[f]);
    }
  }

  // ----- a list of writes

  ghost function CostOf(s: Sys, fd: int, chunks: seq<Bytes>): nat
    requires IsOpen(s, fd)
  {
    Cost(|Content(s, fd)|, s.fds[fd].pos, chunks)
  }

  ghost predicate RoomFor(s: Sys, pos: nat, fd: int, chunks: seq<Bytes>)
    requires IsOpen(s, fd)
  {
    Room(pos, |Content(s, fd)|, s.fds[fd].pos, chunks)
  }

  lemma OneCost(s: Sys, pos: nat, fd: int, data: Bytes)
    requires CanWrite(s, fd)
    ensures CostOf(s, fd, [data]) == WriteCost(s, Write(fd, data, []))
    ensures RoomFor(s, pos, fd, [data]) <==>
            (s.fds[fd].pos + |data| > |Content(s, fd)| ==> pos + s.fds[fd].pos + |data| <= HEAP_SIZE)
  {
    OneChunkCost(pos, |Content(s, fd)|, s.fds[fd].pos, data);
  }

  lemma OneChunkCost(pos: nat, size: nat, at: nat, data: Bytes)
    ensures Cost(size, at, [data]) == if at + |data| > size then RoundUp(at + |data|) else 0
    ensures Room(pos, size, at, [data]) <==> (at + |data| > size ==> pos + at + |data| <= HEAP_SIZE)
  {
    var none: seq<Bytes> := [];
    assert [data][1..] == none;
  }

  method WriteChunk(fs: FileSystem, fd: int, data: Bytes)
    requires fs.Valid() && CanWrite(fs.View(), fd) && fs.fds[fd].pos + |data| < WORD
    requires RoomFor(fs.View(), fs.store.heap.pos, fd, [data])
    modifies fs.fds, fs.store, fs.store.heap, fs.store.heap.bytes, fs.store.inodes
    ensures fs.Valid() && fs.View() == Written(old(fs.View()), fd, data)
    ensures fs.store.heap.pos == old(fs.store.heap.pos) + CostOf(old(fs.View()), fd, [data])
  {
    OneCost(fs.View(), fs.store.heap.pos, fd, data);
    WriteOnce(fs.View(), fd, data);
    var ret, gap := fs.Write(fd, data);
    assert gap == [];
  }

  lemma HeadCost(s: Sys, pos: nat, fd: int, rest: seq<Bytes>)
    requires CanWrite(s, fd) && rest != [] && RoomFor(s, pos, fd, rest)
    ensures RoomFor(s, pos, fd, [rest[0]])
    ensures var s' := Written(s, fd, rest[0]);
            && IsOpen(s', fd)
            && RoomFor(s', pos + CostOf(s, fd, [rest[0]]), fd, rest[1..])
            && CostOf(s, fd, rest) == CostOf(s, fd, [rest[0]]) + CostOf(s', fd, rest[1..])
  {
    OverlaySize(Content(s, fd), s.fds[fd].pos, rest[0], []);
    OneChunk(pos, |Content(s, fd)|, s.fds[fd].pos, rest);
  }

  lemma OneChunk(pos: nat, size: nat, at: nat, chunks: seq<Bytes>)
    requires chunks != [] && Room(pos, size, at, chunks)
    ensures var one := [chunks[0]]; var end := at + |chunks[0]|; var size' := if end > size then end else size;
            && Room(pos, size, at, one)
            && Room(pos + Cost(size, at, one), size', end, chunks[1..])
            && Cost(size, at, chunks) == Cost(size, at, one) + Cost(size', end, chunks[1..])
  {
    var none: seq<Bytes> := [];
    assert [chunks[0]][1..] == none;
  }

  /** `write` for each chunk. */
  method WriteChunks(fs: FileSystem, fd: int, chunks: seq<Bytes>)
    requires fs.Valid() && CanWrite(fs.View(), fd) && fs.fds[fd].pos + |Concat(chunks)| < WORD
    requires RoomFor(fs.View(), fs.store.heap.pos, fd, chunks)
    modifies fs.fds, fs.store, fs.store.heap, fs.store.heap.bytes, fs.store.inodes
    ensures fs.Valid() && fs.View() == WriteAll(old(fs.View()), fd, chunks)
    ensures fs.store.heap.pos == old(fs.store.heap.pos) + CostOf(old(fs.View()), fd, chunks)
    decreases |chunks|
  {
    if chunks != [] {
      ghost var s := fs.View();
      HeadCost(s, fs.store.heap.pos, fd, chunks);
      WriteOnce(s, fd, chunks[0]);
      WriteChunk(fs, fd, chunks[0]);
      WriteChunks(fs, fd, chunks[1..]);
    }
  }

  /** `read` for each size. */
  method ReadChunks(fs: FileSystem, fd: int, sizes: seq<nat>) returns (got: Bytes)
    requires fs.Valid() && ReadWrite(fs.View(), fd) && Sizes(sizes) && |Content(fs.View(), fd)| <= HEAP_SIZE
    modifies fs.fds
    ensures fs.Valid() && (fs.View(), got) == ReadAll(old(fs.View()), fd, sizes)
    decreases |sizes|
  {
    got := [];
    if sizes != [] {
      ReadOnce(fs.View(), fd, sizes[0]);
      var ret, data := fs.Read(fd, sizes[0]);
      var rest := ReadChunks(fs, fd, sizes[1..]);
      got := data + rest;
    }
  }

  // ----- write, seek back, read, close

  /** Writes the chunks and goes back to where the first one went. */
  method WriteAndSeek(fs: FileSystem, fd: int, chunks: seq<Bytes>)
    requires fs.Valid() && ReadWrite(fs.View(), fd) && RoomFor(fs.View(), fs.store.heap.pos, fd, chunks)
    modifies fs.fds, fs.store, fs.store.heap, fs.store.heap.bytes, fs.store.inodes
    ensures fs.Valid() && ReadWrite(fs.View(), fd) && |Content(fs.View(), fd)| <= HEAP_SIZE
    ensures var s := old(fs.View());
      fs.View() == s.(files := s.files[s.fds[fd].node.file :=
                                 Overlay(Content(s, fd), s.fds[fd].pos, Concat(chunks), [])])
    ensures fs.store.heap.pos == old(fs.store.heap.pos) + CostOf(old(fs.View()), fd, chunks)
  {
    ghost var s := fs.View();
    FilesFit(fs);
    RoomBound(fs.store.heap.pos, |Content(s, fd)|, s.fds[fd].pos, chunks);
    var start := fs.fds[fd].pos;
    WriteChunks(fs, fd, chunks);
    var ret := fs.Lseek(fd, start, SEEK_SET);
    RewoundElsewhere(s, fd, chunks);
  }

  ghost predicate Roomy(s: Sys, fd: int, chunks: seq<Bytes>) {
    ReadWrite(s, fd) && |Content(s, fd)| <= HEAP_SIZE && s.fds[fd].pos + |Concat(chunks)| <= HEAP_SIZE
  }

  /** From position `p` the reads gave out the file as far as their sizes together reach, to its end exactly if
      the last read came back empty. */
  ghost predicate ReadOut(whole: Bytes, p: nat, sizes: seq<nat>, got: Bytes, atEnd: bool) {
    && p <= |whole| && |got| == Min(Sum(sizes), |whole| - p) && got == whole[p..p + |got|]
    && (atEnd <==> got == whole[p..])
  }

  /** Reads on in pieces, tries for `last` bytes more and closes. */
  method ReadAndClose(fs: FileSystem, fd: int, sizes: seq<nat>, last: nat) returns (got: Bytes, atEnd: bool)
    requires fs.Valid() && ReadWrite(fs.View(), fd) && Sizes(sizes) && 0 < last < WORD - HEAP_SIZE
    requires |Content(fs.View(), fd)| <= HEAP_SIZE
    modifies fs.fds
    ensures fs.Valid() && fs.View() == old(fs.View()).(fds := old(fs.fds[..])[fd := Closed])
    ensures ReadOut(Content(old(fs.View()), fd), old(fs.fds[fd].pos), sizes, got, atEnd)
  {
    ghost var s := fs.View();
    ReadsTotal(s, fd, sizes);
    got := ReadChunks(fs, fd, sizes);
    ReadsCompose(s, fd, sizes);
    ReadToEnd(s, fd, sizes, last);
    atEnd := ReadLast(fs, fd, last);
  }

  method ReadLast(fs: FileSystem, fd: int, last: nat) returns (atEnd: bool)
    requires fs.Valid() && ReadWrite(fs.View(), fd) && 0 < last < WORD - HEAP_SIZE
    requires |Content(fs.View(), fd)| <= HEAP_SIZE
    modifies fs.fds
    ensures fs.Valid() && fs.View() == old(fs.View()).(fds := old(fs.fds[..])[fd := Closed])
    ensures atEnd <==> ReadData(old(fs.View()), fd, last) == []
  {
    ReadOnce(fs.View(), fd, last);
    var ret, data := fs.Read(fd, last);
    atEnd := data == [];
    ret := fs.Close(fd);
  }

  /** From an open descriptor: whatever the split, the reads give out the overlaid file from the position the
      writing started at, all of it exactly if the last read comes back empty, and nothing else has changed
      but the heap position, by the cost of the writes. */
  method WriteAndReadBack(fs: FileSystem, fd: int, chunks: seq<Bytes>, sizes: seq<nat>, last: nat)
      returns (got: Bytes, atEnd: bool)
    requires fs.Valid() && ReadWrite(fs.View(), fd) && RoomFor(fs.View(), fs.store.heap.pos, fd, chunks)
    requires Sizes(sizes) && 0 < last < WORD - HEAP_SIZE
    modifies fs.fds, fs.store, fs.store.heap, fs.store.heap.bytes, fs.store.inodes
    ensures fs.Valid()
    ensures var s := old(fs.View()); var p := s.fds[fd].pos;
      var whole := Overlay(Content(s, fd), p, Concat(chunks), []);
      && fs.View() == Sys(s.files[s.fds[fd].node.file := whole], s.fds[fd := Closed])
      && ReadOut(whole, p, sizes, got, atEnd)
    ensures fs.store.heap.pos == old(fs.store.heap.pos) + CostOf(old(fs.View()), fd, chunks)
  {
    ghost var s := fs.View();
    ghost var whole := Overlay(Content(s, fd), s.fds[fd].pos, Concat(chunks), []);
    WriteAndSeek(fs, fd, chunks);
    assert Content(fs.View(), fd) == whole && fs.View().fds == s.fds;
    got, atEnd := ReadAndClose(fs, fd, sizes, last);
  }

  lemma RewoundElsewhere(s: Sys, fd: int, chunks: seq<Bytes>)
    requires Roomy(s, fd, chunks)
    ensures var back := Rewound(s, fd, chunks);
            && back.fds == s.fds
            && back.files == s.files[s.fds[fd].node.file := Overlay(Content(s, fd), s.fds[fd].pos, Concat(chunks), [])]
  {
    WritesCompose(s, fd, chunks);
    var w := Written(s, fd, Concat(chunks));
    WriteOnce(s, fd, Concat(chunks));
    OverlaySize(Content(s, fd), s.fds[fd].pos, Concat(chunks), []);
    SeekOnce(w, fd, s.fds[fd].pos);
    SetTwice(s.fds, fd, w.fds[fd], s.fds[fd]);
  }

  // ----- by name

  /** `s'` is `s` with a descriptor that was closed now open on that file at position 0. */
  ghost predicate FreshFd(s: Sys, s': Sys, fd: int, file: nat, isDir: bool, flags: nat) {
    && IsSys(s') && s'.files == s.files && IsOpen(s', fd)
    && s'.fds[fd].node.file == file < |s.files| && s'.fds[fd].node.isDir == isDir
    && s'.fds[fd].pos == 0 && s'.fds[fd].flags == flags
    && s'.fds[fd := Closed] == s.fds
  }

  method OpenName(fs: FileSystem, filename: string, flags: nat) returns (fd: int)
    requires fs.Valid()
    modifies fs.store.heap, fs.fds
    ensures fs.Valid()
    ensures fs.store.heap.pos == fs.PosAfterOpen(old(fs.fds[..]), filename, old(fs.store.heap.pos))
    ensures var found := fs.Opens(old(fs.fds[..]), filename, old(fs.store.heap.pos));
      if found.None? then fd < 0 && fs.View() == old(fs.View())
      else FreshFd(old(fs.View()), fs.View(), fd, found.value.inode.file, found.value.inode.isDir, flags)
    ensures fd >= 0 && filename != "/" ==>
      fs.View().fds[fd].node.length == |fs.store.files[fs.View().fds[fd].node.file]|
  {
    ghost var s := fs.View();
    fd := fs.Open(filename, flags);
    if fd >= 0 {
      assert s.fds[fd := fs.View().fds[fd]][fd := Closed] == s.fds;
    }
  }

  /** If the name opens, it opens a plain file, and the heap has room for the writes after the lookup. */
  ghost predicate NameHasRoom(fs: FileSystem, filename: string, chunks: seq<Bytes>)
    reads fs, fs.store, fs.store.heap, fs.fds
  {
    var found := fs.Opens(fs.fds[..], filename, fs.store.heap.pos);
    found.Some? && found.value.inode.file < |fs.store.files| ==>
      && !found.value.inode.isDir
      && Room(fs.PosAfterOpen(fs.fds[..], filename, fs.store.heap.pos),
           |fs.store.files[found.value.inode.file]|, 0, chunks)
  }

  /** The whole round by name: it fails exactly if the name does not open, and then nothing has changed but
      the heap position; otherwise the descriptors are as before, the file holds the data over its old
      contents, and that is what the reads give out. */
  method RoundTrip(fs: FileSystem, filename: string, chunks: seq<Bytes>, sizes: seq<nat>, last: nat)
      returns (ok: bool, got: Bytes, atEnd: bool)
    requires fs.Valid() && NameHasRoom(fs, filename, chunks)
    requires Sizes(sizes) && 0 < last < WORD - HEAP_SIZE
    modifies fs.fds, fs.store, fs.store.heap, fs.store.heap.bytes, fs.store.inodes
    ensures fs.Valid() && ok == fs.Opens(old(fs.fds[..]), filename, old(fs.store.heap.pos)).Some?
    ensures !ok ==> fs.View() == old(fs.View())
    ensures ok ==>
      var s, pos := old(fs.View()), old(fs.store.heap.pos);
      var file := fs.Opens(s.fds, filename, pos).value.inode.file;
      && file < |s.files|
      && var whole := Overlay(s.files[file], 0, Concat(chunks), []);
         && fs.View() == s.(files := s.files[file := whole])
         && fs.store.heap.pos == fs.PosAfterOpen(s.fds, filename, pos) + Cost(|s.files[file]|, 0, chunks)
         && ReadOut(whole, 0, sizes, got, atEnd)
  {
    var fd := OpenName(fs, filename, O_RDWR);
    if fd < 0 {
      return false, [], false;
    }
    got, atEnd := WriteAndReadBack(fs, fd, chunks, sizes, last);
    ok := true;
  }

  /** Opening any file but the root and seeking to its end tells its size, and closing leaves all as it was
      but the heap position. */
  method FileSize(fs: FileSystem, filename: string, flags: nat) returns (size: int)
    requires fs.Valid() && filename != "/"
    modifies fs.fds, fs.store.heap
    ensures fs.Valid() && fs.View() == old(fs.View())
    ensures var found := fs.Opens(old(fs.fds[..]), filename, old(fs.store.heap.pos));
      if found.None? then size == -1
      else found.value.inode.file < |fs.store.files| && size == |fs.store.files[found.value.inode.file]|
  {
    FilesFit(fs);
    var fd := OpenName(fs, filename, flags);
    if fd < 0 {
      return -1;
    }
    size := SeekToEnd(fs, fd);
  }

  method SeekToEnd(fs: FileSystem, fd: int) returns (size: int)
    requires fs.Valid() && IsOpen(fs.View(), fd) && fs.fds[fd].node.length < 0x8000_0000
    modifies fs.fds
    ensures fs.Valid() && fs.View() == old(fs.View()).(fds := old(fs.View()).fds[fd := Closed])
    ensures size == old(fs.fds[fd].node.length)
  {
    size := fs.Lseek(fd, 0, SEEK_END);
    var ret := fs.Close(fd);
  }

  // ----- fs/fs_test.c

  datatype Outcome = NotCreated | NotWritten | NotReopened | NotRead | Passed

  /** The file that a write to the opened node reaches. */
  predicate Reaches(files: seq<Bytes>, found: Option<FsNode>) {
    found.Some? && !found.value.inode.isDir && found.value.inode.file < |files|
  }

  /** The files after writing to it from its start. */
  function Rewritten(files: seq<Bytes>, found: Option<FsNode>, data: Bytes): seq<Bytes> {
    if !Reaches(files, found) then files
    else
      var file := found.value.inode.file;
      files[file := Overlay(files[file], 0, data, [])]
  }

  function RewriteCost(files: seq<Bytes>, found: Option<FsNode>, data: Bytes): nat {
    if Reaches(files, found) && |data| > |files[found.value.inode.file]| then RoundUp(|data|) else 0
  }

  ghost predicate TestHasRoom(fs: FileSystem, filename: string, data: Bytes)
    reads fs, fs.store, fs.store.heap, fs.fds
  {
    var found := fs.Opens(fs.fds[..], filename, fs.store.heap.pos);
    Reaches(fs.store.files, found) && |data| > |fs.store.files[found.value.inode.file]| ==>
      fs.PosAfterOpen(fs.fds[..], filename, fs.store.heap.pos) + |data| <= HEAP_SIZE
  }

  /** Opens for writing, writes, closes. */
  method CreateAndWrite(fs: FileSystem, filename: string, data: Bytes) returns (fd: int, written: int)
    requires fs.Valid() && TestHasRoom(fs, filename, data)
    modifies fs.fds, fs.store, fs.store.heap, fs.store.heap.bytes, fs.store.inodes
    ensures fs.Valid()
    ensures fs.fds[..] == old(fs.fds[..])
    ensures var found := fs.Opens(old(fs.fds[..]), filename, old(fs.store.heap.pos));
      && (fd >= 0 <==> found.Some?)
      && (found.Some? ==> written == if found.value.inode.isDir then 0 else |data|)
      && fs.store.files == Rewritten(old(fs.store.files), found, data)
      && fs.store.heap.pos == fs.PosAfterOpen(old(fs.fds[..]), filename, old(fs.store.heap.pos))
                              + RewriteCost(old(fs.store.files), found, data)
  {
    fd := OpenName(fs, filename, O_WRONLY + O_CREAT);
    written := 0;
    if fd >= 0 {
      FilesFit(fs);
      written := WriteAndClose(fs, fd, data);
    }
  }

  method WriteAndClose(fs: FileSystem, fd: int, data: Bytes) returns (written: int)
    requires fs.Valid() && IsOpen(fs.View(), fd) && Writable(fs.fds[fd].flags) && fs.fds[fd].pos == 0
    requires !fs.fds[fd].node.isDir ==>
      && |data| < WORD
      && (|data| > |fs.store.files[fs.fds[fd].node.file]| ==> fs.store.heap.pos + |data| <= HEAP_SIZE)
    modifies fs.fds, fs.store, fs.store.heap, fs.store.heap.bytes, fs.store.inodes
    ensures fs.Valid()
    ensures var s := old(fs.View()); var node := s.fds[fd].node;
      && node.file < |s.files| && written == (if node.isDir then 0 else |data|)
      && fs.View() == Sys(if node.isDir then s.files
                          else s.files[node.file := Overlay(s.files[node.file], 0, data, [])],
                        s.fds[fd := Closed])
      && fs.store.heap.pos == old(fs.store.heap.pos)
           + if !node.isDir && |data| > |s.files[node.file]| then RoundUp(|data|) else 0
  {
    ghost var gap;
    var ret;
    written, gap := fs.Write(fd, data);
    ret := fs.Close(fd);
  }

  /** Opens for reading only, reads, closes: the read is always refused. */
  method ReadBack(fs: FileSystem, filename: string, want: nat) returns (outcome: Outcome)
    requires fs.Valid()
    modifies fs.fds, fs.store.heap
    ensures fs.Valid() && fs.fds[..] == old(fs.fds[..])
    ensures outcome ==
      if fs.Opens(old(fs.fds[..]), filename, old(fs.store.heap.pos)).None? then NotReopened else NotRead
  {
    var fd := OpenName(fs, filename, O_RDONLY);
    if fd < 0 {
      return NotReopened;
    }
    var ret, data := fs.Read(fd, want);
    outcome := if ret <= 0 then NotRead else Passed;
    ret := fs.Close(fd);
  }

  /** The test, for any path, data and buffer. It never passes: what it read back is refused, because
      `O_RDONLY` is 0. The outcome is exactly the first of the four failures. */
  method RunTest(fs: FileSystem, filename: string, data: Bytes, want: nat) returns (outcome: Outcome)
    requires fs.Valid() && TestHasRoom(fs, filename, data)
    modifies fs.fds, fs.store, fs.store.heap, fs.store.heap.bytes, fs.store.inodes
    ensures fs.Valid()
    ensures fs.fds[..] == old(fs.fds[..])
    ensures var fds, pos := old(fs.fds[..]), old(fs.store.heap.pos);
      var found := fs.Opens(fds, filename, pos);
      var after := fs.PosAfterOpen(fds, filename, pos) + RewriteCost(old(fs.store.files), found, data);
      && fs.store.files == Rewritten(old(fs.store.files), found, data)
      && outcome ==
           if found.None? then NotCreated
           else if found.value.inode.isDir && data != [] then NotWritten
           else if fs.Opens(fds, filename, after).None? then NotReopened
           else NotRead
  {
    ghost var fds, pos := fs.fds[..], fs.store.heap.pos;
    ghost var found := fs.Opens(fds, filename, pos);
    ghost var files, after := Rewritten(fs.store.files, found, data),
                              fs.PosAfterOpen(fds, filename, pos) + RewriteCost(fs.store.files, found, data);
    var fd, written := CreateAndWrite(fs, filename, data);
    assert fs.store.heap.pos == after && fs.fds[..] == fds && fs.store.files == files;
    if fd < 0 {
      return NotCreated;
    }
    assert written != |data| <==> found.value.inode.isDir && data != [];
    if written != |data| {
      return NotWritten;
    }
    outcome := ReadBack(fs, filename, want);
  }
}
