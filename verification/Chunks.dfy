/** Splitting data over several `write` and `read` calls on one descriptor is invisible, but for what the
    heap pays. */
module Chunks {
  import opened Heap
  import opened Files
  import HeapRuns

  function Concat(chunks: seq<Bytes>): Bytes {
    if chunks == [] then [] else chunks[0] + Concat(chunks[1..])
  }

  /** The descriptor writes one plain file and stands inside it. */
  ghost predicate CanWrite(s: Sys, fd: int) {
    && IsSys(s) && IsOpen(s, fd) && Writable(s.fds[fd].flags) && !s.fds[fd].node.isDir
    && s.fds[fd].pos <= |Content(s, fd)|
  }

  ghost predicate ReadWrite(s: Sys, fd: int) { CanWrite(s, fd) && Readable(s.fds[fd].flags) }

  function Content(s: Sys, fd: int): Bytes
    requires IsOpen(s, fd)
  {
    if s.fds[fd].node.file < |s.files| then s.files[s.fds[fd].node.file] else []
  }

  /** The state after one write inside the file or at its end. */
  ghost function Written(s: Sys, fd: int, data: Bytes): Sys
    requires CanWrite(s, fd)
  {
    var f := s.fds[fd];
    Sys(s.files[f.node.file := Overlay(s.files[f.node.file], f.pos, data, [])],
        s.fds[fd := f.(pos := f.pos + |data|)])
  }

  ghost function WriteAll(s: Sys, fd: int, chunks: seq<Bytes>): (s': Sys)
    requires CanWrite(s, fd) && s.fds[fd].pos + |Concat(chunks)| < WORD
    ensures CanWrite(s', fd)
    decreases chunks
  {
    if chunks == [] then s
    else
      WriteOnce(s, fd, chunks[0]);
      WriteAll(Step(s, Write(fd, chunks[0], [])), fd, chunks[1..])
  }

  lemma WriteOnce(s: Sys, fd: int, data: Bytes)
    requires CanWrite(s, fd) && s.fds[fd].pos + |data| < WORD
    ensures Legal(s, Write(fd, data, [])) && Step(s, Write(fd, data, [])) == Written(s, fd, data)
    ensures var s' := Written(s, fd, data);
            && CanWrite(s', fd)
            && Content(s', fd) == Overlay(Content(s, fd), s.fds[fd].pos, data, [])
            && s'.fds[fd] == s.fds[fd].(pos := s.fds[fd].pos + |data|)
  {
    StepKeepsSys(s, Write(fd, data, []));
    OverlaySize(Content(s, fd), s.fds[fd].pos, data, []);
  }

  /** Two writes in a row are one write of both pieces. */
  lemma OverlayTwice(content: Bytes, at: nat, a: Bytes, b: Bytes)
    requires at <= |content|
    ensures at + |a| <= |Overlay(content, at, a, [])|
    ensures Overlay(Overlay(content, at, a, []), at + |a|, b, []) == Overlay(content, at, a + b, [])
  {
    OverlaySize(content, at, a, []);
    var once := Overlay(content, at, a, []);
    assert once[..at + |a|] == content[..at] + a;
    if at + |a| + |b| <= |once| {
      if at + |a| <= |content| {
        assert once[at + |a| + |b|..] == content[at + |a| + |b|..];
      } else {
        assert b == [] && a + b == a && once[at + |a|..] == [];
      }
    }
  }

  /** Any split of the data into writes leaves the state that one write of it leaves. */
  lemma {:induction false} WritesCompose(s: Sys, fd: int, chunks: seq<Bytes>)
    requires CanWrite(s, fd) && s.fds[fd].pos + |Concat(chunks)| < WORD
    ensures Legal(s, Write(fd, Concat(chunks), []))
    ensures WriteAll(s, fd, chunks) == Step(s, Write(fd, Concat(chunks), [])) == Written(s, fd, Concat(chunks))
    decreases chunks
  {
    WriteOnce(s, fd, Concat(chunks));
    if chunks == [] {
      WroteNothing(s, fd);
    } else {
      WriteOnce(s, fd, chunks[0]);
      WritesCompose(Written(s, fd, chunks[0]), fd, chunks[1..]);
      TwoWrites(s, fd, chunks[0], Concat(chunks[1..]));
    }
  }

  lemma WroteNothing(s: Sys, fd: int)
    requires CanWrite(s, fd)
    ensures Written(s, fd, []) == s
  {
    assert Overlay(Content(s, fd), s.fds[fd].pos, [], []) == Content(s, fd);
    assert s.files[s.fds[fd].node.file := Content(s, fd)] == s.files;
    assert s.fds[fd := s.fds[fd]] == s.fds;
  }

  lemma TwoWrites(s: Sys, fd: int, a: Bytes, b: Bytes)
    requires CanWrite(s, fd) && s.fds[fd].pos + |a| + |b| < WORD
    ensures CanWrite(Written(s, fd, a), fd)
    ensures Written(Written(s, fd, a), fd, b) == Written(s, fd, a + b)
  {
    WriteOnce(s, fd, a);
    OverlayTwice(Content(s, fd), s.fds[fd].pos, a, b);
  }

  // ----- reading in pieces

  ghost predicate Sizes(sizes: seq<nat>) {
    forall k | 0 <= k < |sizes| :: 0 < sizes[k] < WORD - HEAP_SIZE
  }

  /** What the reads return, joined. */
  ghost function ReadAll(s: Sys, fd: int, sizes: seq<nat>): (r: (Sys, Bytes))
    requires ReadWrite(s, fd) && Sizes(sizes) && |Content(s, fd)| <= HEAP_SIZE
    decreases sizes
  {
    if sizes == [] then (s, [])
    else
      ReadOnce(s, fd, sizes[0]);
      var (last, rest) := ReadAll(Step(s, Read(fd, sizes[0])), fd, sizes[1..]);
      (last, ReadData(s, fd, sizes[0]) + rest)
  }

  lemma ReadOnce(s: Sys, fd: int, size: nat)
    requires ReadWrite(s, fd) && size < WORD - HEAP_SIZE && |Content(s, fd)| <= HEAP_SIZE
    ensures Legal(s, Read(fd, size))
    ensures var s' := Step(s, Read(fd, size)); var p := s.fds[fd].pos;
            && HasRead(s, s', fd, ReadData(s, fd, size))
            && (size > 0 ==> (ReadData(s, fd, size) == [] <==> p == |Content(s, fd)|))
  {
    StepKeepsSys(s, Read(fd, size));
  }

  /** From `s` to `last` the bytes `got` were read: they are the file from the first position to the last, which
      is the first plus their number, and nothing else has changed. */
  ghost predicate HasRead(s: Sys, last: Sys, fd: int, got: Bytes)
    requires IsOpen(s, fd)
  {
    var p := s.fds[fd].pos;
    && ReadWrite(last, fd) && last.files == s.files
    && last.fds == s.fds[fd := s.fds[fd].(pos := p + |got|)]
    && p + |got| <= |Content(s, fd)| && got == Content(s, fd)[p..p + |got|]
  }

  /** Reads return consecutive stretches that join to one. */
  lemma {:induction false} ReadsCompose(s: Sys, fd: int, sizes: seq<nat>)
    requires ReadWrite(s, fd) && Sizes(sizes) && |Content(s, fd)| <= HEAP_SIZE
    ensures var (last, got) := ReadAll(s, fd, sizes); HasRead(s, last, fd, got)
    decreases sizes
  {
    if sizes == [] {
      assert s.fds[fd := s.fds[fd]] == s.fds;
    } else {
      var s1 := Step(s, Read(fd, sizes[0]));
      ReadOnce(s, fd, sizes[0]);
      ReadsCompose(s1, fd, sizes[1..]);
      ReadOnAfter(s, s1, ReadAll(s1, fd, sizes[1..]).0, fd, ReadData(s, fd, sizes[0]), ReadAll(s1, fd, sizes[1..]).1);
    }
  }

  /** A read and the reads after it. */
  lemma ReadOnAfter(s: Sys, s1: Sys, last: Sys, fd: int, first: Bytes, rest: Bytes)
    requires IsOpen(s, fd) && HasRead(s, s1, fd, first) && HasRead(s1, last, fd, rest)
    ensures HasRead(s, last, fd, first + rest)
  {
    var p := s.fds[fd].pos;
    SetTwice(s.fds, fd, s1.fds[fd], last.fds[fd]);
    SlicesJoin(Content(s, fd), p, p + |first|, p + |first| + |rest|);
  }

  function Sum(sizes: seq<nat>): nat {
    if sizes == [] then 0 else sizes[0] + Sum(sizes[1..])
  }

  /** Reads return as many bytes as they ask for together, as far as the file goes: short reads occur only at
      its end. */
  lemma {:induction false} ReadsTotal(s: Sys, fd: int, sizes: seq<nat>)
    requires ReadWrite(s, fd) && Sizes(sizes) && |Content(s, fd)| <= HEAP_SIZE
    ensures |ReadAll(s, fd, sizes).1| == Min(Sum(sizes), |Content(s, fd)| - s.fds[fd].pos)
    decreases sizes
  {
    if sizes != [] {
      var s1 := Step(s, Read(fd, sizes[0]));
      ReadOnce(s, fd, sizes[0]);
      ReadCounts(s, fd, sizes[0]);
      ReadsTotal(s1, fd, sizes[1..]);
    }
  }

  lemma ReadCounts(s: Sys, fd: int, size: nat)
    requires ReadWrite(s, fd) && size < WORD - HEAP_SIZE && |Content(s, fd)| <= HEAP_SIZE
    ensures |ReadData(s, fd, size)| == Min(size, |Content(s, fd)| - s.fds[fd].pos)
  {
    LowBits(s.fds[fd].flags);
    ReadReturns(s, fd, size);
  }

  /** So the whole round comes out whole as soon as the sizes add up. */
  lemma ReadsItAll(s: Sys, fd: int, chunks: seq<Bytes>, sizes: seq<nat>)
    requires ReadWrite(s, fd) && Sizes(sizes)
    requires |Content(s, fd)| <= HEAP_SIZE && s.fds[fd].pos + |Concat(chunks)| <= HEAP_SIZE
    requires var whole := Overlay(Content(s, fd), s.fds[fd].pos, Concat(chunks), []);
             s.fds[fd].pos + Sum(sizes) >= |whole|
    ensures ReadAll(Rewound(s, fd, chunks), fd, sizes).1
         == Overlay(Content(s, fd), s.fds[fd].pos, Concat(chunks), [])[s.fds[fd].pos..]
  {
    var back := Rewound(s, fd, chunks);
    ReadsCompose(back, fd, sizes);
    ReadsTotal(back, fd, sizes);
  }

  lemma SetTwice(fds: seq<Fd>, k: nat, a: Fd, b: Fd)
    requires k < |fds|
    ensures fds[k := a][k := b] == fds[k := b]
  {
  }

  lemma SlicesJoin(c: Bytes, p: nat, q: nat, e: nat)
    requires p <= q <= e <= |c|
    ensures c[p..q] + c[q..e] == c[p..e]
  {
  }

  // ----- the whole round

  /** Seeking inside the file. */
  lemma SeekOnce(s: Sys, fd: int, to: nat)
    requires CanWrite(s, fd) && to <= |Content(s, fd)| && to < WORD
    ensures var s' := Step(s, Seek(fd, to, SEEK_SET));
            && CanWrite(s', fd) && s'.files == s.files && s'.fds == s.fds[fd := s.fds[fd].(pos := to)]
  {
    StepKeepsSys(s, Seek(fd, to, SEEK_SET));
  }

  /** After writing the chunks and seeking back to where the first went. */
  ghost function Rewound(s: Sys, fd: int, chunks: seq<Bytes>): (back: Sys)
    requires ReadWrite(s, fd) && |Content(s, fd)| <= HEAP_SIZE && s.fds[fd].pos + |Concat(chunks)| <= HEAP_SIZE
    ensures ReadWrite(back, fd) && |Content(back, fd)| <= HEAP_SIZE
    ensures Content(back, fd) == Overlay(Content(s, fd), s.fds[fd].pos, Concat(chunks), [])
    ensures back.fds[fd] == s.fds[fd]
  {
    RewoundIs(s, fd, chunks);
    Step(WriteAll(s, fd, chunks), Seek(fd, s.fds[fd].pos, SEEK_SET))
  }

  lemma RewoundIs(s: Sys, fd: int, chunks: seq<Bytes>)
    requires ReadWrite(s, fd) && |Content(s, fd)| <= HEAP_SIZE && s.fds[fd].pos + |Concat(chunks)| <= HEAP_SIZE
    ensures var back := Step(WriteAll(s, fd, chunks), Seek(fd, s.fds[fd].pos, SEEK_SET));
            && ReadWrite(back, fd) && |Content(back, fd)| <= HEAP_SIZE
            && Content(back, fd) == Overlay(Content(s, fd), s.fds[fd].pos, Concat(chunks), [])
            && back.fds[fd] == s.fds[fd]
  {
    WritesCompose(s, fd, chunks);
    WriteOnce(s, fd, Concat(chunks));
    OverlaySize(Content(s, fd), s.fds[fd].pos, Concat(chunks), []);
    SeekOnce(Written(s, fd, Concat(chunks)), fd, s.fds[fd].pos);
  }

  /** The reads gave out `whole` from position `p` on, as far as they went, and went to its end exactly if one
      more read returns nothing. */
  ghost predicate Delivers(r: (Sys, Bytes), fd: int, last: nat, p: nat, whole: Bytes) {
    var (end, got) := r;
    && ReadWrite(end, fd) && p + |got| <= |whole| && got == whole[p..p + |got|]
    && (ReadData(end, fd, last) == [] <==> got == whole[p..])
  }

  /** The whole round, from any position inside the file: write data in any pieces, seek back to where the
      first went, read in any positive sizes. Once a read returns nothing, and only then, what came out is
      the data followed by whatever the file held behind it. */
  lemma ChunkingInvisible(s: Sys, fd: int, chunks: seq<Bytes>, sizes: seq<nat>, last: nat)
    requires ReadWrite(s, fd) && Sizes(sizes) && 0 < last < WORD - HEAP_SIZE
    requires |Content(s, fd)| <= HEAP_SIZE && s.fds[fd].pos + |Concat(chunks)| <= HEAP_SIZE
    ensures Delivers(ReadAll(Rewound(s, fd, chunks), fd, sizes), fd, last, s.fds[fd].pos,
              Overlay(Content(s, fd), s.fds[fd].pos, Concat(chunks), []))
  {
    ReadToEnd(Rewound(s, fd, chunks), fd, sizes, last);
  }

  lemma ReadToEnd(s: Sys, fd: int, sizes: seq<nat>, last: nat)
    requires ReadWrite(s, fd) && Sizes(sizes) && |Content(s, fd)| <= HEAP_SIZE && 0 < last < WORD - HEAP_SIZE
    ensures Delivers(ReadAll(s, fd, sizes), fd, last, s.fds[fd].pos, Content(s, fd))
  {
    ReadsCompose(s, fd, sizes);
    ReadOnce(ReadAll(s, fd, sizes).0, fd, last);
  }

  /** At the start of a file no longer than the data, the data itself comes out. */
  lemma RewriteComesBack(s: Sys, fd: int, chunks: seq<Bytes>, sizes: seq<nat>, last: nat)
    requires ReadWrite(s, fd) && Sizes(sizes) && 0 < last < WORD - HEAP_SIZE
    requires s.fds[fd].pos == 0 && |Content(s, fd)| <= |Concat(chunks)| <= HEAP_SIZE
    ensures var (end, got) := ReadAll(Rewound(s, fd, chunks), fd, sizes);
            ReadWrite(end, fd) && (ReadData(end, fd, last) == [] <==> got == Concat(chunks))
  {
    ChunkingInvisible(s, fd, chunks, sizes, last);
    OverlayAll(Content(s, fd), Concat(chunks));
  }

  lemma OverlayAll(content: Bytes, data: Bytes)
    requires |content| <= |data|
    ensures Overlay(content, 0, data, []) == data && data[0..] == data
  {
  }

  // ----- what the heap pays

  /** What the writes take from the heap, for a file of `size` bytes from position `at`. */
  function Cost(size: nat, at: nat, chunks: seq<Bytes>): nat
    decreases chunks
  {
    if chunks == [] then 0
    else
      var end := at + |chunks[0]|;
      if end > size then RoundUp(end) + Cost(end, end, chunks[1..]) else Cost(size, end, chunks[1..])
  }

  /** Every write that grows the file gets memory. */
  predicate Room(pos: nat, size: nat, at: nat, chunks: seq<Bytes>)
    decreases chunks
  {
    chunks == [] ||
    var end := at + |chunks[0]|;
    if end > size then pos + end <= HEAP_SIZE && Room(pos + RoundUp(end), end, end, chunks[1..])
    else Room(pos, size, end, chunks[1..])
  }

  /** With room no position ever leaves the heap's size. */
  lemma {:induction false} RoomBound(pos: nat, size: nat, at: nat, chunks: seq<Bytes>)
    requires Room(pos, size, at, chunks) && at <= size <= HEAP_SIZE
    ensures at + |Concat(chunks)| <= HEAP_SIZE
    decreases chunks
  {
    if chunks != [] {
      var end := at + |chunks[0]|;
      if end > size {
        RoomBound(pos + RoundUp(end), end, end, chunks[1..]);
      } else {
        RoomBound(pos, size, end, chunks[1..]);
      }
    }
  }

  function SingleBytes(data: Bytes): (chunks: seq<Bytes>)
    ensures |chunks| == |data| && forall k | 0 <= k < |data| :: chunks[k] == [data[k]]
  {
    seq(|data|, k requires 0 <= k < |data| => [data[k]])
  }

  /** n allocations of size + 1, size + 2, ... bytes. */
  function Steps(size: nat, n: nat): nat
    decreases n
  {
    if n == 0 then 0 else RoundUp(size + 1) + Steps(size + 1, n - 1)
  }

  lemma {:induction false} StepsCost(size: nat, n: nat)
    requires size + n < HEAP_SIZE
    ensures HeapRuns.AppendsCost(size) + Steps(size, n) == HeapRuns.AppendsCost(size + n)
    decreases n
  {
    if n > 0 {
      HeapRuns.CostStep(size + 1);
      StepsCost(size + 1, n - 1);
    }
  }

  /** Byte by byte at the end of a file each byte costs a block of the new size. */
  lemma {:induction false} SingleBytesCost(size: nat, data: Bytes)
    ensures Cost(size, size, SingleBytes(data)) == Steps(size, |data|)
    decreases data
  {
    if data != [] {
      FirstByte(0, size, data);
      SingleBytesCost(size + 1, data[1..]);
    }
  }

  /** And there is room exactly if there is for the last of them. */
  lemma {:induction false} SingleBytesRoom(pos: nat, size: nat, data: Bytes)
    requires Aligned(pos) && size + |data| < HEAP_SIZE && data != []
    ensures Room(pos, size, size, SingleBytes(data)) <==> pos + Steps(size, |data| - 1) + size + |data| <= HEAP_SIZE
    decreases data
  {
    FirstByte(pos, size, data);
    var end := size + 1;
    if |data| > 1 && pos + end <= HEAP_SIZE {
      AllocKeepsAligned(pos, end);
      SingleBytesRoom(pos + RoundUp(end), end, data[1..]);
    }
  }

  lemma FirstByte(pos: nat, size: nat, data: Bytes)
    requires data != []
    ensures Cost(size, size, SingleBytes(data))
         == RoundUp(size + 1) + Cost(size + 1, size + 1, SingleBytes(data[1..]))
    ensures Room(pos, size, size, SingleBytes(data)) <==>
            pos + size + 1 <= HEAP_SIZE && Room(pos + RoundUp(size + 1), size + 1, size + 1, SingleBytes(data[1..]))
  {
    assert SingleBytes(data)[1..] == SingleBytes(data[1..]);
  }

  /** Appending byte by byte costs the difference of the appends law. */
  lemma AppendBytesCost(size: nat, data: Bytes)
    requires size + |data| < HEAP_SIZE
    ensures HeapRuns.AppendsCost(size) + Cost(size, size, SingleBytes(data)) == HeapRuns.AppendsCost(size + |data|)
  {
    StepsCost(size, |data|);
    SingleBytesCost(size, data);
  }

  /** So from an empty heap a new file takes exactly 360 single bytes. */
  lemma SingleByteWrites(data: Bytes)
    requires |data| < HEAP_SIZE
    ensures Room(0, 0, 0, SingleBytes(data)) <==> |data| <= 360
  {
    if data != [] {
      SingleBytesRoom(0, 0, data);
      StepsCost(0, |data| - 1);
      HeapRuns.Exactly360(|data|);
      HeapRuns.AllGrantedIff(0, |data|);
    }
  }
}
