/** What fs/vfs.c and fs/memfs.c promise about open files, as a value: file contents by inode number
    and the descriptor table. */
module Files {
  import opened Heap

  const MAX_FDS := 64
  const O_WRONLY := 0x0001
  const O_RDWR := 0x0002
  const SEEK_SET := 0
  const SEEK_CUR := 1
  const SEEK_END := 2

  type Bytes = seq<Byte>

  /** The `fs_node_t` a lookup returns. `length` is the file's size when it was looked up. */
  datatype Node = Node(file: nat, isDir: bool, length: nat)

  datatype Fd = Closed | Open(node: Node, pos: nat, flags: nat)

  datatype Sys = Sys(files: seq<Bytes>, fds: seq<Fd>)

  /** `gap` stands for the unspecified bytes a write leaves when it starts past the end. */
  datatype Op =
    | OpenNode(node: Node, flags: nat)
    | Close(fd: int)
    | Read(fd: int, size: nat)
    | Write(fd: int, data: Bytes, gap: Bytes)
    | Seek(fd: int, offset: int, whence: int)

  ghost predicate IsSys(s: Sys) {
    && |s.fds| == MAX_FDS
    && forall k | 0 <= k < MAX_FDS && s.fds[k].Open? :: IsNode(s, s.fds[k].node) && s.fds[k].pos < WORD
  }

  /** No node is longer than its file. */
  ghost predicate IsNode(s: Sys, node: Node) {
    node.file < |s.files| && node.length <= |s.files[node.file]|
  }

  predicate IsOpen(s: Sys, fd: int) { 0 <= fd < |s.fds| && s.fds[fd].Open? }

  predicate Writable(flags: nat) { flags % 2 == 1 || flags / 2 % 2 == 1 }

  /** `O_RDONLY` is 0, so only the `O_RDWR` bit can make a descriptor readable. */
  predicate Readable(flags: nat) { flags / 2 % 2 == 1 }

  // ----- one file

  function GapSize(content: Bytes, at: nat, n: nat): nat {
    if at + n > |content| && at > |content| then at - |content| else 0
  }

  /** The contents after writing `data` at `at`. */
  function Overlay(content: Bytes, at: nat, data: Bytes, gap: Bytes): Bytes
    requires |gap| == GapSize(content, at, |data|)
  {
    if at + |data| <= |content| then content[..at] + data + content[at + |data|..]
    else if at <= |content| then content[..at] + data
    else content + gap + data
  }

  /** How much `memfs_read` returns when `at + size` does not wrap. */
  function ReadCount(size: nat, at: nat, want: nat): nat {
    if at >= size then 0 else if at + want > size then size - at else want
  }

  // ----- operations

  function FreeFd(fds: seq<Fd>, from: nat): (k: nat)
    requires from <= |fds|
    ensures from <= k <= |fds| && (forall j | from <= j < k :: fds[j].Open?) && (k < |fds| ==> fds[k].Closed?)
    decreases |fds| - from
  {
    if from == |fds| || fds[from].Closed? then from else FreeFd(fds, from + 1)
  }

  /** A read or write that reaches the contents neither wraps a 32-bit sum nor has a malformed gap, and an
      open has a well-formed node. */
  ghost predicate Legal(s: Sys, op: Op) {
    match op
    case OpenNode(node, flags) => IsNode(s, node)
    case Close(fd) => true
    case Read(fd, size) =>
      IsOpen(s, fd) && Readable(s.fds[fd].flags)
        && s.fds[fd].node.file < |s.files| && s.fds[fd].pos < |s.files[s.fds[fd].node.file]| ==>
      s.fds[fd].pos + size < WORD
    case Write(fd, data, gap) =>
      Writes(s, op) && s.fds[fd].node.file < |s.files| ==>
        && s.fds[fd].pos + |data| < WORD
        && |gap| == GapSize(s.files[s.fds[fd].node.file], s.fds[fd].pos, |data|)
    case Seek(fd, offset, whence) => true
  }

  function SeekPos(fd: Fd, offset: int, whence: int): nat
    requires fd.Open?
  {
    if whence == SEEK_SET then offset % WORD
    else if whence == SEEK_CUR then (fd.pos + offset) % WORD
    else (fd.node.length + offset) % WORD
  }

  predicate IsWhence(whence: int) { SEEK_SET <= whence <= SEEK_END }

  /** The write reaches the file's contents. */
  predicate Writes(s: Sys, op: Op) {
    op.Write? && IsOpen(s, op.fd) && Writable(s.fds[op.fd].flags) && !s.fds[op.fd].node.isDir
  }

  function Step(s: Sys, op: Op): (s': Sys)
    requires IsSys(s) && Legal(s, op)
    ensures |s'.files| == |s.files| && |s'.fds| == |s.fds|
  {
    match op
    case OpenNode(node, flags) =>
      var k := FreeFd(s.fds, 0);
      if k == |s.fds| then s else s.(fds := s.fds[k := Open(node, 0, flags)])
    case Close(fd) => if IsOpen(s, fd) then s.(fds := s.fds[fd := Closed]) else s
    case Read(fd, size) =>
      if IsOpen(s, fd) && Readable(s.fds[fd].flags) then
        var f := s.fds[fd];
        s.(fds := s.fds[fd := f.(pos := f.pos + ReadCount(|s.files[f.node.file]|, f.pos, size))])
      else s
    case Write(fd, data, gap) =>
      if Writes(s, op) then
        var f := s.fds[fd];
        Sys(s.files[f.node.file := Overlay(s.files[f.node.file], f.pos, data, gap)],
            s.fds[fd := f.(pos := f.pos + |data|)])
      else s
    case Seek(fd, offset, whence) =>
      if IsOpen(s, fd) && IsWhence(whence) then
        s.(fds := s.fds[fd := s.fds[fd].(pos := SeekPos(s.fds[fd], offset, whence))])
      else s
  }

  /** What a write takes from the heap: a whole new block if it extends its file. */
  function WriteCost(s: Sys, op: Op): nat
    requires IsSys(s)
  {
    if Writes(s, op) && s.fds[op.fd].pos + |op.data| > |s.files[s.fds[op.fd].node.file]|
    then RoundUp(s.fds[op.fd].pos + |op.data|) else 0
  }

  /** The bytes a read returns. */
  function ReadData(s: Sys, fd: int, size: nat): Bytes
    requires IsSys(s) && IsOpen(s, fd)
  {
    var f := s.fds[fd];
    var content := s.files[f.node.file];
    if Readable(f.flags) && f.pos < |content| then
      content[f.pos..f.pos + ReadCount(|content|, f.pos, size)]
    else []
  }

  lemma OverlaySize(content: Bytes, at: nat, data: Bytes, gap: Bytes)
    requires |gap| == GapSize(content, at, |data|)
    ensures |Overlay(content, at, data, gap)| == if at + |data| > |content| then at + |data| else |content|
  {
  }

  lemma StepKeepsSys(s: Sys, op: Op)
    requires IsSys(s) && Legal(s, op)
    ensures IsSys(Step(s, op))
    ensures forall f | 0 <= f < |s.files| :: |Step(s, op).files[f]| >= |s.files[f]|
  {
    if Writes(s, op) {
      var f := s.fds[op.fd];
      OverlaySize(s.files[f.node.file], f.pos, op.data, op.gap);
    }
  }

  /** The descriptor an operation may change: the one it names, or for an open the lowest free one. */
  function Target(s: Sys, op: Op): int {
    match op
    case OpenNode(node, flags) => FreeFd(s.fds, 0)
    case Close(fd) => fd
    case Read(fd, size) => fd
    case Write(fd, data, gap) => fd
    case Seek(fd, offset, whence) => fd
  }

  /** Every other descriptor keeps its node, position and flags; an open never takes one that is in use. */
  lemma OtherDescriptorsStay(s: Sys, op: Op, fd: nat)
    requires IsSys(s) && Legal(s, op) && fd < MAX_FDS && fd != Target(s, op)
    ensures Step(s, op).fds[fd] == s.fds[fd]
    ensures op.OpenNode? && Target(s, op) < MAX_FDS ==> s.fds[Target(s, op)].Closed?
  {
  }

  /** Opening and closing again leaves the table and the files as they were. */
  lemma OpenThenClose(s: Sys, node: Node, flags: nat)
    requires IsSys(s) && IsNode(s, node) && FreeFd(s.fds, 0) < MAX_FDS
    ensures var s1 := Step(s, OpenNode(node, flags));
            IsSys(s1) && IsOpen(s1, FreeFd(s.fds, 0)) && Step(s1, Close(FreeFd(s.fds, 0))) == s
  {
    StepKeepsSys(s, OpenNode(node, flags));
    var k := FreeFd(s.fds, 0);
    assert s.fds[k := Open(node, 0, flags)][k := Closed] == s.fds;
  }

  // ----- what each call does, read off the descriptor and the file

  function Min(a: nat, b: nat): nat { if a < b then a else b }

  /** A read on a readable descriptor returns all that is asked for, as far as the file goes, and moves the
      position behind it; past the end it returns nothing. */
  lemma ReadReturns(s: Sys, fd: int, size: nat)
    requires IsSys(s) && IsOpen(s, fd) && Legal(s, Read(fd, size)) && s.fds[fd].flags % 4 >= 2
    ensures var f := s.fds[fd]; var content := s.files[f.node.file];
            var n := if f.pos < |content| then Min(size, |content| - f.pos) else 0;
            && |ReadData(s, fd, size)| == n
            && (forall k | 0 <= k < n :: ReadData(s, fd, size)[k] == content[f.pos + k])
            && Step(s, Read(fd, size)) == s.(fds := s.fds[fd := f.(pos := f.pos + n)])
  {
  }

  /** The two low bits of the flags decide: 0 (`O_RDONLY`) allows nothing, 1 only writing, 2 and 3 both. A
      call that is not allowed changes nothing; nor does one on a directory or a closed descriptor. */
  lemma AccessRule(s: Sys, fd: int, size: nat, data: Bytes, gap: Bytes)
    requires IsSys(s) && Legal(s, Read(fd, size)) && Legal(s, Write(fd, data, gap))
    ensures !IsOpen(s, fd) || s.fds[fd].flags % 4 < 2 ==> Step(s, Read(fd, size)) == s
    ensures !IsOpen(s, fd) || s.fds[fd].flags % 4 == 0 || s.fds[fd].node.isDir ==> Step(s, Write(fd, data, gap)) == s
    ensures IsOpen(s, fd) && s.fds[fd].flags % 4 != 0 && !s.fds[fd].node.isDir ==>
              Step(s, Write(fd, data, gap)).fds[fd].pos == s.fds[fd].pos + |data|
    ensures IsOpen(s, fd) && s.fds[fd].flags % 4 < 2 ==> ReadData(s, fd, size) == []
  {
    if IsOpen(s, fd) {
      LowBits(s.fds[fd].flags);
    }
  }

  /** An allowed write puts its bytes at the position and moves the position behind them; every other byte of
      the file stays, and the file is as long as it was or as the write reaches. */
  lemma WriteReplaces(s: Sys, fd: int, data: Bytes, gap: Bytes)
    requires IsSys(s) && IsOpen(s, fd) && Legal(s, Write(fd, data, gap))
    requires s.fds[fd].flags % 4 != 0 && !s.fds[fd].node.isDir
    ensures var f := s.fds[fd]; var was := s.files[f.node.file];
            var s' := Step(s, Write(fd, data, gap)); var now := s'.files[f.node.file];
            && |now| == (if f.pos + |data| > |was| then f.pos + |data| else |was|)
            && (forall k | 0 <= k < |data| :: now[f.pos + k] == data[k])
            && (forall k | 0 <= k < |was| && !(f.pos <= k < f.pos + |data|) :: now[k] == was[k])
            && s' == Sys(s.files[f.node.file := now], s.fds[fd := f.(pos := f.pos + |data|)])
  {
    LowBits(s.fds[fd].flags);
  }

  lemma LowBits(flags: nat)
    ensures flags % 4 == flags % 2 + 2 * (flags / 2 % 2)
  {
    var q, r := flags / 4, flags % 4;
    assert flags == 4 * q + r;
    assert flags / 2 == 2 * q + r / 2 && flags % 2 == r % 2;
    assert flags / 2 % 2 == r / 2;
  }

  /** After a seek the position is the origin plus the offset, modulo 2^32; an unknown origin changes
      nothing. */
  lemma SeekMoves(s: Sys, fd: int, offset: int, whence: int)
    requires IsSys(s) && IsOpen(s, fd)
    ensures var f := s.fds[fd]; var s' := Step(s, Seek(fd, offset, whence));
            if 0 <= whence <= 2 then
              var origin := if whence == 0 then 0 else if whence == 1 then f.pos else f.node.length;
              && s' == s.(fds := s.fds[fd := f.(pos := s'.fds[fd].pos)])
              && 0 <= s'.fds[fd].pos < WORD && (s'.fds[fd].pos - origin - offset) % WORD == 0
            else s' == s
  {
    var f := s.fds[fd];
    if 0 <= whence <= 2 {
      ModDifference(offset);
      ModDifference(f.pos + offset);
      ModDifference(f.node.length + offset);
      assert Step(s, Seek(fd, offset, whence)).fds[fd] == f.(pos := SeekPos(f, offset, whence));
    }
  }

  lemma ModDifference(n: int)
    ensures 0 <= n % WORD < WORD && (n % WORD - n) % WORD == 0
  {
    assert n == n / WORD * WORD + n % WORD;
    MultipleOfWord(-(n / WORD));
  }

  lemma MultipleOfWord(q: int)
    ensures q * WORD % WORD == 0
  {
  }

  /** Seeking back by what was read undoes the read: the same bytes can be read again. */
  lemma SeekBack(s: Sys, fd: int, size: nat)
    requires IsSys(s) && IsOpen(s, fd) && Legal(s, Read(fd, size)) && Readable(s.fds[fd].flags)
    ensures var s1 := Step(s, Read(fd, size)); var back := Seek(fd, -|ReadData(s, fd, size)|, SEEK_CUR);
            IsSys(s1) && Legal(s1, back) && Step(s1, back) == s
  {
    StepKeepsSys(s, Read(fd, size));
    var s1, f := Step(s, Read(fd, size)), s.fds[fd];
    assert s1.fds[fd].pos - |ReadData(s, fd, size)| == f.pos < WORD;
    assert s.fds[fd := s1.fds[fd]][fd := f] == s.fds;
  }

  ghost predicate LegalRun(s: Sys, ops: seq<Op>)
    requires IsSys(s)
    decreases ops
  {
    ops != [] ==>
      && Legal(s, ops[0])
      && (StepKeepsSys(s, ops[0]); LegalRun(Step(s, ops[0]), ops[1..]))
  }

  ghost function Run(s: Sys, ops: seq<Op>): (s': Sys)
    requires IsSys(s) && LegalRun(s, ops)
    ensures IsSys(s') && |s'.files| == |s.files|
    decreases ops
  {
    if ops == [] then s else
      StepKeepsSys(s, ops[0]);
      Run(Step(s, ops[0]), ops[1..])
  }

  // ----- last write wins

  /** The write covers this offset of this file. */
  predicate Covers(s: Sys, op: Op, file: nat, at: nat) {
    Writes(s, op) && s.fds[op.fd].node.file == file && s.fds[op.fd].pos <= at < s.fds[op.fd].pos + |op.data|
  }

  /** The byte most recently written there, through any descriptor. `known` is what was before. */
  ghost function Latest(s: Sys, ops: seq<Op>, file: nat, at: nat, known: Option<Byte>): Option<Byte>
    requires IsSys(s) && LegalRun(s, ops)
    decreases ops
  {
    if ops == [] then known
    else
      StepKeepsSys(s, ops[0]);
      Latest(Step(s, ops[0]), ops[1..], file, at,
        if Covers(s, ops[0], file, at) then Some(ops[0].data[at - s.fds[ops[0].fd].pos]) else known)
  }

  ghost predicate Knows(s: Sys, file: nat, at: nat, known: Option<Byte>) {
    known.Some? ==> file < |s.files| && at < |s.files[file]| && s.files[file][at] == known.value
  }

  lemma StepKnows(s: Sys, op: Op, file: nat, at: nat, known: Option<Byte>)
    requires IsSys(s) && Legal(s, op) && Knows(s, file, at, known)
    ensures Knows(Step(s, op), file, at,
              if Covers(s, op, file, at) then Some(op.data[at - s.fds[op.fd].pos]) else known)
  {
    if Writes(s, op) {
      var f := s.fds[op.fd];
      OverlaySize(s.files[f.node.file], f.pos, op.data, op.gap);
    }
  }

  /** Over every run, through any descriptors on any files: whatever was last written at an offset is
      what the file holds there. A byte known before the run and not written since stays. */
  lemma {:induction false} LastWriteWins(s: Sys, ops: seq<Op>, file: nat, at: nat, known: Option<Byte>)
    requires IsSys(s) && LegalRun(s, ops) && Knows(s, file, at, known)
    ensures Knows(Run(s, ops), file, at, Latest(s, ops, file, at, known))
    decreases ops
  {
    if ops != [] {
      StepKnows(s, ops[0], file, at, known);
      StepKeepsSys(s, ops[0]);
      LastWriteWins(Step(s, ops[0]), ops[1..], file, at,
        if Covers(s, ops[0], file, at) then Some(ops[0].data[at - s.fds[ops[0].fd].pos]) else known);
    }
  }

  /** So each byte a read returns at a written offset is the latest byte written there. */
  lemma ReadsLatest(s: Sys, ops: seq<Op>, fd: int, size: nat, k: nat)
    requires IsSys(s) && LegalRun(s, ops)
    requires var r := Run(s, ops); IsOpen(r, fd) && k < |ReadData(r, fd, size)|
    ensures var r := Run(s, ops); var f := r.fds[fd];
            var latest := Latest(s, ops, f.node.file, f.pos + k, None);
            latest.Some? ==> ReadData(r, fd, size)[k] == latest.value
  {
    var f := Run(s, ops).fds[fd];
    LastWriteWins(s, ops, f.node.file, f.pos + k, None);
  }

  /** No write to one file changes another. */
  ghost predicate TouchesFile(s: Sys, ops: seq<Op>, file: nat)
    requires IsSys(s) && LegalRun(s, ops)
    decreases ops
  {
    ops != [] &&
      ((Writes(s, ops[0]) && s.fds[ops[0].fd].node.file == file)
       || (StepKeepsSys(s, ops[0]); TouchesFile(Step(s, ops[0]), ops[1..], file)))
  }

  lemma {:induction false} OtherFilesStay(s: Sys, ops: seq<Op>, file: nat)
    requires IsSys(s) && LegalRun(s, ops) && file < |s.files| && !TouchesFile(s, ops, file)
    ensures Run(s, ops).files[file] == s.files[file]
    decreases ops
  {
    if ops != [] {
      StepKeepsSys(s, ops[0]);
      OtherFilesStay(Step(s, ops[0]), ops[1..], file);
    }
  }

  // ----- node lengths

  /** Some write of the run makes the file longer. */
  ghost predicate Extends(s: Sys, ops: seq<Op>, file: nat)
    requires IsSys(s) && LegalRun(s, ops)
    decreases ops
  {
    ops != [] &&
      ((Writes(s, ops[0]) && s.fds[ops[0].fd].node.file == file && file < |s.files|
        && s.fds[ops[0].fd].pos + |ops[0].data| > |s.files[file]|)
       || (StepKeepsSys(s, ops[0]); Extends(Step(s, ops[0]), ops[1..], file)))
  }

  /** The file has grown exactly when some write extended it. */
  lemma {:induction false} GrowsIffExtended(s: Sys, ops: seq<Op>, file: nat)
    requires IsSys(s) && LegalRun(s, ops) && file < |s.files|
    ensures |Run(s, ops).files[file]| >= |s.files[file]|
    ensures |Run(s, ops).files[file]| > |s.files[file]| <==> Extends(s, ops, file)
    decreases ops
  {
    if ops != [] {
      StepKeepsSys(s, ops[0]);
      if Writes(s, ops[0]) {
        var f := s.fds[ops[0].fd];
        OverlaySize(s.files[f.node.file], f.pos, ops[0].data, ops[0].gap);
      }
      GrowsIffExtended(Step(s, ops[0]), ops[1..], file);
    }
  }

  /** A node looked up before the run never overstates its file, and states its size exactly when no
      write has extended the file since, through whatever descriptor. */
  lemma LengthLaw(s: Sys, ops: seq<Op>, node: Node)
    requires IsSys(s) && LegalRun(s, ops) && node.file < |s.files| && node.length == |s.files[node.file]|
    ensures var size := |Run(s, ops).files[node.file]|;
            node.length <= size && (node.length == size <==> !Extends(s, ops, node.file))
  {
    GrowsIffExtended(s, ops, node.file);
  }

  /** So in every reachable state seeking to the end with offset 0 stays inside the file. */
  lemma SeekEndInside(s: Sys, ops: seq<Op>, fd: int)
    requires IsSys(s) && LegalRun(s, ops) && IsOpen(Run(s, ops), fd)
    requires Run(s, ops).fds[fd].node.length < WORD
    ensures var r := Run(s, ops); var f := r.fds[fd];
            SeekPos(f, 0, SEEK_END) == f.node.length <= |r.files[f.node.file]|
  {
    var r := Run(s, ops);
    assert IsNode(r, r.fds[fd].node);
  }
}
