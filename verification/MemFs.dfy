/** kernel/memory.c and fs/memfs.c as the kernel runs them: file data in blocks of one heap. */
module MemFs {
  import opened Heap
  import opened Files

  /** The heap array and its position. */
  class KernelHeap {
    const bytes: array<Byte>
    var pos: nat

    ghost predicate Valid()
      reads this
    {
      bytes.Length == HEAP_SIZE && Aligned(pos)
    }

    constructor ()
      ensures Valid() && pos == 0 && fresh(bytes)
    {
      bytes := new Byte[HEAP_SIZE];
      pos := 0;
    }

    method KMalloc(size: nat) returns (ptr: Option<nat>)
      requires Valid()
      modifies this
      ensures ptr == AllocResult(old(pos), size) && pos == AllocPos(old(pos), size)
      ensures size < WORD ==> Valid()
    {
      if size < WORD {
        AllocStaysAligned(pos, size);
      }
      if (pos + size) % WORD > HEAP_SIZE {
        return None;
      }
      ptr := Some(pos);
      pos := (pos + (size + 3) % WORD / 4 * 4) % WORD;
    }

    method KFree(ptr: nat)
      requires Valid()
      modifies this
      ensures pos == FreePos(old(pos), ptr)
      ensures Aligned(ptr) ==> pos == old(pos)
    {
      if ptr == pos - 1 {
        pos := ptr;
      }
    }

    /** `memcpy` into the heap. */
    method CopyIn(at: nat, data: Bytes)
      requires at + |data| <= bytes.Length
      modifies bytes
      ensures forall k | 0 <= k < |data| :: bytes[at + k] == data[k]
      ensures forall k | 0 <= k < bytes.Length && !(at <= k < at + |data|) :: bytes[k] == old(bytes[k])
    {
      for n := 0 to |data|
        invariant forall k | 0 <= k < n :: bytes[at + k] == data[k]
        invariant forall k | 0 <= k < bytes.Length && !(at <= k < at + n) :: bytes[k] == old(bytes[k])
      {
        bytes[at + n] := data[n];
      }
    }

    /** `memcpy` out of the heap. */
    method CopyOut(at: nat, n: nat) returns (data: Bytes)
      requires at + n <= bytes.Length
      ensures data == bytes[at..at + n]
    {
      data := [];
      for k := 0 to n
        invariant data == bytes[at..at + k]
      {
        data := data + [bytes[at + k]];
      }
    }
  }

  /** The mutable part of a `memfs_inode_t`. */
  datatype Record = Record(size: nat, data: Option<nat>)

  class Store {
    const heap: KernelHeap
    const inodes: array<Record>
    ghost var files: seq<Bytes>

    /** The record's block lies in the used heap and holds the contents. */
    ghost predicate Holds(r: Record, content: Bytes)
      reads heap, heap.bytes
    {
      && r.size == |content|
      && (r.data.None? ==> r.size == 0)
      && (r.data.Some? ==>
            && Aligned(r.data.value) && r.data.value + r.size <= heap.pos
            && heap.pos <= heap.bytes.Length
            && forall k | 0 <= k < r.size :: heap.bytes[r.data.value + k] == content[k])
    }

    static ghost predicate Apart(a: Record, b: Record) {
      a.data.Some? && b.data.Some? ==>
        a.data.value + a.size <= b.data.value || b.data.value + b.size <= a.data.value
    }

    ghost predicate Valid()
      reads this, heap, heap.bytes, inodes
    {
      && heap.Valid() && inodes.Length == |files|
      && (forall i | 0 <= i < |files| :: Holds(inodes[i], files[i]))
      && (forall i, j | 0 <= i < |files| && 0 <= j < |files| && i != j :: Apart(inodes[i], inodes[j]))
    }

    constructor (heap: KernelHeap, inodes: array<Record>, ghost files: seq<Bytes>)
      requires heap.Valid() && inodes.Length == |files|
      requires forall i | 0 <= i < |files| :: inodes[i] == Record(0, None) && files[i] == []
      ensures Valid() && this.heap == heap && this.inodes == inodes && this.files == files
    {
      this.heap, this.inodes, this.files := heap, inodes, files;
    }

    /** `memfs_read`: the bytes that land in the caller's buffer. */
    method Read(i: nat, offset: nat, size: nat) returns (data: Bytes)
      requires Valid() && i < |files| && (offset < |files[i]| ==> offset + size < WORD)
      ensures |data| == if offset >= |files[i]| then 0 else Min(size, |files[i]| - offset)
      ensures data == if offset < |files[i]| then files[i][offset..offset + |data|] else []
    {
      var inode := inodes[i];
      if offset >= inode.size {
        return [];
      }
      var n := size;
      if (offset + n) % WORD > inode.size {
        n := inode.size - offset;
      }
      data := heap.CopyOut(inode.data.value + offset, n);
      forall k | 0 <= k < n
        ensures data[k] == files[i][offset + k]
      {
        assert heap.bytes[inode.data.value + (offset + k)] == files[i][offset + k];
      }
    }

    /** The growth branch of `memfs_write`: a larger block, the old bytes copied, the old block freed.
        A null block would be written through unchecked, so there must be memory. */
    method Grow(i: nat, newSize: nat)
      requires Valid() && i < |files| && newSize > |files[i]|
      requires heap.pos + newSize <= HEAP_SIZE
      modifies this, heap, heap.bytes, inodes
      ensures Valid() && |files| == |old(files)| && |files[i]| == newSize
      ensures files[i][..|old(files)[i]|] == old(files)[i] && inodes[i].data.Some?
      ensures forall j | 0 <= j < |files| && j != i :: files[j] == old(files)[j]
      ensures heap.pos == old(heap.pos) + RoundUp(newSize)
      ensures Growing(heap.pos, inodes[i].data) == Growth(Growing(old(heap.pos), old(inodes[i].data)), newSize)
    {
      var inode := inodes[i];
      AllocKeepsAligned(heap.pos, newSize);
      var block := heap.KMalloc(newSize);
      var at := block.value;
      if inode.data.Some? {
        var content := heap.CopyOut(inode.data.value, inode.size);
        assert forall k | 0 <= k < inode.size :: content[k] == files[i][k];
        heap.CopyIn(at, content);
        heap.KFree(inode.data.value);
      }
      assert forall k | 0 <= k < inode.size :: heap.bytes[at + k] == files[i][k];
      Replace(i, at, newSize);
    }

    /** The record and the contents take the new block, which lies above every other one. */
    method Replace(i: nat, at: nat, newSize: nat)
      requires heap.Valid() && inodes.Length == |files| && i < |files| && Aligned(at)
      requires newSize >= |files[i]| && at + newSize <= heap.pos
      requires forall k | 0 <= k < |files[i]| :: heap.bytes[at + k] == files[i][k]
      requires forall j | 0 <= j < |files| && j != i :: Holds(inodes[j], files[j])
      requires forall j | 0 <= j < |files| && j != i && inodes[j].data.Some? :: inodes[j].data.value + inodes[j].size <= at
      requires forall j, k | 0 <= j < |files| && 0 <= k < |files| && j != k :: Apart(inodes[j], inodes[k])
      modifies this`files, inodes
      ensures Valid() && |files| == |old(files)| && |files[i]| == newSize
      ensures files[i][..|old(files)[i]|] == old(files)[i] && inodes[i].data == Some(at)
      ensures forall j | 0 <= j < |files| && j != i :: files[j] == old(files)[j]
    {
      inodes[i] := Record(newSize, Some(at));
      files := files[i := heap.bytes[at..at + newSize]];
    }

    /** `memfs_write` of a whole buffer; `gap` are the bytes it leaves unspecified. */
    method Write(i: nat, isDir: bool, offset: nat, buffer: Bytes) returns (n: nat, ghost gap: Bytes)
      requires Valid() && i < |files| && (!isDir ==> offset + |buffer| < WORD)
      requires !isDir && offset + |buffer| > |files[i]| ==> heap.pos + offset + |buffer| <= HEAP_SIZE
      modifies this, heap, heap.bytes, inodes
      ensures Valid() && |files| == |old(files)|
      ensures n == if isDir then 0 else |buffer|
      ensures |gap| == GapSize(old(files)[i], offset, |buffer|)
      ensures files == if isDir then old(files) else old(files)[i := Overlay(old(files)[i], offset, buffer, gap)]
      ensures heap.pos == old(heap.pos)
        + if !isDir && offset + |buffer| > |old(files)[i]| then RoundUp(offset + |buffer|) else 0
      ensures Growing(heap.pos, inodes[i].data)
        == var g := Growing(old(heap.pos), old(inodes[i].data));
           if !isDir && offset + |buffer| > |old(files)[i]| then Growth(g, offset + |buffer|) else g
    {
      if isDir {
        gap := seq(GapSize(files[i], offset, |buffer|), _ => 0);
        return 0, gap;
      }
      gap := GrowFor(i, offset, |buffer|);
      GrownOverlay(old(files)[i], files[i], offset, buffer, gap);
      Put(i, offset, buffer);
      n := |buffer|;
    }

    /** The test for more space; `gap` are the bytes of a new block between the old contents and the write. */
    method GrowFor(i: nat, offset: nat, size: nat) returns (ghost gap: Bytes)
      requires Valid() && i < |files| && offset + size < WORD
      requires offset + size > |files[i]| ==> heap.pos + offset + size <= HEAP_SIZE
      modifies this, heap, heap.bytes, inodes
      ensures Valid() && |files| == |old(files)| && |gap| == GapSize(old(files)[i], offset, size)
      ensures |files[i]| == if offset + size > |old(files)[i]| then offset + size else |old(files)[i]|
      ensures files[i][..|old(files)[i]|] == old(files)[i]
      ensures gap != [] ==> offset <= |files[i]| && gap == files[i][|old(files)[i]|..offset]
      ensures forall j | 0 <= j < |files| && j != i :: files[j] == old(files)[j]
      ensures heap.pos == old(heap.pos) + if offset + size > |old(files)[i]| then RoundUp(offset + size) else 0
      ensures Growing(heap.pos, inodes[i].data)
        == var g := Growing(old(heap.pos), old(inodes[i].data));
           if offset + size > |old(files)[i]| then Growth(g, offset + size) else g
    {
      gap := [];
      assert Holds(inodes[i], files[i]);
      if (offset + size) % WORD > inodes[i].size {
        Grow(i, offset + size);
        if offset > |old(files)[i]| {
          gap := files[i][|old(files)[i]|..offset];
        }
      }
    }

    /** Writing into contents that were grown first, if they had to be, is an overlay. */
    static lemma GrownOverlay(content: Bytes, grown: Bytes, offset: nat, buffer: Bytes, gap: Bytes)
      requires |content| <= |grown| && grown[..|content|] == content && |gap| == GapSize(content, offset, |buffer|)
      requires |grown| == if offset + |buffer| > |content| then offset + |buffer| else |content|
      requires gap != [] ==> offset <= |grown| && gap == grown[|content|..offset]
      ensures grown[..offset] + buffer + grown[offset + |buffer|..] == Overlay(content, offset, buffer, gap)
    {
      if offset + |buffer| <= |content| {
        assert grown == content;
      } else if offset <= |content| {
        assert grown[..offset] == content[..offset];
      } else {
        assert grown[..offset] == content + gap;
      }
    }

    /** The final `memcpy` of `memfs_write`; only an empty write can meet a file without a block. */
    method Put(i: nat, offset: nat, buffer: Bytes)
      requires Valid() && i < |files| && offset + |buffer| <= |files[i]|
      modifies this`files, heap.bytes
      ensures Valid()
      ensures files == old(files)[i := old(files)[i][..offset] + buffer + old(files)[i][offset + |buffer|..]]
    {
      var inode := inodes[i];
      ghost var content := Patched(files[i], offset, buffer);
      if inode.data.Some? {
        CopyInto(i, offset, buffer);
      }
      assert Holds(inode, content);
      files := files[i := content];
    }

    /** Into the block of one file; the blocks of the others are apart. */
    method CopyInto(i: nat, offset: nat, buffer: Bytes)
      requires Valid() && i < |files| && offset + |buffer| <= |files[i]| && inodes[i].data.Some?
      modifies heap.bytes
      ensures forall j | 0 <= j < |files| && j != i :: Holds(inodes[j], files[j])
      ensures inodes[i].size == |files[i]| && heap.pos <= heap.bytes.Length
      ensures Aligned(inodes[i].data.value) && inodes[i].data.value + |files[i]| <= heap.pos
      ensures forall k | 0 <= k < |files[i]| ::
        heap.bytes[inodes[i].data.value + k] == Patched(files[i], offset, buffer)[k]
    {
      ghost var at := inodes[i].data.value;
      assert Holds(inodes[i], files[i]);
      heap.CopyIn(inodes[i].data.value + offset, buffer);
      forall j | 0 <= j < |files| && j != i
        ensures Holds(inodes[j], files[j])
      {
        assert Apart(inodes[i], inodes[j]);
      }
      forall k | 0 <= k < |files[i]|
        ensures heap.bytes[at + k] == Patched(files[i], offset, buffer)[k]
      {
        if offset <= k < offset + |buffer| {
          assert heap.bytes[at + offset + (k - offset)] == buffer[k - offset];
        } else {
          assert heap.bytes[at + k] == files[i][k];
        }
      }
    }

    static function Patched(content: Bytes, offset: nat, buffer: Bytes): (r: Bytes)
      requires offset + |buffer| <= |content|
      ensures |r| == |content|
    {
      content[..offset] + buffer + content[offset + |buffer|..]
    }
  }
}
