/** The bump allocator of kernel/memory.c. Sizes and the heap position are 32-bit and wrap. */
module Heap {

  const HEAP_SIZE := 0x1_0000
  const WORD := 0x1_0000_0000

  type Byte = b: int | 0 <= b < 256

  datatype Option<+T> = None | Some(value: T)

  /** `(size + 3) & ~3` on 32 bits. */
  function RoundUp(size: nat): nat { (size + 3) % WORD / 4 * 4 }

  function AllocResult(pos: nat, size: nat): Option<nat> {
    if (pos + size) % WORD > HEAP_SIZE then None else Some(pos)
  }

  function AllocPos(pos: nat, size: nat): nat {
    if AllocResult(pos, size).None? then pos else (pos + RoundUp(size)) % WORD
  }

  /** `kfree` gives back only a pointer to the very last byte handed out. */
  function FreePos(pos: nat, ptr: nat): nat { if ptr == pos - 1 then ptr else pos }

  /** The heap position and one file's block. */
  datatype Growing = Growing(pos: nat, data: Option<nat>)

  /** What growing a file to `size` bytes does to them: allocate, then free the old block. */
  function Growth(g: Growing, size: nat): Growing {
    var p := AllocPos(g.pos, size);
    Growing(if g.data.Some? then FreePos(p, g.data.value) else p, AllocResult(g.pos, size))
  }

  ghost predicate Aligned(pos: nat) { pos % 4 == 0 && pos <= HEAP_SIZE }

  /** The position stays aligned and inside the heap for every 32-bit size, even where the sum wraps. */
  lemma AllocStaysAligned(pos: nat, size: nat)
    requires Aligned(pos) && size < WORD
    ensures Aligned(AllocPos(pos, size))
  {
    RoundedSize(size);
    var next := pos + RoundUp(size);
    Reduced(next);
    if size <= WORD - 4 && pos + size <= HEAP_SIZE {
      FourBelow(next);
    }
  }

  lemma Reduced(n: nat)
    requires n < 2 * WORD
    ensures n % WORD == if n < WORD then n else n - WORD
    ensures n % 4 == 0 ==> n % WORD % 4 == 0
  {
  }

  /** A size rounds up to the next multiple of four, or to 0 when that does not fit the word. */
  lemma RoundedSize(size: nat)
    requires size < WORD
    ensures RoundUp(size) % 4 == 0
    ensures size <= WORD - 4 ==> size <= RoundUp(size) < size + 4 && RoundUp(size) < WORD
    ensures size > WORD - 4 ==> RoundUp(size) == 0
  {
  }

  lemma FourBelow(n: nat)
    requires n % 4 == 0 && n < HEAP_SIZE + 4
    ensures n <= HEAP_SIZE
  {
  }

  /** Rounding never passes the end of the heap: a block that is granted lies below the new position. */
  lemma AllocKeepsAligned(pos: nat, size: nat)
    requires Aligned(pos) && pos + size < WORD
    ensures Aligned(AllocPos(pos, size))
    ensures AllocResult(pos, size).Some? <==> pos + size <= HEAP_SIZE
    ensures AllocResult(pos, size).Some? ==> pos + size <= AllocPos(pos, size) == pos + RoundUp(size)
  {
  }

  /** Without the no-wrap condition blocks need not fit: among all 32-bit sizes, a non-null block lies
      inside the heap exactly when the sum did not wrap. */
  lemma InsideIffNoWrap(pos: nat, size: nat)
    requires Aligned(pos) && size < WORD && AllocResult(pos, size).Some?
    ensures pos + size <= HEAP_SIZE <==> pos + size < WORD
  {
  }

  /** An allocation is granted exactly if the block fits or the 32-bit sum wraps. */
  lemma GrantedExactly(pos: nat, size: nat)
    requires Aligned(pos) && size < WORD
    ensures AllocResult(pos, size) == if pos + size <= HEAP_SIZE || pos + size >= WORD then Some(pos) else None
  {
  }

  /** One such size: after any allocation, 2^32 - 1 bytes are granted and nothing is consumed. */
  lemma WrapGrantsTooMuch()
    ensures AllocResult(4, WORD - 1) == Some(4) && AllocPos(4, WORD - 1) == 4
  {
  }

  /** What `kfree` can give back is one byte, the last one below the position. */
  lemma FreeMovesIff(pos: nat, ptr: nat)
    ensures FreePos(pos, ptr) != pos <==> ptr + 1 == pos
    ensures ptr + 1 == pos ==> FreePos(pos, ptr) == pos - 1
  {
  }

  /** Freeing a returned block changes nothing, not even for the newest block: offsets are 0 mod 4
      and the position less one is 3 mod 4. */
  lemma FreeIsNoOp(pos: nat, ptr: nat)
    requires Aligned(pos) && Aligned(ptr)
    ensures FreePos(pos, ptr) == pos
  {
  }
}
