/** Whole histories of allocations and frees, and what growing a file costs the heap. */
module HeapRuns {
  import opened Heap

  datatype Block = Block(at: nat, size: nat)

  datatype State = State(pos: nat, blocks: seq<Block>)

  /** `Free(k)` frees the k-th non-null pointer returned so far. */
  datatype Op = Malloc(size: nat) | Free(k: nat)

  function Step(s: State, op: Op): State {
    match op
    case Malloc(size) =>
      var r := AllocResult(s.pos, size);
      State(AllocPos(s.pos, size), if r.Some? then s.blocks + [Block(r.value, size)] else s.blocks)
    case Free(k) => if k < |s.blocks| then s.(pos := FreePos(s.pos, s.blocks[k].at)) else s
  }

  function Run(s: State, ops: seq<Op>): State
    decreases ops
  {
    if ops == [] then s else Run(Step(s, ops[0]), ops[1..])
  }

  ghost predicate NoWrap(s: State, ops: seq<Op>)
    decreases ops
  {
    ops != [] ==>
      && (ops[0].Malloc? ==> s.pos + ops[0].size < WORD)
      && NoWrap(Step(s, ops[0]), ops[1..])
  }

  /** All pointers handed out are aligned, whatever their sizes. */
  ghost predicate AllAligned(s: State) {
    Aligned(s.pos) && forall i | 0 <= i < |s.blocks| :: Aligned(s.blocks[i].at)
  }

  ghost predicate Words(ops: seq<Op>) { forall op | op in ops :: op.Malloc? ==> op.size < WORD }

  function WithoutFrees(ops: seq<Op>): (r: seq<Op>)
    ensures forall op | op in r :: op.Malloc? && op in ops
    decreases ops
  {
    if ops == [] then [] else (if ops[0].Malloc? then [ops[0]] else []) + WithoutFrees(ops[1..])
  }

  /** Over every run of 32-bit requests, also those whose sums wrap, the frees change nothing at all: the
      run ends in the state that its allocations alone lead to, and the position stays aligned. */
  lemma {:induction false} FreesNeverMatter(s: State, ops: seq<Op>)
    requires AllAligned(s) && Words(ops)
    ensures Run(s, ops) == Run(s, WithoutFrees(ops)) && AllAligned(Run(s, ops))
    decreases ops
  {
    if ops != [] {
      var rest := WithoutFrees(ops[1..]);
      assert ops[0] in ops && forall op | op in ops[1..] :: op in ops;
      match ops[0] {
        case Malloc(size) =>
          AllocStaysAligned(s.pos, size);
          assert WithoutFrees(ops)[1..] == rest;
        case Free(k) =>
          if k < |s.blocks| {
            FreeIsNoOp(s.pos, s.blocks[k].at);
          }
          assert WithoutFrees(ops) == rest;
      }
      FreesNeverMatter(Step(s, ops[0]), ops[1..]);
    }
  }

  /** Every block is aligned and inside the used part of the heap, and no two overlap. */
  ghost predicate Safe(s: State) {
    && Aligned(s.pos)
    && (forall i | 0 <= i < |s.blocks| :: s.blocks[i].at % 4 == 0 && s.blocks[i].at + s.blocks[i].size <= s.pos)
    && (forall i, j | 0 <= i < j < |s.blocks| :: s.blocks[i].at + s.blocks[i].size <= s.blocks[j].at)
  }

  lemma StepSafe(s: State, op: Op)
    requires Safe(s) && (op.Malloc? ==> s.pos + op.size < WORD)
    ensures Safe(Step(s, op))
    ensures op.Free? ==> Step(s, op) == s
  {
    match op
    case Malloc(size) => AllocKeepsAligned(s.pos, size);
    case Free(k) =>
      if k < |s.blocks| {
        FreeIsNoOp(s.pos, s.blocks[k].at);
      }
  }

  lemma {:induction false} RunSafe(s: State, ops: seq<Op>)
    requires Safe(s) && NoWrap(s, ops)
    ensures Safe(Run(s, ops)) && Run(s, ops).pos >= s.pos
    decreases ops
  {
    if ops != [] {
      StepSafe(s, ops[0]);
      RunSafe(Step(s, ops[0]), ops[1..]);
      if ops[0].Malloc? {
        AllocKeepsAligned(s.pos, ops[0].size);
      }
    }
  }

  // ----- the cost of growing a file one byte at a time

  /** After `n` one-byte appends to an empty file. */
  function Appends(pos: nat, n: nat): Growing {
    if n == 0 then Growing(pos, None) else Growth(Appends(pos, n - 1), n)
  }

  /** Each of the n appends got memory. */
  ghost predicate AllGranted(pos: nat, n: nat) {
    forall k | 1 <= k <= n :: Appends(pos, k).data.Some?
  }

  /** n appends consume four bytes for each started group of four, summed: q(q+1)/2 full groups. */
  function AppendsCost(n: nat): nat {
    var q, rest := n / 4, n % 4;
    8 * q * (q + 1) + rest * 4 * (q + 1)
  }

  lemma CostStep(n: nat)
    requires n > 0 && n < HEAP_SIZE
    ensures AppendsCost(n) == AppendsCost(n - 1) + RoundUp(n)
  {
    var q, rest := n / 4, n % 4;
    if rest == 0 {
      assert (n - 1) / 4 == q - 1 && (n - 1) % 4 == 3 && RoundUp(n) == 4 * q;
      WholeGroup(q);
    } else {
      assert (n - 1) / 4 == q && (n - 1) % 4 == rest - 1 && RoundUp(n) == 4 * (q + 1);
      PartGroup(q, rest);
    }
  }

  lemma PartGroup(q: nat, rest: nat)
    requires 0 < rest
    ensures rest * 4 * (q + 1) == (rest - 1) * 4 * (q + 1) + 4 * (q + 1)
  {
  }

  lemma WholeGroup(q: nat)
    requires q > 0
    ensures 8 * (q - 1) * q + 12 * q + 4 * q == 8 * q * (q + 1)
  {
  }

  lemma {:induction false} AppendsConsume(pos: nat, n: nat)
    requires Aligned(pos) && n < HEAP_SIZE && AllGranted(pos, n)
    ensures Appends(pos, n).pos == pos + AppendsCost(n) && Aligned(Appends(pos, n).pos)
    ensures Appends(pos, n).data.Some? ==> Aligned(Appends(pos, n).data.value)
  {
    if n > 0 {
      assert AllGranted(pos, n - 1);
      AppendsConsume(pos, n - 1);
      assert Appends(pos, n).data.Some?;
      GrowOnce(Appends(pos, n - 1), n);
      CostStep(n);
    }
  }

  lemma GrowOnce(g: Growing, size: nat)
    requires Aligned(g.pos) && size <= HEAP_SIZE && (g.data.Some? ==> Aligned(g.data.value))
    ensures var g' := Growth(g, size);
            && Aligned(g'.pos) && (g'.data.Some? ==> Aligned(g'.data.value))
            && (g'.data.Some? <==> g.pos + size <= HEAP_SIZE)
            && (g'.data.Some? ==> g'.pos == g.pos + RoundUp(size))
  {
    AllocKeepsAligned(g.pos, size);
    if g.data.Some? {
      FreeIsNoOp(AllocPos(g.pos, size), g.data.value);
    }
  }

  /** 4m appends that get memory consume exactly 8m(m + 1) bytes. */
  lemma FourmAppends(pos: nat, m: nat)
    requires Aligned(pos) && 4 * m < HEAP_SIZE && AllGranted(pos, 4 * m)
    ensures Appends(pos, 4 * m).pos - pos == 8 * m * (m + 1)
  {
    AppendsConsume(pos, 4 * m);
    WholeGroups(m);
  }

  lemma WholeGroups(m: nat)
    ensures AppendsCost(4 * m) == 8 * m * (m + 1)
  {
    assert 4 * m / 4 == m && 4 * m % 4 == 0;
  }

  /** After n - 1 granted appends the n-th is granted exactly when the heap holds what the others
      consumed and n bytes more. */
  lemma GrantedIff(pos: nat, n: nat)
    requires Aligned(pos) && 0 < n <= HEAP_SIZE && AllGranted(pos, n - 1)
    ensures AllGranted(pos, n) <==> pos + AppendsCost(n - 1) + n <= HEAP_SIZE
  {
    AppendsConsume(pos, n - 1);
    GrowOnce(Appends(pos, n - 1), n);
    assert AllGranted(pos, n) ==> Appends(pos, n).data.Some?;
  }

  /** So n appends are all granted exactly when the heap holds what they need, from any position. */
  lemma {:induction false} AllGrantedIff(pos: nat, n: nat)
    requires Aligned(pos) && 0 < n <= HEAP_SIZE
    ensures AllGranted(pos, n) <==> pos + AppendsCost(n - 1) + n <= HEAP_SIZE
    decreases n
  {
    if n > 1 {
      AllGrantedIff(pos, n - 1);
      CostStep(n - 1);
      if AllGranted(pos, n - 1) {
        GrantedIff(pos, n);
      } else {
        NotGranted(pos, n);
      }
    } else {
      assert AllGranted(pos, 0);
      GrantedIff(pos, n);
    }
  }

  lemma NotGranted(pos: nat, n: nat)
    requires n > 0 && !AllGranted(pos, n - 1)
    ensures !AllGranted(pos, n)
  {
    var k :| 1 <= k <= n - 1 && !Appends(pos, k).data.Some?;
    assert k <= n && Appends(pos, k).data.None?;
  }

  lemma CostMonotone(m: nat, n: nat)
    requires m <= n < HEAP_SIZE
    ensures AppendsCost(m) <= AppendsCost(n)
    decreases n - m
  {
    if m < n {
      CostMonotone(m, n - 1);
      CostStep(n);
    }
  }

  /** From an empty heap exactly 360 one-byte appends get memory. */
  lemma Exactly360(n: nat)
    requires 0 < n <= HEAP_SIZE
    ensures AllGranted(0, n) <==> n <= 360
  {
    AllGrantedIff(0, n);
    if n <= 360 {
      CostMonotone(n - 1, 359);
    } else {
      CostMonotone(360, n - 1);
    }
  }
}
