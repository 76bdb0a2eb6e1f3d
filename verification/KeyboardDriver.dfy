/** kernel/interrupts.c as the kernel runs it: a fixed array, a shared length, the handler and the
    reader. The reader takes the interrupts that fire before each of its shared accesses as input. */
module KeyboardDriver {
  import opened Keyboard

  function Due(irqs: seq<seq<nat>>, t: nat): seq<nat> {
    if t < |irqs| then irqs[t] else []
  }

  /** The events of the reader's first `t` shared accesses: before each one, exactly the interrupts due
      there. */
  ghost function Schedule(irqs: seq<seq<nat>>, t: nat): seq<Event> {
    if t == 0 then [] else Schedule(irqs, t - 1) + Irqs(Due(irqs, t - 1)) + [Reader]
  }

  predicate NoKeys(table: seq<char>, codes: seq<nat>) {
    forall k | 0 <= k < |codes| :: Translate(table, codes[k]) == '\0'
  }

  /** No interrupt due before access `t` carries a key. */
  predicate KeyFree(table: seq<char>, irqs: seq<seq<nat>>, t: nat) {
    forall j | 0 <= j < |irqs| && j < t :: NoKeys(table, irqs[j])
  }

  /** Some scheduled interrupt carries a key. */
  predicate HasKey(table: seq<char>, irqs: seq<seq<nat>>) { !KeyFree(table, irqs, |irqs|) }

  lemma KeyFreeStep(table: seq<char>, irqs: seq<seq<nat>>, t: nat)
    ensures KeyFree(table, irqs, t + 1) <==> KeyFree(table, irqs, t) && NoKeys(table, Due(irqs, t))
    ensures !KeyFree(table, irqs, t) ==> HasKey(table, irqs)
    ensures t >= |irqs| && KeyFree(table, irqs, t) ==> !HasKey(table, irqs)
  {
  }

  lemma RunSnoc(table: seq<char>, s: State, events: seq<Event>, e: Event)
    requires Inv(s)
    ensures Run(table, s, events + [e]) == Step(table, Run(table, s, events), e)
  {
    RunAppend(table, s, events, [e]);
    var r := Run(table, s, events);
    assert Run(table, Step(table, r, e), [e][1..]) == Step(table, r, e);
  }

  /** One access more: the interrupts due before it, then the access. */
  lemma ScheduleStep(table: seq<char>, s: State, irqs: seq<seq<nat>>, t: nat)
    requires Inv(s)
    ensures Run(table, s, Schedule(irqs, t + 1))
         == ReaderStep(Run(table, Run(table, s, Schedule(irqs, t)), Irqs(Due(irqs, t))))
  {
    RunAppend(table, s, Schedule(irqs, t), Irqs(Due(irqs, t)));
    RunSnoc(table, s, Schedule(irqs, t) + Irqs(Due(irqs, t)), Reader);
  }

  /** With no interrupts the delivery log never changes. */
  lemma {:induction false} QuietRun(table: seq<char>, s: State, irqs: seq<seq<nat>>, t: nat)
    requires Inv(s) && forall j | 0 <= j < |irqs| :: irqs[j] == []
    ensures Log(Run(table, s, Schedule(irqs, t))) == Log(s)
    decreases t
  {
    if t > 0 {
      QuietRun(table, s, irqs, t - 1);
      ScheduleStep(table, s, irqs, t - 1);
      ReaderKeepsLog(Run(table, s, Schedule(irqs, t - 1)));
    }
  }

  /** So an undisturbed call gives out the head and leaves the rest of the queue. */
  lemma QuietQueue(table: seq<char>, s: State, irqs: seq<seq<nat>>, t: nat, c: char)
    requires Inv(s) && s.pc.Poll? && forall j | 0 <= j < |irqs| :: irqs[j] == []
    requires var r := Run(table, s, Schedule(irqs, t)); r.pc.Poll? && r.returned == s.returned + [c]
    ensures var r := Run(table, s, Schedule(irqs, t)); [c] + r.buf[..r.pos] == s.buf[..s.pos]
  {
    QuietRun(table, s, irqs, t);
    var r := Run(table, s, Schedule(irqs, t));
    SamePrefix(s.returned, c, r.buf[..r.pos], s.buf[..s.pos]);
  }

  lemma SamePrefix(p: seq<char>, c: char, a: seq<char>, b: seq<char>)
    ensures p + [c] + [] + a == p + [] + b ==> [c] + a == b
  {
    assert (p + [c] + [] + a)[|p|..] == [c] + a && (p + [] + b)[|p|..] == b;
  }

  /** Where a load of the length takes the reader. */
  function AfterLoadPos(pc: Pc, pos: int): Pc
    requires pc.Poll? || pc.Guard? || pc.DecLoad?
  {
    match pc
    case Poll => if pos == 0 then Poll else LoadHead
    case Guard(c, i) => if i < pos - 1 then LoadNext(c, i) else DecLoad(c)
    case DecLoad(c) => DecStore(c, pos)
  }

  class Driver {
    const table: seq<char>
    const keyBuffer: array<char>
    var keyBufferPos: int
    ghost var accepted: seq<char>
    ghost var returned: seq<char>

    ghost function Snapshot(pc: Pc): (s: State)
      reads this, keyBuffer
    {
      State(keyBuffer[..], keyBufferPos, pc, accepted, returned)
    }

    constructor (table: seq<char>)
      ensures this.table == table && Init(Snapshot(Poll))
    {
      this.table := table;
      keyBuffer := new char[BUFFER_SIZE];
      keyBufferPos, accepted, returned := 0, [], [];
    }

    method HandlerInternal(scancode: nat, ghost pc: Pc)
      requires Inv(Snapshot(pc))
      modifies this, keyBuffer
      ensures Inv(Snapshot(pc))
      ensures Snapshot(pc) == HandlerStep(table, old(Snapshot(pc)), scancode)
      ensures
        if scancode >= 0x80 || scancode >= |table| || table[scancode] == '\0' || old(keyBufferPos) >= 255 then
          keyBuffer[..] == old(keyBuffer[..]) && keyBufferPos == old(keyBufferPos) && accepted == old(accepted)
        else
          && keyBuffer[..] == old(keyBuffer[..])[old(keyBufferPos) := table[scancode]]
          && keyBufferPos == old(keyBufferPos) + 1 && accepted == old(accepted) + [table[scancode]]
    {
      if scancode >= 0x80 {
        return;
      }
      if scancode < |table| {
        var ascii := table[scancode];
        if ascii != '\0' && keyBufferPos < BUFFER_SIZE - 1 {
          keyBuffer[keyBufferPos] := ascii;
          keyBufferPos := keyBufferPos + 1;
          accepted := accepted + [ascii];
        }
      }
    }

    /** The reader stands at `pc`, having come from `start` by `t` shared accesses and by exactly the
        interrupts due before them. */
    ghost predicate At(pc: Pc, start: State, irqs: seq<seq<nat>>, t: nat)
      reads this, keyBuffer
    {
      Inv(start) && Snapshot(pc) == Run(table, start, Schedule(irqs, t))
    }

    /** Fires the handler for each scancode, the reader standing at `pc`. */
    method Preempt(codes: seq<nat>, ghost pc: Pc)
      requires Inv(Snapshot(pc))
      modifies this, keyBuffer
      ensures Inv(Snapshot(pc)) && Snapshot(pc) == Run(table, old(Snapshot(pc)), Irqs(codes))
      ensures returned == old(returned)
      ensures keyBufferPos == 0 <==> old(keyBufferPos) == 0 && NoKeys(table, codes)
      ensures keyBufferPos == 0 ==> accepted == old(accepted)
    {
      for k := 0 to |codes|
        invariant Inv(Snapshot(pc)) && Snapshot(pc) == Run(table, old(Snapshot(pc)), Irqs(codes[..k]))
        invariant returned == old(returned)
        invariant keyBufferPos == 0 <==> old(keyBufferPos) == 0 && NoKeys(table, codes[..k])
        invariant keyBufferPos == 0 ==> accepted == old(accepted)
      {
        HandlerInternal(codes[k], pc);
        RunSnoc(table, old(Snapshot(pc)), Irqs(codes[..k]), Irq(codes[k]));
        assert Irqs(codes[..k + 1]) == Irqs(codes[..k]) + [Irq(codes[k])];
        NoKeysSnoc(table, codes, k);
      }
      assert codes[..|codes|] == codes;
    }

    /** One shared load of the length. */
    method LoadPos(irqs: seq<seq<nat>>, t: nat, ghost pc: Pc, ghost start: State) returns (pos: int)
      requires At(pc, start, irqs, t) && (pc.Poll? || pc.Guard? || pc.DecLoad?)
      modifies this, keyBuffer
      ensures At(AfterLoadPos(pc, pos), start, irqs, t + 1)
      ensures pos == keyBufferPos && returned == old(returned)
      ensures pos == 0 <==> old(keyBufferPos) == 0 && NoKeys(table, Due(irqs, t))
      ensures pos == 0 ==> accepted == old(accepted)
    {
      Preempt(Due(irqs, t), pc);
      pos := keyBufferPos;
      ScheduleStep(table, start, irqs, t);
    }

    /** One shared load of a cell. */
    method LoadCell(irqs: seq<seq<nat>>, t: nat, k: nat, ghost pc: Pc, ghost start: State) returns (value: char)
      requires At(pc, start, irqs, t)
      requires (pc.LoadHead? && k == 0) || (pc.LoadNext? && k == pc.i + 1)
      modifies this, keyBuffer
      ensures returned == old(returned)
      ensures At(if pc.LoadHead? then Guard(value, 0) else StoreCell(pc.c, pc.i, value), start, irqs, t + 1)
    {
      Preempt(Due(irqs, t), pc);
      value := keyBuffer[k];
      ScheduleStep(table, start, irqs, t);
    }

    /** The shared store into a cell. */
    method SetCell(irqs: seq<seq<nat>>, t: nat, k: nat, value: char, ghost c: char, ghost start: State)
      requires At(StoreCell(c, k, value), start, irqs, t)
      modifies this, keyBuffer
      ensures returned == old(returned)
      ensures At(Guard(c, k + 1), start, irqs, t + 1)
    {
      Preempt(Due(irqs, t), StoreCell(c, k, value));
      keyBuffer[k] := value;
      ScheduleStep(table, start, irqs, t);
    }

    /** The shared store of the decremented length. */
    method SetPos(irqs: seq<seq<nat>>, t: nat, reg: int, c: char, ghost start: State)
      requires At(DecStore(c, reg), start, irqs, t)
      modifies this, keyBuffer
      ensures returned == old(returned) + [c]
      ensures At(Poll, start, irqs, t + 1)
    {
      Preempt(Due(irqs, t), DecStore(c, reg));
      keyBufferPos := reg - 1;
      returned := returned + [c];
      ScheduleStep(table, start, irqs, t);
    }

    /** The body of the shift loop. */
    method CopyCell(irqs: seq<seq<nat>>, t: nat, c: char, i: nat, ghost start: State)
      requires At(LoadNext(c, i), start, irqs, t)
      modifies this, keyBuffer
      ensures returned == old(returned)
      ensures At(Guard(c, i + 1), start, irqs, t + 2)
    {
      var next := LoadCell(irqs, t, i + 1, LoadNext(c, i), start);
      SetCell(irqs, t + 1, i, next, c, start);
    }

    /** One turn of the shift loop: the guard, and the body if it holds. */
    method ShiftTurn(irqs: seq<seq<nat>>, t: nat, c: char, i: nat, ghost start: State)
        returns (more: bool, t': nat)
      requires At(Guard(c, i), start, irqs, t)
      modifies this, keyBuffer
      ensures At(if more then Guard(c, i + 1) else DecLoad(c), start, irqs, t')
      ensures t' > t && returned == old(returned) && (more ==> i + 1 < BUFFER_SIZE)
    {
      var pos := LoadPos(irqs, t, Guard(c, i), start);
      if !(i < pos - 1) {
        return false, t + 1;
      }
      CopyCell(irqs, t + 1, c, i, start);
      return true, t + 3;
    }

    /** The shift loop, up to and with the failing guard. */
    method ShiftDown(irqs: seq<seq<nat>>, t0: nat, c: char, ghost start: State) returns (t: nat)
      requires At(Guard(c, 0), start, irqs, t0)
      modifies this, keyBuffer
      ensures At(DecLoad(c), start, irqs, t) && t > t0 && returned == old(returned)
    {
      var i: nat := 0;
      t := t0;
      while true
        invariant At(Guard(c, i), start, irqs, t)
        invariant i < BUFFER_SIZE && t >= t0 && returned == old(returned)
        decreases BUFFER_SIZE - i
      {
        var more;
        more, t := ShiftTurn(irqs, t, c, i, start);
        if !more {
          return;
        }
        i := i + 1;
      }
    }

    /** The waiting loop. `irqs[t]` are the scancodes that fire just before shared access `t`; if all of
        them have fired and the queue is still empty the reader waits for ever. */
    method WaitForKey(irqs: seq<seq<nat>>) returns (found: bool, t: nat)
      requires Inv(Snapshot(Poll))
      modifies this, keyBuffer
      ensures At(if found then LoadHead else Poll, old(Snapshot(Poll)), irqs, t)
      ensures found <==> old(keyBufferPos) > 0 || HasKey(table, irqs)
      ensures !found ==> t == |irqs| + 1 && keyBufferPos == 0 && accepted == old(accepted)
      ensures returned == old(returned)
    {
      ghost var start := Snapshot(Poll);
      t := 0;
      while true
        invariant At(Poll, start, irqs, t) && t <= |irqs| + 1
        invariant returned == old(returned) && accepted == old(accepted)
        invariant keyBufferPos == old(keyBufferPos) && (t > 0 ==> keyBufferPos == 0)
        invariant KeyFree(table, irqs, t)
        decreases |irqs| + 1 - t
      {
        KeyFreeStep(table, irqs, t);
        if t > |irqs| {
          return false, t;
        }
        var pos := LoadPos(irqs, t, Poll, start);
        t := t + 1;
        KeyFreeStep(table, irqs, t);
        if pos != 0 {
          return true, t;
        }
      }
    }

    method HeadAndShift(irqs: seq<seq<nat>>, t0: nat, ghost start: State) returns (c: char, t: nat)
      requires At(LoadHead, start, irqs, t0)
      modifies this, keyBuffer
      ensures At(DecLoad(c), start, irqs, t) && returned == old(returned)
    {
      c := LoadCell(irqs, t0, 0, LoadHead, start);
      t := ShiftDown(irqs, t0 + 1, c, start);
    }

    /** The decrement: a load and a store of the length. */
    method Decrement(irqs: seq<seq<nat>>, t: nat, c: char, ghost start: State)
      requires At(DecLoad(c), start, irqs, t)
      modifies this, keyBuffer
      ensures At(Poll, start, irqs, t + 2) && returned == old(returned) + [c]
    {
      var reg := LoadPos(irqs, t, DecLoad(c), start);
      SetPos(irqs, t + 1, reg, c, start);
    }

    /** What follows the waiting loop: the head is read, the rest shifted down, the length decremented. */
    method TakeHead(irqs: seq<seq<nat>>, t0: nat, ghost start: State) returns (c: char, t: nat)
      requires At(LoadHead, start, irqs, t0)
      modifies this, keyBuffer
      ensures At(Poll, start, irqs, t) && returned == old(returned) + [c]
    {
      c, t := HeadAndShift(irqs, t0, start);
      Decrement(irqs, t, c, start);
      t := t + 2;
    }

    /** `keyboard_getchar`: what it performs is the run of the transition system with exactly the scheduled
        interrupts in it, `t` shared accesses long. It fails to return only if the queue is empty and no
        scheduled interrupt carries a key, and then all of them have fired. With no interrupts the head is
        returned and the rest stays queued. */
    method Getchar(irqs: seq<seq<nat>>) returns (done: bool, c: char, t: nat)
      requires Inv(Snapshot(Poll))
      modifies this, keyBuffer
      ensures Inv(Snapshot(Poll)) && Snapshot(Poll) == Run(table, old(Snapshot(Poll)), Schedule(irqs, t))
      ensures done <==> old(keyBufferPos) > 0 || HasKey(table, irqs)
      ensures !done ==> t == |irqs| + 1 && keyBufferPos == 0 && accepted == old(accepted)
      ensures returned == if done then old(returned) + [c] else old(returned)
      ensures done && (forall j | 0 <= j < |irqs| :: irqs[j] == []) ==>
        [c] + keyBuffer[..keyBufferPos] == old(keyBuffer[..keyBufferPos])
    {
      ghost var start := Snapshot(Poll);
      done, t := WaitForKey(irqs);
      if !done {
        return false, '\0', t;
      }
      c, t := TakeHead(irqs, t, start);
      if forall j | 0 <= j < |irqs| :: irqs[j] == [] {
        QuietQueue(table, start, irqs, t, c);
      }
    }
  }

  lemma NoKeysSnoc(table: seq<char>, codes: seq<nat>, k: nat)
    requires k < |codes|
    ensures NoKeys(table, codes[..k + 1]) <==> NoKeys(table, codes[..k]) && Translate(table, codes[k]) == '\0'
  {
    assert codes[..k + 1] == codes[..k] + [codes[k]];
    assert codes[..k + 1][k] == codes[k];
    assert forall j | 0 <= j < k :: codes[..k + 1][j] == codes[..k][j];
  }
}
