/** The keyboard queue of kernel/interrupts.c: a reader that shifts a shared buffer one cell at a
    time, preemptible between any two of its shared accesses by a handler that appends to it. */
module Keyboard {

  const BUFFER_SIZE := 256

  /** Where the reader stands inside `keyboard_getchar`: one constructor per shared load or store,
      carrying the values held in the reader's locals and registers at that point. */
  datatype Pc =
    | Poll                                    // load of the length in the waiting loop
    | LoadHead                                // load of cell 0
    | Guard(c: char, i: int)                  // load of the length in the shift loop's guard
    | LoadNext(c: char, i: int)               // load of cell i + 1
    | StoreCell(c: char, i: int, t: char)     // store into cell i
    | DecLoad(c: char)                        // load half of the decrement
    | DecStore(c: char, reg: int)             // store half of the decrement

  /** `accepted` and `returned` record the keys the handler stored and those the reader gave out. */
  datatype State = State(buf: seq<char>, pos: int, pc: Pc, accepted: seq<char>, returned: seq<char>)

  datatype Event = Reader | Irq(scancode: nat)

  ghost predicate Shifted(s: State, c: char, i: int)
    requires 0 <= i < |s.buf|
  {
    if i == 0 then s.buf[0] == c else s.buf[i] == s.buf[i - 1]
  }

  /** What every run keeps about the length, the loop index and the cell just copied. */
  ghost predicate Inv(s: State) {
    && |s.buf| == BUFFER_SIZE
    && 0 <= s.pos < BUFFER_SIZE
    && match s.pc
       case Poll => true
       case LoadHead => s.pos > 0
       case Guard(c, i) => 0 <= i < s.pos && Shifted(s, c, i)
       case LoadNext(c, i) => 0 <= i < s.pos - 1 && Shifted(s, c, i)
       case StoreCell(c, i, t) => 0 <= i < s.pos - 1 && Shifted(s, c, i) && t == s.buf[i + 1]
       case DecLoad(c) => s.pos > 0
       case DecStore(c, reg) => 0 < reg <= s.pos
  }

  ghost predicate Init(s: State) {
    Inv(s) && s.pos == 0 && s.pc == Poll && s.accepted == [] && s.returned == []
  }

  /** Break codes (bit 7 set) and codes outside the table give no key. */
  function Translate(table: seq<char>, scancode: nat): char {
    if scancode >= 0x80 then '\0'
    else if scancode < |table| then table[scancode]
    else '\0'
  }

  predicate Accepts(table: seq<char>, s: State, scancode: nat) {
    Translate(table, scancode) != '\0' && s.pos < BUFFER_SIZE - 1
  }

  function HandlerStep(table: seq<char>, s: State, scancode: nat): (s': State)
    requires Inv(s)
    ensures Inv(s') && s'.pc == s.pc && s'.returned == s.returned
  {
    if Accepts(table, s, scancode) then
      var key := Translate(table, scancode);
      s.(buf := s.buf[s.pos := key], pos := s.pos + 1, accepted := s.accepted + [key])
    else s
  }

  function ReaderStep(s: State): (s': State)
    requires Inv(s)
    ensures Inv(s') && s'.accepted == s.accepted
  {
    match s.pc
    case Poll => if s.pos == 0 then s else s.(pc := LoadHead)
    case LoadHead => s.(pc := Guard(s.buf[0], 0))
    case Guard(c, i) => if i < s.pos - 1 then s.(pc := LoadNext(c, i)) else s.(pc := DecLoad(c))
    case LoadNext(c, i) => s.(pc := StoreCell(c, i, s.buf[i + 1]))
    case StoreCell(c, i, t) => s.(buf := s.buf[i := t], pc := Guard(c, i + 1))
    case DecLoad(c) => s.(pc := DecStore(c, s.pos))
    case DecStore(c, reg) => s.(pos := reg - 1, pc := Poll, returned := s.returned + [c])
  }

  function Step(table: seq<char>, s: State, e: Event): (s': State)
    requires Inv(s)
    ensures Inv(s')
  {
    match e
    case Reader => ReaderStep(s)
    case Irq(scancode) => HandlerStep(table, s, scancode)
  }

  function Run(table: seq<char>, s: State, events: seq<Event>): (s': State)
    requires Inv(s)
    ensures Inv(s')
    decreases events
  {
    if events == [] then s else Run(table, Step(table, s, events[0]), events[1..])
  }

  lemma {:induction false} RunAppend(table: seq<char>, s: State, a: seq<Event>, b: seq<Event>)
    requires Inv(s)
    ensures Run(table, s, a + b) == Run(table, Run(table, s, a), b)
    decreases a
  {
    if a == [] {
      assert a + b == b;
    } else {
      assert (a + b)[1..] == a[1..] + b;
      RunAppend(table, Step(table, s, a[0]), a[1..], b);
    }
  }

  // ----- what the buffer means at each point of the reader

  /** The first `pos` cells without cell `i`. */
  ghost function Hole(buf: seq<char>, i: nat, pos: nat): seq<char>
    requires i < pos <= |buf|
  {
    buf[..i] + buf[i + 1..pos]
  }

  /** The keys still queued. In mid-shift cell i is the one that is stored twice or already given out. */
  ghost function Remaining(s: State): seq<char>
    requires Inv(s)
  {
    match s.pc
    case Poll => s.buf[..s.pos]
    case LoadHead => s.buf[..s.pos]
    case Guard(c, i) => Hole(s.buf, i, s.pos)
    case LoadNext(c, i) => Hole(s.buf, i, s.pos)
    case StoreCell(c, i, t) => Hole(s.buf, i, s.pos)
    case DecLoad(c) => s.buf[..s.pos - 1]
    case DecStore(c, reg) => s.buf[..reg - 1]
  }

  ghost function InFlight(s: State): seq<char> {
    if s.pc.Poll? || s.pc.LoadHead? then [] else [s.pc.c]
  }

  /** Everything delivered or still to be delivered, in order. */
  ghost function Log(s: State): seq<char>
    requires Inv(s)
  {
    s.returned + InFlight(s) + Remaining(s)
  }

  /** No step of the reader, whatever the handler did before, changes what will be delivered. */
  lemma ReaderKeepsLog(s: State)
    requires Inv(s)
    ensures Log(ReaderStep(s)) == Log(s)
  {
    if s.pc.LoadHead? {
      HeadTaken(s.returned, s.buf[..s.pos]);
      assert s.buf[..s.pos][1..] == s.buf[1..s.pos];
      assert s.buf[..0] + s.buf[1..s.pos] == s.buf[1..s.pos];
    } else if s.pc.DecStore? {
      assert s.returned + [s.pc.c] + [] == s.returned + [s.pc.c];
    } else {
      ReaderRemaining(s);
    }
  }

  lemma HeadTaken(returned: seq<char>, queue: seq<char>)
    requires queue != []
    ensures returned + [] + queue == returned + [queue[0]] + queue[1..]
  {
  }

  lemma ReaderRemaining(s: State)
    requires Inv(s) && !s.pc.LoadHead? && !s.pc.DecStore?
    ensures InFlight(ReaderStep(s)) == InFlight(s) && Remaining(ReaderStep(s)) == Remaining(s)
  {
    if s.pc.StoreCell? {
      StoreKeepsRest(s.buf, s.pc.i, s.pos);
    }
  }

  /** Copying cell i + 1 down moves the doubled cell up by one. */
  lemma StoreKeepsRest(buf: seq<char>, i: nat, pos: nat)
    requires i + 1 < pos <= |buf|
    ensures var b := buf[i := buf[i + 1]]; b[..i + 1] + b[i + 2..pos] == buf[..i] + buf[i + 1..pos]
  {
    var b := buf[i := buf[i + 1]];
    assert b[..i + 1] == buf[..i] + [buf[i + 1]];
    assert buf[i + 1..pos] == [buf[i + 1]] + b[i + 2..pos];
  }

  /** The window: after the guard has failed and before the decrement is stored. */
  predicate InWindow(s: State) { s.pc.DecLoad? || s.pc.DecStore? }

  /** The key that an accepting handler step really adds to the delivery log: the new one outside
      the window, a repeat of the last cell before the decrement has loaded, none after. */
  ghost function Delivered(table: seq<char>, s: State, scancode: nat): seq<char>
    requires Inv(s)
  {
    if !Accepts(table, s, scancode) || s.pc.DecStore? then []
    else if s.pc.DecLoad? then [s.buf[s.pos - 1]]
    else [Translate(table, scancode)]
  }

  lemma HandlerLog(table: seq<char>, s: State, scancode: nat)
    requires Inv(s)
    ensures Log(HandlerStep(table, s, scancode)) == Log(s) + Delivered(table, s, scancode)
  {
    HandlerRemaining(table, s, scancode);
  }

  lemma HandlerRemaining(table: seq<char>, s: State, scancode: nat)
    requires Inv(s)
    ensures Remaining(HandlerStep(table, s, scancode)) == Remaining(s) + Delivered(table, s, scancode)
  {
    if !Accepts(table, s, scancode) {
      assert Remaining(s) + [] == Remaining(s);
    } else if s.pc.Guard? || s.pc.LoadNext? || s.pc.StoreCell? {
      HoleRemaining(table, s, scancode);
    } else {
      PrefixRemaining(table, s, scancode);
    }
  }

  lemma HoleRemaining(table: seq<char>, s: State, scancode: nat)
    requires Inv(s) && Accepts(table, s, scancode) && (s.pc.Guard? || s.pc.LoadNext? || s.pc.StoreCell?)
    ensures Remaining(HandlerStep(table, s, scancode)) == Remaining(s) + Delivered(table, s, scancode)
  {
    var key, s' := Translate(table, scancode), HandlerStep(table, s, scancode);
    HoleAppend(s.buf, s.pc.i, s.pos, key);
    assert Delivered(table, s, scancode) == [key];
    assert Remaining(s') == Hole(s.buf[s.pos := key], s.pc.i, s.pos + 1);
  }

  lemma PrefixRemaining(table: seq<char>, s: State, scancode: nat)
    requires Inv(s) && Accepts(table, s, scancode)
    requires s.pc.Poll? || s.pc.LoadHead? || s.pc.DecLoad? || s.pc.DecStore?
    ensures Remaining(HandlerStep(table, s, scancode)) == Remaining(s) + Delivered(table, s, scancode)
  {
    var key := Translate(table, scancode);
    AppendKeepsPrefix(s.buf, s.pos, key);
    if s.pc.DecLoad? {
      LastRepeated(s.buf, s.pos, key);
    } else if s.pc.DecStore? {
      assert Remaining(s) + [] == Remaining(s);
    }
  }

  lemma LastRepeated(buf: seq<char>, pos: nat, key: char)
    requires 0 < pos < |buf|
    ensures buf[pos := key][..pos] == buf[..pos - 1] + [buf[pos - 1]]
  {
  }

  /** An append behind the doubled cell `i`. */
  lemma HoleAppend(buf: seq<char>, i: nat, pos: nat, key: char)
    requires i < pos < |buf|
    ensures Hole(buf[pos := key], i, pos + 1) == Hole(buf, i, pos) + [key]
  {
    var b := buf[pos := key];
    assert b[..i] == buf[..i];
    SliceAppend(buf, b, i + 1, pos);
  }

  lemma AppendKeepsPrefix(buf: seq<char>, pos: nat, key: char)
    requires pos < |buf|
    ensures forall k | 0 <= k <= pos :: buf[pos := key][..k] == buf[..k]
    ensures buf[pos := key][..pos + 1] == buf[..pos] + [key]
  {
  }

  lemma SliceAppend(a: seq<char>, b: seq<char>, from: nat, pos: nat)
    requires from <= pos < |a| && |b| == |a| && b == a[pos := b[pos]]
    ensures b[from..pos + 1] == a[from..pos] + [b[pos]]
  {
  }

  /** A step is clean unless a key is accepted in the window; there it is clean only if the
      decrement has not loaded yet and the key equals the last stored cell. */
  predicate CleanStep(table: seq<char>, s: State, e: Event)
    requires |s.buf| == BUFFER_SIZE && 0 <= s.pos < BUFFER_SIZE
  {
    match e
    case Reader => true
    case Irq(scancode) =>
      !Accepts(table, s, scancode) || !InWindow(s)
      || (s.pc.DecLoad? && s.pos > 0 && Translate(table, scancode) == s.buf[s.pos - 1])
  }

  predicate Clean(table: seq<char>, s: State, events: seq<Event>)
    requires Inv(s)
    decreases events
  {
    events == []
    || (CleanStep(table, s, events[0]) && Clean(table, Step(table, s, events[0]), events[1..]))
  }

  predicate AvoidsWindow(table: seq<char>, s: State, events: seq<Event>)
    requires Inv(s)
    decreases events
  {
    events == []
    || (!(events[0].Irq? && Accepts(table, s, events[0].scancode) && InWindow(s))
        && AvoidsWindow(table, Step(table, s, events[0]), events[1..]))
  }

  ghost predicate InOrder(s: State)
    requires Inv(s)
  {
    Log(s) == s.accepted
  }

  lemma StepLog(table: seq<char>, s: State, e: Event)
    requires Inv(s)
    ensures |Log(s)| <= |s.accepted| ==> |Log(Step(table, s, e))| <= |Step(table, s, e).accepted|
    ensures InOrder(s) ==> (InOrder(Step(table, s, e)) <==> CleanStep(table, s, e))
    ensures |Log(s)| <= |s.accepted| && !InOrder(s) ==> !InOrder(Step(table, s, e))
  {
    match e
    case Reader => ReaderKeepsLog(s);
    case Irq(scancode) =>
      HandlerLog(table, s, scancode);
      var d := Delivered(table, s, scancode);
      if !Accepts(table, s, scancode) {
        assert Log(s) + [] == Log(s);
      } else if d == [] {
        assert Log(s) + [] == Log(s);
      } else {
        SnocEqual(Log(s), s.accepted, d[0], Translate(table, scancode));
      }
  }

  lemma SnocEqual(a: seq<char>, b: seq<char>, x: char, y: char)
    ensures a + [x] == b + [y] <==> a == b && x == y
  {
    var l, r := a + [x], b + [y];
    assert l[..|l| - 1] == a && r[..|r| - 1] == b && l[|l| - 1] == x && r[|r| - 1] == y;
  }

  /** Once a key is lost or repeated, no later run puts the order right. */
  lemma {:induction false} NeverRepaired(table: seq<char>, s: State, events: seq<Event>)
    requires Inv(s) && |Log(s)| <= |s.accepted| && !InOrder(s)
    ensures !InOrder(Run(table, s, events))
    decreases events
  {
    if events != [] {
      StepLog(table, s, events[0]);
      NeverRepaired(table, Step(table, s, events[0]), events[1..]);
    }
  }

  /** Over every run and every interleaving: the keys given out followed by those queued are the
      accepted keys, in order, if and only if every step was clean. */
  lemma {:induction false} FifoExactly(table: seq<char>, s: State, events: seq<Event>)
    requires Inv(s) && InOrder(s)
    ensures InOrder(Run(table, s, events)) <==> Clean(table, s, events)
    decreases events
  {
    if events != [] {
      var s' := Step(table, s, events[0]);
      StepLog(table, s, events[0]);
      if CleanStep(table, s, events[0]) {
        FifoExactly(table, s', events[1..]);
      } else {
        NeverRepaired(table, s', events[1..]);
      }
    }
  }

  lemma {:induction false} AvoidingIsClean(table: seq<char>, s: State, events: seq<Event>)
    requires Inv(s) && AvoidsWindow(table, s, events)
    ensures Clean(table, s, events)
    decreases events
  {
    if events != [] {
      AvoidingIsClean(table, Step(table, s, events[0]), events[1..]);
    }
  }

  /** The guarantee a caller can use: keys arriving mid-shift are never lost, repeated or reordered. */
  lemma FifoOutsideWindow(table: seq<char>, s: State, events: seq<Event>)
    requires Init(s) && AvoidsWindow(table, s, events)
    ensures var r := Run(table, s, events);
            r.accepted == r.returned + InFlight(r) + Remaining(r)
    ensures var r := Run(table, s, events);
            r.pc.Poll? ==> r.returned + r.buf[..r.pos] == r.accepted
  {
    AvoidingIsClean(table, s, events);
    FifoExactly(table, s, events);
    var r := Run(table, s, events);
    assert r.pc.Poll? ==> r.returned + [] == r.returned;
  }

  // ----- which interrupts carry keys

  /** The key of a make code, read off the table; break codes, codes past the table and empty entries carry
      none. */
  function KeyOf(table: seq<char>, e: Event): seq<char> {
    if e.Irq? && e.scancode < 0x80 && e.scancode < |table| && table[e.scancode] != '\0' then [table[e.scancode]]
    else []
  }

  /** An interrupt without a key changes nothing; one with a key appends it to the buffer while there is a
      free cell, and is dropped otherwise. */
  lemma HandlerByTable(table: seq<char>, s: State, scancode: nat)
    requires Inv(s)
    ensures var s' := HandlerStep(table, s, scancode); var key := KeyOf(table, Irq(scancode));
            if key == [] || s.pos >= 255 then s' == s
            else s' == s.(buf := s.buf[s.pos := key[0]], pos := s.pos + 1, accepted := s.accepted + key)
  {
  }

  /** The run without the interrupts that carry no key, key releases among them. */
  function OnlyKeys(table: seq<char>, events: seq<Event>): (r: seq<Event>)
    ensures forall e | e in r && e.Irq? :: e.scancode < 0x80
    decreases events
  {
    if events == [] then []
    else (if events[0].Irq? && KeyOf(table, events[0]) == [] then [] else [events[0]]) + OnlyKeys(table, events[1..])
  }

  /** Releases never matter: every run leads to the same state as the run without them. */
  lemma {:induction false} ReleasesIgnored(table: seq<char>, s: State, events: seq<Event>)
    requires Inv(s)
    ensures Run(table, s, events) == Run(table, s, OnlyKeys(table, events))
    decreases events
  {
    if events != [] {
      var rest := OnlyKeys(table, events[1..]);
      ReleasesIgnored(table, Step(table, s, events[0]), events[1..]);
      if events[0].Irq? && KeyOf(table, events[0]) == [] {
        HandlerByTable(table, s, events[0].scancode);
        assert OnlyKeys(table, events) == rest;
      } else {
        assert OnlyKeys(table, events)[1..] == rest;
      }
    }
  }

  /** The keys of the make codes among the events, in order. */
  function KeysOf(table: seq<char>, events: seq<Event>): seq<char>
    decreases events
  {
    if events == [] then [] else KeyOf(table, events[0]) + KeysOf(table, events[1..])
  }

  /** As long as the keys of a run fit in the buffer, every one is accepted, in order. */
  lemma {:induction false} AcceptsAll(table: seq<char>, s: State, events: seq<Event>)
    requires Inv(s) && s.pos + |KeysOf(table, events)| <= 255
    ensures Run(table, s, events).accepted == s.accepted + KeysOf(table, events)
    decreases events
  {
    if events == [] {
      assert s.accepted + [] == s.accepted;
    } else {
      AcceptsOne(table, s, events[0]);
      AcceptsAll(table, Step(table, s, events[0]), events[1..]);
      Associates(s.accepted, KeyOf(table, events[0]), KeysOf(table, events[1..]));
    }
  }

  lemma Associates(a: seq<char>, b: seq<char>, c: seq<char>)
    ensures a + b + c == a + (b + c)
  {
  }

  lemma AcceptsOne(table: seq<char>, s: State, e: Event)
    requires Inv(s) && s.pos + |KeyOf(table, e)| <= 255
    ensures var s' := Step(table, s, e);
            s'.pos <= s.pos + |KeyOf(table, e)| && s'.accepted == s.accepted + KeyOf(table, e)
  {
    assert s.accepted + [] == s.accepted;
  }

  // ----- what one window does

  function Irqs(codes: seq<nat>): (events: seq<Event>)
    ensures |events| == |codes|
  {
    seq(|codes|, k requires 0 <= k < |codes| => Irq(codes[k]))
  }

  function Keys(table: seq<char>, codes: seq<nat>): (keys: seq<char>)
    ensures |keys| == |codes|
  {
    seq(|codes|, k requires 0 <= k < |codes| => Translate(table, codes[k]))
  }

  predicate AllKeys(table: seq<char>, codes: seq<nat>) {
    forall k | 0 <= k < |codes| :: Translate(table, codes[k]) != '\0'
  }

  /** A burst of interrupts that all carry keys and all fit appends exactly those keys. */
  lemma {:induction false} Burst(table: seq<char>, s: State, codes: seq<nat>)
    requires Inv(s) && AllKeys(table, codes) && s.pos + |codes| < BUFFER_SIZE
    ensures var r := Run(table, s, Irqs(codes));
            && r.pc == s.pc && r.returned == s.returned
            && r.accepted == s.accepted + Keys(table, codes)
            && r.pos == s.pos + |codes|
            && r.buf[..r.pos] == s.buf[..s.pos] + Keys(table, codes)
    decreases codes
  {
    if codes == [] {
      assert s.accepted + Keys(table, codes) == s.accepted;
    } else {
      var s' := HandlerStep(table, s, codes[0]);
      assert Irqs(codes)[1..] == Irqs(codes[1..]);
      assert Keys(table, codes) == [Translate(table, codes[0])] + Keys(table, codes[1..]);
      assert s'.buf[..s'.pos] == s.buf[..s.pos] + [Translate(table, codes[0])];
      Burst(table, s', codes[1..]);
    }
  }

  lemma RunOne(table: seq<char>, s: State)
    requires Inv(s)
    ensures Run(table, s, [Reader]) == ReaderStep(s)
  {
    assert Run(table, ReaderStep(s), [Reader][1..]) == ReaderStep(s);
  }

  ghost function QueueAfterWindow(queue: seq<char>, c: char, before: seq<char>): seq<char> {
    if before == [] then queue
    else queue + [if queue == [] then c else queue[|queue| - 1]] + before[..|before| - 1]
  }

  /** From a failing guard: `before` arrives up to the load of the decrement, `after` between its
      load and its store. The queue keeps its own keys, then (if `before` is not empty) repeats the
      last of them, or the returned key if it was empty, then all of `before` but its newest key;
      everything in `after` is dropped. */
  lemma WindowOutcome(table: seq<char>, s: State, before: seq<nat>, after: seq<nat>)
    requires Inv(s) && s.pc.Guard? && s.pc.i == s.pos - 1
    requires AllKeys(table, before) && AllKeys(table, after)
    requires s.pos + |before| + |after| < BUFFER_SIZE
    ensures var r := Run(table, s, [Reader] + Irqs(before) + [Reader] + Irqs(after) + [Reader]);
            && r.pc == Poll
            && r.returned == s.returned + [s.pc.c]
            && r.accepted == s.accepted + Keys(table, before) + Keys(table, after)
            && r.buf[..r.pos] == QueueAfterWindow(Remaining(s), s.pc.c, Keys(table, before))
  {
    var c, n := s.pc.c, s.pos;
    var s1 := Run(table, s, [Reader]);
    RunOne(table, s);
    var s2 := Run(table, s1, Irqs(before));
    Burst(table, s1, before);
    var s3 := Run(table, s2, [Reader]);
    RunOne(table, s2);
    var s4 := Run(table, s3, Irqs(after));
    Burst(table, s3, after);
    var s5 := Run(table, s4, [Reader]);
    RunOne(table, s4);
    RunAppend(table, s, [Reader], Irqs(before));
    RunAppend(table, s, [Reader] + Irqs(before), [Reader]);
    RunAppend(table, s, [Reader] + Irqs(before) + [Reader], Irqs(after));
    RunAppend(table, s, [Reader] + Irqs(before) + [Reader] + Irqs(after), [Reader]);
    var keys := Keys(table, before);
    WindowQueue(s, keys, s2.buf, s4.buf);
  }

  lemma WindowQueue(s: State, keys: seq<char>, b: seq<char>, b': seq<char>)
    requires Inv(s) && s.pc.Guard? && s.pc.i == s.pos - 1
    requires s.pos + |keys| <= |b| && s.pos + |keys| <= |b'|
    requires b[..s.pos + |keys|] == s.buf[..s.pos] + keys
    requires b'[..s.pos + |keys|] == b[..s.pos + |keys|]
    ensures b'[..s.pos + |keys| - 1] == QueueAfterWindow(Remaining(s), s.pc.c, keys)
  {
    var n := s.pos;
    var q := Remaining(s);
    assert q == s.buf[..n - 1];
    var all := s.buf[..n] + keys;
    assert b'[..n + |keys| - 1] == all[..n + |keys| - 1];
    if keys == [] {
      assert all[..n - 1] == q;
    } else {
      assert all[..n + |keys| - 1] == s.buf[..n] + keys[..|keys| - 1];
      assert s.buf[..n] == q + [s.buf[n - 1]];
    }
  }

  /** The atomic decrement with k >= 1 keys in the window: exactly the newest key is dropped and one
      key is repeated, so the delivery is right exactly when all window keys equal the repeated one. */
  lemma WindowHarmlessIff(queue: seq<char>, c: char, keys: seq<char>)
    ensures QueueAfterWindow(queue, c, keys) == queue + keys
            <==> forall k | 0 <= k < |keys| :: keys[k] == if queue == [] then c else queue[|queue| - 1]
  {
    if keys == [] {
      assert queue + keys == queue;
    } else {
      var dup := if queue == [] then c else queue[|queue| - 1];
      var shifted := [dup] + keys[..|keys| - 1];
      var got := QueueAfterWindow(queue, c, keys);
      assert got == queue + shifted;
      if got == queue + keys {
        assert got[|queue|..] == shifted && (queue + keys)[|queue|..] == keys;
        AllEqualFirst(keys, dup);
      }
    }
  }

  lemma {:induction false} AllEqualFirst(keys: seq<char>, dup: char)
    requires keys != [] && keys == [dup] + keys[..|keys| - 1]
    ensures forall k | 0 <= k < |keys| :: keys[k] == dup
  {
    if |keys| > 1 {
      var short := keys[..|keys| - 1];
      assert short == [dup] + short[..|short| - 1];
      AllEqualFirst(short, dup);
      assert keys[|keys| - 1] == short[|short| - 1];
      assert forall k | 0 <= k < |short| :: keys[k] == short[k];
    }
  }

  // ----- a run that breaks the order

  lemma HeadGuard(table: seq<char>, s: State, a: nat)
    requires Init(s) && Translate(table, a) != '\0'
    ensures var k := Translate(table, a);
            Run(table, s, [Irq(a), Reader, Reader]) == State(s.buf[0 := k], 1, Guard(k, 0), [k], [])
  {
    var events := [Irq(a), Reader, Reader];
    var s1 := HandlerStep(table, s, a);
    assert events[1..] == [Reader, Reader] && events[1..][1..] == [Reader];
    assert Run(table, s1, events[1..]) == Run(table, s1.(pc := LoadHead), [Reader]);
    RunOne(table, s1.(pc := LoadHead));
    assert s.accepted + [Translate(table, a)] == [Translate(table, a)];
  }

  /** From the start: key a arrives, the reader takes it and its guard fails, key b arrives, the reader
      finishes. Now a is returned and queued again and b is gone, so unless they are the same key the
      order is lost for ever. */
  lemma WindowBreaksOrder(table: seq<char>, s: State, a: nat, b: nat)
    requires Init(s) && Translate(table, a) != '\0' && Translate(table, b) != '\0'
    ensures var r := Run(table, s, [Irq(a), Reader, Reader] + ([Reader] + Irqs([b]) + [Reader] + Irqs([]) + [Reader]));
            && r.accepted == [Translate(table, a), Translate(table, b)]
            && r.returned == [Translate(table, a)] && r.buf[..r.pos] == [Translate(table, a)]
            && (InOrder(r) <==> Translate(table, a) == Translate(table, b))
  {
    var k := Translate(table, a);
    HeadGuard(table, s, a);
    RunAppend(table, s, [Irq(a), Reader, Reader], [Reader] + Irqs([b]) + [Reader] + Irqs([]) + [Reader]);
    var s3 := State(s.buf[0 := k], 1, Guard(k, 0), [k], []);
    WindowOutcome(table, s3, [b], []);
    assert Remaining(s3) == [] && Keys(table, [b]) == [Translate(table, b)];
    assert [k] + [] + [k] == [k, k] && [k, k][1] == k && [k, Translate(table, b)][1] == Translate(table, b);
  }
}
