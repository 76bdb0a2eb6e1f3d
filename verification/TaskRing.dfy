/** The round-robin scheduler of kernel/kernel.c as a value: the circular list read from `task_queue`
    and the index of `current_task` in it. */
module TaskRing {

  datatype Ring = Ring(ids: seq<nat>, cur: nat)

  datatype Event = Create | Tick

  ghost predicate IsRing(r: Ring) { r.cur < |r.ids| }

  ghost predicate Distinct(s: seq<nat>) { forall i, j | 0 <= i < j < |s| :: s[i] != s[j] }

  /** Insertion right after the head; the cursor stays on its task. */
  function CreateStep(r: Ring, id: nat): (r': Ring)
    requires IsRing(r)
    ensures IsRing(r') && |r'.ids| == |r.ids| + 1 && r'.ids[r'.cur] == r.ids[r.cur]
  {
    Ring(r.ids[..1] + [id] + r.ids[1..], if r.cur == 0 then 0 else r.cur + 1)
  }

  function TickStep(r: Ring): (r': Ring)
    requires IsRing(r)
    ensures IsRing(r') && r'.ids == r.ids
  {
    r.(cur := if r.cur + 1 == |r.ids| then 0 else r.cur + 1)
  }

  /** New tasks take the next identifier, which is one more than the number of tasks so far. */
  function Step(r: Ring, e: Event): (r': Ring)
    requires IsRing(r)
    ensures IsRing(r')
  {
    match e
    case Create => CreateStep(r, |r.ids| + 1)
    case Tick => TickStep(r)
  }

  function Run(r: Ring, events: seq<Event>): (r': Ring)
    requires IsRing(r)
    ensures IsRing(r')
    decreases events
  {
    if events == [] then r else Run(Step(r, events[0]), events[1..])
  }

  const Start := Ring([1], 0)

  // ----- the order of the ring

  /** 1, n, n - 1, ..., 2 */
  function CreationOrder(n: nat): (s: seq<nat>)
    requires n > 0
    ensures |s| == n && Distinct(s)
  {
    [1] + seq(n - 1, k requires 0 <= k < n - 1 => n - k)
  }

  lemma {:induction false} OrderFrom(r: Ring, events: seq<Event>)
    requires IsRing(r) && r.ids == CreationOrder(|r.ids|)
    ensures var r' := Run(r, events); r'.ids == CreationOrder(|r'.ids|)
    decreases events
  {
    if events != [] {
      var r' := Step(r, events[0]);
      assert r'.ids == CreationOrder(|r'.ids|);
      OrderFrom(r', events[1..]);
    }
  }

  function Creates(events: seq<Event>): nat {
    if events == [] then 0 else (if events[0] == Create then 1 else 0) + Creates(events[1..])
  }

  function Ticks(events: seq<Event>): nat {
    if events == [] then 0 else (if events[0] == Tick then 1 else 0) + Ticks(events[1..])
  }

  lemma {:induction false} SizeAfter(r: Ring, events: seq<Event>)
    requires IsRing(r)
    ensures |Run(r, events).ids| == |r.ids| + Creates(events)
    decreases events
  {
    if events != [] {
      SizeAfter(Step(r, events[0]), events[1..]);
    }
  }

  /** However ticks are interleaved, the ring reads 1, n, n - 1, ..., 2 from its head. */
  lemma OrderAlways(events: seq<Event>)
    ensures Run(Start, events).ids == CreationOrder(1 + Creates(events))
  {
    assert Start.ids == CreationOrder(1);
    OrderFrom(Start, events);
    SizeAfter(Start, events);
  }

  // ----- waiting

  ghost predicate Has(r: Ring, id: nat) { exists k :: 0 <= k < |r.ids| && r.ids[k] == id }

  ghost function IndexOf(r: Ring, id: nat): (k: nat)
    requires Has(r, id)
    ensures k < |r.ids| && r.ids[k] == id
  {
    var k :| 0 <= k < |r.ids| && r.ids[k] == id; k
  }

  /** Ticks until the task becomes current, counting a full turn if it is current now. */
  ghost function Wait(r: Ring, id: nat): (w: nat)
    requires IsRing(r) && Has(r, id)
    ensures 1 <= w <= |r.ids|
  {
    var k := IndexOf(r, id);
    if k > r.cur then k - r.cur else k + |r.ids| - r.cur
  }

  /** The head lies on the way from the cursor to the task, before the task. */
  ghost predicate HeadAhead(r: Ring, id: nat)
    requires IsRing(r) && Has(r, id)
  {
    r.cur == 0 || (0 < IndexOf(r, id) <= r.cur)
  }

  lemma IndexUnique(r: Ring, id: nat, k: nat)
    requires Distinct(r.ids) && k < |r.ids| && r.ids[k] == id
    ensures Has(r, id) && IndexOf(r, id) == k
  {
    var j := IndexOf(r, id);
    assert !(j < k) && !(k < j);
  }

  /** A tick brings a waiting task one step nearer; a task that was next is now current. */
  lemma TickWait(r: Ring, id: nat)
    requires IsRing(r) && Distinct(r.ids) && Has(r, id)
    ensures var r' := TickStep(r);
            Has(r', id) && (r'.ids[r'.cur] == id <==> Wait(r, id) == 1)
            && Wait(r', id) == if Wait(r, id) == 1 then |r.ids| else Wait(r, id) - 1
  {
    var k := IndexOf(r, id);
    var r' := TickStep(r);
    IndexUnique(r', id, k);
    if r'.ids[r'.cur] == id {
      IndexUnique(r, id, r'.cur);
    }
  }

  lemma CreateDistinct(r: Ring, newId: nat)
    requires IsRing(r) && Distinct(r.ids) && !Has(r, newId)
    ensures Distinct(CreateStep(r, newId).ids)
  {
    var r' := CreateStep(r, newId);
    assert r'.ids[0] == r.ids[0] && r'.ids[1] == newId;
    assert forall j | 2 <= j < |r'.ids| :: r'.ids[j] == r.ids[j - 1];
    assert forall j | 0 <= j < |r.ids| :: r.ids[j] != newId;
  }

  /** A create delays a task by one exactly when the head lies before it on the cursor's way. */
  lemma CreateWait(r: Ring, id: nat, newId: nat)
    requires IsRing(r) && Distinct(r.ids) && Has(r, id) && !Has(r, newId)
    ensures var r' := CreateStep(r, newId);
            Distinct(r'.ids) && Has(r', id)
            && Wait(r', id) == Wait(r, id) + if HeadAhead(r, id) then 1 else 0
  {
    var k := IndexOf(r, id);
    var r' := CreateStep(r, newId);
    CreateDistinct(r, newId);
    assert k > 0 ==> r'.ids[k + 1] == r.ids[k];
    IndexUnique(r', id, if k == 0 then 0 else k + 1);
  }

  /** Identifiers are distinct and none exceeds the number of tasks, so the next one is new. */
  ghost predicate Numbered(r: Ring) {
    IsRing(r) && Distinct(r.ids) && forall k | 0 <= k < |r.ids| :: r.ids[k] <= |r.ids|
  }

  /** Some tick of the run makes the task current. */
  ghost predicate Becomes(r: Ring, id: nat, events: seq<Event>)
    requires IsRing(r)
    decreases events
  {
    && events != []
    && var r' := Step(r, events[0]);
       (events[0] == Tick && r'.ids[r'.cur] == id) || Becomes(r', id, events[1..])
  }

  /** Creates that come while the head lies before the task on the cursor's way. */
  ghost function Delays(r: Ring, id: nat, events: seq<Event>): nat
    requires Numbered(r) && Has(r, id)
    decreases events
  {
    if events == [] then 0
    else
      StepWait(r, id, events[0]);
      (if events[0] == Create && HeadAhead(r, id) then 1 else 0) + Delays(Step(r, events[0]), id, events[1..])
  }

  /** Creates that come before the cursor first leaves the head. */
  function HeadCreates(r: Ring, events: seq<Event>): nat
    requires IsRing(r)
    decreases events
  {
    if events == [] then 0
    else if events[0] == Create then 1 + HeadCreates(Step(r, events[0]), events[1..])
    else if r.cur == 0 then 0
    else HeadCreates(Step(r, events[0]), events[1..])
  }

  lemma StepWait(r: Ring, id: nat, e: Event)
    requires Numbered(r) && Has(r, id)
    ensures var r' := Step(r, e);
            && Numbered(r') && Has(r', id)
            && (e == Create ==> Wait(r', id) == Wait(r, id) + if HeadAhead(r, id) then 1 else 0)
            && (e == Tick && r'.ids[r'.cur] != id ==> Wait(r', id) == Wait(r, id) - 1)
            && (e == Tick && r'.ids[r'.cur] == id ==> Wait(r, id) == 1)
  {
    match e
    case Tick => TickWait(r, id);
    case Create => NextIsNew(r, id);
  }

  lemma NextIsNew(r: Ring, id: nat)
    requires Numbered(r) && Has(r, id)
    ensures var r' := Step(r, Create);
            && Numbered(r') && Has(r', id)
            && Wait(r', id) == Wait(r, id) + if HeadAhead(r, id) then 1 else 0
  {
    CreateNumbered(r);
    CreateWait(r, id, |r.ids| + 1);
  }

  lemma CreateNumbered(r: Ring)
    requires Numbered(r)
    ensures !Has(r, |r.ids| + 1) && Numbered(Step(r, Create))
  {
    assert !Has(r, |r.ids| + 1);
    CreateDistinct(r, |r.ids| + 1);
  }

  /** Until the task becomes current its wait is what it was, less the ticks, plus the delays. */
  lemma {:induction false} WaitLaw(r: Ring, id: nat, events: seq<Event>)
    requires Numbered(r) && Has(r, id) && !Becomes(r, id, events)
    ensures Has(Run(r, events), id)
    ensures Wait(Run(r, events), id) == Wait(r, id) - Ticks(events) + Delays(r, id, events)
    decreases events
  {
    if events != [] {
      StepWait(r, id, events[0]);
      WaitLaw(Step(r, events[0]), id, events[1..]);
    }
  }

  lemma AheadStep(r: Ring, id: nat, e: Event)
    requires Numbered(r) && Has(r, id)
    requires var r' := Step(r, e); e == Tick ==> r'.ids[r'.cur] != id
    ensures Has(Step(r, e), id)
    ensures !HeadAhead(r, id) ==> !HeadAhead(Step(r, e), id)
    ensures e == Tick && r.cur == 0 ==> !HeadAhead(Step(r, e), id)
  {
    var k, r' := IndexOf(r, id), Step(r, e);
    StepWait(r, id, e);
    match e
    case Tick => IndexUnique(r', id, k);
    case Create =>
      var k' := if k == 0 then 0 else k + 1;
      assert k > 0 ==> r'.ids[k'] == r.ids[k];
      IndexUnique(r', id, k');
  }

  /** Once the head is behind, no create delays the task any more. */
  lemma {:induction false} NoDelays(r: Ring, id: nat, events: seq<Event>)
    requires Numbered(r) && Has(r, id) && !HeadAhead(r, id) && !Becomes(r, id, events)
    ensures Delays(r, id, events) == 0
    decreases events
  {
    if events != [] {
      StepWait(r, id, events[0]);
      AheadStep(r, id, events[0]);
      NoDelays(Step(r, events[0]), id, events[1..]);
    }
  }

  lemma {:induction false} DelaysBound(r: Ring, id: nat, events: seq<Event>)
    requires Numbered(r) && Has(r, id) && !Becomes(r, id, events)
    ensures Delays(r, id, events) <= HeadCreates(r, events)
    decreases events
  {
    if events != [] {
      var r' := Step(r, events[0]);
      StepWait(r, id, events[0]);
      AheadStep(r, id, events[0]);
      if events[0] == Tick && r.cur == 0 {
        NoDelays(r', id, events[1..]);
      } else {
        DelaysBound(r', id, events[1..]);
      }
    }
  }

  /** Bounded wait, over every interleaving: a task becomes current within its wait, at most the number
      of tasks, plus the creates made before the cursor leaves the head. */
  lemma BoundedWait(r: Ring, id: nat, events: seq<Event>)
    requires Numbered(r) && Has(r, id)
    requires Ticks(events) >= Wait(r, id) + HeadCreates(r, events)
    ensures Wait(r, id) <= |r.ids| && Becomes(r, id, events)
  {
    if !Becomes(r, id, events) {
      WaitLaw(r, id, events);
      DelaysBound(r, id, events);
    }
  }

  lemma {:induction false} NumberedAlways(r: Ring, events: seq<Event>)
    requires Numbered(r)
    ensures Numbered(Run(r, events))
    decreases events
  {
    if events != [] {
      assert Has(r, r.ids[0]);
      StepWait(r, r.ids[0], events[0]);
      NumberedAlways(Step(r, events[0]), events[1..]);
    }
  }

  lemma CreatedIsThere(n: nat, id: nat)
    requires 1 <= id <= n
    ensures CreationOrder(n)[if id == 1 then 0 else n + 1 - id] == id
  {
  }

  /** No task starves: from the start, after any history, each task created so far becomes current again
      before as many ticks have passed as there are tasks and creates made at the head. */
  lemma NoStarvation(history: seq<Event>, id: nat, events: seq<Event>)
    requires 1 <= id <= 1 + Creates(history)
    requires Ticks(events) >= 1 + Creates(history) + HeadCreates(Run(Start, history), events)
    ensures Becomes(Run(Start, history), id, events)
  {
    var r := Run(Start, history);
    OrderAlways(history);
    CreatedIsThere(1 + Creates(history), id);
    NumberedAlways(Start, history);
    BoundedWait(r, id, events);
  }

  function OnlyTicks(n: nat): (events: seq<Event>)
    ensures |events| == n && forall k | 0 <= k < n :: events[k] == Tick
  {
    seq(n, _ => Tick)
  }

  /** With no creates, each task is current after exactly one of the next n ticks. */
  lemma {:induction false} OncePerRound(r: Ring, id: nat, m: nat)
    requires Numbered(r) && Has(r, id) && 1 <= m <= |r.ids|
    ensures var r' := Run(r, OnlyTicks(m)); r'.ids[r'.cur] == id <==> m == Wait(r, id)
  {
    TicksMove(r, m);
    var r' := Run(r, OnlyTicks(m));
    var k := IndexOf(r, id);
    if r'.ids[r'.cur] == id {
      IndexUnique(r, id, r'.cur);
    }
  }

  lemma {:induction false} TicksMove(r: Ring, m: nat)
    requires IsRing(r) && m <= |r.ids|
    ensures Run(r, OnlyTicks(m)) == r.(cur := if r.cur + m < |r.ids| then r.cur + m else r.cur + m - |r.ids|)
    decreases m
  {
    if m > 0 {
      assert OnlyTicks(m)[1..] == OnlyTicks(m - 1);
      TicksMove(TickStep(r), m - 1);
    }
  }
}
