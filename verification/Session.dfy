/** Whole shell sessions: any number of lines, with whatever the commands and prompts print between
    them, over the history ring and the screen. */
module Session {
  import opened History
  import opened Screen
  import opened Editor
  import opened CursorRow
  import opened Limits

  /** `prompt` is what was printed on the line before it is edited; `lines` are the lines entered. */
  datatype State = State(ring: Ring, edit: Edit, echo: bool, prompt: string, lines: seq<string>)

  type Prompt = ops: seq<Op> | IsPrompt(ops)

  /** A key and, for Enter, what the executed command prints, the next prompt, and whether echo is on
      afterwards. */
  datatype Key = Key(c: char, output: seq<Op>, prompt: Prompt, echo: bool)

  /** What a line's text starts with: what the output left before the cursor of its last row, computed
      from the output alone, and the prompt. */
  function LineHead(output: seq<Op>, prompt: Prompt): string {
    var l := RowRun(Fresh(), output);
    l.row[..l.x] + Text(prompt)
  }

  ghost predicate Reachable(s: State) {
    && IsHistory(s.ring) && IsEdit(s.ring, s.edit) && BlankBelow(s.edit.screen)
    && s.ring == AddAll(EmptyRing(), s.lines)
  }

  ghost function Step(s: State, k: Key): State
    requires Reachable(s)
  {
    var e := KeyStep(s.ring, s.echo, s.edit, k.c);
    if k.c != ENTER then s.(edit := e)
    else
      KeyKeepsEdit(s.ring, s.echo, s.edit, k.c);
      var screen := RunScreen(RunScreen(e.screen, k.output), k.prompt);
      State(Add(s.ring, e.input), Edit("", -1, screen), k.echo, LineHead(k.output, k.prompt), s.lines + [e.input])
  }

  lemma {:induction false} RuboutExact(s: Page, n: nat)
    requires IsScreen(s) && BlankBelow(s)
    ensures BlankBelow(Rubout(s, n))
    decreases n
  {
    if n > 0 {
      RunExact(s, Puts(RUBOUT));
      RuboutExact(RunScreen(s, Puts(RUBOUT)), n - 1);
    }
  }

  lemma KeyKeepsBelow(r: Ring, echo: bool, e: Edit, c: char)
    requires IsHistory(r) && IsEdit(r, e) && BlankBelow(e.screen)
    ensures IsEdit(r, KeyStep(r, echo, e, c)) && BlankBelow(KeyStep(r, echo, e, c).screen)
  {
    KeyKeepsEdit(r, echo, e, c);
    var e' := KeyStep(r, echo, e, c);
    if (c == UP && r.pos > 0) || (c == DOWN && e.current != -1) {
      RuboutExact(e.screen, |e.input|);
      RunExact(Rubout(e.screen, |e.input|), Puts(e'.input));
    } else if c == '\t' && |e.input| > 0 {
      RunExact(e.screen, Puts(e'.input[|e.input|..]));
    } else {
      RunExact(e.screen, Puts("\n"));
      RunExact(e.screen, Puts(RUBOUT));
      RunExact(e.screen, Puts([c]));
    }
  }

  /** The bounds, the meaning of the ring and the blank rows below the cursor hold after every key of
      every session. */
  lemma StepReachable(s: State, k: Key)
    requires Reachable(s)
    ensures Reachable(Step(s, k))
  {
    KeyKeepsBelow(s.ring, s.echo, s.edit, k.c);
    if k.c == ENTER {
      var e := KeyStep(s.ring, s.echo, s.edit, k.c);
      RunExact(e.screen, k.output);
      RunExact(RunScreen(e.screen, k.output), k.prompt);
      assert (s.lines + [s.edit.input])[..|s.lines|] == s.lines;
    }
  }

  /** Enter files the line, and the next one starts empty with nothing recalled. */
  lemma EnterStarts(s: State, k: Key)
    requires Reachable(s) && k.c == '\r'
    ensures var s' := Step(s, k);
            && s'.lines == s.lines + [s.edit.input] && s'.ring == AddAll(EmptyRing(), s'.lines)
            && s'.edit.input == "" && s'.edit.current == -1 && s'.echo == k.echo
  {
    StepReachable(s, k);
  }

  // ----- the row agrees with the buffer

  ghost predicate Agrees(s: State) { Shows(s.edit.screen, s.prompt + s.edit.input) }

  /** The key is typed into the line. */
  predicate Types(r: Ring, e: Edit, c: char) {
    && !(c == UP && r.pos > 0) && !(c == DOWN && e.current != -1)
    && |e.input| < MAX_INPUT - 2 && Typeable(c)
  }

  /** What a key must respect. A new prompt must fit on the row the output ended on, with nothing behind
      it; a line must fit in 79 cells with its prompt; nothing may be typed with echo off. The screen does
      not occur in these rules. */
  ghost predicate Respects(s: State, k: Key)
    requires Reachable(s)
  {
    if k.c == ENTER then Fits(RowRun(Fresh(), k.output), Text(k.prompt))
    else
      && |s.prompt| + |KeyStep(s.ring, s.echo, s.edit, k.c).input| <= COLS - 1
      && (s.echo || !Types(s.ring, s.edit, k.c))
  }

  /** Printing a prompt on a screen. */
  lemma PromptAgrees(screen: Page, prompt: Prompt)
    requires IsScreen(screen) && BlankBelow(screen)
    ensures var l := Cursor(screen);
            Shows(RunScreen(screen, prompt), l.row[..l.x] + Text(prompt)) <==> Fits(l, Text(prompt))
  {
    RunExact(screen, prompt);
    PromptShows(Cursor(screen), prompt);
  }

  /** From an agreeing state, a key leads to an agreeing state if and only if it respects the rules; an
      entered line does whether or not the last one agreed. */
  lemma StepAgrees(s: State, k: Key)
    requires Reachable(s) && (Agrees(s) || k.c == ENTER)
    ensures Agrees(Step(s, k)) <==> Respects(s, k)
  {
    var s' := Step(s, k);
    if k.c == ENTER {
      EnterAgrees(s, k);
    } else if s.echo || !Types(s.ring, s.edit, k.c) {
      assert KeyStep(s.ring, s.echo, s.edit, k.c) == KeyStep(s.ring, true, s.edit, k.c);
      KeyAgrees(s.ring, s.edit, s.prompt, k.c);
    } else {
      assert s'.edit.screen == s.edit.screen && |s'.edit.input| == |s.edit.input| + 1;
    }
  }

  lemma EnterAgrees(s: State, k: Key)
    requires Reachable(s) && k.c == ENTER
    ensures Agrees(Step(s, k)) <==> Fits(RowRun(Fresh(), k.output), Text(k.prompt))
  {
    RunExact(s.edit.screen, Puts("\n"));
    NewLineIsFresh(Cursor(s.edit.screen));
    var screen := Print(s.edit.screen, "\n");
    RunExact(screen, k.output);
    PromptAgrees(RunScreen(screen, k.output), k.prompt);
    var head := LineHead(k.output, k.prompt);
    assert head + "" == head;
  }

  lemma NewLineIsFresh(l: Line)
    requires IsRow(l)
    ensures RowRun(l, Puts("\n")) == Fresh()
  {
    assert Puts("\n")[1..] == [];
  }

  ghost predicate AgreesThroughout(s: State, keys: seq<Key>)
    requires Reachable(s)
    decreases keys
  {
    Agrees(s) && (keys == [] || (StepReachable(s, keys[0]); AgreesThroughout(Step(s, keys[0]), keys[1..])))
  }

  ghost predicate RespectsThroughout(s: State, keys: seq<Key>)
    requires Reachable(s)
    decreases keys
  {
    keys == [] || (Respects(s, keys[0]) && (StepReachable(s, keys[0]); RespectsThroughout(Step(s, keys[0]), keys[1..])))
  }

  /** Over every session, whatever is typed, recalled, completed, printed or set, the cursor row agrees
      with the edit buffer after every key if and only if every key respects the rules. */
  lemma {:induction false} SessionAgrees(s: State, keys: seq<Key>)
    requires Reachable(s) && Agrees(s)
    ensures AgreesThroughout(s, keys) <==> RespectsThroughout(s, keys)
    decreases keys
  {
    if keys != [] {
      StepReachable(s, keys[0]);
      StepAgrees(s, keys[0]);
      if Agrees(Step(s, keys[0])) {
        SessionAgrees(Step(s, keys[0]), keys[1..]);
      }
    }
  }

  /** Output that ends in a carriage return breaks the rule: the prompt is printed over it. */
  lemma ReturnBreaksLine(s: State, echo: bool)
    requires Reachable(s)
    ensures !Agrees(Step(s, Key(ENTER, Puts("ok\r"), Puts("$"), echo)))
  {
    var k := Key(ENTER, Puts("ok\r"), Puts("$"), echo);
    var l1 := RowPut(Fresh(), 'o');
    var l2 := RowPut(l1, 'k');
    assert k.output[1..][1..][1..] == [];
    assert RowRun(l1, k.output[1..]) == RowRun(l2, k.output[1..][1..]) == l2.(x := 0);
    assert Text(k.prompt) == "$";
    assert RowRun(Fresh(), k.output).row[1] == 'k';
    EnterAgrees(s, k);
  }

  /** So does a prompt of 80 characters. */
  lemma LongPromptBreaksLine(s: State, echo: bool)
    requires Reachable(s)
    ensures !Agrees(Step(s, Key(ENTER, [], Puts(seq(COLS, _ => '$')), echo)))
  {
    var k := Key(ENTER, [], Puts(seq(COLS, _ => '$')), echo);
    TextOfPuts(seq(COLS, _ => '$'));
    EnterAgrees(s, k);
  }

  lemma {:induction false} TextOfPuts(text: string)
    requires forall c | c in text :: Typeable(c)
    ensures IsPrompt(Puts(text)) && Text(Puts(text)) == text
    decreases text
  {
    if text != [] {
      assert Puts(text)[1..] == Puts(text[1..]);
      TextOfPuts(text[1..]);
    }
  }

  // ----- where nothing prints '\r'

  ghost predicate NoReturns(keys: seq<Key>) { forall k | k in keys :: Put('\r') !in k.output }

  /** Prompt and line stay within 79 cells, and nothing is typed with echo off. */
  ghost predicate Modest(s: State, keys: seq<Key>)
    requires Reachable(s)
    decreases keys
  {
    keys == [] ||
    (StepReachable(s, keys[0]);
     var s' := Step(s, keys[0]);
     && |s'.prompt| + |s'.edit.input| <= COLS - 1
     && (s.echo || keys[0].c == ENTER || !Types(s.ring, s.edit, keys[0].c))
     && Modest(s', keys[1..]))
  }

  /** In a session that prints no '\r' the row agrees with the buffer throughout exactly as long as prompt
      and line fit in 79 cells and nothing is typed with echo off. */
  lemma {:induction false} ModestSessionAgrees(s: State, keys: seq<Key>)
    requires Reachable(s) && Agrees(s) && NoReturns(keys)
    ensures AgreesThroughout(s, keys) <==> Modest(s, keys)
    decreases keys
  {
    if keys != [] {
      var k := keys[0];
      StepReachable(s, k);
      StepAgrees(s, k);
      BlankRest(Fresh(), k.output);
      if Agrees(Step(s, k)) {
        ModestSessionAgrees(Step(s, k), keys[1..]);
      }
    }
  }

  /** A session starts after any boot messages; its first line agrees under the same rule as every other. */
  lemma StartAgrees(cleared: Page, boot: seq<Op>, prompt: Prompt)
    requires IsScreen(cleared)
    ensures var screen := RunScreen(RunScreen(ClearScreen(cleared), boot), prompt);
            var s := State(EmptyRing(), Edit("", -1, screen), true, LineHead(boot, prompt), []);
            Reachable(s) && (Agrees(s) <==> Fits(RowRun(Fresh(), boot), Text(prompt)))
  {
    ClearedBelow(cleared);
    var screen := RunScreen(ClearScreen(cleared), boot);
    RunExact(ClearScreen(cleared), boot);
    RunExact(screen, prompt);
    PromptAgrees(screen, prompt);
    assert LineHead(boot, prompt) + "" == LineHead(boot, prompt);
  }

  // ----- what the arrows recall

  ghost function Press(r: Ring, echo: bool, e: Edit, c: char, times: nat): (e': Edit)
    requires IsHistory(r) && IsEdit(r, e)
    ensures IsEdit(r, e')
  {
    if times == 0 then e
    else
      var before := Press(r, echo, e, c, times - 1);
      KeyKeepsEdit(r, echo, before, c);
      KeyStep(r, echo, before, c)
  }

  lemma {:induction false} UpMoves(r: Ring, echo: bool, e: Edit, times: nat)
    requires IsHistory(r) && IsEdit(r, e) && e.current == -1 && r.pos > 0 && times > 0
    ensures var e' := Press(r, echo, e, UP, times);
            && e'.current == (if times <= r.pos then r.pos - times else 0)
            && e'.input == r.slots[e'.current]
  {
    if times > 1 {
      UpMoves(r, echo, e, times - 1);
    } else {
      assert Press(r, echo, e, UP, 0) == e;
    }
  }

  /** The k-th press of Up shows the k-th newest accepted command, and stops at the oldest one stored
      since the ring last wrapped. */
  lemma UpRecalls(s: State, times: nat)
    requires Reachable(s) && s.edit.current == -1 && s.ring.pos > 0 && times > 0
    ensures var back := if times <= s.ring.pos then times else s.ring.pos;
            var all := Accepted(s.lines);
            back <= |all| && Press(s.ring, s.echo, s.edit, UP, times).input == all[|all| - back]
  {
    AddAllHolds(s.lines);
    RecallsAt(s.ring, Accepted(s.lines), s.edit, s.echo, times);
  }

  lemma RecallsAt(r: Ring, all: seq<string>, e: Edit, echo: bool, times: nat)
    requires IsHistory(r) && IsEdit(r, e) && Holds(r, all) && e.current == -1 && r.pos > 0 && times > 0
    ensures var back := if times <= r.pos then times else r.pos;
            back <= |all| && Press(r, echo, e, UP, times).input == all[|all| - back]
  {
    UpMoves(r, echo, e, times);
    SlotMeaning(r, all, if times <= r.pos then r.pos - times else 0);
  }

  lemma SlotMeaning(r: Ring, all: seq<string>, k: nat)
    requires Holds(r, all) && k < r.pos
    ensures |all| >= r.pos && r.slots[k] == all[|all| - r.pos + k]
  {
    var j := |all| - r.pos + k;
    assert j % HISTORY_SIZE == k;
    assert r.slots[j % HISTORY_SIZE] == all[j];
  }

  /** After Down has been pressed fewer times than there are newer entries, the line is the entry that many
      places on. */
  lemma DownRecalls(r: Ring, echo: bool, e: Edit, times: nat)
    requires IsHistory(r) && IsEdit(r, e) && 0 <= e.current && 0 < times < r.pos - e.current
    ensures var e' := Press(r, echo, e, DOWN, times);
            e'.current == e.current + times && e'.input == r.slots[e.current + times]
  {
    DownMoves(r, echo, e, times - 1);
    DownKey(r, echo, Press(r, echo, e, DOWN, times - 1));
  }

  /** k presses of Up and fewer of Down show the accepted command that the difference alone would. */
  lemma UpsAndDowns(s: State, ups: nat, downs: nat)
    requires Reachable(s) && s.edit.current == -1 && downs < ups <= s.ring.pos
    ensures var e := Press(s.ring, s.echo, s.edit, UP, ups);
            var all := Accepted(s.lines);
            && ups <= |all|
            && Press(s.ring, s.echo, e, DOWN, downs).input == all[|all| - (ups - downs)]
  {
    AddAllHolds(s.lines);
    RecallsBetween(s.ring, Accepted(s.lines), s.edit, s.echo, ups, downs);
  }

  lemma RecallsBetween(r: Ring, all: seq<string>, e: Edit, echo: bool, ups: nat, downs: nat)
    requires IsHistory(r) && IsEdit(r, e) && Holds(r, all) && e.current == -1 && downs < ups <= r.pos
    ensures ups <= |all|
         && Press(r, echo, Press(r, echo, e, UP, ups), DOWN, downs).input == all[|all| - (ups - downs)]
  {
    SlotAfter(r, echo, e, ups, downs);
    SlotMeaning(r, all, r.pos - ups + downs);
  }

  lemma SlotAfter(r: Ring, echo: bool, e: Edit, ups: nat, downs: nat)
    requires IsHistory(r) && IsEdit(r, e) && e.current == -1 && downs < ups <= r.pos
    ensures Press(r, echo, Press(r, echo, e, UP, ups), DOWN, downs).input == r.slots[r.pos - ups + downs]
  {
    UpMoves(r, echo, e, ups);
    var up := Press(r, echo, e, UP, ups);
    if downs > 0 {
      DownRecalls(r, echo, up, downs);
    } else {
      assert Press(r, echo, up, DOWN, 0) == up;
    }
  }

  /** As many presses of Down as of Up end on an empty line with nothing recalled. */
  lemma {:induction false} UpThenDown(r: Ring, echo: bool, e: Edit, ups: nat)
    requires IsHistory(r) && IsEdit(r, e) && 0 <= e.current && ups == r.pos - e.current
    ensures var e' := Press(r, echo, e, DOWN, ups); e'.current == -1 && e'.input == ""
  {
    DownMoves(r, echo, e, ups - 1);
  }

  lemma {:induction false} DownMoves(r: Ring, echo: bool, e: Edit, times: nat)
    requires IsHistory(r) && IsEdit(r, e) && 0 <= e.current && times < r.pos - e.current
    ensures Press(r, echo, e, DOWN, times).current == e.current + times
  {
    if times > 0 {
      DownMoves(r, echo, e, times - 1);
    }
  }
}
