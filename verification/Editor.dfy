/** The key loop of `start_shell` in kernel/shell.c as a value: the line being edited, the history
    cursor and the screen it echoes on. */
module Editor {
  import opened History
  import opened Screen
  import opened Limits

  const ENTER := '\r'
  const UP := 'H'      // 0x48
  const DOWN := 'P'    // 0x50

  const COMMANDS := [
    "help", "clear", "echo", "exit", "shutdown", "reboot",
    "beep", "memory", "uptime", "date", "ls", "cat",
    "mkdir", "touch", "rm", "write", "banner", "alias",
    "set", "history", "sysinfo", "calc", "sound"]

  /** `position` is the length of `input`; `current` is -1 when no history entry is recalled. */
  datatype Edit = Edit(input: string, current: int, screen: Page)

  predicate Typeable(c: char) { ' ' <= c <= '~' }

  ghost predicate IsLine(s: string) {
    |s| <= MAX_INPUT - 2 && forall c | c in s :: Typeable(c)
  }

  ghost predicate IsHistory(r: Ring) { IsRing(r) && forall s | s in r.slots :: IsLine(s) }

  ghost predicate IsEdit(r: Ring, e: Edit) {
    IsLine(e.input) && IsScreen(e.screen) && (e.current == -1 || 0 <= e.current < r.pos)
  }

  const RUBOUT := [BACKSPACE, ' ', BACKSPACE]

  /** The clearing loop: one "\b \b" per character. */
  function Rubout(s: Page, n: nat): (s': Page)
    requires IsScreen(s)
    ensures IsScreen(s')
    decreases n
  {
    if n == 0 then s else Rubout(RunScreen(s, Puts(RUBOUT)), n - 1)
  }

  function Print(s: Page, text: string): (s': Page)
    requires IsScreen(s)
    ensures IsScreen(s')
  {
    RunScreen(s, Puts(text))
  }

  /** Replaces the line by `text`, on the screen too. */
  function Recall(e: Edit, current: int, text: string): Edit
    requires IsScreen(e.screen)
  {
    Edit(text, current, Print(Rubout(e.screen, |e.input|), text))
  }

  predicate IsPrefix(a: string, b: string) { |a| <= |b| && b[..|a|] == a }

  /** The first command, in table order, that starts with the input; the input itself if none does. */
  function Completion(input: string, commands: seq<string>): (r: string)
    ensures IsPrefix(input, r)
    ensures r != input ==> r in commands
    decreases commands, input
  {
    if commands == [] then input
    else if IsPrefix(input, commands[0]) then commands[0]
    else Completion(input, commands[1..])
  }

  /** A completion is a command exactly when some command starts with the input, and then the first. */
  lemma {:induction false} CompletionIsFirst(input: string, commands: seq<string>, k: nat)
    requires k < |commands| && IsPrefix(input, commands[k])
    requires forall j | 0 <= j < k :: !IsPrefix(input, commands[j])
    ensures Completion(input, commands) == commands[k]
    decreases k
  {
    if k > 0 {
      assert !IsPrefix(input, commands[0]);
      CompletionIsFirst(input, commands[1..], k - 1);
    }
  }

  lemma {:induction false} NoCompletion(input: string, commands: seq<string>)
    requires forall j | 0 <= j < |commands| :: !IsPrefix(input, commands[j])
    ensures Completion(input, commands) == input
    decreases commands
  {
    if commands != [] {
      NoCompletion(input, commands[1..]);
    }
  }

  /** One key. Keys are tested in the order of the C code, so 'H' and 'P' are ordinary characters
      when there is no history to move in. */
  function KeyStep(r: Ring, echo: bool, e: Edit, c: char): Edit
    requires IsHistory(r) && IsEdit(r, e)
  {
    var n := |e.input|;
    if c == ENTER then e.(screen := Print(e.screen, "\n"))
    else if c == BACKSPACE && n > 0 then
      e.(input := e.input[..n - 1], screen := Print(e.screen, RUBOUT))
    else if c == UP && r.pos > 0 then
      var current := if e.current == -1 then r.pos - 1 else if e.current > 0 then e.current - 1 else e.current;
      Recall(e, current, r.slots[current])
    else if c == DOWN && e.current != -1 then
      if e.current < r.pos - 1 then Recall(e, e.current + 1, r.slots[e.current + 1])
      else Recall(e, -1, "")
    else if c == '\t' then
      if n > 0 then
        var text := Completion(e.input, COMMANDS);
        e.(input := text, screen := Print(e.screen, text[n..]))
      else e
    else if n < MAX_INPUT - 2 && Typeable(c) then
      e.(input := e.input + [c], screen := if echo then Print(e.screen, [c]) else e.screen)
    else e
  }

  lemma CommandsAreLines()
    ensures forall s | s in COMMANDS :: IsLine(s)
  {
    forall k | 0 <= k < |COMMANDS|
      ensures IsLine(COMMANDS[k])
    {
    }
  }

  /** Over every key, the line stays printable with its NUL at 126 or before, and the history cursor
      stays -1 or inside the written part of the ring. */
  lemma KeyKeepsEdit(r: Ring, echo: bool, e: Edit, c: char)
    requires IsHistory(r) && IsEdit(r, e)
    ensures IsEdit(r, KeyStep(r, echo, e, c))
  {
    CommandsAreLines();
  }

  // ----- what each key does to the line

  /** The key moves in the history. */
  predicate Moves(r: Ring, e: Edit, c: char) { (c == 'H' && r.pos > 0) || (c == 'P' && e.current != -1) }

  /** A printable key that does not move in the history appends exactly itself, up to 126 characters, and a
      backspace after it gives back the line. It shows exactly if echo is on. */
  lemma TypedKey(r: Ring, echo: bool, e: Edit, c: char)
    requires IsHistory(r) && IsEdit(r, e) && 32 <= c as int <= 126 && !Moves(r, e, c) && |e.input| < 126
    ensures var e' := KeyStep(r, echo, e, c);
            && e'.input == e.input + [c] && e'.current == e.current && IsEdit(r, e')
            && e'.screen == (if echo then PutScreen(e.screen, c) else e.screen)
            && KeyStep(r, echo, e', BACKSPACE).input == e.input
  {
    KeyKeepsEdit(r, echo, e, c);
    assert Puts([c])[1..] == [] && Puts([c])[0] == Put(c);
    assert RunScreen(PutScreen(e.screen, c), Puts([c])[1..]) == PutScreen(e.screen, c);
  }

  /** A backspace takes the last character of a line that has one. */
  lemma BackspaceKey(r: Ring, echo: bool, e: Edit)
    requires IsHistory(r) && IsEdit(r, e)
    ensures var e' := KeyStep(r, echo, e, BACKSPACE);
            && e'.current == e.current
            && (e.input == "" ==> e' == e)
            && (forall line, c | e.input == line + [c] :: e'.input == line)
  {
    forall line, c | e.input == line + [c]
      ensures KeyStep(r, echo, e, BACKSPACE).input == line
    {
      assert (line + [c])[..|line|] == line;
    }
  }

  /** Up goes one entry back in the slots written since the last wrap, from the newest, and stays on the
      first one; the line becomes the entry. */
  lemma UpKey(r: Ring, echo: bool, e: Edit)
    requires IsHistory(r) && IsEdit(r, e) && r.pos > 0
    ensures var e' := KeyStep(r, echo, e, 'H');
            && e'.input == r.slots[e'.current]
            && (e.current == -1 ==> e'.current == r.pos - 1)
            && (e.current > 0 ==> e'.current == e.current - 1)
            && (e.current == 0 ==> e'.current == 0)
  {
  }

  /** Down goes one entry forward, and past the newest to an empty line. */
  lemma DownKey(r: Ring, echo: bool, e: Edit)
    requires IsHistory(r) && IsEdit(r, e) && e.current >= 0
    ensures var e' := KeyStep(r, echo, e, 'P');
            if e.current + 1 < r.pos then e'.current == e.current + 1 && e'.input == r.slots[e.current + 1]
            else e'.current == -1 && e'.input == ""
  {
  }

  /** Tab replaces a line by the first command of the table that has it as a prefix; an empty line, or one
      that no command starts with, stays. */
  lemma TabKey(r: Ring, echo: bool, e: Edit)
    requires IsHistory(r) && IsEdit(r, e)
    ensures var e' := KeyStep(r, echo, e, '\t');
            && e'.current == e.current
            && (e.input == "" ==> e' == e)
            && ((forall j | 0 <= j < |COMMANDS| :: !IsPrefix(e.input, COMMANDS[j])) ==> e'.input == e.input)
            && (forall k | e.input != "" && 0 <= k < |COMMANDS| && IsPrefix(e.input, COMMANDS[k])
                  && (forall j | 0 <= j < k :: !IsPrefix(e.input, COMMANDS[j])) ::
                  e'.input == COMMANDS[k])
  {
    if forall j | 0 <= j < |COMMANDS| :: !IsPrefix(e.input, COMMANDS[j]) {
      NoCompletion(e.input, COMMANDS);
    }
    forall k | e.input != "" && 0 <= k < |COMMANDS| && IsPrefix(e.input, COMMANDS[k])
      && (forall j | 0 <= j < k :: !IsPrefix(e.input, COMMANDS[j]))
      ensures KeyStep(r, echo, e, '\t').input == COMMANDS[k]
    {
      CompletionIsFirst(e.input, COMMANDS, k);
    }
  }

  /** Enter keeps the line; every other key, and every printable one on a full line, changes nothing. */
  lemma OtherKey(r: Ring, echo: bool, e: Edit, c: char)
    requires IsHistory(r) && IsEdit(r, e) && c != '\t' && c != BACKSPACE && !Moves(r, e, c)
    requires 32 <= c as int <= 126 ==> |e.input| >= 126
    ensures var e' := KeyStep(r, echo, e, c);
            if c == '\r' then e'.input == e.input && e'.current == e.current else e' == e
  {
  }

  // ----- the cursor row

  function Spaces(n: nat): (s: string)
    ensures |s| == n && forall k | 0 <= k < n :: s[k] == ' '
  {
    seq(n, _ => ' ')
  }

  function Row(s: Page): (row: string)
    requires IsScreen(s)
    ensures |row| == COLS
  {
    seq(COLS, k requires 0 <= k < COLS => s.cells[s.y * COLS + k].ch)
  }

  /** The cursor row reads `text` then blanks, with the cursor right after the text. */
  ghost predicate Shows(s: Page, text: string) {
    && IsScreen(s) && s.x == |text|
    && Row(s) == text + Spaces(COLS - |text|)
  }

  /** Nothing but the cursor row differs. */
  ghost predicate SameElsewhere(s: Page, s': Page) {
    && IsScreen(s) && IsScreen(s') && s'.y == s.y && s'.attr == s.attr
    && forall k | 0 <= k < CELLS && !(s.y * COLS <= k < s.y * COLS + COLS) :: s'.cells[k] == s.cells[k]
  }

  lemma RowCell(s: Page, k: nat)
    requires IsScreen(s) && k < COLS
    ensures Row(s)[k] == s.cells[s.y * COLS + k].ch
  {
  }

  lemma TypeOne(s: Page, text: string, c: char)
    requires Shows(s, text) && |text| < COLS - 1 && Typeable(c)
    ensures Shows(PutScreen(s, c), text + [c]) && SameElsewhere(s, PutScreen(s, c))
  {
    var s' := PutScreen(s, c);
    assert s' == s.(x := s.x + 1, cells := s.cells[s.y * COLS + s.x := Cell(c, s.attr)]);
    var want := text + [c] + Spaces(COLS - |text| - 1);
    forall k | 0 <= k < COLS
      ensures Row(s')[k] == want[k]
    {
      RowCell(s, k);
      RowCell(s', k);
      assert Row(s)[k] == (text + Spaces(COLS - |text|))[k];
    }
    assert Row(s') == want;
  }

  lemma {:induction false} TypeText(s: Page, text: string, more: string)
    requires Shows(s, text) && |text| + |more| <= COLS - 1 && forall c | c in more :: Typeable(c)
    ensures Shows(Print(s, more), text + more) && SameElsewhere(s, Print(s, more))
    decreases more
  {
    if more == [] {
      assert text + more == text;
    } else {
      TypeOne(s, text, more[0]);
      assert Puts(more)[1..] == Puts(more[1..]);
      assert text + [more[0]] + more[1..] == text + more;
      TypeText(PutScreen(s, more[0]), text + [more[0]], more[1..]);
    }
  }

  /** "\b \b" erases exactly one cell. */
  lemma RuboutOne(s: Page, text: string)
    requires Shows(s, text) && text != []
    ensures Shows(Print(s, RUBOUT), text[..|text| - 1]) && SameElsewhere(s, Print(s, RUBOUT))
  {
    var s1 := PutScreen(s, BACKSPACE);
    var s2 := PutScreen(s1, ' ');
    var s3 := PutScreen(s2, BACKSPACE);
    var ops := Puts(RUBOUT);
    assert ops == [Put(BACKSPACE), Put(' '), Put(BACKSPACE)];
    assert ops[1..] == [Put(' '), Put(BACKSPACE)] && ops[1..][1..] == [Put(BACKSPACE)];
    assert ops[1..][1..][1..] == [];
    assert Print(s, RUBOUT) == RunScreen(s1, ops[1..]) == RunScreen(s2, ops[1..][1..]) == RunScreen(s3, []);
    assert s3.x == s.x - 1 && s3.cells == s.cells[s.y * COLS + s.x - 1 := Blank(s.attr)];
    var n := |text| - 1;
    var want := text[..n] + Spaces(COLS - n);
    forall k | 0 <= k < COLS
      ensures Row(s3)[k] == want[k]
    {
      RowCell(s, k);
      RowCell(s3, k);
      assert Row(s)[k] == (text + Spaces(COLS - |text|))[k];
    }
    assert Row(s3) == want;
  }

  lemma {:induction false} RuboutAll(s: Page, text: string, n: nat)
    requires Shows(s, text) && n <= |text|
    ensures Shows(Rubout(s, n), text[..|text| - n]) && SameElsewhere(s, Rubout(s, n))
    decreases n
  {
    if n == 0 {
      assert text[..|text|] == text;
    } else {
      var short := text[..|text| - 1];
      RuboutOne(s, text);
      RuboutAll(Print(s, RUBOUT), short, n - 1);
      assert short[..|short| - (n - 1)] == text[..|text| - n];
    }
  }

  // ----- the screen agrees with the buffer

  lemma RecallAgrees(e: Edit, prompt: string, current: int, text: string)
    requires Shows(e.screen, prompt + e.input) && |prompt| + |text| <= COLS - 1
    requires forall c | c in text :: Typeable(c)
    ensures var e' := Recall(e, current, text);
            Shows(e'.screen, prompt + text) && SameElsewhere(e.screen, e'.screen)
  {
    RuboutAll(e.screen, prompt + e.input, |e.input|);
    assert (prompt + e.input)[..|prompt|] == prompt;
    TypeText(Rubout(e.screen, |e.input|), prompt, text);
  }

  lemma CompletionAgrees(e: Edit, prompt: string, text: string)
    requires Shows(e.screen, prompt + e.input) && IsPrefix(e.input, text) && IsLine(text)
    requires |prompt| + |text| <= COLS - 1
    ensures var s' := Print(e.screen, text[|e.input|..]);
            Shows(s', prompt + text) && SameElsewhere(e.screen, s')
  {
    var more := text[|e.input|..];
    assert prompt + e.input + more == prompt + text;
    assert forall c | c in more :: c in text;
    TypeText(e.screen, prompt + e.input, more);
  }

  /** With echo on, every key but Enter keeps the cursor row equal to prompt, line and blanks with the
      cursor after the line, exactly as long as prompt and line fit in 79 cells; the other rows stay. */
  lemma KeyAgrees(r: Ring, e: Edit, prompt: string, c: char)
    requires IsHistory(r) && IsEdit(r, e) && c != ENTER
    requires Shows(e.screen, prompt + e.input)
    ensures var e' := KeyStep(r, true, e, c);
            Shows(e'.screen, prompt + e'.input) <==> |prompt| + |e'.input| <= COLS - 1
    ensures var e' := KeyStep(r, true, e, c);
            |prompt| + |e'.input| <= COLS - 1 ==> SameElsewhere(e.screen, e'.screen)
  {
    var n := |e.input|;
    var e' := KeyStep(r, true, e, c);
    KeyKeepsEdit(r, true, e, c);
    if |prompt| + |e'.input| <= COLS - 1 {
      if c == BACKSPACE && n > 0 {
        RuboutOne(e.screen, prompt + e.input);
        assert (prompt + e.input)[..|prompt| + n - 1] == prompt + e.input[..n - 1];
      } else if c == UP && r.pos > 0 {
        RecallAgrees(e, prompt, e'.current, e'.input);
      } else if c == DOWN && e.current != -1 {
        RecallAgrees(e, prompt, e'.current, e'.input);
      } else if c == '\t' {
        if n > 0 {
          CompletionAgrees(e, prompt, e'.input);
        }
      } else if n < MAX_INPUT - 2 && Typeable(c) {
        assert prompt + (e.input + [c]) == prompt + e.input + [c];
        TypeText(e.screen, prompt + e.input, [c]);
      }
    }
  }

  /** With echo off it fails: a typed key is not shown, but its backspace erases a cell of the prompt. */
  lemma EchoOffErasesPrompt(r: Ring, e: Edit, prompt: string, c: char)
    requires IsHistory(r) && IsEdit(r, e) && Shows(e.screen, prompt + e.input) && prompt != []
    requires e.input == "" && c == 'a'
    ensures var e1 := KeyStep(r, false, e, c);
            IsEdit(r, e1)
            && var e2 := KeyStep(r, false, e1, BACKSPACE);
               e2.input == "" && Shows(e2.screen, prompt[..|prompt| - 1])
  {
    KeyKeepsEdit(r, false, e, c);
    assert prompt + e.input == prompt;
    RuboutOne(e.screen, prompt);
  }
}
