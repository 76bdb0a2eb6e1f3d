/** The cursor row alone: what a stream of operations leaves on it can be computed without the screen,
    because every row below the cursor is always blank. */
module CursorRow {
  import opened Screen
  import opened Editor

  /** A row and the column of the cursor in it. */
  datatype Line = Line(row: string, x: nat)

  predicate IsRow(l: Line) { |l.row| == COLS && l.x < COLS }

  function Fresh(): (l: Line)
    ensures IsRow(l)
  {
    Line(Spaces(COLS), 0)
  }

  function Cursor(s: Page): (l: Line)
    requires IsScreen(s)
    ensures IsRow(l)
  {
    Line(Row(s), s.x)
  }

  function RowPut(l: Line, c: char): (l': Line)
    requires IsRow(l)
    ensures IsRow(l')
  {
    if c == '\n' then Fresh()
    else if c == '\r' then l.(x := 0)
    else if c == BACKSPACE then
      if l.x > 0 then Line(l.row[l.x - 1 := ' '], l.x - 1) else l
    else if c == '\t' then
      if (l.x + 8) / 8 * 8 < COLS then l.(x := (l.x + 8) / 8 * 8) else Fresh()
    else
      if l.x + 1 < COLS then Line(l.row[l.x := c], l.x + 1) else Fresh()
  }

  function RowStep(l: Line, op: Op): (l': Line)
    requires IsRow(l)
    ensures IsRow(l')
  {
    match op
    case Put(c) => RowPut(l, c)
    case SetColor(_, _) => l
    case Clear => Fresh()
  }

  function RowRun(l: Line, ops: seq<Op>): (l': Line)
    requires IsRow(l)
    ensures IsRow(l')
    decreases ops
  {
    if ops == [] then l else RowRun(RowStep(l, ops[0]), ops[1..])
  }

  // ----- the screen agrees with it

  ghost predicate BlankBelow(s: Page)
    requires IsScreen(s)
  {
    forall k | (s.y + 1) * COLS <= k < CELLS :: s.cells[k].ch == ' '
  }

  /** The row below the cursor, or the one a scroll brings in, is blank. */
  lemma NewRow(s: Page, e: Page)
    requires IsScreen(s) && BlankBelow(s) && e.x == 0 && e.y == s.y + 1 && |e.cells| == CELLS
    requires forall k | (s.y + 1) * COLS <= k < CELLS :: e.cells[k] == s.cells[k]
    ensures IsScreen(Scroll(e)) && BlankBelow(Scroll(e)) && Cursor(Scroll(e)) == Fresh()
  {
    var t := Scroll(e);
    forall k | 0 <= k < COLS
      ensures Row(t)[k] == ' '
    {
      RowCell(t, k);
      if e.y >= ROWS {
        assert t.cells[t.y * COLS + k] == Blanks(COLS, e.attr)[k];
      } else {
        assert e.cells[e.y * COLS + k] == s.cells[e.y * COLS + k];
      }
    }
    assert Row(t) == Spaces(COLS);
  }

  /** A change of at most one cell of the cursor row. */
  lemma SameRow(s: Page, e: Page, at: nat, c: char)
    requires IsScreen(s) && BlankBelow(s) && at < COLS && 0 <= e.x < COLS && e.y == s.y && |e.cells| == CELLS
    requires forall k | 0 <= k < CELLS && k != s.y * COLS + at :: e.cells[k] == s.cells[k]
    requires e.cells[s.y * COLS + at].ch == c
    ensures BlankBelow(e) && Cursor(e) == Line(Row(s)[at := c], e.x)
  {
    forall k | 0 <= k < COLS
      ensures Row(e)[k] == Row(s)[at := c][k]
    {
      RowCell(s, k);
      RowCell(e, k);
    }
    assert Row(e) == Row(s)[at := c];
  }

  lemma PutExact(s: Page, c: char)
    requires IsScreen(s) && BlankBelow(s)
    ensures BlankBelow(PutScreen(s, c)) && Cursor(PutScreen(s, c)) == RowPut(Cursor(s), c)
  {
    var e := Wrap(Emit(s, c));
    if e.y == s.y + 1 {
      NewRow(s, e);
    } else if c == BACKSPACE && s.x > 0 {
      SameRow(s, e, s.x - 1, ' ');
    } else if Printable(c) {
      SameRow(s, e, s.x, c);
    } else {
      RowCell(s, 0);
      SameRow(s, e, 0, Row(s)[0]);
      assert Row(s)[0 := Row(s)[0]] == Row(s);
    }
  }

  lemma StepExact(s: Page, op: Op)
    requires IsScreen(s) && BlankBelow(s)
    ensures BlankBelow(StepScreen(s, op)) && Cursor(StepScreen(s, op)) == RowStep(Cursor(s), op)
  {
    match op
    case Put(c) => PutExact(s, c);
    case SetColor(_, _) =>
      assert Row(StepScreen(s, op)) == Row(s);
    case Clear =>
      assert Row(ClearScreen(s)) == Spaces(COLS);
  }

  /** Whatever is printed, the cursor row is the one computed without the screen, and the rows below it
      stay blank. */
  lemma {:induction false} RunExact(s: Page, ops: seq<Op>)
    requires IsScreen(s) && BlankBelow(s)
    ensures BlankBelow(RunScreen(s, ops)) && Cursor(RunScreen(s, ops)) == RowRun(Cursor(s), ops)
    decreases ops
  {
    if ops != [] {
      StepExact(s, ops[0]);
      RunExact(StepScreen(s, ops[0]), ops[1..]);
    }
  }

  lemma ClearedBelow(s: Page)
    requires IsScreen(s)
    ensures BlankBelow(ClearScreen(s)) && Cursor(ClearScreen(s)) == Fresh()
  {
    assert Row(ClearScreen(s)) == Spaces(COLS);
  }

  // ----- where a prompt is printed

  /** A prompt changes colours and prints printable characters. */
  predicate IsPrompt(ops: seq<Op>) {
    forall op | op in ops :: op.SetColor? || (op.Put? && Typeable(op.c))
  }

  function Text(ops: seq<Op>): string
    requires IsPrompt(ops)
    decreases ops
  {
    if ops == [] then "" else (if ops[0].Put? then [ops[0].c] else "") + Text(ops[1..])
  }

  /** The text fits before the last column, and the row is blank behind it. */
  predicate Fits(l: Line, text: string)
    requires IsRow(l)
  {
    l.x + |text| <= COLS - 1 && forall k | l.x + |text| <= k < COLS :: l.row[k] == ' '
  }

  /** The row reads `text` and then blanks, the cursor standing after the text. */
  ghost predicate Reads(l: Line, text: string) {
    l.x == |text| && |text| <= COLS && l.row == text + Spaces(COLS - |text|)
  }

  lemma ReadsIff(l: Line)
    requires IsRow(l)
    ensures Reads(l, l.row[..l.x]) <==> forall k | l.x <= k < COLS :: l.row[k] == ' '
  {
    var want := l.row[..l.x] + Spaces(COLS - l.x);
    assert forall k | l.x <= k < COLS :: want[k] == ' ';
    if forall k | l.x <= k < COLS :: l.row[k] == ' ' {
      assert l.row == want;
    }
  }

  /** A prompt on a row overwrites the row from the cursor, as far as the row goes. */
  lemma {:induction false} PromptOverwrites(l: Line, ops: seq<Op>)
    requires IsRow(l) && IsPrompt(ops) && l.x + |Text(ops)| <= COLS - 1
    ensures var l' := RowRun(l, ops);
            && l'.x == l.x + |Text(ops)| && l'.row[..l'.x] == l.row[..l.x] + Text(ops)
            && l'.row[l'.x..] == l.row[l'.x..]
    decreases ops
  {
    if ops != [] {
      var l1 := RowStep(l, ops[0]);
      PromptOverwrites(l1, ops[1..]);
      if ops[0].Put? {
        assert l1 == Line(l.row[l.x := ops[0].c], l.x + 1);
        assert l1.row[..l1.x] == l.row[..l.x] + [ops[0].c];
        var n := l1.x + |Text(ops[1..])|;
        assert l1.row[n..] == l.row[n..];
      }
    }
  }

  /** A prompt is shown behind what the row held before the cursor, and nothing behind it, exactly when
      it fits. */
  lemma PromptShows(l: Line, ops: seq<Op>)
    requires IsRow(l) && IsPrompt(ops)
    ensures Reads(RowRun(l, ops), l.row[..l.x] + Text(ops)) <==> Fits(l, Text(ops))
  {
    var l', n := RowRun(l, ops), l.x + |Text(ops)|;
    if n <= COLS - 1 {
      PromptOverwrites(l, ops);
      ReadsIff(l');
      assert forall k | n <= k < COLS :: l'.row[k] == l'.row[n..][k - n] && l.row[k] == l.row[n..][k - n];
    }
  }

  /** Where no carriage return is printed the row stays blank from the cursor on. */
  lemma {:induction false} BlankRest(l: Line, ops: seq<Op>)
    requires IsRow(l) && Put('\r') !in ops && forall k | l.x <= k < COLS :: l.row[k] == ' '
    ensures forall k | RowRun(l, ops).x <= k < COLS :: RowRun(l, ops).row[k] == ' '
    decreases ops
  {
    if ops != [] {
      BlankRest(RowStep(l, ops[0]), ops[1..]);
    }
  }
}
