/** The 25x80 text screen of kernel/terminal.c as a value, and the unbounded document it shows. */
module Screen {

  const COLS := 80
  const ROWS := 25
  const CELLS := COLS * ROWS
  const BACKSPACE: char := '\U{8}'

  /** One word of video memory: character in the low byte, attribute in the high byte. */
  datatype Cell = Cell(ch: char, attr: nat)

  /** Cells in reading order with a cursor. A screen has 25 rows; a document has any number. */
  datatype Page = Page(cells: seq<Cell>, x: int, y: int, attr: nat)

  datatype Op = Put(c: char) | SetColor(fg: nat, bg: nat) | Clear

  function Blank(attr: nat): Cell { Cell(' ', attr) }

  function Blanks(n: nat, attr: nat): (s: seq<Cell>)
    ensures |s| == n && forall k | 0 <= k < n :: s[k] == Blank(attr)
  {
    seq(n, _ => Blank(attr))
  }

  ghost predicate IsScreen(s: Page) {
    |s.cells| == CELLS && 0 <= s.x < COLS && 0 <= s.y < ROWS
  }

  /** `terminal_setcolor`: a byte with the background in its high half. */
  function Attribute(fg: nat, bg: nat): nat { (bg * 16) % 256 + fg % 16 }

  /** Both nibbles can be read back from the attribute byte. */
  lemma AttributeDecodes(fg: nat, bg: nat)
    ensures Attribute(fg, bg) < 256
    ensures Attribute(fg, bg) % 16 == fg % 16 && Attribute(fg, bg) / 16 == bg % 16
  {
    assert (bg * 16) % 256 == bg % 16 * 16;
  }

  // ----- one character, in the three stages of `putchar`

  function Emit(p: Page, c: char): Page
    requires 0 <= p.x < COLS && 0 <= p.y && (p.y + 1) * COLS <= |p.cells|
  {
    var at := p.y * COLS + p.x;
    if c == '\n' then p.(x := 0, y := p.y + 1)
    else if c == '\r' then p.(x := 0)
    else if c == BACKSPACE then
      if p.x > 0 then p.(x := p.x - 1, cells := p.cells[at - 1 := Blank(p.attr)]) else p
    else if c == '\t' then p.(x := (p.x + 8) / 8 * 8)
    else p.(x := p.x + 1, cells := p.cells[at := Cell(c, p.attr)])
  }

  function Wrap(p: Page): Page {
    if p.x >= COLS then p.(x := 0, y := p.y + 1) else p
  }

  function Scroll(p: Page): Page
    requires |p.cells| == CELLS
  {
    if p.y >= ROWS then p.(cells := p.cells[COLS..] + Blanks(COLS, p.attr), y := ROWS - 1) else p
  }

  function PutScreen(s: Page, c: char): (s': Page)
    requires IsScreen(s)
    ensures IsScreen(s') && s'.attr == s.attr
  {
    Scroll(Wrap(Emit(s, c)))
  }

  function ClearScreen(s: Page): (s': Page)
    requires IsScreen(s)
    ensures IsScreen(s')
  {
    Page(Blanks(CELLS, s.attr), 0, 0, s.attr)
  }

  function StepScreen(s: Page, op: Op): (s': Page)
    requires IsScreen(s)
    ensures IsScreen(s')
  {
    match op
    case Put(c) => PutScreen(s, c)
    case SetColor(fg, bg) => s.(attr := Attribute(fg, bg))
    case Clear => ClearScreen(s)
  }

  function RunScreen(s: Page, ops: seq<Op>): (s': Page)
    requires IsScreen(s)
    ensures IsScreen(s')
    decreases ops
  {
    if ops == [] then s else RunScreen(StepScreen(s, ops[0]), ops[1..])
  }

  function Puts(text: string): (ops: seq<Op>)
    ensures |ops| == |text| && forall k | 0 <= k < |text| :: ops[k] == Put(text[k])
  {
    seq(|text|, k requires 0 <= k < |text| => Put(text[k]))
  }

  lemma PutsStep(s: Page, text: string, k: nat)
    requires IsScreen(s) && k < |text|
    ensures RunScreen(s, Puts(text[k..])) == RunScreen(PutScreen(s, text[k]), Puts(text[k + 1..]))
  {
    assert Puts(text[k..])[1..] == Puts(text[k + 1..]);
  }

  lemma {:induction false} RunScreenAppend(s: Page, a: seq<Op>, b: seq<Op>)
    requires IsScreen(s)
    ensures RunScreen(s, a + b) == RunScreen(RunScreen(s, a), b)
    decreases a
  {
    if a == [] {
      assert a + b == b;
    } else {
      assert (a + b)[1..] == a[1..] + b;
      RunScreenAppend(StepScreen(s, a[0]), a[1..], b);
    }
  }

  // ----- the unbounded document

  ghost predicate IsDocument(d: Page) {
    && |d.cells| % COLS == 0 && |d.cells| >= CELLS && 0 <= d.x < COLS
    && Top(d) <= d.y < |d.cells| / COLS
  }

  /** The first row shown. */
  ghost function Top(d: Page): int { |d.cells| / COLS - ROWS }

  ghost function Grow(d: Page): Page {
    if (d.y + 1) * COLS > |d.cells| then d.(cells := d.cells + Blanks(COLS, d.attr)) else d
  }

  ghost function PutDocument(d: Page, c: char): Page
    requires IsDocument(d)
  {
    Grow(Wrap(Emit(d, c)))
  }

  /** Nothing ever leaves a document: clearing starts a fresh page of 25 rows below the old ones. */
  ghost function StepDocument(d: Page, op: Op): Page
    requires IsDocument(d)
  {
    match op
    case Put(c) => PutDocument(d, c)
    case SetColor(fg, bg) => d.(attr := Attribute(fg, bg))
    case Clear => Page(d.cells + Blanks(CELLS, d.attr), 0, |d.cells| / COLS, d.attr)
  }

  ghost function Window(d: Page): Page
    requires IsDocument(d)
  {
    d.(cells := d.cells[|d.cells| - CELLS..], y := d.y - Top(d))
  }

  lemma PutKeepsDocument(d: Page, c: char)
    requires IsDocument(d)
    ensures IsDocument(PutDocument(d, c))
    ensures var d' := PutDocument(d, c);
            || (|d'.cells| == |d.cells|)
            || (|d'.cells| == |d.cells| + COLS && d'.cells[|d.cells|..] == Blanks(COLS, d.attr))
    ensures var d' := PutDocument(d, c);
            |d'.cells| > |d.cells| <==> d'.y * COLS == |d.cells|
  {
  }

  /** Setting a cell inside the window, on a page of `top` more rows. */
  lemma SetInWindow(cells: seq<Cell>, top: nat, at: nat, cell: Cell)
    requires |cells| == CELLS + top * COLS && at < CELLS
    ensures cells[top * COLS + at := cell][top * COLS..] == cells[top * COLS..][at := cell]
  {
  }

  lemma EmitWindow(d: Page, c: char)
    requires IsDocument(d)
    ensures var w := Window(d); var e := Emit(d, c);
            |e.cells| == |d.cells|
            && Emit(w, c) == e.(cells := e.cells[|d.cells| - CELLS..], y := e.y - Top(d))
  {
    var w := Window(d);
    var at := w.y * COLS + w.x;
    assert Top(d) * COLS == |d.cells| - CELLS && d.y * COLS + d.x == Top(d) * COLS + at;
    if c == BACKSPACE && d.x > 0 {
      SetInWindow(d.cells, Top(d), at - 1, Blank(d.attr));
    } else if Printable(c) {
      SetInWindow(d.cells, Top(d), at, Cell(c, d.attr));
    }
  }

  /** `putchar` on the window is `putchar` on the document, seen through the window. */
  lemma PutRefines(d: Page, c: char)
    requires IsDocument(d)
    ensures IsDocument(PutDocument(d, c)) && IsScreen(Window(d))
    ensures Window(PutDocument(d, c)) == PutScreen(Window(d), c)
  {
    PutKeepsDocument(d, c);
    WrapWindow(d, c);
    GrowScrolls(Wrap(Emit(d, c)), Wrap(Emit(Window(d), c)), |d.cells| / COLS);
  }

  lemma WrapWindow(d: Page, c: char)
    requires IsDocument(d)
    ensures var e, v := Wrap(Emit(d, c)), Wrap(Emit(Window(d), c)); var rows := |d.cells| / COLS;
            && |e.cells| == rows * COLS && e.y <= rows
            && v == e.(cells := e.cells[|e.cells| - CELLS..], y := e.y - (rows - ROWS))
  {
    EmitWindow(d, c);
  }

  /** Growing a document by a row is scrolling its window. */
  lemma GrowScrolls(e: Page, v: Page, rows: nat)
    requires rows >= ROWS && |e.cells| == rows * COLS && e.y <= rows
    requires v == e.(cells := e.cells[|e.cells| - CELLS..], y := e.y - (rows - ROWS))
    ensures var g := Grow(e);
            |g.cells| >= CELLS
            && Scroll(v) == g.(cells := g.cells[|g.cells| - CELLS..], y := g.y - (|g.cells| / COLS - ROWS))
  {
    if e.y == rows {
      var more := e.cells + Blanks(COLS, e.attr);
      assert more[|more| - CELLS..] == v.cells[COLS..] + Blanks(COLS, e.attr);
    }
  }

  lemma StepRefines(d: Page, op: Op)
    requires IsDocument(d)
    ensures IsDocument(StepDocument(d, op)) && IsScreen(Window(d))
    ensures Window(StepDocument(d, op)) == StepScreen(Window(d), op)
  {
    match op
    case Put(c) => PutRefines(d, c);
    case SetColor(_, _) =>
    case Clear => ClearRefines(d);
  }

  lemma ClearRefines(d: Page)
    requires IsDocument(d)
    ensures IsDocument(StepDocument(d, Clear))
    ensures Window(StepDocument(d, Clear)) == Page(Blanks(CELLS, d.attr), 0, 0, d.attr)
  {
    var cells := d.cells + Blanks(CELLS, d.attr);
    assert cells[|cells| - CELLS..] == Blanks(CELLS, d.attr);
  }

  ghost function RunDocument(d: Page, ops: seq<Op>): (d': Page)
    requires IsDocument(d)
    ensures IsDocument(d')
    decreases ops
  {
    if ops == [] then d else
      StepRefines(d, ops[0]);
      RunDocument(StepDocument(d, ops[0]), ops[1..])
  }

  /** For every stream of operations the screen is a 25-row window of the document. */
  lemma {:induction false} RunRefines(d: Page, ops: seq<Op>)
    requires IsDocument(d)
    ensures IsScreen(Window(d))
    ensures RunScreen(Window(d), ops) == Window(RunDocument(d, ops))
    decreases ops
  {
    if ops != [] {
      StepRefines(d, ops[0]);
      RunRefines(StepDocument(d, ops[0]), ops[1..]);
    }
  }

  lemma WindowOfScreen(s: Page)
    requires IsScreen(s)
    ensures IsDocument(s) && Window(s) == s
  {
    assert s.cells[|s.cells| - CELLS..] == s.cells;
  }

  /** A screen is a document that has not scrolled yet, so the refinement covers every run from any
      screen. */
  lemma ScreenIsWindow(s: Page, ops: seq<Op>)
    requires IsScreen(s)
    ensures IsDocument(s) && RunScreen(s, ops) == Window(RunDocument(s, ops))
  {
    WindowOfScreen(s);
    RunRefines(s, ops);
  }

  lemma StepFreezes(d: Page, op: Op, n: nat)
    requires IsDocument(d) && n <= |d.cells| - CELLS
    ensures |StepDocument(d, op).cells| >= |d.cells| && StepDocument(d, op).cells[..n] == d.cells[..n]
  {
  }

  /** Rows that have left the window never change again, and the window never moves back. */
  lemma {:induction false} HistoryIsFrozen(d: Page, ops: seq<Op>, n: nat)
    requires IsDocument(d) && n <= |d.cells| - CELLS
    ensures |RunDocument(d, ops).cells| >= |d.cells|
    ensures RunDocument(d, ops).cells[..n] == d.cells[..n]
    decreases ops
  {
    if ops != [] {
      StepFreezes(d, ops[0], n);
      StepRefines(d, ops[0]);
      HistoryIsFrozen(StepDocument(d, ops[0]), ops[1..], n);
    }
  }

  // ----- what printing means in the document

  predicate Printable(c: char) { c != '\n' && c != '\r' && c != '\t' && c != BACKSPACE }

  ghost function At(p: Page): int { p.y * COLS + p.x }

  /** The document after `text` is written over it from cell `at`; growth is blank. */
  ghost predicate Overwritten(d: Page, d': Page, at: int, text: string) {
    && |d'.cells| >= |d.cells|
    && 0 <= at && at + |text| <= |d'.cells|
    && (forall k | 0 <= k < |text| :: d'.cells[at + k] == Cell(text[k], d.attr))
    && (forall k | 0 <= k < |d.cells| && !(at <= k < at + |text|) :: d'.cells[k] == d.cells[k])
    && (forall k | |d.cells| <= k < |d'.cells| && !(at <= k < at + |text|) :: d'.cells[k] == Blank(d.attr))
  }

  lemma PrintOne(d: Page, c: char)
    requires IsDocument(d) && Printable(c)
    ensures var d' := PutDocument(d, c);
            IsDocument(d') && At(d') == At(d) + 1 && d'.attr == d.attr && Overwritten(d, d', At(d), [c])
  {
    PutKeepsDocument(d, c);
  }

  /** Printing a text lays it out from the cursor in reading order: row ends and scrolls show only in
      where the window stands. */
  lemma {:induction false} PrintWrites(d: Page, text: string)
    requires IsDocument(d) && forall c | c in text :: Printable(c)
    ensures var d' := RunDocument(d, Puts(text));
            At(d') == At(d) + |text| && d'.attr == d.attr && Overwritten(d, d', At(d), text)
    decreases text
  {
    if text == [] {
      assert Puts(text) == [];
    } else {
      var d1 := PutDocument(d, text[0]);
      PrintFirst(d, text);
      PrintStep(d, text);
      assert forall c | c in text[1..] :: c in text;
      PrintWrites(d1, text[1..]);
      PrintRest(d, d1, RunDocument(d1, Puts(text[1..])), text);
    }
  }

  lemma PrintRest(d: Page, d1: Page, d': Page, text: string)
    requires text != [] && d1.attr == d.attr == d'.attr
    requires At(d1) == At(d) + 1 && Overwritten(d, d1, At(d), text[..1])
    requires At(d') == At(d1) + |text[1..]| && Overwritten(d1, d', At(d1), text[1..])
    ensures At(d') == At(d) + |text| && Overwritten(d, d', At(d), text)
  {
    OverwrittenTwice(d, d1, d', At(d), text);
  }

  lemma PrintFirst(d: Page, text: string)
    requires IsDocument(d) && text != [] && Printable(text[0])
    ensures var d1 := PutDocument(d, text[0]);
            IsDocument(d1) && At(d1) == At(d) + 1 && d1.attr == d.attr && Overwritten(d, d1, At(d), text[..1])
  {
    PrintOne(d, text[0]);
    assert text[..1] == [text[0]];
  }

  lemma PrintStep(d: Page, text: string)
    requires IsDocument(d) && text != []
    ensures IsDocument(PutDocument(d, text[0]))
    ensures RunDocument(d, Puts(text)) == RunDocument(PutDocument(d, text[0]), Puts(text[1..]))
  {
    PutKeepsDocument(d, text[0]);
    assert Puts(text)[1..] == Puts(text[1..]);
  }

  lemma OverwrittenTwice(d: Page, d1: Page, d': Page, at: int, text: string)
    requires text != [] && d1.attr == d.attr
    requires Overwritten(d, d1, at, text[..1]) && Overwritten(d1, d', at + 1, text[1..])
    ensures Overwritten(d, d', at, text)
  {
    forall k | 0 <= k < |text|
      ensures d'.cells[at + k] == Cell(text[k], d.attr)
    {
      if k == 0 {
        assert d1.cells[at + 0] == Cell(text[..1][0], d.attr);
      } else {
        assert d'.cells[at + 1 + (k - 1)] == Cell(text[1..][k - 1], d.attr);
      }
    }
  }

  // ----- what each operation does to the document

  /** The cell of the document, or the blank one it would grow by. */
  ghost function CellOf(d: Page, k: nat): Cell { if k < |d.cells| then d.cells[k] else Blank(d.attr) }

  /** No cell is lost or changed, and growth is blank. */
  ghost predicate Keeps(d: Page, d': Page) {
    |d'.cells| >= |d.cells| && forall k | 0 <= k < |d'.cells| :: d'.cells[k] == CellOf(d, k)
  }

  /** A newline goes to the start of the next row, a carriage return to the start of this one, a tab to the
      next multiple of eight or the start of the next row; none of them changes a cell. */
  lemma PutMoves(d: Page, c: char)
    requires IsDocument(d) && (c == '\n' || c == '\r' || c == '\t')
    ensures var d' := PutDocument(d, c);
            && Keeps(d, d') && d'.attr == d.attr
            && (c == '\n' ==> d'.x == 0 && d'.y == d.y + 1)
            && (c == '\r' ==> d'.x == 0 && d'.y == d.y)
            && (c == '\t' && d.x < 72 ==> d'.y == d.y && d'.x % 8 == 0 && d.x < d'.x <= d.x + 8)
            && (c == '\t' && d.x >= 72 ==> d'.y == d.y + 1 && d'.x == 0)
  {
  }

  /** A backspace blanks the cell before the cursor and goes there; at the start of a row it does nothing. */
  lemma PutErases(d: Page)
    requires IsDocument(d)
    ensures var d' := PutDocument(d, BACKSPACE);
            && |d'.cells| == |d.cells| && d'.y == d.y && d'.attr == d.attr
            && d'.x == (if d.x > 0 then d.x - 1 else 0)
            && forall k | 0 <= k < |d.cells| ::
                 d'.cells[k] == if d.x > 0 && k == d.y * COLS + d.x - 1 then Cell(' ', d.attr) else d.cells[k]
  {
  }

  /** Clearing starts at the top of 25 rows that are blank in the current attribute, and changing the colour
      changes no cell and not the cursor. */
  lemma ClearStarts(d: Page, fg: nat, bg: nat)
    requires IsDocument(d)
    ensures var d' := StepDocument(d, Clear);
            && |d'.cells| == |d.cells| + 25 * 80 && Keeps(d, d') && d'.attr == d.attr
            && d'.x == 0 && d'.y * COLS == |d.cells|
    ensures var d' := StepDocument(d, SetColor(fg, bg));
            d'.cells == d.cells && d'.x == d.x && d'.y == d.y && d'.attr == Attribute(fg, bg)
  {
  }

  // ----- whole texts on the document

  /** Where the cursor stands in reading order after a character: a computation on one number. */
  function Advance(at: nat, c: char): nat {
    if c == '\n' then (at / COLS + 1) * COLS
    else if c == '\r' then at / COLS * COLS
    else if c == BACKSPACE then if at % COLS == 0 then at else at - 1
    else if c == '\t' then (at / 8 + 1) * 8
    else at + 1
  }

  function AdvanceAll(at: nat, text: string): nat
    decreases text
  {
    if text == [] then at else AdvanceAll(Advance(at, text[0]), text[1..])
  }

  /** What becomes of cell `k` when a text is printed from `at`: the last character that falls on it. */
  function Painted(at: nat, text: string, k: nat, attr: nat, cell: Cell): Cell
    decreases text
  {
    if text == [] then cell
    else Painted(Advance(at, text[0]), text[1..], k, attr, PaintedOnce(at, text[0], k, attr, cell))
  }

  function PaintedOnce(at: nat, c: char, k: nat, attr: nat, cell: Cell): Cell {
    if Printable(c) && k == at then Cell(c, attr)
    else if c == BACKSPACE && at % COLS != 0 && k == at - 1 then Blank(attr)
    else cell
  }

  lemma CursorColumn(d: Page)
    requires IsDocument(d)
    ensures 0 <= At(d) < |d.cells| && At(d) / COLS == d.y && At(d) % COLS == d.x
  {
  }

  lemma TabColumn(d: Page)
    requires IsDocument(d)
    ensures (At(d) / 8 + 1) * 8 == d.y * COLS + (d.x / 8 + 1) * 8
  {
    assert At(d) == 8 * (d.y * 10 + d.x / 8) + d.x % 8;
  }

  lemma PutPaints(d: Page, c: char)
    requires IsDocument(d)
    ensures IsDocument(PutDocument(d, c)) && Paints(d, PutDocument(d, c), c)
  {
    CursorColumn(d);
    PutKeepsDocument(d, c);
    if c == '\n' || c == '\r' || c == '\t' {
      MovesPaint(d, c);
    } else if c == BACKSPACE {
      PutErases(d);
    } else {
      PrintOne(d, c);
      PrintedPaints(d, PutDocument(d, c), c);
    }
  }

  /** `d'` is `d` with the character put at its cursor. */
  ghost predicate Paints(d: Page, d': Page, c: char) {
    && d'.attr == d.attr && |d'.cells| >= |d.cells|
    && At(d) >= 0 && At(d') == Advance(At(d), c)
    && forall k: nat :: CellOf(d', k) == PaintedOnce(At(d), c, k, d.attr, CellOf(d, k))
  }

  lemma MovesPaint(d: Page, c: char)
    requires IsDocument(d) && (c == '\n' || c == '\r' || c == '\t')
    ensures Paints(d, PutDocument(d, c), c)
  {
    CursorColumn(d);
    PutMoves(d, c);
    TabColumn(d);
  }

  lemma PrintedPaints(d: Page, d': Page, c: char)
    requires IsDocument(d) && Printable(c) && d'.attr == d.attr
    requires At(d') == At(d) + 1 && Overwritten(d, d', At(d), [c])
    ensures Paints(d, d', c)
  {
    CursorColumn(d);
    forall k: nat
      ensures CellOf(d', k) == PaintedOnce(At(d), c, k, d.attr, CellOf(d, k))
    {
      if k == At(d) {
        assert d'.cells[At(d) + 0] == Cell([c][0], d.attr);
      } else {
        OutsideText(d, d', At(d), [c], k);
      }
    }
  }

  /** Over every text, control characters included: the cursor is where the sum says, and each cell holds the
      last character that fell on it, or what it held. */
  lemma {:induction false} TextPaints(d: Page, text: string)
    requires IsDocument(d)
    ensures At(d) >= 0
    ensures var d' := RunDocument(d, Puts(text));
            && At(d') == AdvanceAll(At(d), text) && d'.attr == d.attr && |d'.cells| >= |d.cells|
            && forall k: nat :: CellOf(d', k) == Painted(At(d), text, k, d.attr, CellOf(d, k))
    decreases text
  {
    CursorColumn(d);
    if text == [] {
      assert Puts(text) == [];
    } else {
      PutPaints(d, text[0]);
      PrintStep(d, text);
      TextPaints(PutDocument(d, text[0]), text[1..]);
    }
  }

  // ----- lines of text

  function Lines(lines: seq<string>): string {
    if lines == [] then "" else lines[0] + "\n" + Lines(lines[1..])
  }

  /** Where line `i` starts when the first one starts at `at`: the row below the end of the one before. */
  function Start(at: nat, lines: seq<string>, i: nat): nat
    requires i <= |lines|
    decreases i
  {
    if i == 0 then at else Start((at + |lines[0]|) / COLS * COLS + COLS, lines[1..], i - 1)
  }

  ghost predicate InLine(at: nat, lines: seq<string>, k: nat) {
    exists i: nat :: i < |lines| && Start(at, lines, i) <= k < Start(at, lines, i) + |lines[i]|
  }

  lemma {:induction false} StartLater(at: nat, lines: seq<string>, i: nat)
    requires i <= |lines|
    ensures Start(at, lines, i) >= at
    decreases i
  {
    if i > 0 {
      StartLater((at + |lines[0]|) / COLS * COLS + COLS, lines[1..], i - 1);
    }
  }

  /** Line `i` stands in the cells from its start, and no other cell has changed. */
  ghost predicate Laid(d: Page, d': Page, at: nat, lines: seq<string>) {
    && |d'.cells| >= |d.cells|
    && (forall i: nat, j: nat | i < |lines| && j < |lines[i]| ::
          Start(at, lines, i) + j < |d'.cells| && d'.cells[Start(at, lines, i) + j] == Cell(lines[i][j], d.attr))
    && (forall k: nat :: !InLine(at, lines, k) ==> CellOf(d', k) == CellOf(d, k))
  }

  lemma LaidCons(d: Page, d1: Page, d': Page, at: nat, lines: seq<string>)
    requires lines != [] && d.attr == d1.attr && Overwritten(d, d1, at, lines[0])
    requires Laid(d1, d', (at + |lines[0]|) / COLS * COLS + COLS, lines[1..]) && d'.attr == d.attr
    ensures Laid(d, d', at, lines)
  {
    var next := (at + |lines[0]|) / COLS * COLS + COLS;
    forall i: nat, j: nat | i < |lines| && j < |lines[i]|
      ensures Start(at, lines, i) + j < |d'.cells| && d'.cells[Start(at, lines, i) + j] == Cell(lines[i][j], d.attr)
    {
      if i == 0 {
        BeforeLines(next, lines[1..], at + j);
        assert Start(at, lines, 0) == at && at + j < |d1.cells| <= |d'.cells|;
        assert CellOf(d', at + j) == CellOf(d1, at + j) == Cell(lines[0][j], d.attr);
      } else {
        var rest := lines[1..];
        assert lines[i] == rest[i - 1] && Start(at, lines, i) == Start(next, rest, i - 1);
        LaidAt(d1, d', next, rest, i - 1, j);
      }
    }
    forall k: nat | !InLine(at, lines, k)
      ensures CellOf(d', k) == CellOf(d, k)
    {
      NotInLine(at, lines, k);
      OutsideText(d, d1, at, lines[0], k);
      assert CellOf(d', k) == CellOf(d1, k);
    }
  }

  lemma OutsideText(d: Page, d1: Page, at: int, text: string, k: nat)
    requires Overwritten(d, d1, at, text) && d.attr == d1.attr && !(at <= k < at + |text|)
    ensures CellOf(d1, k) == CellOf(d, k)
  {
    if k < |d.cells| {
      assert d1.cells[k] == d.cells[k];
    } else if k < |d1.cells| {
      assert d1.cells[k] == Blank(d.attr);
    }
  }

  lemma LaidAt(d: Page, d': Page, at: nat, lines: seq<string>, i: nat, j: nat)
    requires Laid(d, d', at, lines) && i < |lines| && j < |lines[i]|
    ensures Start(at, lines, i) + j < |d'.cells| && d'.cells[Start(at, lines, i) + j] == Cell(lines[i][j], d.attr)
  {
    var c := lines[i][j];
  }

  lemma BeforeLines(at: nat, lines: seq<string>, k: nat)
    requires k < at
    ensures !InLine(at, lines, k)
  {
    forall i: nat | i < |lines|
      ensures Start(at, lines, i) > k
    {
      StartLater(at, lines, i);
    }
  }

  lemma NotInLine(at: nat, lines: seq<string>, k: nat)
    requires lines != [] && !InLine(at, lines, k)
    ensures !(at <= k < at + |lines[0]|) && !InLine((at + |lines[0]|) / COLS * COLS + COLS, lines[1..], k)
  {
    var next := (at + |lines[0]|) / COLS * COLS + COLS;
    assert Start(at, lines, 0) == at;
    forall i: nat | i < |lines[1..]|
      ensures !(Start(next, lines[1..], i) <= k < Start(next, lines[1..], i) + |lines[1..][i]|)
    {
      assert Start(at, lines, i + 1) == Start(next, lines[1..], i);
    }
  }

  lemma {:induction false} RunDocumentAppend(d: Page, a: seq<Op>, b: seq<Op>)
    requires IsDocument(d)
    ensures RunDocument(d, a + b) == RunDocument(RunDocument(d, a), b)
    decreases a
  {
    if a == [] {
      assert a + b == b;
    } else {
      StepRefines(d, a[0]);
      assert (a + b)[1..] == a[1..] + b;
      RunDocumentAppend(StepDocument(d, a[0]), a[1..], b);
    }
  }

  lemma PrintAppend(d: Page, a: string, b: string)
    requires IsDocument(d)
    ensures RunDocument(d, Puts(a + b)) == RunDocument(RunDocument(d, Puts(a)), Puts(b))
  {
    assert Puts(a + b) == Puts(a) + Puts(b);
    RunDocumentAppend(d, Puts(a), Puts(b));
  }

  /** The first line and its newline. */
  lemma FirstLine(d: Page, line: string)
    requires IsDocument(d) && Plain(line)
    ensures var d1 := RunDocument(d, Puts(line + "\n"));
            && At(d) >= 0 && At(d1) == (At(d) + |line|) / COLS * COLS + COLS
            && d1.attr == d.attr && Overwritten(d, d1, At(d), line)
  {
    CursorColumn(d);
    PrintWrites(d, line);
    PrintAppend(d, line, "\n");
    AfterNewline(d, RunDocument(d, Puts(line)), line);
  }

  lemma AfterNewline(d: Page, p: Page, line: string)
    requires IsDocument(p) && d.attr == p.attr && Overwritten(d, p, At(d), line) && At(p) == At(d) + |line|
    ensures var d1 := RunDocument(p, Puts("\n"));
            && At(d) >= 0 && At(d1) == (At(d) + |line|) / COLS * COLS + COLS
            && d1.attr == d.attr && Overwritten(d, d1, At(d), line)
  {
    PrintNewline(p);
    KeptOverwritten(d, p, RunDocument(p, Puts("\n")), At(d), line);
  }

  lemma PrintNewline(d: Page)
    requires IsDocument(d)
    ensures var d' := RunDocument(d, Puts("\n"));
            && At(d) >= 0 && At(d') == At(d) / COLS * COLS + COLS && d'.attr == d.attr && Keeps(d, d')
  {
    PrintStep(d, "\n");
    assert Puts("\n"[1..]) == [];
    PutMoves(d, '\n');
    CursorColumn(d);
  }

  lemma KeptOverwritten(d: Page, d1: Page, d': Page, at: int, text: string)
    requires Overwritten(d, d1, at, text) && Keeps(d1, d') && d1.attr == d.attr
    ensures Overwritten(d, d', at, text)
  {
    assert forall k | 0 <= k < |d1.cells| :: d'.cells[k] == d1.cells[k];
  }

  predicate Plain(line: string) { forall c | c in line :: Printable(c) }

  /** Printing lines of any length from any cell lays them row under row, a long one over as many rows as it
      needs, and changes no other cell. */
  lemma LinesLie(d: Page, lines: seq<string>)
    requires IsDocument(d) && forall line | line in lines :: Plain(line)
    ensures At(d) >= 0 && LaidOut(d, RunDocument(d, Puts(Lines(lines))), lines)
  {
    LinesFrom(d, RunDocument(d, Puts(Lines(lines))), lines);
  }

  lemma {:induction false} LinesFrom(d: Page, d': Page, lines: seq<string>)
    requires IsDocument(d) && d' == RunDocument(d, Puts(Lines(lines)))
    requires forall line | line in lines :: Plain(line)
    ensures At(d) >= 0 && LaidOut(d, d', lines)
    decreases lines
  {
    CursorColumn(d);
    if lines == [] {
      assert Puts(Lines(lines)) == [];
    } else {
      var d1 := FirstOfLines(d, d', lines);
      LinesFrom(d1, d', lines[1..]);
      LaidOutCons(d, d1, d', lines);
    }
  }

  lemma FirstOfLines(d: Page, d': Page, lines: seq<string>) returns (d1: Page)
    requires IsDocument(d) && lines != [] && Plain(lines[0]) && d' == RunDocument(d, Puts(Lines(lines)))
    ensures IsDocument(d1) && d' == RunDocument(d1, Puts(Lines(lines[1..])))
    ensures At(d) >= 0 && At(d1) == (At(d) + |lines[0]|) / COLS * COLS + COLS
    ensures d1.attr == d.attr && Overwritten(d, d1, At(d), lines[0])
  {
    d1 := RunDocument(d, Puts(lines[0] + "\n"));
    FirstLine(d, lines[0]);
    PrintAppend(d, lines[0] + "\n", Lines(lines[1..]));
  }

  /** The lines are laid from the cursor of `d`, and the cursor of `d'` starts the row below them. */
  ghost predicate LaidOut(d: Page, d': Page, lines: seq<string>)
    requires At(d) >= 0
  {
    At(d') == Start(At(d), lines, |lines|) && d'.attr == d.attr && Laid(d, d', At(d), lines)
  }

  lemma LaidOutCons(d: Page, d1: Page, d': Page, lines: seq<string>)
    requires lines != [] && At(d) >= 0 && d1.attr == d.attr && Overwritten(d, d1, At(d), lines[0])
    requires At(d1) == (At(d) + |lines[0]|) / COLS * COLS + COLS && LaidOut(d1, d', lines[1..])
    ensures LaidOut(d, d', lines)
  {
    LaidCons(d, d1, d', At(d), lines);
  }

  // ----- nothing but spaces after the cursor

  ghost predicate BlankFromCursor(s: Page) {
    forall k | At(s) <= k < |s.cells| && 0 <= k :: s.cells[k].ch == ' '
  }

  ghost predicate RowBlankBeforeCursor(s: Page)
    requires 0 <= s.y * COLS && At(s) <= |s.cells|
  {
    forall k | s.y * COLS <= k < At(s) :: s.cells[k].ch == ' '
  }

  /** One operation keeps every cell at or after the cursor blank, except a carriage return over a row
      that already holds something. */
  lemma BlankStep(s: Page, op: Op)
    requires IsScreen(s) && BlankFromCursor(s)
    ensures BlankFromCursor(StepScreen(s, op)) <==> (op == Put('\r') ==> RowBlankBeforeCursor(s))
  {
  }

  ghost predicate BlankThroughout(s: Page, ops: seq<Op>)
    requires IsScreen(s)
    decreases ops
  {
    BlankFromCursor(s) && (ops == [] || BlankThroughout(StepScreen(s, ops[0]), ops[1..]))
  }

  /** Every carriage return of the run meets a row with nothing before the cursor. */
  ghost predicate ReturnsMeetBlanks(s: Page, ops: seq<Op>)
    requires IsScreen(s)
    decreases ops
  {
    ops == [] ||
    ((ops[0] == Put('\r') ==> RowBlankBeforeCursor(s)) && ReturnsMeetBlanks(StepScreen(s, ops[0]), ops[1..]))
  }

  /** Over every stream of operations, nothing but blanks follows the cursor after each of them exactly
      when every carriage return meets a row that is blank before the cursor. */
  lemma {:induction false} BlankThroughoutIff(s: Page, ops: seq<Op>)
    requires IsScreen(s) && BlankFromCursor(s)
    ensures BlankThroughout(s, ops) <==> ReturnsMeetBlanks(s, ops)
    decreases ops
  {
    if ops != [] {
      BlankStep(s, ops[0]);
      if BlankFromCursor(StepScreen(s, ops[0])) {
        BlankThroughoutIff(StepScreen(s, ops[0]), ops[1..]);
      }
    }
  }

  lemma {:induction false} BlankRun(s: Page, ops: seq<Op>)
    requires IsScreen(s) && BlankFromCursor(s) && Put('\r') !in ops
    ensures BlankFromCursor(RunScreen(s, ops))
    decreases ops
  {
    if ops != [] {
      BlankStep(s, ops[0]);
      BlankRun(StepScreen(s, ops[0]), ops[1..]);
    }
  }

  lemma BlankFromCleared(s: Page, ops: seq<Op>)
    requires IsScreen(s) && Put('\r') !in ops
    ensures BlankFromCursor(RunScreen(ClearScreen(s), ops))
  {
    BlankRun(ClearScreen(s), ops);
  }

  /** With a carriage return it fails: "A\r" leaves the cursor on the A. */
  lemma CarriageReturnBreaksIt(s: Page)
    requires IsScreen(s)
    ensures !BlankFromCursor(RunScreen(ClearScreen(s), Puts("A\r")))
  {
    var ops := Puts("A\r");
    var s1 := StepScreen(ClearScreen(s), ops[0]);
    var s2 := StepScreen(s1, ops[1]);
    assert ops[1..][0] == ops[1] && ops[1..][1..] == [];
    assert RunScreen(s1, ops[1..]) == RunScreen(s2, []);
    assert s2.cells[0].ch == 'A' && At(s2) == 0;
  }
}
