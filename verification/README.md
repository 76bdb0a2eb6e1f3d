# BasedOS: a verified model of its stateful components

BasedOS is a small 32-bit kernel. This project models the parts of it that keep state from one call to
the next and proves what each keeps over every run: the keyboard queue while interrupts preempt its
reader, the scrolling screen, the shell's line editor with its history, the round-robin ring of tasks,
the file stack over the bump heap, and the string routines they rest on.

`dafny verify dfyconfig.toml` checks everything.

## How it is laid out

Each component has a value-level specification, where runs are sequences of events and the laws are
lemmas, and the code itself as classes and methods over arrays and linked objects, each method proved
to do one step of the specification.

| component | specification | code |
|---|---|---|
| keyboard queue (kernel/interrupts.c) | Keyboard.dfy | KeyboardDriver.dfy |
| screen (kernel/terminal.c) | Screen.dfy, CursorRow.dfy | Terminal.dfy |
| key loop and history (kernel/shell.c) | Editor.dfy, History.dfy, Session.dfy | Shell.dfy, History.dfy |
| parsing, aliases, joining (kernel/shell.c, lib/string.c) | Splitting.dfy | Strtok.dfy, Commands.dfy |
| scheduler (kernel/kernel.c) | TaskRing.dfy | Scheduler.dfy |
| heap (kernel/memory.c) | Heap.dfy, HeapRuns.dfy | MemFs.dfy |
| files (fs/memfs.c, fs/vfs.c, fs/fs_test.c) | Files.dfy, Chunks.dfy, Paths.dfy | MemFs.dfy, Vfs.dfy, FsTest.dfy |
| numbers and strings (lib/string.c) | Numbers.dfy, CStrings.dfy | Numbers.dfy, CStrings.dfy |

## Where the code falls short, exactly

- Keyboard: a key accepted after the shift loop's guard has failed and before the decrement is stored
  is misplaced. `Keyboard.FifoExactly` gives the exact condition over every run,
  `Keyboard.WindowOutcome` what the queue holds afterwards, and `Keyboard.WindowBreaksOrder` a run from the
  start that breaks the order.
- Screen: nothing but blanks follows the cursor exactly as long as every '\r' meets a row that is blank
  before the cursor (`Screen.BlankThroughoutIff`, `Screen.CarriageReturnBreaksIt`).
- Line editor: the row agrees with the buffer exactly as long as prompt and line fit in 79 cells, nothing
  is typed with echo off, and each new prompt fits on the row the output before it ended on, with nothing
  behind it (`Session.SessionAgrees`). The last rule is a computation on the output alone
  (`CursorRow.RunExact`); it is broken by output that ends in '\r' (`Session.ReturnBreaksLine`) and by an
  over-long prompt (`Session.LongPromptBreaksLine`). No string of the shell holds '\r', so there only the
  lengths and echo matter (`Session.ModestSessionAgrees`). With echo off a backspace erases the prompt
  (`Editor.EchoOffErasesPrompt`).
- History: the repeat check skips write position 0, so a command given once more leaves the ring alone
  exactly if the number of accepted commands is not a multiple of ten (`History.DroppedIff`,
  `History.RepeatKeptIff`, `History.TenThenRepeat`).
- Heap: the 32-bit sum may wrap; a granted block fits the heap exactly when it did not
  (`Heap.InsideIffNoWrap`, `Heap.WrapGrantsTooMuch`). `kfree` never gives back a block, wrapped sums or not
  (`Heap.FreeIsNoOp`, `HeapRuns.FreesNeverMatter`).
- Files: `O_RDONLY` is 0, so only `O_RDWR` descriptors can be read (`Vfs.FileSystem.Read`).
  The comments of fs/vfs.c, the shell's `cat` and fs/fs_test.c expect otherwise; the model follows the code,
  and the test of fs/fs_test.c can never pass (`FsTest.RunTest`).

## Modelling decisions

- A keyboard run is a sequence of reader steps (one per shared load or store) and handler firings. The
  scancode table is an arbitrary character sequence. The methods of `KeyboardDriver.Driver` take as input
  which scancodes fire before each shared access.
- A video word is a pair of a character and an attribute. Characters are 7-bit.
- A document is the screen with an unbounded number of rows; clearing starts a fresh page below.
- A history slot holds a string; the bytes after its NUL are not modelled. The edit buffer is an array.
- Session events carry what a command prints, the next prompt and whether echo is on afterwards. All of it
  is arbitrary, but a prompt consists of colour changes and printable characters.
- `create_task` and `init_scheduler` take as input whether memory was available.
- The directory tree is a value, since nothing in the code creates, renames or removes inodes; an inode's
  number leads to its record of size and data. The root is any node that has lookup: the node
  `vfs_initialize` makes has none, and `vfs_mount` does not replace it because a local variable shadows it.
- Bytes that a write past the end leaves in between are an arbitrary sequence `gap`.
- Growing a file, or reading and writing, is stated where the 32-bit sum does not wrap and, for growth,
  where there is memory: the code does not check the null block and would write through it.

## Model

| member | source | states |
|---|---|---|
| Keyboard.Run | kernel/interrupts.c:74-106 | in every reachable state the length, the loop index and the copied cell are within the invariant, so no access leaves the buffer |
| Keyboard.ReaderKeepsLog | kernel/interrupts.c:78-83 | no reader step changes what has been and will be delivered; in mid-shift the queue is buf[0..i) ++ buf[i+1..pos) |
| Keyboard.HandlerLog | kernel/interrupts.c:101-104 | what an accepted key adds to the delivery, in and out of the window |
| Keyboard.NeverRepaired | kernel/interrupts.c:74-106 | once a key is lost or repeated no later run restores the order |
| Keyboard.FifoExactly | kernel/interrupts.c:74-106 | over every interleaving, returned keys then queued keys are the accepted keys in order if and only if every step was clean |
| Keyboard.FifoOutsideWindow | kernel/interrupts.c:74-106 | from the start, every run that accepts nothing in the window delivers exactly the accepted keys, in order |
| Keyboard.HandlerByTable | kernel/interrupts.c:94-105 | a release, a code past the table, an empty entry or a full buffer changes nothing; any other code appends its table entry |
| Keyboard.ReleasesIgnored | kernel/interrupts.c:94-105 | every run leads to the state of the run without releases and other interrupts that carry no key |
| Keyboard.AcceptsAll | kernel/interrupts.c:94-105 | as long as the keys fit, the table entries of all make codes are accepted, in order |
| Keyboard.WindowOutcome | kernel/interrupts.c:79-84 | keys arriving between failing guard and decrement: the queue keeps its keys, repeats the last one, takes all but the newest; keys after the decrement's load are dropped |
| Keyboard.WindowHarmlessIff | kernel/interrupts.c:79-84 | with an atomic decrement the result is right exactly when all window keys equal the repeated one |
| Keyboard.WindowBreaksOrder | kernel/interrupts.c:74-106 | a run from the start with one key in the window: that key is gone and the one before it comes twice, so the order is kept only if they are equal |
| KeyboardDriver.QuietRun | kernel/interrupts.c:74-84 | a schedule without interrupts never changes what is delivered |
| KeyboardDriver.Driver.HandlerInternal | kernel/interrupts.c:87-106 | the handler on the array is the handler step; stated on the table too: nothing for a release, an unknown code or a full buffer, else the entry in the next cell |
| KeyboardDriver.Driver.WaitForKey | kernel/interrupts.c:75-77 | the waiting loop ends exactly if the queue holds a key or some scheduled interrupt carries one; if not, every interrupt has fired and nothing was accepted |
| KeyboardDriver.Driver.ShiftDown | kernel/interrupts.c:79-81 | the shift loop is a run of the transition system up to the failing guard, in which before each shared access exactly the interrupts due there fire |
| KeyboardDriver.Driver.Getchar | kernel/interrupts.c:74-84 | one call of t shared accesses is the run of exactly the schedule's first t accesses and interrupts; it fails to return exactly if no key is queued or scheduled; without interrupts it returns the head and leaves the rest |
| Screen.AttributeDecodes | kernel/terminal.c:112-114 | both colours can be read back from the attribute byte |
| Screen.PutScreen | kernel/terminal.c:33-73 | after each character the cursor is inside the 80x25 screen |
| Screen.PutKeepsDocument | kernel/terminal.c:57-70 | a character adds one row to the document, blank in the current attribute, exactly if the cursor passes the last row, and nothing otherwise |
| Screen.PutRefines | kernel/terminal.c:33-73 | a character on the screen is that character on the document seen through the window |
| Screen.RunRefines | kernel/terminal.c:17-114 | for every stream of operations the screen is the 25-row window of the document |
| Screen.ScreenIsWindow | kernel/terminal.c:17-114 | the refinement covers every run from any screen |
| Screen.HistoryIsFrozen | kernel/terminal.c:58-70 | rows that left the window never change and the window never moves back |
| Screen.PrintWrites | kernel/terminal.c:46-79 | a printed text stands in the document in reading order from the cursor, whatever wraps and scrolls |
| Screen.PutMoves | kernel/terminal.c:34-45 | newline, carriage return and tab move the cursor to the next row, the row start, the next multiple of eight, and change no cell |
| Screen.PutErases | kernel/terminal.c:39-43 | a backspace blanks exactly the cell before the cursor, none at the start of a row |
| Screen.ClearStarts | kernel/terminal.c:17-27 | clearing starts on 25 rows blank in the current attribute; a colour change touches no cell and not the cursor |
| Screen.TextPaints | kernel/terminal.c:33-79 | for every text, control characters included, cursor and cells are what a count along one line of cells gives: each cell holds the last character that fell on it or what it held |
| Screen.LinesLie | kernel/terminal.c:33-79 | lines of any length lie row under row from where they start, and no cell outside them changes |
| Screen.BlankStep | kernel/terminal.c:33-73 | blank cells at and after the cursor stay blank, except exactly for '\r' over a row that holds something |
| Screen.BlankThroughoutIff | kernel/terminal.c:17-114 | over every stream nothing but blanks follows the cursor after each operation exactly if every '\r' meets a row blank before the cursor |
| Screen.BlankFromCleared | kernel/terminal.c:17-73 | from a cleared screen every stream without '\r' keeps every cell at or after the cursor blank |
| Screen.CarriageReturnBreaksIt | kernel/terminal.c:37-38 | with '\r' it fails, by example |
| CursorRow.RunExact | kernel/terminal.c:33-114 | over every stream the cursor row and column are those computed without the screen, because the rows below stay blank |
| CursorRow.PromptShows | kernel/shell.c:574-588 | a prompt is shown after what the row held, with nothing behind it, if and only if it fits and the row is blank behind it |
| Terminal.Console.Initialize | kernel/terminal.c:17-27 | the clearing loops give the cleared screen |
| Terminal.Console.SetColor | kernel/terminal.c:112-114 | the new attribute and nothing else |
| Terminal.Console.ScrollUp | kernel/terminal.c:58-68 | the scroll loops move every row up and blank the last |
| Terminal.Console.Putchar | kernel/terminal.c:33-73 | `putchar` on video memory is the screen step |
| Terminal.Console.WriteString | kernel/terminal.c:75-79 | prints exactly the characters before the NUL |
| Terminal.Console.WriteDec | kernel/terminal.c:95-110 | prints the decimal digits; eleven characters are enough |
| Terminal.Console.FillBackward | kernel/terminal.c:103-106 | the backward fill leaves the digits, most significant first |
| Terminal.Console.WriteHex | kernel/terminal.c:81-93 | prints 0x and eight hexadecimal digits |
| Editor.CompletionIsFirst | kernel/shell.c:656-666 | Tab completes to the first command of the table that starts with the input |
| Editor.NoCompletion | kernel/shell.c:656-666 | if none does, the input stays |
| Editor.KeyKeepsEdit | kernel/shell.c:592-683 | over every key the line is printable and at most 126 long and the history cursor is -1 or inside the written slots |
| Editor.TypedKey | kernel/shell.c:670-676 | a printable key appends exactly itself while the line has fewer than 126 characters, shows exactly if echo is on, and a backspace after it gives back the line |
| Editor.BackspaceKey | kernel/shell.c:600-603 | a backspace takes the last character; on an empty line nothing changes |
| Editor.UpKey | kernel/shell.c:605-620 | Up recalls the newest slot, then the one before, and stays on the first |
| Editor.DownKey | kernel/shell.c:622-644 | Down recalls the next slot, and past the newest an empty line |
| Editor.TabKey | kernel/shell.c:646-668 | Tab gives the first command of the table that has the line as prefix, otherwise the same line |
| Editor.OtherKey | kernel/shell.c:593-682 | Enter keeps the line; any other key, and a printable one on a full line, changes nothing |
| Editor.TypeText | kernel/terminal.c:46-49 | printing on the cursor row appends to what it shows and touches no other row |
| Editor.RuboutOne | kernel/shell.c:600-603 | "\b \b" erases exactly one cell |
| Editor.RuboutAll | kernel/shell.c:613-616 | the clearing loop erases exactly the line |
| Editor.KeyAgrees | kernel/shell.c:592-683 | with echo on, after every key the cursor row is prompt, line, blanks, if and only if prompt and line fit in 79 cells |
| Editor.EchoOffErasesPrompt | kernel/shell.c:600-676 | with echo off a typed and erased key costs the prompt a cell |
| Session.StepReachable | kernel/shell.c:572-692 | the bounds on line and history cursor, the ring's meaning and the blank rows below the cursor hold after every key of every session |
| Session.EnterStarts | kernel/shell.c:574-592 | Enter files the line in the history, and the next line starts empty with nothing recalled |
| Session.StartAgrees | kernel/shell.c:560-588 | after any boot messages the first line agrees if and only if its prompt fits on the row they end on |
| Session.StepAgrees | kernel/shell.c:574-682 | from an agreeing state a key, or from any state a whole command with output and prompt, leads to an agreeing one if and only if it respects rules that do not mention the screen |
| Session.SessionAgrees | kernel/shell.c:572-692 | over every session of any number of lines, keys, printed output, prompts and echo settings, the row is prompt text, line, blanks throughout if and only if every key respects the rules |
| Session.ReturnBreaksLine | kernel/shell.c:574-588 | output that ends in '\r' breaks the next line, whatever the state |
| Session.LongPromptBreaksLine | kernel/shell.c:574-588 | so does a prompt of 80 characters |
| Session.ModestSessionAgrees | kernel/shell.c:572-692 | in sessions that print no '\r' the row agrees throughout if and only if prompt and line stay within 79 cells and nothing is typed with echo off |
| Session.UpRecalls | kernel/shell.c:605-620 | the k-th Up shows the k-th newest accepted command, back to the last wrap of the ring |
| Session.DownRecalls | kernel/shell.c:622-634 | after t Downs the line is the slot t places on |
| Session.UpsAndDowns | kernel/shell.c:605-644 | k Ups and fewer Downs show the accepted command that the difference alone would |
| Session.UpThenDown | kernel/shell.c:622-644 | as many Downs end on an empty line with nothing recalled |
| Shell.LineEditor.ClearLine | kernel/shell.c:613-616 | the loop empties the line and the row |
| Shell.LineEditor.Complete | kernel/shell.c:646-668 | the search loop finds the completion, copies and echoes it |
| Shell.LineEditor.HandleKey | kernel/shell.c:593-682 | one turn of the key loop on buffer, history and video memory is the key step |
| Shell.LineEditor.NextLine | kernel/shell.c:274-277 | the entered line goes to the history and the next line starts empty |
| History.AddAllHolds | kernel/shell.c:140-147 | the ring always holds the newest accepted commands, slot by slot |
| History.ShowsLastTen | kernel/shell.c:140-157 | after any commands the listing is the last ten accepted ones, oldest first, the newest as line 10 |
| History.DroppedIff | kernel/shell.c:140-147 | after any commands, a command leaves the ring as it is if and only if it is empty or repeats the last accepted one while their number is not a multiple of ten; otherwise it is stored |
| History.RepeatsOnlyAtWrap | kernel/shell.c:142-146 | adjacent accepted commands are equal only at indices j with j mod 10 = 0 |
| History.RepeatKeptIff | kernel/shell.c:140-147 | after any commands, giving the last accepted one again leaves the ring as it is if and only if the number of accepted commands is not a multiple of ten; otherwise it is stored |
| History.TenThenRepeat | kernel/shell.c:142-146 | ten commands after which the repeat is stored, in the first slot and the last |
| History.Log.AddToHistory | kernel/shell.c:140-147 | the code does the ring step |
| History.Log.ShowHistory | kernel/shell.c:149-157 | the loop prints the listing |
| Splitting.SkipIn | lib/string.c:166-183 | the span of accepted characters is the longest one |
| Splitting.SkipOut | lib/string.c:185-199 | the span of other characters is the longest one |
| Splitting.RunsAreMaximal | lib/string.c:143-164 | tokens are maximal delimiter-free runs, in order |
| Splitting.RunsCoverAll | lib/string.c:143-164 | no character outside the delimiters is missed |
| Splitting.RunsReadTokens | lib/string.c:143-164 | the tokens are the text of those runs |
| Splitting.JoinParses | kernel/shell.c:466-471 | parsing the single-space join of tokens gives them back |
| Splitting.JoinAppend | kernel/shell.c:464-471 | exactly one space stands between two parts of a join |
| Splitting.JoinLength | kernel/shell.c:464-471 | a join is as long as its words and the single spaces between them |
| Splitting.ReparseJoin | kernel/shell.c:466-471 | so parsing the join of the first arguments of any command gives the same arguments |
| Strtok.StepToken | lib/string.c:143-164 | a call returns the first token left and leaves the others; null exactly when none is left |
| Strtok.CallsReturnTokens | lib/string.c:143-164 | successive calls return all tokens in order and then null |
| Strtok.Tokenizer.StrSpn | lib/string.c:166-183 | the nested loops find the longest span |
| Strtok.Tokenizer.StrCSpn | lib/string.c:185-199 | the nested loops find the longest span of other characters |
| Strtok.Tokenizer.StrTok | lib/string.c:143-164 | despite overwritten delimiters a call is the step on the original text, and writes one NUL |
| Strtok.Tokenizer.ParseCommand | kernel/shell.c:80-94 | the first min(15, count) tokens, each a string of its own in the buffer at the end |
| Commands.JoinFrom | kernel/shell.c:464-471 | the loops of echo and write give the single-space join |
| Commands.ResolveAfterAdd | kernel/shell.c:97-125 | after an add the name gives its new command and every other word what it gave; a full table gives for every word what it gave |
| Commands.LastAddWins | kernel/shell.c:97-125 | over every list of adds with fewer than twenty names a word resolves to the command of its last add |
| Commands.AliasTable.Add | kernel/shell.c:97-116 | the table is a map; a full one takes nothing, not even an update |
| Commands.AliasTable.Resolve | kernel/shell.c:118-125 | lookup in that map, the word itself if it is not there |
| Numbers.FillDigits | lib/string.c:249-253 | the fill loop leaves the digits least significant first |
| Numbers.ReverseInPlace | lib/string.c:259-267 | the swap loop reverses the stretch and nothing else |
| Numbers.Itoa | lib/string.c:227-268 | sign in base 10 only, the digits in order, NUL, nothing after it touched |
| Numbers.Atoi | lib/string.c:201-224 | white space, sign, digits; no intermediate result leaves 31 bits |
| Numbers.RoundTrip | lib/string.c:201-268 | atoi of itoa is the number, without overflow, for every magnitude below 2^31 |
| Numbers.SameDigits | lib/string.c:201-268 | the console's decimal printing and `itoa` agree below 2^31, and `atoi` reads both |
| Numbers.DigitsAnyBase | lib/string.c:249-253 | in every base the digits have the number's value |
| Numbers.ItoaAnyBase | lib/string.c:227-268 | in base 10 the signed value, in every other base the value read as an unsigned word; only digits of the base and no leading zero |
| Numbers.AtoiReads | lib/string.c:201-224 | blanks, tabs, newlines, one optional sign, digits, anything else: the signed value of the digits |
| Numbers.TenDigits | kernel/terminal.c:96-106 | ten digits are enough for any 32-bit value |
| Numbers.DecimalInjective | kernel/terminal.c:95-110 | different numbers print differently |
| Numbers.HexRoundTrip | kernel/terminal.c:86-89 | the hexadecimal digits have the number's value |
| Numbers.HexDigitsOnly | kernel/terminal.c:83-89 | only 0 to 9 and upper-case A to F |
| CStrings.MemMove | lib/string.c:26-44 | overlapping regions are moved as if through a copy |
| CStrings.StrNCmp | lib/string.c:133-141 | 0 exactly when the first n characters agree; otherwise the difference of the first characters that do not, with both strings running up to there |
| CStrings.StrLen | lib/string.c:111-117 | the number of characters before the NUL |
| TaskRing.OrderAlways | kernel/kernel.c:231-245 | under any interleaving of creates and ticks the ring reads 1, n, n-1, ..., 2 |
| TaskRing.TickWait | kernel/kernel.c:37-43 | a tick lowers a waiting task's distance by one |
| TaskRing.CreateWait | kernel/kernel.c:238-241 | a create raises it by one exactly when the head lies before the task on the cursor's way |
| TaskRing.WaitLaw | kernel/kernel.c:220-248 | until a task becomes current its wait is the old one less ticks plus delaying creates |
| TaskRing.BoundedWait | kernel/kernel.c:220-248 | under any interleaving a task becomes current within its wait, at most the number of tasks, plus the creates made before the cursor leaves the head |
| TaskRing.NoStarvation | kernel/kernel.c:220-248 | from the start, after any history, every task created so far becomes current again within as many ticks as there are tasks and creates at the head |
| TaskRing.NumberedAlways | kernel/kernel.c:220-248 | over every run identifiers stay distinct and at most the number of tasks |
| TaskRing.OncePerRound | kernel/kernel.c:37-43 | without creates each of n tasks is current after exactly one of n ticks |
| Scheduler.Kernel.InitScheduler | kernel/kernel.c:60-70 | a ring of one task linked to itself |
| Scheduler.Kernel.Tick | kernel/kernel.c:37-43 | the cursor moves one link along one cycle through all tasks |
| Scheduler.Kernel.CreateTask | kernel/kernel.c:220-248 | the new task joins after the head; ticks between the two link stores act as if before |
| Heap.AllocStaysAligned | kernel/memory.c:24-31 | the position stays aligned and inside the heap for every 32-bit size, wrapping or not |
| Heap.AllocKeepsAligned | kernel/memory.c:24-31 | without wrap, rounding never passes the end of the heap and blocks fit |
| Heap.InsideIffNoWrap | kernel/memory.c:25-27 | a granted block lies in the heap exactly when the 32-bit sum did not wrap |
| Heap.GrantedExactly | kernel/memory.c:25-27 | an allocation is granted if and only if the block fits or the 32-bit sum wraps |
| Heap.WrapGrantsTooMuch | kernel/memory.c:25-29 | a size for which it does not |
| Heap.FreeIsNoOp | kernel/memory.c:33-37 | freeing a returned block changes nothing |
| Heap.FreeMovesIff | kernel/memory.c:33-37 | the position moves if and only if the pointer is the last byte below it, and then by one |
| HeapRuns.RunSafe | kernel/memory.c:24-38 | over every run blocks are in the heap, aligned and disjoint, and the position never falls |
| HeapRuns.StepSafe | kernel/memory.c:33-38 | an allocation keeps all blocks safe and a free leaves the whole state as it was |
| HeapRuns.FreesNeverMatter | kernel/memory.c:24-38 | over every run of 32-bit requests, wrapping or not, leaving out all frees leads to the same state |
| HeapRuns.FourmAppends | fs/memfs.c:156-165 | 4m one-byte appends consume exactly 8m(m+1) bytes |
| HeapRuns.GrantedIff | fs/memfs.c:156-165 | from any position, after n - 1 granted one-byte appends the n-th is granted if and only if what the others consumed and n bytes more fit |
| HeapRuns.AllGrantedIff | fs/memfs.c:156-165 | so n appends are all granted if and only if that holds for the last |
| HeapRuns.Exactly360 | fs/memfs.c:156-165 | from an empty heap n one-byte appends are all granted if and only if n is at most 360 |
| MemFs.KernelHeap.KMalloc | kernel/memory.c:24-31 | allocation with 32-bit wrap |
| MemFs.KernelHeap.KFree | kernel/memory.c:33-38 | the free rule; aligned pointers change nothing |
| MemFs.Store.Read | fs/memfs.c:128-144 | the bytes of the file from the offset, cut at its end |
| MemFs.Store.Grow | fs/memfs.c:156-165 | a larger block holds the old bytes; no other file changes; the heap moves as in the cost law |
| MemFs.Store.Write | fs/memfs.c:147-170 | the file's contents are overlaid; directories refuse; no other file changes |
| Files.StepKeepsSys | fs/vfs.c:181-303 | no operation makes a node longer than its file, and files never shrink |
| Files.ReadReturns | fs/memfs.c:128-144 | a read on a readable descriptor returns the bytes asked for as far as the file goes, and moves behind them |
| Files.WriteReplaces | fs/memfs.c:147-170 | an allowed write puts its bytes at the position, keeps every other byte and moves behind them |
| Files.AccessRule | fs/vfs.c:241-265 | low flag bits 0 allow nothing, 1 only writing, 2 and 3 both; a refused call changes nothing |
| Files.SeekMoves | fs/vfs.c:285-303 | the new position is origin plus offset modulo 2^32; an unknown origin changes nothing |
| Files.LastWriteWins | fs/memfs.c:147-170 | over every run through any descriptors a file holds the byte last written at each offset |
| Files.ReadsLatest | fs/vfs.c:233-275 | each byte read at a written offset is the latest one written there |
| Files.OtherFilesStay | fs/vfs.c:255-275 | no write to one file changes another |
| Files.OtherDescriptorsStay | fs/vfs.c:181-303 | an operation changes only the descriptor it names, an open only a free one |
| Files.OpenThenClose | fs/vfs.c:181-231 | opening and closing restores table and files |
| Files.SeekBack | fs/vfs.c:277-303 | seeking back by what was read undoes the read |
| Files.GrowsIffExtended | fs/memfs.c:156-165 | a file grows exactly when some write extends it |
| Files.LengthLaw | fs/memfs.c:227-227 | a node's length is at most its file's size, with equality exactly when no write extended the file since lookup |
| Files.SeekEndInside | fs/vfs.c:294-296 | seeking to the end with offset 0 never lands past the true end |
| Chunks.WritesCompose | fs/vfs.c:255-275 | any split into successive writes leaves the state one write leaves |
| Chunks.ReadsCompose | fs/vfs.c:233-253 | successive reads join to one stretch; position is start plus returned counts |
| Chunks.ReadsTotal | fs/vfs.c:233-253 | successive reads return as many bytes as they ask for together, as far as the file goes |
| Chunks.ReadsItAll | fs/vfs.c:233-303 | so the round comes out whole as soon as the sizes add up |
| Chunks.ChunkingInvisible | fs/vfs.c:233-303 | from any position in any file: write in pieces, seek back, read in pieces; what comes out is the overlaid file from there on, all of it exactly if one more read returns nothing |
| Chunks.RewriteComesBack | fs/vfs.c:233-303 | at the start of a file no longer than the data, the data comes out |
| Chunks.AppendBytesCost | fs/memfs.c:156-165 | appending byte by byte costs what the appends law says |
| Chunks.SingleByteWrites | fs/memfs.c:156-165 | a new file on an empty heap takes single bytes exactly up to 360 |
| Paths.WalkAppend | fs/vfs.c:101-131 | walking two lists of components is walking one after the other |
| Paths.ComponentsJoin | fs/vfs.c:103-130 | components of p/q are those of p then those of q |
| Paths.OpenJoin | fs/vfs.c:85-134 | opening p/q walks q from where p leads |
| Paths.TrailingSlash | fs/vfs.c:127-130 | one trailing slash never changes the result of a non-root path |
| Paths.BadComponentFails | fs/vfs.c:106-122 | an empty or over-long component gives null |
| Paths.FindsFirst | fs/memfs.c:216-240 | a name is found if and only if some child has it, and then it is the first such child |
| Paths.OpensExactly | fs/vfs.c:85-138 | a path opens a node if and only if it is absolute and its components are the names along a chain of first-named children from the root that ends there; any other name opens nothing |
| Paths.SplitJoin | fs/vfs.c:103-130 | splitting undoes joining |
| Paths.OpenReaches | fs/memfs.c:209-241 | the joined names of any chain of directories open exactly the inode at its end |
| Paths.EnoughMemory | fs/memfs.c:218-219 | with memory for every component the node allocations do not show, and a successful walk takes 312 bytes for each |
| Paths.LessMemory | fs/memfs.c:218-219 | without it the only other result is null |
| Paths.ListsAll | fs/memfs.c:194-205 | reading entries 0, 1, 2, ... lists the children in order, then null |
| Paths.ReadDir | fs/memfs.c:186-206 | the moving pointer reaches the entry of that index |
| Vfs.FileSystem.FindDir | fs/vfs.c:172-177 | lookup of a name, allocating a node when it is found |
| Vfs.FileSystem.WalkPath | fs/vfs.c:101-131 | the component loop is the fold of lookups and terminates |
| Vfs.FileSystem.VfsOpen | fs/vfs.c:85-138 | absolute paths are walked, others are null; the node carries the size of that moment |
| Vfs.FileSystem.Open | fs/vfs.c:181-212 | the lowest free descriptor at position 0 exactly if one is free and the path walks, with the file's size as its length; where the heap is left |
| Vfs.FileSystem.Close | fs/vfs.c:214-231 | the descriptor is freed |
| Vfs.FileSystem.Read | fs/vfs.c:233-253 | only O_RDWR descriptors read; bytes and position |
| Vfs.FileSystem.Write | fs/vfs.c:255-275 | contents, position, result and heap position, and when it is refused |
| Vfs.FileSystem.Lseek | fs/vfs.c:277-303 | the three origins on 32 bits; others are refused |
| FsTest.WriteChunks | fs/vfs.c:255-275 | successive writes on the code are the split writes of the specification and cost the heap their sum |
| FsTest.ReadChunks | fs/vfs.c:233-253 | successive reads on the code are the split reads of the specification |
| FsTest.WriteAndReadBack | fs/vfs.c:214-303 | on the code: writing in pieces, seeking back, reading in pieces and closing gives out the overlaid file and changes nothing else but the heap position, by the exact cost |
| FsTest.RoundTrip | fs/vfs.c:181-303 | the same by name: it fails exactly if the name does not open, and the descriptor table ends as it began |
| FsTest.FileSize | fs/vfs.c:277-303 | opening a file by name and seeking to its end tells its size |
| FsTest.RunTest | fs/fs_test.c:25-66 | the test never passes: for any path, data and memory the outcome is exactly the first of its four failures, the last one because its read is refused |

## Left out

- Machine setup, port input and output, sound, delays, interrupt enabling: hardware effects.
- The saving of `esp` and `ebp` in `timer_callback` and the uptime count: only the pointer switch is modelled.
- `kernel_shutdown`, which stops the scheduler and frees the head of the ring before halting.
- `printk` formats: only the characters it sends to `putchar` are modelled.
- Command dispatch, help, banner, reports and `calc`: what they print is an arbitrary stream in a session.
- The directory listing of fs/fs_test.c, which needs `vfs_readdir` on the root.
- `vfs_mount`, the list of file systems, the block bitmap: not used by reading or writing.
- Wake-up of the waiting reader: it depends on the timing of the halt instruction.
- Terminal.Console.Putchar: does not model characters from 128 up, because they are signed in the code and spoil the attribute.
- Terminal.Console.WriteString: does not model characters from 128 up, for the same reason.
- Numbers.Itoa: does not model -2^31, because its negation overflows in the code.
- Numbers.Atoi: does not model numbers of more than 31 bits, because the signed sum overflows in the code.
- Strtok.Tokenizer.ParseCommand: does not model inputs of 128 characters or more, which the code copies past its buffer.
- Commands.AliasTable.Add: does not model names of 32 characters or more, which run over the entry's array in the code.
- MemFs.Store.Read: does not model offsets and sizes whose 32-bit sum wraps, where the code reads past the block.
- MemFs.Store.Write: does not model a wrapping sum, nor growth without memory, because the code then writes through a null block.
- Vfs.FileSystem.Read: does not model a position and size whose 32-bit sum wraps, as in the store.
- Vfs.FileSystem.Write: does not model a wrapping sum, nor growth without memory, as in the store.
- Paths.ReadDir: does not model the copy of the name into the static entry.
