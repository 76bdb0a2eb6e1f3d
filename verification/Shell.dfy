/** The key loop of `start_shell` as the kernel runs it: a NUL-terminated buffer edited in place, the
    history slots and the console. */
module Shell {
  import opened CStrings
  import opened Screen
  import opened Terminal
  import opened History
  import opened Editor
  import opened Limits

  class LineEditor {
    const input: array<char>
    var position: nat
    var currentHistory: int
    const log: Log
    const console: Console
    var echoEnabled: bool

    ghost predicate Valid()
      reads this, input, log, log.slots, console, console.video
    {
      && input.Length == MAX_INPUT && log.Valid() && console.Valid() && IsHistory(log.View())
      && position <= MAX_INPUT - 2 && input[position] == '\0' && IsLine(input[..position])
      && (currentHistory == -1 || 0 <= currentHistory < log.pos)
    }

    ghost function View(): (e: Edit)
      reads this, input, console, console.video
      requires position <= input.Length
    {
      Edit(input[..position], currentHistory, console.Page())
    }

    constructor (log: Log, console: Console, echoEnabled: bool)
      requires log.Valid() && console.Valid() && IsHistory(log.View())
      ensures Valid() && View() == Edit("", -1, console.Page()) && fresh(input)
      ensures this.log == log && this.console == console && this.echoEnabled == echoEnabled
    {
      input := new char[MAX_INPUT];
      position, currentHistory := 0, -1;
      this.log, this.console, this.echoEnabled := log, console, echoEnabled;
      new;
      input[0] := '\0';
    }

    /** The loop `while (position > 0) { position--; printk("\b \b"); }`. */
    method ClearLine()
      requires console.Valid() && position <= input.Length
      modifies this`position, console, console.video
      ensures console.Valid() && position == 0
      ensures console.Page() == Rubout(old(console.Page()), old(position))
    {
      while position > 0
        invariant console.Valid() && position <= old(position)
        invariant Rubout(console.Page(), position) == Rubout(old(console.Page()), old(position))
      {
        position := position - 1;
        console.Print(RUBOUT);
      }
    }

    /** `strcpy(input + at, text)` for a text that fits. */
    method Copy(at: nat, text: string)
      requires at + |text| < input.Length && '\0' !in text
      modifies input
      ensures input[..at + |text|] == old(input[..at]) + text && input[at + |text|] == '\0'
    {
      var k := 0;
      while k < |text|
        invariant k <= |text|
        invariant input[..at + k] == old(input[..at]) + text[..k]
      {
        input[at + k] := text[k];
        k := k + 1;
      }
      input[at + k] := '\0';
    }

    /** Replaces the line by `text`: clear, copy, measure, echo. */
    method ShowLine(text: string)
      requires Valid() && IsLine(text)
      modifies this`position, input, console, console.video
      ensures Valid() && View() == Recall(old(View()), currentHistory, text)
    {
      ClearLine();
      assert '\0' !in text;
      Copy(0, text);
      CStrOfText(input[0..], text);
      position := StrLen(input, 0);
      console.Print(text);
    }

    /** Tab: the first command that the input is a prefix of, found with `strncmp`. */
    method Complete(commands: seq<string>)
      requires Valid() && position > 0 && forall s | s in commands :: IsLine(s)
      modifies this`position, input, console, console.video
      ensures Valid()
      ensures var text := Completion(old(input[..position]), commands);
              View() == old(View()).(input := text, screen := Editor.Print(old(console.Page()), text[old(position)..]))
    {
      ghost var typed := input[..position];
      for i := 0 to |commands|
        invariant Valid() && View() == old(View())
        invariant Completion(typed, commands[i..]) == Completion(typed, commands)
      {
        assert commands[i..][1..] == commands[i + 1..] && commands[i..][0] == commands[i];
        var r := Compare(commands[i]);
        if r == 0 {
          EchoRest(commands[i]);
          return;
        }
      }
      assert typed[|typed|..] == [] && Puts([]) == [];
    }

    /** `strncmp(input, command, position) == 0` holds exactly for a prefix. */
    method Compare(command: string) returns (r: int)
      requires Valid() && IsLine(command)
      ensures r == 0 <==> IsPrefix(input[..position], command)
    {
      CStrOfText(input[..], input[..position]);
      CStrOfText(command + ['\0'], command);
      r := StrNCmp(input[..], command + ['\0'], position);
    }

    /** Copies and echoes the rest of a completed command. */
    method EchoRest(text: string)
      requires Valid() && IsPrefix(input[..position], text) && IsLine(text)
      modifies this`position, input, console, console.video
      ensures Valid()
      ensures View() == old(View()).(input := text, screen := Editor.Print(old(console.Page()), text[old(position)..]))
    {
      assert '\0' !in text;
      Copy(position, text[position..]);
      assert input[..|text|] == text;
      CStrOfText(input[0..], text);
      var newPos := StrLen(input, 0);
      EchoUpTo(text, newPos);
    }

    /** The loop that shows `input[position..newPos)`. */
    method EchoUpTo(text: string, newPos: nat)
      requires position <= newPos == |text| < input.Length && IsLine(text) && console.Valid()
      requires forall k | 0 <= k < newPos :: input[k] == text[k]
      modifies this`position, console, console.video
      ensures console.Valid() && position == newPos
      ensures console.Page() == Editor.Print(old(console.Page()), text[old(position)..])
    {
      ghost var goal := RunScreen(console.Page(), Puts(text[position..]));
      while position < newPos
        invariant position <= newPos && console.Valid()
        invariant RunScreen(console.Page(), Puts(text[position..])) == goal
        decreases newPos - position
      {
        PutsStep(console.Page(), text, position);
        EchoOne(text);
      }
    }

    method EchoOne(text: string)
      requires position < |text| < input.Length && IsLine(text) && console.Valid()
      requires input[position] == text[position]
      modifies this`position, console, console.video
      ensures console.Valid() && position == old(position) + 1
      ensures console.Page() == PutScreen(old(console.Page()), text[old(position)])
    {
      assert text[position] in text;
      console.Putchar(input[position]);
      position := position + 1;
    }

    method Up()
      requires Valid() && log.pos > 0
      modifies this`position, this`currentHistory, input, console, console.video
      ensures Valid() && View() == KeyStep(log.View(), echoEnabled, old(View()), UP)
    {
      if currentHistory == -1 {
        currentHistory := log.pos - 1;
      } else if currentHistory > 0 {
        currentHistory := currentHistory - 1;
      }
      ShowLine(log.slots[currentHistory]);
    }

    method Down()
      requires Valid() && currentHistory != -1
      modifies this`position, this`currentHistory, input, console, console.video
      ensures Valid() && View() == KeyStep(log.View(), echoEnabled, old(View()), DOWN)
    {
      if currentHistory < log.pos - 1 {
        currentHistory := currentHistory + 1;
        ShowLine(log.slots[currentHistory]);
      } else {
        currentHistory := -1;
        ClearLine();
        input[0] := '\0';
        assert Puts("") == [];
      }
    }

    method Rub()
      requires Valid() && position > 0
      modifies this`position, input, console, console.video
      ensures Valid() && View() == KeyStep(log.View(), echoEnabled, old(View()), BACKSPACE)
    {
      position := position - 1;
      console.Print(RUBOUT);
      input[position] := '\0';
    }

    method Type(c: char)
      requires Valid() && position < MAX_INPUT - 2 && Typeable(c)
      modifies this`position, input, console, console.video
      ensures Valid()
      ensures View() == old(View()).(input := old(input[..position]) + [c],
                screen := if echoEnabled then Editor.Print(old(console.Page()), [c]) else old(console.Page()))
    {
      input[position] := c;
      position := position + 1;
      input[position] := '\0';
      assert input[..position] == old(input[..position]) + [c];
      if echoEnabled {
        console.Print([c]);
      }
    }

    /** One turn of the key loop; `done` when Enter ends the line. */
    method HandleKey(c: char) returns (done: bool)
      requires Valid()
      modifies this`position, this`currentHistory, input, console, console.video
      ensures Valid() && done == (c == ENTER)
      ensures View() == KeyStep(log.View(), echoEnabled, old(View()), c)
    {
      done := false;
      if c == ENTER {
        console.Print("\n");
        input[position] := '\0';
        done := true;
      } else if c == BACKSPACE && position > 0 {
        Rub();
      } else if c == UP && log.pos > 0 {
        Up();
      } else if c == DOWN && currentHistory != -1 {
        Down();
      } else if c == '\t' {
        if position > 0 {
          CommandsAreLines();
          Complete(COMMANDS);
        }
      } else if position < MAX_INPUT - 2 && Typeable(c) {
        Type(c);
      }
    }

    /** Between lines: the entered command goes to the history (the command itself may print anything),
        and the next line starts empty with nothing recalled. */
    method NextLine()
      requires Valid()
      modifies this`position, this`currentHistory, input, log, log.slots
      ensures Valid() && log.View() == Add(old(log.View()), old(View()).input)
      ensures View() == old(View()).(input := "", current := -1)
    {
      log.AddToHistory(input[..position]);
      currentHistory := -1;
      position := 0;
      input[0] := '\0';
    }
  }
}
