/** kernel/terminal.c as the kernel runs it: video memory rewritten in place. */
module Terminal {
  import opened CStrings
  import opened Numbers
  import opened Screen

  class Console {
    const video: array<Cell>
    var cursorX: int
    var cursorY: int
    var attribute: nat

    ghost predicate Valid()
      reads this
    {
      video.Length == CELLS && 0 <= cursorX < COLS && 0 <= cursorY < ROWS
    }

    ghost function Page(): (s: Page)
      reads this, video
      ensures Valid() ==> IsScreen(s)
    {
      Screen.Page(video[..], cursorX, cursorY, attribute)
    }

    constructor (video: array<Cell>)
      requires video.Length == CELLS
      ensures Valid() && this.video == video
      ensures Page() == Screen.Page(video[..], 0, 0, 0x07)
    {
      this.video := video;
      cursorX, cursorY, attribute := 0, 0, 0x07;
    }

    method Initialize()
      requires Valid()
      modifies this, video
      ensures Valid() && Page() == ClearScreen(old(Page()))
    {
      for y := 0 to ROWS
        invariant forall k | 0 <= k < y * COLS :: video[k] == Blank(attribute)
        invariant attribute == old(attribute)
      {
        for x := 0 to COLS
          invariant forall k | 0 <= k < y * COLS + x :: video[k] == Blank(attribute)
          invariant attribute == old(attribute)
        {
          video[y * COLS + x] := Blank(attribute);
        }
      }
      cursorX, cursorY := 0, 0;
      assert video[..] == Blanks(CELLS, attribute);
    }

    method SetColor(fg: nat, bg: nat)
      requires Valid()
      modifies this
      ensures Valid() && Page() == StepScreen(old(Page()), Screen.SetColor(fg, bg))
    {
      attribute := (bg * 16) % 256 + fg % 16;
    }

    /** The scroll loops of `putchar`: all lines up by one, the last one cleared. */
    method ScrollUp()
      requires video.Length == CELLS
      modifies video
      ensures video[..] == old(video[..])[COLS..] + Blanks(COLS, attribute)
    {
      for y := 0 to ROWS - 1
        invariant forall k | 0 <= k < y * COLS :: video[k] == old(video[..])[k + COLS]
        invariant forall k | y * COLS <= k < CELLS :: video[k] == old(video[..])[k]
      {
        for x := 0 to COLS
          invariant forall k | 0 <= k < y * COLS + x :: video[k] == old(video[..])[k + COLS]
          invariant forall k | y * COLS + x <= k < CELLS :: video[k] == old(video[..])[k]
        {
          video[y * COLS + x] := video[(y + 1) * COLS + x];
        }
      }
      for x := 0 to COLS
        invariant forall k | 0 <= k < CELLS - COLS :: video[k] == old(video[..])[k + COLS]
        invariant forall k | CELLS - COLS <= k < CELLS - COLS + x :: video[k] == Blank(attribute)
      {
        video[(ROWS - 1) * COLS + x] := Blank(attribute);
      }
    }

    /** `putchar` on a 7-bit character. */
    method Putchar(c: char)
      requires Valid() && c as int < 0x80
      modifies this, video
      ensures Valid() && Page() == PutScreen(old(Page()), c)
    {
      if c == '\n' {
        cursorX := 0;
        cursorY := cursorY + 1;
      } else if c == '\r' {
        cursorX := 0;
      } else if c == BACKSPACE {
        if cursorX > 0 {
          cursorX := cursorX - 1;
          video[cursorY * COLS + cursorX] := Blank(attribute);
        }
      } else if c == '\t' {
        cursorX := (cursorX + 8) / 8 * 8;
      } else {
        video[cursorY * COLS + cursorX] := Cell(c, attribute);
        cursorX := cursorX + 1;
      }
      assert Page() == Emit(old(Page()), c);
      if cursorX >= COLS {
        cursorX := 0;
        cursorY := cursorY + 1;
      }
      if cursorY >= ROWS {
        ScrollUp();
        cursorY := ROWS - 1;
      }
    }

    /** `terminal_writestring` from offset `at` of a NUL-terminated buffer. */
    method WriteString(str: array<char>, at: nat)
      requires Valid() && at <= str.Length && Terminated(str[at..])
      requires forall c | c in CStr(str[at..]) :: c as int < 0x80
      modifies this, video
      ensures Valid() && Page() == RunScreen(old(Page()), Puts(CStr(str[at..])))
    {
      ghost var s := CStr(str[at..]);
      CStrAt(str[at..]);
      var k := 0;
      while str[at + k] != '\0'
        invariant k <= |s| && Valid()
        invariant RunScreen(Page(), Puts(s[k..])) == RunScreen(old(Page()), Puts(s))
        decreases |s| - k
      {
        assert str[at..][k] == str[at + k];
        assert s[k] in s && s[k] == str[at + k];
        PutsStep(Page(), s, k);
        Putchar(str[at + k]);
        k := k + 1;
      }
      assert str[at..][k] == str[at + k];
    }

    /** The characters `printk` sends for a constant string or a "%s". */
    method Print(text: string)
      requires Valid() && forall c | c in text :: c as int < 0x80
      modifies this, video
      ensures Valid() && Page() == RunScreen(old(Page()), Puts(text))
    {
      for k := 0 to |text|
        invariant Valid()
        invariant RunScreen(Page(), Puts(text[k..])) == RunScreen(old(Page()), Puts(text))
      {
        PutsStep(Page(), text, k);
        assert text[k] in text;
        Putchar(text[k]);
      }
    }

    /** `terminal_write_dec`: the same digits as `itoa`, filled backward into eleven characters. */
    method WriteDec(value: nat)
      requires Valid() && value < 0x1_0000_0000
      modifies this, video
      ensures Valid() && Page() == RunScreen(old(Page()), Puts(Decimal(value)))
    {
      var buffer := new char[11];
      var p := DecimalInto(buffer, value);
      DecimalAscii(value);
      WriteString(buffer, p);
    }

    method DecimalInto(buffer: array<char>, value: nat) returns (p: nat)
      requires buffer.Length == 11 && value < 0x1_0000_0000
      modifies buffer
      ensures p < 11 && Terminated(buffer[p..]) && CStr(buffer[p..]) == Decimal(value)
    {
      buffer[10] := '\0';
      TenDigits(value);
      if value == 0 {
        p := 9;
        buffer[p] := '0';
      } else {
        p := FillBackward(buffer, value);
      }
      assert buffer[p..][..10 - p] == buffer[p..10] == Decimal(value);
      CStrOfText(buffer[p..], Decimal(value));
    }

    /** The digit loop of `terminal_write_dec`. */
    method FillBackward(buffer: array<char>, n: nat) returns (p: nat)
      requires buffer.Length == 11 && |Digits(n, 10)| <= 10
      modifies buffer
      ensures p == 10 - |Digits(n, 10)| && buffer[p..10] == Digits(n, 10)
      ensures buffer[10] == old(buffer[10])
    {
      ghost var d := Digits(n, 10);
      var value := n;
      p := 10;
      while value > 0
        invariant 10 - |d| <= p <= 10
        invariant Digits(value, 10) == d[..|d| - (10 - p)]
        invariant buffer[p..10] == d[|d| - (10 - p)..]
        invariant buffer[10] == old(buffer[10])
        decreases p
      {
        DigitsStep(value, 10);
        p := p - 1;
        buffer[p] := ('0' as int + value % 10) as char;
        assert d[|d| - (10 - p)..] == [buffer[p]] + d[|d| - (9 - p)..];
        value := value / 10;
      }
    }

    /** The digit loop of `terminal_write_hex`. */
    method FillHex(buffer: array<char>, value: nat)
      requires buffer.Length == 9
      modifies buffer
      ensures buffer[..8] == HexText(value, 8) && buffer[8] == old(buffer[8])
    {
      ghost var text := HexText(value, 8);
      var v := value;
      var i := 7;
      while i >= 0
        invariant -1 <= i <= 7 && text[..i + 1] == HexText(v, i + 1)
        invariant forall k | i < k < 8 :: buffer[k] == text[k]
        invariant buffer[8] == old(buffer[8])
      {
        assert text[i] == text[..i + 1][i] == HexChar(v % 16);
        assert text[..i] == text[..i + 1][..i];
        buffer[i] := "0123456789ABCDEF"[v % 16];
        v := v / 16;
        i := i - 1;
      }
    }

    /** `terminal_write_hex`: "0x" and eight upper-case digits. */
    method WriteHex(value: nat)
      requires Valid() && value < 0x1_0000_0000
      modifies this, video
      ensures Valid() && Page() == RunScreen(old(Page()), Puts("0x" + HexText(value, 8)))
    {
      var buffer := new char[9];
      buffer[8] := '\0';
      FillHex(buffer, value);
      ghost var text := HexText(value, 8);
      assert buffer[0..][..8] == text;
      CStrOfText(buffer[0..], text);
      HexAscii(value, 8);
      PutsAppend(Page(), "0x", text);
      Print("0x");
      WriteString(buffer, 0);
    }
  }

  lemma PutsAppend(s: Page, a: string, b: string)
    requires IsScreen(s)
    ensures RunScreen(s, Puts(a + b)) == RunScreen(RunScreen(s, Puts(a)), Puts(b))
  {
    assert Puts(a + b) == Puts(a) + Puts(b);
    RunScreenAppend(s, Puts(a), Puts(b));
  }

  lemma {:induction false} HexAscii(n: nat, width: nat)
    ensures forall c | c in HexText(n, width) :: c as int < 0x80
  {
    if width > 0 {
      HexAscii(n / 16, width - 1);
    }
  }

  lemma DecimalAscii(n: nat)
    ensures forall c | c in Decimal(n) :: c as int < 0x80
  {
    DecimalDigitsOnly(n);
  }
}
