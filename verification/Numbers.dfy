/** Number printing and reading: `itoa` and `atoi` of lib/string.c. */
module Numbers {
  import opened CStrings

  const INT_LIMIT := 0x8000_0000

  /** 0..9 then lower-case letters. */
  function DigitChar(r: nat): char
    requires r < 36
  {
    if r > 9 then (r - 10 + 'a' as int) as char else (r + '0' as int) as char
  }

  /** The digits of n, most significant first; none for 0. */
  function Digits(n: nat, base: nat): (s: string)
    requires 2 <= base <= 36
    ensures n > 0 <==> s != []
    ensures '\0' !in s
  {
    if n == 0 then [] else Digits(n / base, base) + [DigitChar(n % base)]
  }

  function Decimal(n: nat): string {
    if n == 0 then "0" else Digits(n, 10)
  }

  /** What `itoa` prints: a sign only in base 10; other bases print the value as unsigned 32-bit. */
  function ItoaText(value: int, base: nat): string
    requires -INT_LIMIT < value < INT_LIMIT && 2 <= base <= 36
  {
    if value == 0 then "0"
    else if value < 0 && base == 10 then "-" + Digits(-value, base)
    else Digits(if value < 0 then value + 2 * INT_LIMIT else value, base)
  }

  function Reverse<T>(s: seq<T>): (r: seq<T>)
    ensures |r| == |s| && forall k | 0 <= k < |s| :: r[k] == s[|s| - 1 - k]
  {
    seq(|s|, k requires 0 <= k < |s| => s[|s| - 1 - k])
  }

  lemma DigitsStep(n: nat, base: nat)
    requires n > 0 && 2 <= base <= 36
    ensures var d := Digits(n, base);
            d[|d| - 1] == DigitChar(n % base) && d[..|d| - 1] == Digits(n / base, base)
  {
  }

  /** The fill loop of `itoa`: digits least significant first, from `start`. */
  method FillDigits(n: nat, str: array<char>, start: nat, base: nat) returns (p: nat)
    requires 2 <= base <= 36 && start + |Digits(n, base)| <= str.Length
    modifies str
    ensures p == start + |Digits(n, base)|
    ensures str[start..p] == Reverse(Digits(n, base))
    ensures forall k | 0 <= k < start || p <= k < str.Length :: str[k] == old(str[k])
  {
    ghost var d := Digits(n, base);
    var tmp: nat := n;
    p := start;
    while tmp != 0
      invariant start <= p <= start + |d|
      invariant Digits(tmp, base) == d[..|d| - (p - start)]
      invariant forall k | start <= k < p :: str[k] == d[|d| - 1 - (k - start)]
      invariant forall k | 0 <= k < start || p <= k < str.Length :: str[k] == old(str[k])
      decreases start + |d| - p
    {
      DigitsStep(tmp, base);
      var rem := tmp % base;
      str[p] := DigitChar(rem);
      p := p + 1;
      tmp := tmp / base;
    }
  }

  /** The swap loop of `itoa`. */
  method ReverseInPlace(str: array<char>, start: nat, end: nat)
    requires start <= end <= str.Length
    modifies str
    ensures str[start..end] == Reverse(old(str[start..end]))
    ensures forall k | 0 <= k < start || end <= k < str.Length :: str[k] == old(str[k])
  {
    ghost var was := str[start..end];
    var p1, p2 := start, end - 1;
    while p1 < p2
      invariant start <= p1 <= p2 + 2 && p1 + p2 == start + end - 1
      invariant forall k | start <= k < p1 || p2 < k < end :: str[k] == old(str[start + end - 1 - k])
      invariant forall k | p1 <= k <= p2 || 0 <= k < start || end <= k < str.Length :: str[k] == old(str[k])
    {
      str[p1], str[p2] := str[p2], str[p1];
      p1, p2 := p1 + 1, p2 - 1;
    }
    forall k | 0 <= k < |was|
      ensures str[start..end][k] == was[|was| - 1 - k]
    {
      assert str[start + k] == old(str[start + end - 1 - (start + k)]);
    }
    IsReverse(str[start..end], was);
  }

  lemma IsReverse<T>(r: seq<T>, s: seq<T>)
    requires |r| == |s| && forall k | 0 <= k < |s| :: r[k] == s[|s| - 1 - k]
    ensures r == Reverse(s)
  {
  }

  /** Fill, terminate, reverse. */
  method PrintDigits(n: nat, str: array<char>, start: nat, base: nat) returns (p: nat)
    requires 2 <= base <= 36 && start + |Digits(n, base)| < str.Length
    modifies str
    ensures p == start + |Digits(n, base)|
    ensures str[start..p] == Digits(n, base) && str[p] == '\0'
    ensures forall k | 0 <= k < start || p < k < str.Length :: str[k] == old(str[k])
  {
    p := FillDigits(n, str, start, base);
    str[p] := '\0';
    assert str[start..p] == Reverse(Digits(n, base));
    ReverseInPlace(str, start, p);
    ReverseTwice(Digits(n, base));
  }

  method Itoa(value: int, str: array<char>, base: nat)
    requires -INT_LIMIT < value < INT_LIMIT && 2 <= base <= 36
    requires |ItoaText(value, base)| < str.Length
    modifies str
    ensures var n := |ItoaText(value, base)|;
            && str[..n] == ItoaText(value, base) && str[n] == '\0'
            && forall k | n < k < str.Length :: str[k] == old(str[k])
  {
    if value == 0 {
      str[0], str[1] := '0', '\0';
      return;
    }
    if value < 0 && base == 10 {
      str[0] := '-';
      var p := PrintDigits(-value, str, 1, base);
      assert str[..p] == ['-'] + str[1..p];
    } else {
      var p := PrintDigits(if value < 0 then value + 2 * INT_LIMIT else value, str, 0, base);
      assert str[..p] == str[0..p];
    }
  }

  lemma ReverseTwice<T>(s: seq<T>)
    ensures Reverse(Reverse(s)) == s
  {
  }

  // ----- atoi

  predicate IsSpace(c: char) { c == ' ' || c == '\t' || c == '\n' }
  predicate IsDigit(c: char) { '0' <= c <= '9' }

  function SkipSpaces(s: string): string {
    if s != [] && IsSpace(s[0]) then SkipSpaces(s[1..]) else s
  }

  /** The value of the digits at the head of `s`, read after `acc`. */
  function Value(s: string, acc: nat): (v: nat)
    ensures v >= acc
  {
    if s != [] && IsDigit(s[0]) then Value(s[1..], acc * 10 + (s[0] as int - '0' as int)) else acc
  }

  /** Sign and unsigned digits, after white space. */
  function Magnitude(s: string): nat {
    var t := SkipSpaces(s);
    if t != [] && (t[0] == '-' || t[0] == '+') then Value(t[1..], 0) else Value(t, 0)
  }

  function AtoiValue(s: string): int {
    var t := SkipSpaces(s);
    if t != [] && t[0] == '-' then -(Magnitude(s) as int) else Magnitude(s)
  }

  /** `atoi`. Beyond 31 bits of magnitude the C code overflows a signed int, so callers must stay
      below; then no intermediate result overflows either. */
  method Atoi(str: array<char>, at: nat) returns (r: int)
    requires at <= str.Length && Terminated(str[at..])
    requires Magnitude(CStr(str[at..])) < INT_LIMIT
    ensures r == AtoiValue(CStr(str[at..]))
  {
    ghost var s := CStr(str[at..]);
    CStrAt(str[at..]);
    var k := 0;
    while str[at + k] == ' ' || str[at + k] == '\t' || str[at + k] == '\n'
      invariant k <= |s| && SkipSpaces(s) == SkipSpaces(s[k..])
      decreases |s| - k
    {
      assert str[at..][k] == str[at + k];
      SkipStep(s, k);
      k := k + 1;
    }
    assert str[at..][k] == str[at + k];
    SkipStep(s, k);
    var sign: int := 1;
    if str[at + k] == '-' {
      sign := -1;
      k := k + 1;
    } else if str[at + k] == '+' {
      k := k + 1;
    }
    var result := ReadDigits(str, at, k);
    r := sign * result;
  }

  /** The conversion loop of `atoi`. */
  method ReadDigits(str: array<char>, at: nat, from: nat) returns (result: nat)
    requires at <= str.Length && Terminated(str[at..]) && from <= |CStr(str[at..])|
    requires Value(CStr(str[at..])[from..], 0) < INT_LIMIT
    ensures result == Value(CStr(str[at..])[from..], 0)
  {
    ghost var s := CStr(str[at..]);
    CStrAt(str[at..]);
    var k := from;
    result := 0;
    assert str[at..][k] == str[at + k];
    while '0' <= str[at + k] <= '9'
      invariant k <= |s| && Value(s[k..], result) == Value(s[from..], 0)
      invariant str[at..][k] == str[at + k] && result < INT_LIMIT
      decreases |s| - k
    {
      ValueStep(s, k, result);
      result := result * 10 + (str[at + k] as int - '0' as int);
      k := k + 1;
      assert result <= Value(s[k..], result) < INT_LIMIT;
    }
    ValueStep(s, k, result);
  }

  lemma SkipStep(s: string, k: nat)
    requires k <= |s|
    ensures k < |s| && IsSpace(s[k]) ==> SkipSpaces(s[k..]) == SkipSpaces(s[k + 1..])
    ensures !(k < |s| && IsSpace(s[k])) ==> SkipSpaces(s[k..]) == s[k..]
  {
    assert k < |s| ==> s[k..][1..] == s[k + 1..];
  }

  lemma ValueStep(s: string, k: nat, acc: nat)
    requires k <= |s|
    ensures k < |s| && IsDigit(s[k]) ==>
      Value(s[k..], acc) == Value(s[k + 1..], acc * 10 + (s[k] as int - '0' as int))
    ensures !(k < |s| && IsDigit(s[k])) ==> Value(s[k..], acc) == acc
  {
    assert k < |s| ==> s[k..][1..] == s[k + 1..];
  }

  // ----- reading back what was printed

  lemma {:induction false} ValueOfDigits(n: nat, rest: string)
    ensures Value(Digits(n, 10) + rest, 0) == Value(rest, n)
  {
    if n == 0 {
      assert Digits(n, 10) + rest == rest;
    } else {
      var c := DigitChar(n % 10);
      assert Digits(n, 10) + rest == Digits(n / 10, 10) + ([c] + rest);
      ValueOfDigits(n / 10, [c] + rest);
      assert ([c] + rest)[1..] == rest;
    }
  }

  /** The value of one digit of any base. */
  function DigitOf(c: char): nat {
    if '0' <= c <= '9' then c as int - '0' as int else if 'a' <= c <= 'z' then c as int - 'a' as int + 10 else 0
  }

  function ValueIn(s: string, base: nat): nat {
    if s == "" then 0 else ValueIn(s[..|s| - 1], base) * base + DigitOf(s[|s| - 1])
  }

  /** In every base the digits are those of the number. */
  lemma {:induction false} DigitsAnyBase(n: nat, base: nat)
    requires 2 <= base <= 36
    ensures ValueIn(Digits(n, base), base) == n
    decreases n
  {
    if n > 0 {
      DivideOnce(n, base);
      DigitsStep(n, base);
      DigitsAnyBase(n / base, base);
      LastDigit(Digits(n, base), base, n / base, n % base, n);
    }
  }

  lemma LastDigit(s: string, base: nat, q: nat, r: nat, n: nat)
    requires s != "" && r < base <= 36 && s[|s| - 1] == DigitChar(r)
    requires ValueIn(s[..|s| - 1], base) == q && q * base + r == n
    ensures ValueIn(s, base) == n
  {
    assert DigitOf(DigitChar(r)) == r;
  }

  lemma DivideOnce(n: nat, base: nat)
    requires n > 0 && base >= 2
    ensures n / base < n && n % base < base && n / base * base + n % base == n
  {
  }

  /** The value of a machine word as the code's unsigned type reads it. */
  function Unsigned(value: int): nat
    requires -INT_LIMIT < value < INT_LIMIT
  {
    if value < 0 then value + 0x1_0000_0000 else value
  }

  /** A character that can stand in a number of that base. */
  predicate DigitIn(c: char, base: nat) {
    ('0' <= c <= '9' || 'a' <= c <= 'z') && DigitOf(c) < base
  }

  lemma {:induction false} DigitsCanonical(n: nat, base: nat)
    requires 2 <= base <= 36
    ensures forall c | c in Digits(n, base) :: DigitIn(c, base)
    ensures n > 0 ==> Digits(n, base)[0] != '0'
    decreases n
  {
    if n > 0 {
      DivideOnce(n, base);
      DigitsCanonical(n / base, base);
      assert DigitOf(DigitChar(n % base)) == n % base;
    }
  }

  /** In every base but 10 the text has the value of the word read as unsigned, in base 10 that of the
      magnitude behind a minus sign; it has only digits of the base and no leading zero. */
  lemma ItoaAnyBase(value: int, base: nat)
    requires -INT_LIMIT < value < INT_LIMIT && 2 <= base <= 36
    ensures var text := ItoaText(value, base);
            var negative := value < 0 && base == 10;
            var digits := if negative && text != "" then text[1..] else text;
            && (negative ==> text != "" && text[0] == '-')
            && ValueIn(digits, base) == (if negative then -value else Unsigned(value))
            && (forall c | c in digits :: DigitIn(c, base))
            && digits != "" && (digits[0] == '0' ==> digits == "0")
  {
    var n := if value < 0 && base == 10 then -value else Unsigned(value);
    DigitsAnyBase(n, base);
    DigitsCanonical(n, base);
    if value == 0 {
      assert "0"[..0] == "" && ValueIn("0", base) == ValueIn("", base) * base + 0;
    } else if value < 0 && base == 10 {
      assert ("-" + Digits(n, base))[1..] == Digits(n, base);
    }
  }

  lemma {:induction false} DecimalDigitsOnly(n: nat)
    ensures forall c | c in Digits(n, 10) :: IsDigit(c)
  {
    if n > 0 {
      DecimalDigitsOnly(n / 10);
    }
  }

  /** `atoi(itoa(v, 10)) == v`, with nothing in `atoi` overflowing. */
  lemma RoundTrip(v: int)
    requires -INT_LIMIT < v < INT_LIMIT
    ensures Magnitude(ItoaText(v, 10)) < INT_LIMIT
    ensures AtoiValue(ItoaText(v, 10)) == v
  {
    var text := ItoaText(v, 10);
    if v == 0 {
      assert text[1..] == "";
      assert Value(text, 0) == Value("", 0) == 0;
    } else {
      var m := if v < 0 then -v else v;
      var d := Digits(m, 10);
      DecimalDigitsOnly(m);
      ValueOfDigits(m, "");
      assert d + "" == d;
      if v < 0 {
        assert text[0] == '-' && text[1..] == d;
      } else {
        assert text == d && IsDigit(d[0]);
      }
    }
  }

  // ----- what `atoi` reads

  lemma {:induction false} SkipAll(spaces: string, s: string)
    requires forall c | c in spaces :: c == ' ' || c == '\t' || c == '\n'
    requires s != "" ==> s[0] != ' ' && s[0] != '\t' && s[0] != '\n'
    ensures SkipSpaces(spaces + s) == s
    decreases spaces
  {
    if spaces == "" {
      assert spaces + s == s;
    } else {
      assert (spaces + s)[1..] == spaces[1..] + s;
      assert spaces[0] in spaces && forall c | c in spaces[1..] :: c in spaces;
      SkipAll(spaces[1..], s);
    }
  }

  /** Digits up to the end or the first other character. */
  lemma {:induction false} ReadsDigits(digits: string, rest: string, acc: nat)
    requires forall c | c in digits :: '0' <= c <= '9'
    requires rest != "" ==> !('0' <= rest[0] <= '9')
    ensures Value(digits + rest, acc) == Shifted(acc, |digits|) + ValueIn(digits, 10)
    decreases |digits|
  {
    if digits == "" {
      assert digits + rest == rest;
    } else {
      var front, c := digits[..|digits| - 1], digits[|digits| - 1];
      assert digits + rest == front + ([c] + rest);
      assert c in digits && forall d | d in front :: d in digits;
      ReadsOneMore(front, c, rest, acc);
      ReadsDigits(front, "", acc);
      assert front + "" == front;
    }
  }

  function Shifted(acc: nat, k: nat): nat {
    if k == 0 then acc else Shifted(acc, k - 1) * 10
  }

  lemma {:induction false} ReadsOneMore(digits: string, c: char, rest: string, acc: nat)
    requires (forall d | d in digits :: '0' <= d <= '9') && '0' <= c <= '9'
    requires rest != "" ==> !('0' <= rest[0] <= '9')
    ensures Value(digits + ([c] + rest), acc) == Value(digits, acc) * 10 + (c as int - '0' as int)
    decreases digits
  {
    if digits == "" {
      assert digits + ([c] + rest) == [c] + rest && ([c] + rest)[1..] == rest;
    } else {
      assert (digits + ([c] + rest))[1..] == digits[1..] + ([c] + rest);
      assert digits[0] in digits && forall d | d in digits[1..] :: d in digits;
      ReadsOneMore(digits[1..], c, rest, acc * 10 + (digits[0] as int - '0' as int));
    }
  }

  lemma {:induction false} ShiftedZero(k: nat)
    ensures Shifted(0, k) == 0
  {
    if k > 0 {
      ShiftedZero(k - 1);
    }
  }

  /** `atoi` on any text: blanks, tabs and newlines, one optional sign, digits (leading zeros allowed, or none
      at all), and anything that does not go on with a digit. */
  lemma AtoiReads(spaces: string, sign: string, digits: string, rest: string)
    requires forall c | c in spaces :: c == ' ' || c == '\t' || c == '\n'
    requires sign == "" || sign == "-" || sign == "+"
    requires forall c | c in digits :: '0' <= c <= '9'
    requires rest != "" ==> !('0' <= rest[0] <= '9')
    requires sign == "" && digits == "" && rest != "" ==> rest[0] !in " \t\n+-"
    ensures AtoiValue(spaces + (sign + (digits + rest)))
         == (if sign == "-" then -1 else 1) * ValueIn(digits, 10)
  {
    var t := sign + (digits + rest);
    assert digits != "" ==> (digits + rest)[0] == digits[0] && digits[0] in digits;
    assert digits == "" ==> digits + rest == rest;
    assert sign == "" ==> t == digits + rest;
    assert sign != "" ==> t[1..] == digits + rest;
    SkipAll(spaces, t);
    ReadsDigits(digits, rest, 0);
    ShiftedZero(|digits|);
  }

  function Power(base: nat, k: nat): nat {
    if k == 0 then 1 else base * Power(base, k - 1)
  }

  lemma {:induction false} DigitCount(n: nat, k: nat)
    requires n < Power(10, k)
    ensures |Digits(n, 10)| <= k
  {
    if n > 0 {
      DigitCount(n / 10, k - 1);
    }
  }

  /** Ten digits are enough for any 32-bit value. */
  lemma TenDigits(n: nat)
    requires n < 0x1_0000_0000
    ensures 1 <= |Decimal(n)| <= 10
  {
    assert Power(10, 5) == 10 * (10 * (10 * (10 * 10)));
    assert Power(10, 10) == 10 * (10 * (10 * (10 * (10 * Power(10, 5)))));
    DigitCount(n, 10);
  }

  /** `terminal_write_dec` and `itoa` print the same digits, and `atoi` reads both. */
  lemma SameDigits(n: nat)
    requires n < INT_LIMIT
    ensures Decimal(n) == ItoaText(n, 10) && AtoiValue(Decimal(n)) == n
  {
    RoundTrip(n);
  }

  /** Different numbers print differently. */
  lemma DecimalInjective(a: nat, b: nat)
    requires Decimal(a) == Decimal(b)
    ensures a == b
  {
    ValueOfDigits(a, "");
    ValueOfDigits(b, "");
    assert Digits(a, 10) + "" == Digits(a, 10) && Digits(b, 10) + "" == Digits(b, 10);
    assert Value("0", 0) == 0 by { assert "0"[1..] == ""; }
  }

  // ----- fixed-width hexadecimal

  function HexChar(r: nat): char
    requires r < 16
  {
    "0123456789ABCDEF"[r]
  }

  function HexText(n: nat, width: nat): (s: string)
    ensures |s| == width && '\0' !in s
  {
    if width == 0 then [] else HexText(n / 16, width - 1) + [HexChar(n % 16)]
  }

  function HexDigit(c: char): nat {
    if '0' <= c <= '9' then c as int - '0' as int
    else if 'A' <= c <= 'F' then c as int - 'A' as int + 10
    else 0
  }

  function HexValue(s: string): nat {
    if s == [] then 0 else HexValue(s[..|s| - 1]) * 16 + HexDigit(s[|s| - 1])
  }

  /** Every character is a decimal digit or one of the upper-case letters A to F. */
  lemma {:induction false} HexDigitsOnly(n: nat, width: nat)
    ensures forall c | c in HexText(n, width) :: '0' <= c <= '9' || 'A' <= c <= 'F'
  {
    if width > 0 {
      HexDigitsOnly(n / 16, width - 1);
    }
  }

  lemma {:induction false} HexRoundTrip(n: nat, width: nat)
    requires n < Power(16, width)
    ensures HexValue(HexText(n, width)) == n
  {
    if width > 0 {
      HexRoundTrip(n / 16, width - 1);
      assert HexText(n, width)[..width - 1] == HexText(n / 16, width - 1);
    }
  }
}
