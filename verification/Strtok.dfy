/** `strtok` of lib/string.c and `parse_command` of kernel/shell.c: tokens are cut out of a buffer in
    place by overwriting delimiters with NUL. First one call as a function of the original text and the
    static pointer, then the code itself. */
module Strtok {
  import opened CStrings
  import opened Heap
  import opened Splitting
  import opened Limits

  const MAX_ARGS := 16

  function CharSet(s: string): Chars { set c | c in s }

  /** The static pointer (null is None) and the token found, as offsets into the original text. */
  datatype Call = Call(last: Option<nat>, token: Option<(nat, nat)>)

  /** One call of `strtok` that continues from `last` in the text `s`. */
  function StrtokStep(s: string, last: Option<nat>, delim: Chars): Call {
    if last.None? || last.value >= |s| then Call(last, None)
    else
      var from := SkipIn(s, delim, last.value);
      if from == |s| then Call(None, None)
      else
        var to := SkipOut(s, delim, from);
        Call(Some(if to < |s| then to + 1 else to), Some((from, to)))
  }

  function TokensLeft(s: string, last: Option<nat>, delim: Chars): seq<string> {
    if last.Some? && last.value <= |s| then TokensFrom(s, delim, last.value) else []
  }

  /** Each call returns the first token that is left and leaves the others; null comes exactly when
      there is none. */
  lemma StepToken(s: string, last: Option<nat>, delim: Chars)
    ensures var r := StrtokStep(s, last, delim); var left := TokensLeft(s, last, delim);
            if left == [] then r.token.None? && TokensLeft(s, r.last, delim) == []
            else && r.token.Some? && r.last.Some? && last.value <= r.token.value.0 < r.token.value.1 <= r.last.value <= |s|
                 && s[r.token.value.0..r.token.value.1] == left[0]
                 && TokensLeft(s, r.last, delim) == left[1..]
                 && (r.token.value.1 < |s| ==> r.token.value.1 < r.last.value)
  {
    if last.Some? && last.value < |s| {
      var from := SkipIn(s, delim, last.value);
      if from < |s| {
        var to := SkipOut(s, delim, from);
        if to < |s| {
          DropDelimiter(s, delim, to);
        }
      }
    }
  }

  /** All the tokens that repeated calls return, up to the first null. */
  function CallAll(s: string, last: Option<nat>, delim: Chars): seq<string>
    decreases if last.Some? && last.value <= |s| then |s| - last.value + 1 else 0, if last.Some? then 1 else 0
  {
    var r := StrtokStep(s, last, delim);
    if r.token.None? then [] else
      [s[r.token.value.0..r.token.value.1]]
      + if r.last.value > last.value then CallAll(s, r.last, delim) else []
  }

  /** Successive calls return the tokens of the text in order and then null. */
  lemma {:induction false} CallsReturnTokens(s: string, last: Option<nat>, delim: Chars)
    requires last.Some? && last.value <= |s|
    ensures CallAll(s, last, delim) == TokensLeft(s, last, delim)
    decreases |s| - last.value
  {
    StepToken(s, last, delim);
    var r := StrtokStep(s, last, delim);
    if r.token.Some? {
      CallsReturnTokens(s, r.last, delim);
    }
  }

  /** A string of its own at `at`, ending at or before `next`. */
  ghost predicate IsCut(b: seq<char>, at: nat, t: string, next: nat) {
    && t != "" && at + |t| <= next && at + |t| < |b|
    && b[at + |t|] == '\0' && forall k | 0 <= k < |t| :: b[at + k] == t[k] && t[k] != '\0'
  }

  lemma CutReads(b: seq<char>, at: nat, t: string, next: nat)
    requires IsCut(b, at, t, next)
    ensures at < |b| && CStr(b[at..]) == t
  {
    assert b[at..][..|t|] == t && b[at..][|t|] == '\0';
    CStrOfText(b[at..], t);
  }

  /** The token just found, after its NUL is in place. */
  lemma NewCut(b: seq<char>, s: string, from: nat, to: nat, next: nat)
    requires from < to <= |s| && to <= next && to < |b| && b[to] == '\0'
    requires forall k | from <= k < to :: b[k] == s[k] && s[k] != '\0'
    ensures IsCut(b, from, s[from..to], next)
  {
  }

  /** Strings cut before an offset survive writes after it. */
  lemma CutsStay(b: seq<char>, b': seq<char>, args: seq<nat>, all: seq<string>, before: nat, next: nat)
    requires |args| <= |all| && |b'| == |b| && before <= next
    requires forall j | 0 <= j < |args| :: IsCut(b, args[j], all[j], before)
    requires forall k | 0 <= k <= before && k < |b| :: b'[k] == b[k]
    ensures forall j | 0 <= j < |args| :: IsCut(b', args[j], all[j], next)
  {
  }

  class Tokenizer {
    const buffer: array<char>     // the static buffer of `parse_command`
    var last: Option<nat>         // the static pointer of `strtok`

    constructor ()
      ensures buffer.Length == MAX_INPUT && last == None && fresh(buffer)
    {
      buffer := new char[MAX_INPUT];
      last := None;
    }

    /** From `at` on the buffer still holds the text and its NUL. */
    ghost predicate Holds(s: string, at: nat)
      reads buffer
    {
      && at <= |s| < buffer.Length && buffer[|s|] == '\0'
      && forall k | at <= k < |s| :: buffer[k] == s[k] && s[k] != '\0'
    }

    method StrSpn(at: nat, accept: string, ghost s: string) returns (count: nat)
      requires Holds(s, at) && '\0' !in accept
      ensures at + count == SkipIn(s, CharSet(accept), at)
    {
      count := 0;
      while buffer[at + count] != '\0'
        invariant at + count <= |s| && SkipIn(s, CharSet(accept), at + count) == SkipIn(s, CharSet(accept), at)
        decreases |s| - count
      {
        var a := 0;
        while a < |accept| && accept[a] != buffer[at + count]
          invariant a <= |accept| && forall k | 0 <= k < a :: accept[k] != buffer[at + count]
        {
          a := a + 1;
        }
        if a == |accept| {
          return;
        }
        count := count + 1;
      }
    }

    method StrCSpn(at: nat, reject: string, ghost s: string) returns (count: nat)
      requires Holds(s, at)
      ensures at + count == SkipOut(s, CharSet(reject), at)
    {
      count := 0;
      while buffer[at + count] != '\0'
        invariant at + count <= |s| && SkipOut(s, CharSet(reject), at + count) == SkipOut(s, CharSet(reject), at)
        decreases |s| - count
      {
        var r := 0;
        while r < |reject|
          invariant r <= |reject| && forall k | 0 <= k < r :: reject[k] != buffer[at + count]
        {
          if buffer[at + count] == reject[r] {
            return;
          }
          r := r + 1;
        }
        count := count + 1;
      }
    }

    /** `strtok`: what it returns and where it continues is the step on the original text, although the
        delimiters before have been overwritten; it writes one NUL, at the end of the token. */
    method StrTok(str: Option<nat>, delim: string, ghost s: string) returns (token: Option<nat>)
      requires '\0' !in delim
      requires var start := if str.Some? then str else last; start.Some? ==> Holds(s, start.value)
      modifies this, buffer
      ensures var r := StrtokStep(s, if str.Some? then str else old(last), CharSet(delim));
              && last == r.last
              && (last.Some? ==> Holds(s, last.value))
              && (r.token.None? ==> token == None && buffer[..] == old(buffer[..]))
              && (r.token.Some? ==>
                    && token == Some(r.token.value.0) && r.token.value.1 < buffer.Length
                    && buffer[..] == old(buffer[..])[r.token.value.1 := '\0'])
    {
      if str.Some? {
        last := str;
      }
      if last.None? || buffer[last.value] == '\0' {
        return None;
      }
      var n := StrSpn(last.value, delim, s);
      var from := last.value + n;
      if buffer[from] == '\0' {
        last := None;
        return None;
      }
      n := StrCSpn(from, delim, s);
      var end := from + n;
      if buffer[end] != '\0' {
        buffer[end] := '\0';
        last := Some(end + 1);
      } else {
        last := Some(end);
      }
      assert buffer[..] == old(buffer[..])[end := '\0'];
      token := Some(from);
    }

    /** Between two calls of `parse_command`'s loop: the arguments so far are the first tokens, cut before
        anything a later call writes, and the pending token is the next one. */
    ghost predicate Parsing(input: string, args: seq<nat>, token: Option<nat>)
      reads this, buffer
    {
      var delim := CharSet(" \t"); var all := Tokens(input, delim);
      && |args| <= |all|
      && (last.Some? ==> Holds(input, last.value))
      && (forall j | 0 <= j < |args| :: IsCut(buffer[..], args[j], all[j], if token.Some? then token.value else buffer.Length))
      && if token.None? then |args| == |all|
         else && |args| < |all| && last.Some? && IsCut(buffer[..], token.value, all[|args|], last.value)
              && TokensLeft(input, last, delim) == all[|args| + 1..]
    }

    method FirstToken(input: string) returns (token: Option<nat>)
      requires '\0' !in input && Holds(input, 0)
      modifies this, buffer
      ensures Parsing(input, [], token)
    {
      ghost var r := StrtokStep(input, Some(0), CharSet(" \t"));
      StepToken(input, Some(0), CharSet(" \t"));
      token := StrTok(Some(0), " \t", input);
      if r.token.Some? {
        NewCut(buffer[..], input, r.token.value.0, r.token.value.1, last.value);
      }
    }

    method NextToken(input: string, args: seq<nat>, pending: nat) returns (token: Option<nat>)
      requires Parsing(input, args, Some(pending))
      modifies this, buffer
      ensures Parsing(input, args + [pending], token)
    {
      ghost var b, before, args' := buffer[..], last.value, args + [pending];
      ghost var all := Tokens(input, CharSet(" \t"));
      assert forall j | 0 <= j < |args'| :: IsCut(b, args'[j], all[j], before);
      token := Advance(input);
      CutsStay(b, buffer[..], args', all, before, if token.Some? then token.value else buffer.Length);
    }

    /** A later call, seen from the tokens that are left. */
    method Advance(input: string) returns (token: Option<nat>)
      requires last.Some? && Holds(input, last.value)
      modifies this, buffer
      ensures last.Some? ==> Holds(input, last.value)
      ensures var delim := CharSet(" \t"); var left := TokensLeft(input, old(last), delim);
              if left == [] then token.None?
              else && token.Some? && last.Some? && old(last.value) <= token.value
                   && IsCut(buffer[..], token.value, left[0], last.value) && TokensLeft(input, last, delim) == left[1..]
      ensures forall k | 0 <= k <= old(last.value) && k < buffer.Length :: buffer[k] == old(buffer[..])[k]
    {
      ghost var r := StrtokStep(input, last, CharSet(" \t"));
      StepToken(input, last, CharSet(" \t"));
      token := StrTok(None, " \t", input);
      if r.token.Some? {
        NewCut(buffer[..], input, r.token.value.0, r.token.value.1, last.value);
      }
    }

    method StrCpy(input: string)
      requires |input| < buffer.Length && '\0' !in input
      modifies buffer
      ensures Holds(input, 0)
    {
      for k := 0 to |input|
        invariant forall j | 0 <= j < k :: buffer[j] == input[j]
      {
        buffer[k] := input[k];
      }
      buffer[|input|] := '\0';
      assert forall k | 0 <= k < |input| :: input[k] in input;
    }

    /** `parse_command`: the first fifteen tokens, each readable at its offset when the call returns. */
    method ParseCommand(input: string) returns (args: seq<nat>)
      requires buffer.Length == MAX_INPUT && |input| < MAX_INPUT && '\0' !in input
      modifies this, buffer
      ensures var all := Tokens(input, CharSet(" \t"));
              && |args| == (if |all| < 16 then |all| else 15)
              && forall j | 0 <= j < |args| :: args[j] < buffer.Length && CStr(buffer[args[j]..]) == all[j]
    {
      StrCpy(input);
      args := [];
      var token: Option<nat> := FirstToken(input);
      while token.Some? && |args| < MAX_ARGS - 1
        invariant |args| < MAX_ARGS && Parsing(input, args, token)
        decreases MAX_ARGS - |args|
      {
        var pending := token.value;
        token := NextToken(input, args, pending);
        args := args + [pending];
      }
      ghost var all := Tokens(input, CharSet(" \t"));
      forall j | 0 <= j < |args|
        ensures args[j] < buffer.Length && CStr(buffer[args[j]..]) == all[j]
      {
        CutReads(buffer[..], args[j], all[j], if token.Some? then token.value else buffer.Length);
        assert buffer[..][args[j]..] == buffer[args[j]..];
      }
    }
  }
}
