/** Splitting on delimiters: what `strtok` of lib/string.c means, as a value
    (ISO/IEC 9899:1999, sections 7.21.5.3, 7.21.5.6 and 7.21.5.8). */
module Splitting {

  type Chars = set<char>

  /** The first index from `at` on whose character is not in the set (`strspn`). */
  function SkipIn(s: string, chars: Chars, at: nat): (a: nat)
    requires at <= |s|
    ensures at <= a <= |s| && (forall k | at <= k < a :: s[k] in chars) && (a < |s| ==> s[a] !in chars)
    decreases |s| - at
  {
    if at < |s| && s[at] in chars then SkipIn(s, chars, at + 1) else at
  }

  /** The first index from `at` on whose character is in the set (`strcspn`). */
  function SkipOut(s: string, chars: Chars, at: nat): (b: nat)
    requires at <= |s|
    ensures at <= b <= |s| && (forall k | at <= k < b :: s[k] !in chars) && (b < |s| ==> s[b] in chars)
    decreases |s| - at
  {
    if at < |s| && s[at] !in chars then SkipOut(s, chars, at + 1) else at
  }

  /** Start and end of each token from `at` on. */
  function Runs(s: string, delim: Chars, at: nat): seq<(nat, nat)>
    requires at <= |s|
    decreases |s| - at
  {
    var a := SkipIn(s, delim, at);
    if a == |s| then [] else
      var b := SkipOut(s, delim, a);
      [(a, b)] + Runs(s, delim, b)
  }

  function TokensFrom(s: string, delim: Chars, at: nat): seq<string>
    requires at <= |s|
    decreases |s| - at
  {
    var a := SkipIn(s, delim, at);
    if a == |s| then [] else
      var b := SkipOut(s, delim, a);
      [s[a..b]] + TokensFrom(s, delim, b)
  }

  /** The tokens of a string, in order. */
  function Tokens(s: string, delim: Chars): seq<string> { TokensFrom(s, delim, 0) }

  // ----- the tokens are exactly the maximal delimiter-free runs

  /** [a, b) is a delimiter-free run that cannot be extended either way. */
  ghost predicate IsRun(s: string, delim: Chars, a: int, b: int) {
    && 0 <= a < b <= |s| && (forall k | a <= k < b :: s[k] !in delim)
    && (a > 0 ==> s[a - 1] in delim) && (b < |s| ==> s[b] in delim)
  }

  /** Every pair is a maximal run at or after `at`, and they come in order. */
  ghost predicate InOrder(s: string, delim: Chars, r: seq<(nat, nat)>, at: nat)
    decreases r
  {
    r != [] ==> at <= r[0].0 && IsRun(s, delim, r[0].0, r[0].1) && InOrder(s, delim, r[1..], r[0].1)
  }

  lemma {:induction false} RunsAreMaximal(s: string, delim: Chars, at: nat)
    requires at <= |s| && (at == 0 || at == |s| || s[at - 1] in delim || s[at] in delim)
    ensures InOrder(s, delim, Runs(s, delim, at), at)
    decreases |s| - at
  {
    var a := SkipIn(s, delim, at);
    if a < |s| {
      var b := SkipOut(s, delim, a);
      RunsAreMaximal(s, delim, b);
      assert ([(a, b)] + Runs(s, delim, b))[1..] == Runs(s, delim, b);
    }
  }

  ghost predicate Covered(r: seq<(nat, nat)>, k: int) { exists i :: 0 <= i < |r| && r[i].0 <= k < r[i].1 }

  /** No character outside the delimiters is missed. */
  lemma {:induction false} RunsCoverAll(s: string, delim: Chars, at: nat, k: nat)
    requires at <= k < |s| && s[k] !in delim
    ensures Covered(Runs(s, delim, at), k)
    decreases |s| - at
  {
    var r, a := Runs(s, delim, at), SkipIn(s, delim, at);
    var b := SkipOut(s, delim, a);
    if k < b {
      assert r[0].0 <= k < r[0].1;
    } else {
      var rest := Runs(s, delim, b);
      RunsCoverAll(s, delim, b, k);
      var i :| 0 <= i < |rest| && rest[i].0 <= k < rest[i].1;
      assert r[i + 1] == rest[i];
    }
  }

  function Slices(s: string, r: seq<(nat, nat)>): seq<string> {
    if r == [] then []
    else (if r[0].0 <= r[0].1 <= |s| then [s[r[0].0..r[0].1]] else [""]) + Slices(s, r[1..])
  }

  /** The tokens are the text of the runs. */
  lemma {:induction false} RunsReadTokens(s: string, delim: Chars, at: nat)
    requires at <= |s|
    ensures TokensFrom(s, delim, at) == Slices(s, Runs(s, delim, at))
    decreases |s| - at
  {
    var a := SkipIn(s, delim, at);
    if a < |s| {
      var b := SkipOut(s, delim, a);
      RunsReadTokens(s, delim, b);
      assert ([(a, b)] + Runs(s, delim, b))[1..] == Runs(s, delim, b);
    }
  }

  /** A delimiter between tokens does not matter. */
  lemma DropDelimiter(s: string, delim: Chars, at: nat)
    requires at < |s| && s[at] in delim
    ensures TokensFrom(s, delim, at) == TokensFrom(s, delim, at + 1)
  {
    assert SkipIn(s, delim, at) == SkipIn(s, delim, at + 1);
  }

  // ----- joining and reparsing

  ghost predicate IsToken(t: string, delim: Chars) { t != "" && forall k | 0 <= k < |t| :: t[k] !in delim }

  ghost predicate AreTokens(ts: seq<string>, delim: Chars) { forall i | 0 <= i < |ts| :: IsToken(ts[i], delim) }

  function Join(ts: seq<string>): string {
    if ts == [] then "" else if |ts| == 1 then ts[0] else ts[0] + " " + Join(ts[1..])
  }

  lemma {:induction false} StopsAt(s: string, chars: Chars, at: nat, b: nat)
    requires at <= b <= |s| && (forall k | at <= k < b :: s[k] !in chars) && (b < |s| ==> s[b] in chars)
    ensures SkipOut(s, chars, at) == b
    decreases b - at
  {
    if at < b {
      StopsAt(s, chars, at + 1, b);
    }
  }

  /** `text` stands in `s` from `at` to the end. */
  ghost predicate Ends(s: string, text: string, at: nat) {
    |s| == at + |text| && forall k | 0 <= k < |text| :: s[at + k] == text[k]
  }

  lemma TokenEnds(s: string, delim: Chars, at: nat, t: string)
    requires IsToken(t, delim) && at + |t| <= |s| && forall k | 0 <= k < |t| :: s[at + k] == t[k]
    requires at + |t| < |s| ==> s[at + |t|] in delim
    ensures SkipIn(s, delim, at) == at && SkipOut(s, delim, at) == at + |t|
    ensures s[at..at + |t|] == t
  {
    assert s[at + 0] == t[0];
    forall k | at <= k < at + |t|
      ensures s[k] !in delim
    {
      assert s[at + (k - at)] == t[k - at];
    }
    StopsAt(s, delim, at, at + |t|);
  }

  /** Joined tokens, wherever they end a text, are found again. */
  lemma {:induction false} JoinTokens(s: string, ts: seq<string>, delim: Chars, at: nat)
    requires AreTokens(ts, delim) && ' ' in delim && Ends(s, Join(ts), at)
    ensures TokensFrom(s, delim, at) == ts
    decreases ts
  {
    if ts == [] {
      assert at == |s|;
    } else {
      var t := ts[0];
      var b := at + |t|;
      if |ts| == 1 {
        TokenEnds(s, delim, at, t);
        assert TokensFrom(s, delim, |s|) == [];
      } else {
        JoinCons(s, ts, at);
        TokenEnds(s, delim, at, t);
        DropDelimiter(s, delim, b);
        JoinTokens(s, ts[1..], delim, b + 1);
        assert [t] + ts[1..] == ts;
      }
    }
  }

  lemma JoinCons(s: string, ts: seq<string>, at: nat)
    requires |ts| > 1 && Ends(s, Join(ts), at)
    ensures var b := at + |ts[0]|;
            && b < |s| && s[b] == ' ' && Ends(s, Join(ts[1..]), b + 1)
            && forall k | 0 <= k < |ts[0]| :: s[at + k] == ts[0][k]
  {
    var n, rest := |ts[0]|, Join(ts[1..]);
    assert forall k | 0 <= k < n :: Join(ts)[k] == ts[0][k];
    assert Join(ts)[n] == ' ';
    forall k | 0 <= k < |rest|
      ensures s[at + n + 1 + k] == rest[k]
    {
      assert s[at + (n + 1 + k)] == Join(ts)[n + 1 + k];
    }
  }

  /** Exactly one space stands between two parts of a join, and nothing around it. */
  lemma {:induction false} JoinAppend(a: seq<string>, b: seq<string>)
    requires a != [] && b != []
    ensures Join(a + b) == Join(a) + " " + Join(b)
    decreases a
  {
    assert (a + b)[0] == a[0] && (a + b)[1..] == a[1..] + b;
    if |a| > 1 {
      JoinAppend(a[1..], b);
      assert Join(a) == a[0] + " " + Join(a[1..]);
      assert a[0] + " " + (Join(a[1..]) + " " + Join(b)) == a[0] + " " + Join(a[1..]) + " " + Join(b);
    } else {
      assert Join(a) == a[0] && a[1..] + b == b;
    }
  }

  /** A join is as long as its words and the single spaces between them. */
  lemma {:induction false} JoinLength(words: seq<string>)
    requires words != []
    ensures |Join(words)| == TotalLength(words) + |words| - 1
    decreases words
  {
    if |words| > 1 {
      JoinLength(words[1..]);
    } else {
      assert TotalLength(words[1..]) == 0;
    }
  }

  function TotalLength(words: seq<string>): nat {
    if words == [] then 0 else |words[0]| + TotalLength(words[1..])
  }

  /** Parsing the single-space join of tokens gives the tokens back. */
  lemma JoinParses(ts: seq<string>, delim: Chars)
    requires AreTokens(ts, delim) && ' ' in delim
    ensures Tokens(Join(ts), delim) == ts
  {
    JoinTokens(Join(ts), ts, delim, 0);
  }

  /** Whatever is parsed consists of tokens, so it survives joining and reparsing. */
  lemma {:induction false} TokensAreTokens(s: string, delim: Chars, at: nat)
    requires at <= |s|
    ensures AreTokens(TokensFrom(s, delim, at), delim)
    decreases |s| - at
  {
    var a := SkipIn(s, delim, at);
    if a < |s| {
      TokensAreTokens(s, delim, SkipOut(s, delim, a));
    }
  }

  lemma ReparseJoin(s: string, delim: Chars, argc: nat)
    requires ' ' in delim && argc <= |Tokens(s, delim)|
    ensures var args := Tokens(s, delim)[..argc]; Tokens(Join(args), delim) == args
  {
    TokensAreTokens(s, delim, 0);
    JoinParses(Tokens(s, delim)[..argc], delim);
  }
}
