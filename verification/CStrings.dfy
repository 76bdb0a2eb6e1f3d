/** NUL-terminated strings in character buffers, and the copying routines of lib/string.c. */
module CStrings {

  /** The string that starts at the head of `s`: everything before its first NUL. */
  function CStr(s: seq<char>): (r: string)
    ensures |r| <= |s| && '\0' !in r
    ensures r == s[..|r|]
    ensures |r| < |s| ==> s[|r|] == '\0'
  {
    if s == [] || s[0] == '\0' then [] else [s[0]] + CStr(s[1..])
  }

  predicate Terminated(s: seq<char>) { '\0' in s }

  lemma {:induction false} CStrUnique(s: seq<char>, n: nat)
    requires n < |s| && s[n] == '\0' && forall k | 0 <= k < n :: s[k] != '\0'
    ensures CStr(s) == s[..n]
  {
    if n > 0 {
      CStrUnique(s[1..], n - 1);
      assert s[..n] == [s[0]] + s[1..][..n - 1];
    }
  }

  lemma TerminatedShort(s: seq<char>)
    requires Terminated(s)
    ensures |CStr(s)| < |s| && s[|CStr(s)|] == '\0'
  {
    if |CStr(s)| == |s| {
      assert false;
    }
  }

  lemma CStrAt(s: seq<char>)
    requires Terminated(s)
    ensures |CStr(s)| < |s| && s[|CStr(s)|] == '\0'
    ensures forall k | 0 <= k < |CStr(s)| :: CStr(s)[k] == s[k] != '\0'
  {
    TerminatedShort(s);
  }

  lemma CStrOfText(s: seq<char>, text: string)
    requires '\0' !in text && |text| < |s| && s[..|text|] == text && s[|text|] == '\0'
    ensures Terminated(s) && CStr(s) == text
  {
    assert forall k | 0 <= k < |text| :: s[k] == text[k];
    CStrUnique(s, |text|);
  }

  /** `strlen` from offset `at`. */
  method StrLen(a: array<char>, at: nat) returns (len: nat)
    requires at <= a.Length && Terminated(a[at..])
    ensures at + len < a.Length && len == |CStr(a[at..])|
  {
    TerminatedShort(a[at..]);
    len := 0;
    while a[at + len] != '\0'
      invariant len <= |CStr(a[at..])|
      decreases |CStr(a[at..])| - len
    {
      len := len + 1;
    }
    CStrUnique(a[at..], len);
  }

  /** What `memmove` leaves: the source region as it was, at the destination. */
  function Moved<T>(a: seq<T>, dest: nat, src: nat, num: nat): (r: seq<T>)
    requires dest + num <= |a| && src + num <= |a|
    ensures |r| == |a|
  {
    a[..dest] + a[src..src + num] + a[dest + num..]
  }

  /** `memmove` inside one array: the regions may overlap. */
  method MemMove<T>(a: array<T>, dest: nat, src: nat, num: nat)
    requires dest + num <= a.Length && src + num <= a.Length
    modifies a
    ensures a[..] == Moved(old(a[..]), dest, src, num)
  {
    if dest < src {
      CopyForwards(a, dest, src, num);
    } else {
      CopyBackwards(a, dest, src, num);
    }
  }

  lemma IsMoved<T>(r: seq<T>, a: seq<T>, dest: nat, src: nat, num: nat)
    requires dest + num <= |a| && src + num <= |a| && |r| == |a|
    requires forall j | dest <= j < dest + num :: r[j] == a[j - dest + src]
    requires forall j | 0 <= j < dest || dest + num <= j < |a| :: r[j] == a[j]
    ensures r == Moved(a, dest, src, num)
  {
  }

  method CopyForwards<T>(a: array<T>, dest: nat, src: nat, num: nat)
    requires dest < src && src + num <= a.Length
    modifies a
    ensures a[..] == Moved(old(a[..]), dest, src, num)
  {
    ghost var was := a[..];
    var k := 0;
    while k < num
      invariant 0 <= k <= num
      invariant forall j | dest <= j < dest + k :: a[j] == was[j - dest + src]
      invariant forall j | 0 <= j < dest || dest + k <= j < a.Length :: a[j] == was[j]
    {
      a[dest + k] := a[src + k];
      k := k + 1;
    }
    IsMoved(a[..], was, dest, src, num);
  }

  method CopyBackwards<T>(a: array<T>, dest: nat, src: nat, num: nat)
    requires src <= dest && dest + num <= a.Length
    modifies a
    ensures a[..] == Moved(old(a[..]), dest, src, num)
  {
    ghost var was := a[..];
    var k := num;
    while k > 0
      invariant 0 <= k <= num
      invariant forall j | dest + k <= j < dest + num :: a[j] == was[j - dest + src]
      invariant forall j | 0 <= j < dest + k || dest + num <= j < a.Length :: a[j] == was[j]
    {
      k := k - 1;
      a[dest + k] := a[src + k];
    }
    IsMoved(a[..], was, dest, src, num);
  }

  /** The first place where the strings differ, both still running, their ends included. */
  ghost predicate DifferAt(s1: seq<char>, s2: seq<char>, n: nat, k: nat) {
    && k < n && k < |s1| && k < |s2| && '\0' !in s1[..k]
    && s1[..k] == s2[..k] && s1[k] != s2[k]
  }

  /** `strncmp(s1, s2, n) == 0` for NUL-terminated operands: the first n characters agree up to and
      including the end of the shorter. Otherwise the result has the sign of the first difference. */
  method StrNCmp(s1: seq<char>, s2: seq<char>, n: nat) returns (r: int)
    requires Terminated(s1) && Terminated(s2)
    ensures r == 0 <==> Cut(CStr(s1), n) == Cut(CStr(s2), n)
    ensures r != 0 ==> exists k: nat :: DifferAt(s1, s2, n, k) && r == s1[k] as int - s2[k] as int
  {
    TerminatedShort(s1);
    TerminatedShort(s2);
    var k := 0;
    while k < n && s1[k] != '\0' && s1[k] == s2[k]
      invariant k <= n && k <= |CStr(s1)| && k <= |CStr(s2)|
      invariant s1[..k] == s2[..k]
      decreases n - k
    {
      k := k + 1;
    }
    var c1, c2 := CStr(s1), CStr(s2);
    assert c1[..k] == s1[..k] && c2[..k] == s2[..k];
    if k == n {
      return 0;
    }
    r := s1[k] as int - s2[k] as int;
    CutDiffers(s1, s2, n, k);
    assert r != 0 ==> DifferAt(s1, s2, n, k);
  }

  lemma CutDiffers(s1: seq<char>, s2: seq<char>, n: nat, k: nat)
    requires Terminated(s1) && Terminated(s2)
    requires k < n && k <= |CStr(s1)| && k <= |CStr(s2)| && s1[..k] == s2[..k]
    requires k < |s1| && k < |s2| && (s1[k] == '\0' || s1[k] != s2[k])
    ensures s1[k] == s2[k] <==> Cut(CStr(s1), n) == Cut(CStr(s2), n)
  {
    TerminatedShort(s1);
    TerminatedShort(s2);
    var c1, c2 := CStr(s1), CStr(s2);
    assert c1[..k] == s1[..k] && c2[..k] == s2[..k];
    assert k < |c1| ==> Cut(c1, n)[k] == s1[k] != '\0';
    assert k < |c2| ==> Cut(c2, n)[k] == s2[k] != '\0';
  }

  function Cut(s: string, n: nat): string {
    if |s| <= n then s else s[..n]
  }
}
