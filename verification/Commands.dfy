/** Aliases and argument joining of kernel/shell.c. */
module Commands {
  import opened Splitting
  import opened Limits

  const MAX_ALIASES := 20
  const ALIAS_LENGTH := 32

  /** The loops of `echo` (from argument 1) and `write` (from argument 2). */
  method JoinFrom(args: seq<string>, first: nat) returns (text: string)
    requires first <= |args|
    ensures text == Join(args[first..])
  {
    text := "";
    for i := first to |args|
      invariant text + Join(args[i..]) == Join(args[first..])
    {
      assert args[i..][1..] == args[i + 1..];
      text := text + args[i];
      if i < |args| - 1 {
        text := text + " ";
      }
    }
    assert args[|args|..] == [];
  }

  // ----- aliases

  datatype Alias = Alias(name: string, command: string)

  /** No name twice, and both strings fit their arrays. */
  ghost predicate IsTable(entries: seq<Alias>) {
    && |entries| <= MAX_ALIASES
    && (forall i, j | 0 <= i < j < |entries| :: entries[i].name != entries[j].name)
    && forall i | 0 <= i < |entries| :: |entries[i].name| < ALIAS_LENGTH && |entries[i].command| < MAX_INPUT
  }

  /** A full table takes nothing, not even a new command for a name it holds. */
  function AddAlias(table: map<string, string>, name: string, command: string): map<string, string> {
    if |table| >= MAX_ALIASES then table else table[name := command]
  }

  function Resolved(table: map<string, string>, word: string): string {
    if word in table then table[word] else word
  }

  /** After an add to a table that is not full the name gives its new command and every other word what it
      gave before; a full table gives for every word what it gave. */
  lemma ResolveAfterAdd(table: map<string, string>, name: string, command: string, word: string)
    ensures var table' := AddAlias(table, name, command);
            && (|table| < 20 && word == name ==> Resolved(table', word) == command)
            && (|table| >= 20 || word != name ==> Resolved(table', word) == Resolved(table, word))
  {
  }

  function AddAll(table: map<string, string>, adds: seq<Alias>): map<string, string>
    decreases adds
  {
    if adds == [] then table else AddAll(AddAlias(table, adds[0].name, adds[0].command), adds[1..])
  }

  /** The command of the last add for the word; the word itself without one. */
  function LastCommand(adds: seq<Alias>, word: string): string {
    if adds == [] then word
    else if adds[|adds| - 1].name == word then adds[|adds| - 1].command
    else LastCommand(adds[..|adds| - 1], word)
  }

  function NamesOf(adds: seq<Alias>): set<string> { set a | a in adds :: a.name }

  lemma {:induction false} AddAllSnoc(table: map<string, string>, adds: seq<Alias>, a: Alias)
    ensures AddAll(table, adds + [a]) == AddAlias(AddAll(table, adds), a.name, a.command)
    decreases adds
  {
    if adds == [] {
      assert (adds + [a])[1..] == [];
    } else {
      assert (adds + [a])[1..] == adds[1..] + [a];
      AddAllSnoc(AddAlias(table, adds[0].name, adds[0].command), adds[1..], a);
    }
  }

  /** As long as fewer than twenty different names have been given, every word resolves to the command of its
      last add. */
  lemma {:induction false} LastAddWins(adds: seq<Alias>, word: string)
    requires |NamesOf(adds)| < 20
    ensures Resolved(AddAll(map[], adds), word) == LastCommand(adds, word)
    decreases adds
  {
    if adds != [] {
      var front, a := adds[..|adds| - 1], adds[|adds| - 1];
      NamesSnoc(front, a, adds);
      LastAddWins(front, word);
      KeysAreNames(front);
      AddAllSnoc(map[], front, a);
      ResolveAfterAdd(AddAll(map[], front), a.name, a.command, word);
    }
  }

  lemma NamesSnoc(front: seq<Alias>, a: Alias, adds: seq<Alias>)
    requires adds == front + [a] || (adds != [] && front == adds[..|adds| - 1] && a == adds[|adds| - 1])
    ensures adds == front + [a] && NamesOf(adds) == NamesOf(front) + {a.name}
    ensures |NamesOf(front)| <= |NamesOf(adds)|
  {
    assert adds == front + [a];
    SmallerSet(NamesOf(front), NamesOf(adds));
  }

  lemma {:induction false} KeysAreNames(adds: seq<Alias>)
    requires |NamesOf(adds)| < 20
    ensures var table := AddAll(map[], adds); table.Keys == NamesOf(adds) && |table| == |NamesOf(adds)|
    decreases adds
  {
    if adds != [] {
      var front, a := adds[..|adds| - 1], adds[|adds| - 1];
      NamesSnoc(front, a, adds);
      KeysAreNames(front);
      AddAllSnoc(map[], front, a);
    }
    KeysSize(AddAll(map[], adds));
  }

  lemma SmallerSet(a: set<string>, b: set<string>)
    requires a <= b
    ensures |a| <= |b|
  {
    assert b == a + (b - a);
  }

  lemma KeysSize(table: map<string, string>)
    ensures |table| == |table.Keys|
  {
  }

  ghost predicate Names(entries: seq<Alias>, table: map<string, string>) {
    && (forall i | 0 <= i < |entries| :: entries[i].name in table && table[entries[i].name] == entries[i].command)
    && forall n | n in table :: exists i :: 0 <= i < |entries| && entries[i].name == n
  }

  /** With distinct names the map has as many keys as the table has entries. */
  lemma {:induction false} MapSize(entries: seq<Alias>, table: map<string, string>)
    requires (forall i, j | 0 <= i < j < |entries| :: entries[i].name != entries[j].name) && Names(entries, table)
    ensures |table| == |entries|
    decreases entries
  {
    if entries == [] {
      assert table == map[];
    } else {
      var last := entries[|entries| - 1];
      NamesFront(entries, table);
      MapSize(entries[..|entries| - 1], table - {last.name});
      assert table.Keys == (table - {last.name}).Keys + {last.name};
    }
  }

  lemma NamesFront(entries: seq<Alias>, table: map<string, string>)
    requires entries != [] && Names(entries, table)
    requires forall i, j | 0 <= i < j < |entries| :: entries[i].name != entries[j].name
    ensures Names(entries[..|entries| - 1], table - {entries[|entries| - 1].name})
  {
    var last, front := entries[|entries| - 1], entries[..|entries| - 1];
    var smaller := table - {last.name};
    forall n | n in smaller
      ensures exists i :: 0 <= i < |front| && front[i].name == n
    {
      var i :| 0 <= i < |entries| && entries[i].name == n;
      assert front[i].name == n;
    }
  }

  class AliasTable {
    const entries: array<Alias>
    var count: nat
    ghost var table: map<string, string>

    ghost predicate Valid()
      reads this, entries
    {
      && entries.Length == MAX_ALIASES && count <= MAX_ALIASES
      && IsTable(entries[..count]) && Names(entries[..count], table)
    }

    constructor ()
      ensures Valid() && table == map[] && fresh(entries)
    {
      entries := new Alias[MAX_ALIASES](_ => Alias("", ""));
      count, table := 0, map[];
    }

    /** `add_alias`, for strings that fit the two arrays of an entry. */
    method Add(name: string, command: string)
      requires Valid() && |name| < ALIAS_LENGTH && |command| < MAX_INPUT
      modifies this, entries
      ensures Valid() && table == AddAlias(old(table), name, command)
    {
      MapSize(entries[..count], table);
      if count >= MAX_ALIASES {
        return;
      }
      var i := 0;
      while i < count
        invariant i <= count && forall k | 0 <= k < i :: entries[k].name != name
      {
        if entries[i].name == name {
          Put(i, name, command);
          return;
        }
        i := i + 1;
      }
      Put(count, name, command);
    }

    /** Entry k becomes name -> command; k is the entry of that name, or the first free one. */
    method Put(k: nat, name: string, command: string)
      requires Valid() && |name| < ALIAS_LENGTH && |command| < MAX_INPUT && k <= count && k < MAX_ALIASES
      requires forall i | 0 <= i < count :: entries[i].name == name <==> i == k
      modifies this, entries
      ensures Valid() && table == old(table)[name := command]
    {
      ghost var was := entries[..count];
      assert forall i | 0 <= i < count :: was[i] == entries[i];
      entries[k] := Alias(name, command);
      if k == count {
        count := count + 1;
      }
      table := table[name := command];
      ghost var now := entries[..count];
      assert forall i | 0 <= i < |was| && i != k :: now[i] == was[i];
      Updated(was, now, old(table), name, command, k);
    }

    /** `resolve_alias`: the command of the alias, or the word itself. */
    method Resolve(cmd: string) returns (r: string)
      requires Valid()
      ensures r == Resolved(table, cmd)
    {
      var i := 0;
      while i < count
        invariant i <= count && forall k | 0 <= k < i :: entries[k].name != cmd
      {
        assert entries[..count][i] == entries[i];
        if entries[i].name == cmd {
          return entries[i].command;
        }
        i := i + 1;
      }
      r := cmd;
    }
  }

  /** Entry k now says name -> command; all others are as before and have other names. */
  lemma Updated(was: seq<Alias>, now: seq<Alias>, table: map<string, string>, name: string, command: string, k: nat)
    requires Names(was, table) && k < |now| && now[k] == Alias(name, command)
    requires |was| <= |now| <= |was| + 1 && (k < |was| ==> |now| == |was| && was[k].name == name)
    requires k >= |was| ==> k == |was| && |now| == |was| + 1
    requires forall i | 0 <= i < |was| && i != k :: now[i] == was[i] && was[i].name != name
    ensures Names(now, table[name := command])
  {
    var table' := table[name := command];
    forall n | n in table'
      ensures exists i :: 0 <= i < |now| && now[i].name == n
    {
      if n == name {
        assert now[k].name == n;
      } else {
        var i :| 0 <= i < |was| && was[i].name == n;
        assert now[i].name == n;
      }
    }
  }
}
