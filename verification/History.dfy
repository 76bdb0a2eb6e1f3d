/** The command history of kernel/shell.c: a ring of ten slots that forgets the oldest command. */
module History {

  const HISTORY_SIZE := 10

  datatype Ring = Ring(slots: seq<string>, pos: nat)

  ghost predicate IsRing(r: Ring) { |r.slots| == HISTORY_SIZE && r.pos < HISTORY_SIZE }

  function EmptyRing(): (r: Ring)
    ensures IsRing(r) && r.pos == 0 && forall s | s in r.slots :: s == ""
  {
    Ring(seq(HISTORY_SIZE, _ => ""), 0)
  }

  /** `add_to_history`: empty commands and an immediate repeat are dropped, but the repeat is looked
      for only when the write position is not 0. */
  function Add(r: Ring, cmd: string): (r': Ring)
    requires IsRing(r)
    ensures IsRing(r')
  {
    if cmd == "" then r
    else if r.pos > 0 && r.slots[r.pos - 1] == cmd then r
    else Ring(r.slots[r.pos := cmd], (r.pos + 1) % HISTORY_SIZE)
  }

  function AddAll(r: Ring, cmds: seq<string>): (r': Ring)
    requires IsRing(r)
    ensures IsRing(r')
  {
    if cmds == [] then r else Add(AddAll(r, cmds[..|cmds| - 1]), cmds[|cmds| - 1])
  }

  /** The slots in the order `show_history` visits them. */
  function Rotated(r: Ring): (s: seq<string>)
    requires IsRing(r)
    ensures |s| == HISTORY_SIZE
    ensures forall i | 0 <= i < HISTORY_SIZE :: s[i] == r.slots[(r.pos + i) % HISTORY_SIZE]
  {
    r.slots[r.pos..] + r.slots[..r.pos]
  }

  /** The lines printed for these slots: number and command, skipping empty ones. */
  function Listing(slots: seq<string>, number: nat): seq<(nat, string)> {
    if slots == [] then []
    else (if slots[0] != "" then [(number, slots[0])] else []) + Listing(slots[1..], number + 1)
  }

  // ----- the sequence the ring stands for

  /** All accepted commands, oldest first. */
  function Accept(all: seq<string>, cmd: string): seq<string> {
    if cmd == "" then all
    else if |all| % HISTORY_SIZE != 0 && all[|all| - 1] == cmd then all
    else all + [cmd]
  }

  function Accepted(cmds: seq<string>): seq<string> {
    if cmds == [] then [] else Accept(Accepted(cmds[..|cmds| - 1]), cmds[|cmds| - 1])
  }

  /** The last ten, or all if there are fewer. */
  function LastTen(all: seq<string>): (s: seq<string>) {
    if |all| <= HISTORY_SIZE then all else all[|all| - HISTORY_SIZE..]
  }

  ghost predicate Holds(r: Ring, all: seq<string>) {
    && IsRing(r) && r.pos == |all| % HISTORY_SIZE && "" !in all
    && (forall j | 0 <= j < |all| && |all| - HISTORY_SIZE <= j :: r.slots[j % HISTORY_SIZE] == all[j])
    && (forall k | |all| <= k < HISTORY_SIZE :: r.slots[k] == "")
  }

  /** The repeat that `add_to_history` looks for is a repeat of the last accepted command. */
  lemma LastSlot(r: Ring, all: seq<string>)
    requires Holds(r, all) && |all| % HISTORY_SIZE != 0
    ensures r.pos > 0 && r.slots[r.pos - 1] == all[|all| - 1]
  {
    var j := |all| - 1;
    assert j % HISTORY_SIZE == r.pos - 1;
    assert r.slots[j % HISTORY_SIZE] == all[j];
  }

  lemma StoreHolds(r: Ring, all: seq<string>, cmd: string)
    requires Holds(r, all) && cmd != ""
    ensures Holds(Ring(r.slots[r.pos := cmd], (r.pos + 1) % HISTORY_SIZE), all + [cmd])
  {
    forall j | 0 <= j < |all| + 1 && |all| + 1 - HISTORY_SIZE <= j
      ensures r.slots[r.pos := cmd][j % HISTORY_SIZE] == (all + [cmd])[j]
    {
      StoredSlot(r, all, cmd, j);
    }
    NextSlot(|all|);
  }

  lemma StoredSlot(r: Ring, all: seq<string>, cmd: string, j: nat)
    requires Holds(r, all) && |all| + 1 - HISTORY_SIZE <= j <= |all|
    ensures r.slots[r.pos := cmd][j % HISTORY_SIZE] == (all + [cmd])[j]
  {
    if j < |all| {
      assert r.slots[j % HISTORY_SIZE] == all[j];
      OtherSlot(j, |all|);
    }
  }

  lemma NextSlot(n: nat)
    ensures (n % HISTORY_SIZE + 1) % HISTORY_SIZE == (n + 1) % HISTORY_SIZE
    ensures n < HISTORY_SIZE ==> n % HISTORY_SIZE == n
  {
  }

  lemma OtherSlot(j: nat, n: nat)
    requires n - HISTORY_SIZE < j < n
    ensures j % HISTORY_SIZE != n % HISTORY_SIZE
  {
  }

  lemma AddHolds(r: Ring, all: seq<string>, cmd: string)
    requires Holds(r, all)
    ensures Holds(Add(r, cmd), Accept(all, cmd))
  {
    if |all| % HISTORY_SIZE != 0 {
      LastSlot(r, all);
    }
    if cmd != "" {
      StoreHolds(r, all, cmd);
    }
  }

  lemma {:induction false} AddAllHolds(cmds: seq<string>)
    ensures Holds(AddAll(EmptyRing(), cmds), Accepted(cmds))
  {
    if cmds != [] {
      AddAllHolds(cmds[..|cmds| - 1]);
      AddHolds(AddAll(EmptyRing(), cmds[..|cmds| - 1]), Accepted(cmds[..|cmds| - 1]), cmds[|cmds| - 1]);
    }
  }

  function Numbered(s: seq<string>, first: nat): seq<(nat, string)> {
    seq(|s|, k requires 0 <= k < |s| => (first + k, s[k]))
  }

  lemma {:induction false} ListingSkips(blanks: nat, s: seq<string>, number: nat)
    requires "" !in s
    ensures Listing(seq(blanks, _ => "") + s, number) == Numbered(s, number + blanks)
    decreases blanks + |s|
  {
    var slots := seq(blanks, _ => "") + s;
    if blanks > 0 {
      assert slots[1..] == seq(blanks - 1, _ => "") + s;
      ListingSkips(blanks - 1, s, number + 1);
    } else {
      assert slots == s;
      ListingAll(s, number);
    }
  }

  lemma {:induction false} ListingAll(s: seq<string>, number: nat)
    requires "" !in s
    ensures Listing(s, number) == Numbered(s, number)
    decreases s
  {
    if s != [] {
      ListingAll(s[1..], number + 1);
      assert Numbered(s, number) == [(number, s[0])] + Numbered(s[1..], number + 1);
    }
  }

  lemma ModShift(n: nat, i: nat)
    ensures (n % HISTORY_SIZE + i) % HISTORY_SIZE == (n + i) % HISTORY_SIZE
    ensures n + i >= HISTORY_SIZE ==> (n + i - HISTORY_SIZE) % HISTORY_SIZE == (n + i) % HISTORY_SIZE
  {
  }

  lemma RotatedAt(r: Ring, all: seq<string>, i: nat)
    requires Holds(r, all) && i < HISTORY_SIZE
    ensures var j := |all| - HISTORY_SIZE + i;
            Rotated(r)[i] == if j < 0 then "" else all[j]
  {
    var j := |all| - HISTORY_SIZE + i;
    ModShift(|all|, i);
    assert Rotated(r)[i] == r.slots[(r.pos + i) % HISTORY_SIZE];
    if j >= 0 {
      assert r.slots[j % HISTORY_SIZE] == all[j];
    }
  }

  ghost predicate EndsWith(rot: seq<string>, all: seq<string>) {
    && |rot| == HISTORY_SIZE
    && forall i | 0 <= i < HISTORY_SIZE ::
         rot[i] == var j := |all| - HISTORY_SIZE + i; if j < 0 then "" else all[j]
  }

  lemma RotatedHolds(r: Ring, all: seq<string>)
    requires Holds(r, all)
    ensures EndsWith(Rotated(r), all)
  {
    forall i | 0 <= i < HISTORY_SIZE
      ensures Rotated(r)[i] == var j := |all| - HISTORY_SIZE + i; if j < 0 then "" else all[j]
    {
      RotatedAt(r, all, i);
    }
  }

  lemma EndsWithLastTen(rot: seq<string>, all: seq<string>)
    requires EndsWith(rot, all)
    ensures rot == seq(HISTORY_SIZE - |LastTen(all)|, _ => "") + LastTen(all)
  {
  }

  /** After any commands the listing is the last ten accepted ones, oldest first, and the newest is
      line 10. */
  lemma ShowsLastTen(cmds: seq<string>)
    ensures var last := LastTen(Accepted(cmds));
            Listing(Rotated(AddAll(EmptyRing(), cmds)), 1) == Numbered(last, HISTORY_SIZE - |last| + 1)
  {
    var all := Accepted(cmds);
    AddAllHolds(cmds);
    RotatedHolds(AddAll(EmptyRing(), cmds), all);
    EndsWithLastTen(Rotated(AddAll(EmptyRing(), cmds)), all);
    assert "" !in LastTen(all);
    ListingSkips(HISTORY_SIZE - |LastTen(all)|, LastTen(all), 1);
  }

  /** Two adjacent accepted commands can be equal only across a wrap of the ring. */
  lemma {:induction false} RepeatsOnlyAtWrap(cmds: seq<string>, j: nat)
    requires 0 < j < |Accepted(cmds)| && Accepted(cmds)[j - 1] == Accepted(cmds)[j]
    ensures j % HISTORY_SIZE == 0
  {
    var before := Accepted(cmds[..|cmds| - 1]);
    if j < |before| {
      RepeatsOnlyAtWrap(cmds[..|cmds| - 1], j);
    }
  }

  lemma OneMore(cmds: seq<string>, cmd: string)
    ensures AddAll(EmptyRing(), cmds + [cmd]) == Add(AddAll(EmptyRing(), cmds), cmd)
    ensures Accepted(cmds + [cmd]) == Accept(Accepted(cmds), cmd)
  {
    assert (cmds + [cmd])[..|cmds|] == cmds;
  }

  /** Over every command: the ring stays as it is exactly if the command is empty, or is the last accepted one
      given again while the number accepted is not a multiple of ten. Otherwise it is stored. */
  lemma DroppedIff(cmds: seq<string>, cmd: string)
    ensures var all := Accepted(cmds);
            var dropped := cmd == "" || (|all| % 10 != 0 && all[|all| - 1] == cmd);
            && (AddAll(EmptyRing(), cmds + [cmd]) == AddAll(EmptyRing(), cmds) <==> dropped)
            && Accepted(cmds + [cmd]) == (if dropped then all else all + [cmd])
  {
    AddAllHolds(cmds);
    OneMore(cmds, cmd);
    AddMoves(AddAll(EmptyRing(), cmds), Accepted(cmds), cmd);
  }

  lemma AddMoves(r: Ring, all: seq<string>, cmd: string)
    requires Holds(r, all)
    ensures Add(r, cmd) == r <==> cmd == "" || (|all| % HISTORY_SIZE != 0 && all[|all| - 1] == cmd)
  {
    if |all| % HISTORY_SIZE != 0 {
      LastSlot(r, all);
    }
  }

  /** The last accepted command given once more leaves the ring as it is exactly when the number of
      accepted commands is not a multiple of ten; otherwise the repeat is stored. */
  lemma RepeatKeptIff(cmds: seq<string>)
    requires Accepted(cmds) != []
    ensures var all := Accepted(cmds); var last := all[|all| - 1];
            && (AddAll(EmptyRing(), cmds + [last]) == AddAll(EmptyRing(), cmds) <==> |all| % HISTORY_SIZE != 0)
            && Accepted(cmds + [last]) == (if |all| % HISTORY_SIZE != 0 then all else all + [last])
  {
    var all := Accepted(cmds);
    AddAllHolds(cmds);
    assert all[|all| - 1] in all;
    DroppedIff(cmds, all[|all| - 1]);
  }

  lemma {:induction false} NoRepeatsAccepted(cmds: seq<string>)
    requires "" !in cmds && forall j | 0 < j < |cmds| :: cmds[j] != cmds[j - 1]
    ensures Accepted(cmds) == cmds
  {
    if cmds != [] {
      NoRepeatsAccepted(cmds[..|cmds| - 1]);
    }
  }

  /** Ten commands after which an immediate repeat is kept: it takes slot 0, and slot 9 holds it too. */
  lemma TenThenRepeat()
    ensures var cmds := ["ls", "date", "ls", "date", "ls", "date", "ls", "date", "ls", "date"];
            var r := AddAll(EmptyRing(), cmds + ["date"]);
            r.pos == 1 && r.slots[0] == "date" && r.slots[9] == "date"
  {
    var cmds := ["ls", "date", "ls", "date", "ls", "date", "ls", "date", "ls", "date"];
    NoRepeatsAccepted(cmds);
    OneMore(cmds, "date");
    AddAllHolds(cmds + ["date"]);
    EleventhSlot(AddAll(EmptyRing(), cmds + ["date"]), cmds + ["date"]);
  }

  lemma EleventhSlot(r: Ring, all: seq<string>)
    requires Holds(r, all) && |all| == 11
    ensures r.pos == 1 && r.slots[0] == all[10] && r.slots[9] == all[9]
  {
    assert r.slots[9 % HISTORY_SIZE] == all[9] && r.slots[10 % HISTORY_SIZE] == all[10];
  }

  class Log {
    const slots: array<string>
    var pos: nat

    ghost predicate Valid()
      reads this
    {
      slots.Length == HISTORY_SIZE && pos < HISTORY_SIZE
    }

    ghost function View(): (r: Ring)
      reads this, slots
      ensures Valid() ==> IsRing(r)
    {
      Ring(slots[..], pos)
    }

    constructor ()
      ensures Valid() && View() == EmptyRing() && fresh(slots)
    {
      slots := new string[HISTORY_SIZE](_ => "");
      pos := 0;
      new;
      assert slots[..] == EmptyRing().slots;
    }

    method AddToHistory(cmd: string)
      requires Valid()
      modifies this, slots
      ensures Valid() && View() == Add(old(View()), cmd)
    {
      if |cmd| == 0 {
        return;
      }
      if pos > 0 && slots[pos - 1] == cmd {
        return;
      }
      slots[pos] := cmd;
      pos := (pos + 1) % HISTORY_SIZE;
    }

    method ShowHistory() returns (lines: seq<(nat, string)>)
      requires Valid()
      ensures lines == Listing(Rotated(View()), 1)
    {
      ghost var rot := Rotated(View());
      lines := [];
      for i := 0 to HISTORY_SIZE
        invariant Listing(rot, 1) == lines + Listing(rot[i..], i + 1)
      {
        var idx := (pos + i) % HISTORY_SIZE;
        ListingStep(rot, i, lines);
        assert slots[idx] == rot[i];
        if slots[idx] != "" {
          lines := lines + [(i + 1, slots[idx])];
        }
      }
      assert rot[HISTORY_SIZE..] == [];
    }
  }

  lemma ListingStep(rot: seq<string>, i: nat, lines: seq<(nat, string)>)
    requires i < |rot|
    ensures lines + Listing(rot[i..], i + 1)
         == (if rot[i] != "" then lines + [(i + 1, rot[i])] else lines) + Listing(rot[i + 1..], i + 2)
  {
    assert rot[i..][1..] == rot[i + 1..];
    assert rot[i..][0] == rot[i];
  }
}
