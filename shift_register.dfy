/** The five-slot sample register with an entry counter (`ShiftRegister` of
    shared/src/shift_register.rs), as its code behaves: `insert` copies slot 0
    forward into slots 1 to 3 and never writes slot 4, so it is not the
    newest-first window its test describes. The window it was meant to be is
    defined and proved alongside as `SlidingInsert`. */
module ShiftRegisters {
  import opened Common

  const SLOTS: nat := 5

  /** The slots after `insert(v)`: the loop over indices 1 to 3 assigns each
      slot its predecessor as already overwritten, so all three receive the
      old slot 0; slot 4 keeps its value. */
  function Inserted(s: seq<u64>, v: u64): (t: seq<u64>)
    requires |s| == SLOTS
    ensures |t| == SLOTS && t[0] == v && t[4] == s[4]
  {
    [v, s[0], s[0], s[0], s[4]]
  }

  /** The entry counter after one more insert: capped at the slot count. */
  function Bumped(e: nat): (e': nat)
    ensures e <= e' <= e + 1
    ensures e' == e + 1 <==> e < SLOTS
  {
    if e < SLOTS then e + 1 else e
  }

  function Zeros(): seq<u64> { [0, 0, 0, 0, 0] }

  /** The slots after inserting `vals` in order into a new register. */
  function Replay(vals: seq<u64>): (s: seq<u64>)
    ensures |s| == SLOTS
    decreases |vals|
  {
    if |vals| == 0 then Zeros() else Inserted(Replay(vals[..|vals| - 1]), vals[|vals| - 1])
  }

  /** The entry counter after `n` inserts into a new register. */
  function EntriesAfter(n: nat): nat {
    if n == 0 then 0 else Bumped(EntriesAfter(n - 1))
  }

  function Sum(s: seq<u64>): nat
    decreases |s|
  {
    if |s| == 0 then 0 else Sum(s[..|s| - 1]) + s[|s| - 1]
  }

  lemma SumFive(s: seq<u64>)
    requires |s| == SLOTS
    ensures Sum(s) == s[0] as int + s[1] + s[2] + s[3] + s[4]
  {
    assert s[..4][..3] == s[..3];
    assert s[..3][..2] == s[..2];
    assert s[..2][..1] == s[..1];
    assert s[..1][..0] == [];
    assert Sum(s[..1]) == s[0];
    assert Sum(s[..2]) == s[0] as int + s[1];
    assert Sum(s[..3]) == s[0] as int + s[1] + s[2];
    assert Sum(s[..4]) == s[0] as int + s[1] + s[2] + s[3];
  }

  /** The counter counts inserts up to five and then stays at five. */
  lemma {:induction false} EntriesCapped(n: nat)
    ensures EntriesAfter(n) == if n < SLOTS then n else SLOTS
  {
    if n > 0 {
      EntriesCapped(n - 1);
    }
  }

  /** `valid_entries` holds exactly from the fifth insert on. */
  lemma ValidFromFifth(n: nat)
    ensures EntriesAfter(n) >= SLOTS <==> n >= SLOTS
  {
    EntriesCapped(n);
  }

  /** What the register holds after any sequence of inserts: the newest value
      in slot 0, the value before it in slots 1 to 3, and zero in slot 4. */
  lemma {:induction false} ReplayShape(vals: seq<u64>)
    ensures Replay(vals)[4] == 0
    ensures |vals| >= 1 ==> Replay(vals)[0] == vals[|vals| - 1]
    ensures |vals| == 1 ==> Replay(vals)[1..] == [0, 0, 0, 0]
    ensures |vals| >= 2 ==> forall i :: 1 <= i <= 3 ==> Replay(vals)[i] == vals[|vals| - 2]
    decreases |vals|
  {
    if |vals| > 0 {
      var prefix := vals[..|vals| - 1];
      ReplayShape(prefix);
      if |vals| >= 2 {
        assert prefix[|prefix| - 1] == vals[|vals| - 2];
      }
    }
  }

  /** Hence the average of a register that has seen at least two values is a
      fifth of the newest plus three times the one before it. */
  lemma AverageAfterTwo(vals: seq<u64>)
    requires |vals| >= 2
    ensures Sum(Replay(vals)) / SLOTS == (vals[|vals| - 1] as int + 3 * (vals[|vals| - 2] as int)) / SLOTS
  {
    ReplayShape(vals);
    SumFive(Replay(vals));
  }

  class ShiftRegister {
    const reg: array<u64>
    var entries: u32

    ghost predicate Valid()
      reads this
    {
      reg.Length == SLOTS && entries <= SLOTS
    }

    /** `new`: five zero slots and no entries. */
    constructor ()
      ensures Valid() && fresh(reg)
      ensures reg[..] == Zeros() && entries == 0
    {
      reg := new u64[SLOTS](_ => 0);
      entries := 0;
    }

    /** `insert`: the forward copy, the new value into slot 0 and the capped
        counter increment. */
    method Insert(val: u64)
      requires Valid()
      modifies this, reg
      ensures Valid()
      ensures reg[..] == Inserted(old(reg[..]), val)
      ensures entries == Bumped(old(entries))
    {
      ghost var s := reg[..];
      for idx := 1 to SLOTS - 1
        modifies reg
        invariant reg[0] == s[0]
        invariant forall j :: 1 <= j < idx ==> reg[j] == s[0]
        invariant forall j :: idx <= j < SLOTS ==> reg[j] == s[j]
      {
        reg[idx] := reg[idx - 1];
      }
      reg[0] := val;
      if entries < SLOTS as u32 {
        entries := entries + 1;
      }
      assert reg[..] == [reg[0], reg[1], reg[2], reg[3], reg[4]];
    }

    /** `avg`: the sum of all five slots, empty ones included, divided by five
        and rounded down. The u64 sum must not overflow (it would panic). */
    method Avg() returns (r: u64)
      requires Valid()
      requires Sum(reg[..]) < 0x1_0000_0000_0000_0000
      ensures r == Sum(reg[..]) / SLOTS
    {
      var total: int := 0;
      for i := 0 to SLOTS
        invariant total == Sum(reg[..i])
      {
        assert reg[..i + 1][..i] == reg[..i];
        total := total + reg[i];
      }
      assert reg[..SLOTS] == reg[..];
      r := total / SLOTS;
    }

    /** `valid_entries`: the register has been filled once. */
    predicate ValidEntries()
      reads this
    {
      entries >= SLOTS
    }
  }

  /** Inserting `vals` into a new register leaves exactly the state the pure
      replay describes; in particular `ValidEntries` holds iff there were at
      least five values. */
  method FromNew(vals: seq<u64>) returns (sr: ShiftRegister)
    ensures fresh(sr) && fresh(sr.reg) && sr.Valid()
    ensures sr.reg[..] == Replay(vals)
    ensures sr.entries == EntriesAfter(|vals|)
    ensures sr.ValidEntries() <==> |vals| >= SLOTS
  {
    sr := new ShiftRegister();
    for i := 0 to |vals|
      invariant fresh(sr) && fresh(sr.reg) && sr.Valid()
      invariant sr.reg[..] == Replay(vals[..i])
      invariant sr.entries == EntriesAfter(i)
    {
      sr.Insert(vals[i]);
      assert vals[..i + 1][..i] == vals[..i];
    }
    assert vals[..|vals|] == vals;
    ValidFromFifth(|vals|);
  }

  /** The register's own averaging example: after 1, 2, 3 the average is 1,
      and after a further 4 it is 2, not the 1 the example asserts, because
      the register then holds 4, 3, 3, 3, 0. */
  method AvgWorks() returns (first: u64, second: u64)
    ensures first == 1 && second == 2
  {
    var sr := new ShiftRegister();
    sr.Insert(1);
    sr.Insert(2);
    sr.Insert(3);
    assert sr.reg[..] == [3, 2, 2, 2, 0];
    SumFive(sr.reg[..]);
    first := sr.Avg();
    sr.Insert(4);
    assert sr.reg[..] == [4, 3, 3, 3, 0];
    SumFive(sr.reg[..]);
    second := sr.Avg();
  }

  /** The insert of the code does not keep the last values newest first: after
      1, 2, 3, 4 the register holds 4, 3, 3, 3, 0 where the window would hold
      4, 3, 2, 1, 0. */
  lemma ForwardCopyLosesHistory()
    ensures Replay([1, 2, 3, 4]) == [4, 3, 3, 3, 0]
    ensures Replay([1, 2, 3, 4]) != SlidingReplay([1, 2, 3, 4])
  {
    assert [1, 2, 3, 4][..3] == [1, 2, 3];
    assert [1, 2, 3][..2] == [1, 2];
    assert [1, 2][..1] == [1];
    assert [1][..0] == [];
    SlidingWindow([1, 2, 3, 4]);
    assert SlidingReplay([1, 2, 3, 4])[2] == 2;
  }

  /** The insert the register's test describes: every slot moves up by one,
      the oldest falls off the end and the new value enters at slot 0. */
  function SlidingInsert(s: seq<u64>, v: u64): (t: seq<u64>)
    requires |s| == SLOTS
    ensures |t| == SLOTS
  {
    [v] + s[..SLOTS - 1]
  }

  function SlidingReplay(vals: seq<u64>): (s: seq<u64>)
    ensures |s| == SLOTS
    decreases |vals|
  {
    if |vals| == 0 then Zeros() else SlidingInsert(SlidingReplay(vals[..|vals| - 1]), vals[|vals| - 1])
  }

  /** With the sliding insert, slot i holds the i-th newest value, or zero
      when fewer than i + 1 values have been inserted. */
  lemma {:induction false} SlidingWindow(vals: seq<u64>)
    ensures forall i :: 0 <= i < SLOTS ==>
      SlidingReplay(vals)[i] == if i < |vals| then vals[|vals| - 1 - i] else 0
    decreases |vals|
  {
    if |vals| > 0 {
      var prefix := vals[..|vals| - 1];
      SlidingWindow(prefix);
      forall i | 1 <= i < SLOTS
        ensures SlidingReplay(vals)[i] == if i < |vals| then vals[|vals| - 1 - i] else 0
      {
        assert SlidingReplay(vals)[i] == SlidingReplay(prefix)[i - 1];
        if i < |vals| {
          assert prefix[|prefix| - 1 - (i - 1)] == vals[|vals| - 1 - i];
        }
      }
    }
  }
}
