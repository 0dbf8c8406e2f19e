/**
  Stable board numbers (driver/slash_chrdev.c) and the character-device minors derived from them
  (driver/slash_config.h): a table that only ever grows until the module is unloaded.
 */
module Boards {

  const MAX_CARDS: nat := 16
  const MINORS: nat := 1 + 2 * MAX_CARDS
  const EBUSY: int := 16
  const ENOSPC: int := 28
  const ENOMEM: int := 12

  /** Domain, bus and device number of a board. */
  datatype Address = Address(domain: nat, bus: nat, slot: nat)

  datatype Function = Function(board: Address, pf: nat)

  datatype Entry = Entry(board: Address, number: nat, active: set<nat>)

  type Table = seq<Entry>

  // ---------------------------------------------------------------------------------------------
  // The table as a value
  // ---------------------------------------------------------------------------------------------

  ghost predicate IsTable(t: Table) {
    && |t| <= MAX_CARDS
    && (forall i | 0 <= i < |t| :: t[i].number == i)
    && (forall i, j | 0 <= i < j < |t| :: t[i].board != t[j].board)
  }

  /** The position of a board in the table, or the table's length. */
  function Find(t: Table, board: Address): (i: nat)
    ensures i <= |t| && (i < |t| ==> t[i].board == board)
    ensures forall j | 0 <= j < i :: t[j].board != board
  {
    if t == [] then 0
    else if t[0].board == board then 0
    else
      var k := Find(t[1..], board);
      assert forall j | 1 <= j < k + 1 :: t[j] == t[1..][j - 1];
      k + 1
  }

  datatype Op = Get(f: Function, nomem: bool) | Put(f: Function)

  /** The result of one call: a board number or a negative errno. */
  function Result(t: Table, op: Op): int {
    if op.Put? then 0
    else
      var i := Find(t, op.f.board);
      if i < |t| then
        if op.f.pf in t[i].active then -EBUSY else t[i].number
      else if |t| == MAX_CARDS then -ENOSPC
      else if op.nomem then -ENOMEM
      else |t|
  }

  function Next(t: Table, op: Op): Table {
    var i := Find(t, op.f.board);
    if op.Put? then
      if i < |t| then t[i := t[i].(active := t[i].active - {op.f.pf})] else t
    else if Result(t, op) < 0 then t
    else if i < |t| then t[i := t[i].(active := t[i].active + {op.f.pf})]
    else t + [Entry(op.f.board, |t|, {op.f.pf})]
  }

  /** The table after the first n calls. */
  function After(ops: seq<Op>, n: nat): Table
    requires n <= |ops|
  {
    if n == 0 then [] else Next(After(ops, n - 1), ops[n - 1])
  }

  /** The result of call n. */
  function ResultOf(ops: seq<Op>, n: nat): int
    requires n < |ops|
  {
    Result(After(ops, n), ops[n])
  }

  predicate Got(ops: seq<Op>, n: nat) { n < |ops| && ops[n].Get? && ResultOf(ops, n) >= 0 }

  // ---------------------------------------------------------------------------------------------
  // Whole runs
  // ---------------------------------------------------------------------------------------------

  lemma StepKeepsTable(t: Table, op: Op)
    requires IsTable(t)
    ensures IsTable(Next(t, op))
  {}

  lemma {:induction false} RunKeepsTable(ops: seq<Op>, n: nat)
    requires n <= |ops|
    ensures IsTable(After(ops, n))
  {
    if n > 0 {
      RunKeepsTable(ops, n - 1);
      StepKeepsTable(After(ops, n - 1), ops[n - 1]);
    }
  }

  lemma StepKeepsEntries(t: Table, op: Op, i: nat)
    requires i < |t|
    ensures |t| <= |Next(t, op)|
    ensures Next(t, op)[i].board == t[i].board && Next(t, op)[i].number == t[i].number
  {}

  lemma {:induction false} RunKeepsEntries(ops: seq<Op>, m: nat, n: nat, i: nat)
    requires m <= n <= |ops| && i < |After(ops, m)|
    ensures i < |After(ops, n)|
    ensures After(ops, n)[i].board == After(ops, m)[i].board && After(ops, n)[i].number == After(ops, m)[i].number
    decreases n - m
  {
    if m < n {
      RunKeepsEntries(ops, m, n - 1, i);
      StepKeepsEntries(After(ops, n - 1), ops[n - 1], i);
    }
  }

  /** A successful get returns the position the board has from then on. */
  lemma GotNumber(ops: seq<Op>, n: nat)
    requires Got(ops, n)
    ensures var k := ResultOf(ops, n);
            && k < MAX_CARDS && k < |After(ops, n + 1)| && After(ops, n + 1)[k].board == ops[n].f.board
            && ops[n].f.pf in After(ops, n + 1)[k].active
  {
    RunKeepsTable(ops, n);
  }

  /**
    For the life of the module a board has one number and no two boards share one: two successful
    gets return the same number if and only if they are for the same board.
   */
  lemma NumbersAreStable(ops: seq<Op>, m: nat, n: nat)
    requires m <= n && Got(ops, m) && Got(ops, n)
    ensures ResultOf(ops, m) == ResultOf(ops, n) <==> ops[m].f.board == ops[n].f.board
    ensures ResultOf(ops, n) < MAX_CARDS
  {
    hide After, ResultOf;
    GotNumber(ops, m);
    GotNumber(ops, n);
    RunKeepsEntries(ops, m + 1, n + 1, ResultOf(ops, m));
    RunKeepsTable(ops, n + 1);
  }

  ghost predicate IsActive(t: Table, f: Function) {
    Find(t, f.board) < |t| && f.pf in t[Find(t, f.board)].active
  }

  lemma FindIsUnique(t: Table, board: Address, i: nat)
    requires IsTable(t) && i < |t| && t[i].board == board
    ensures Find(t, board) == i
  {}

  lemma StepKeepsActive(t: Table, op: Op, f: Function)
    requires IsTable(t) && IsTable(Next(t, op)) && IsActive(t, f) && op != Put(f)
    ensures IsActive(Next(t, op), f)
  {
    var i := Find(t, f.board);
    StepKeepsEntries(t, op, i);
    FindIsUnique(Next(t, op), f.board, i);
  }

  lemma {:induction false} ActiveUntilPut(ops: seq<Op>, m: nat, n: nat, f: Function)
    requires m <= n <= |ops| && IsActive(After(ops, m), f)
    requires forall k | m <= k < n :: ops[k] != Put(f)
    ensures IsActive(After(ops, n), f)
    decreases n - m
  {
    hide IsActive, IsTable, Next;
    if m < n {
      ActiveUntilPut(ops, m, n - 1, f);
      RunKeepsTable(ops, n - 1);
      RunKeepsTable(ops, n);
      StepKeepsActive(After(ops, n - 1), ops[n - 1], f);
    }
  }

  /** A function is active at most once: between two successful gets of it lies a put. */
  lemma OneGetAtATime(ops: seq<Op>, m: nat, n: nat)
    requires m < n && Got(ops, m) && Got(ops, n) && ops[m].f == ops[n].f
    ensures exists k | m < k < n :: ops[k] == Put(ops[m].f)
  {
    if forall k | m + 1 <= k < n :: ops[k] != Put(ops[m].f) {
      GotNumber(ops, m);
      RunKeepsTable(ops, m + 1);
      FindIsUnique(After(ops, m + 1), ops[m].f.board, ResultOf(ops, m));
      ActiveUntilPut(ops, m + 1, n, ops[m].f);
      assert false;
    }
  }

  /** The function was got before call n and not put since. */
  ghost predicate IsHeld(ops: seq<Op>, n: nat, f: Function) {
    n <= |ops| && exists m: nat :: m < n && Got(ops, m) && ops[m].f == f && forall k | m < k < n :: ops[k] != Put(f)
  }

  lemma StepActivates(t: Table, op: Op, f: Function)
    requires IsTable(t) && IsTable(Next(t, op)) && IsActive(Next(t, op), f)
    ensures op != Put(f)
    ensures IsActive(t, f) || (op.Get? && op.f == f && Result(t, op) >= 0)
  {
    var e := Next(t, op);
    var i := Find(e, f.board);
    if i < |t| {
      StepKeepsEntries(t, op, i);
      FindIsUnique(t, f.board, i);
    }
  }

  lemma {:induction false} ActiveMeansHeld(ops: seq<Op>, n: nat, f: Function)
    requires n <= |ops| && IsActive(After(ops, n), f)
    ensures IsHeld(ops, n, f)
  {
    hide IsActive, IsTable, Next, Result;
    if n == 0 {
      NothingActive(f);
    } else {
      RunKeepsTable(ops, n - 1);
      RunKeepsTable(ops, n);
      StepActivates(After(ops, n - 1), ops[n - 1], f);
      if IsActive(After(ops, n - 1), f) {
        ActiveMeansHeld(ops, n - 1, f);
        var m: nat :| m < n - 1 && Got(ops, m) && ops[m].f == f && forall k | m < k < n - 1 :: ops[k] != Put(f);
        assert m < n && Got(ops, m) && ops[m].f == f && forall k | m < k < n :: ops[k] != Put(f);
      } else {
        assert Got(ops, n - 1);
      }
    }
  }

  lemma NothingActive(f: Function)
    ensures !IsActive([], f)
  {}

  lemma HeldMeansActive(ops: seq<Op>, n: nat, f: Function)
    requires IsHeld(ops, n, f)
    ensures IsActive(After(ops, n), f)
  {
    hide After, ResultOf;
    var m: nat :| m < n && Got(ops, m) && ops[m].f == f && forall k | m < k < n :: ops[k] != Put(f);
    GotNumber(ops, m);
    RunKeepsTable(ops, m + 1);
    FindIsUnique(After(ops, m + 1), f.board, ResultOf(ops, m));
    ActiveUntilPut(ops, m + 1, n, f);
  }

  /** A get is refused as busy exactly if its function was got before and not put since. */
  lemma BusyIff(ops: seq<Op>, n: nat)
    requires n < |ops| && ops[n].Get?
    ensures ResultOf(ops, n) == -EBUSY <==> IsHeld(ops, n, ops[n].f)
  {
    RunKeepsTable(ops, n);
    if IsActive(After(ops, n), ops[n].f) {
      ActiveMeansHeld(ops, n, ops[n].f);
    } else if IsHeld(ops, n, ops[n].f) {
      HeldMeansActive(ops, n, ops[n].f);
    }
  }

  /**
    A function of a board that has been got before gets that board's number exactly unless it is held
    itself: a second function succeeds next to the first, and a put makes its function available again.
   */
  lemma KnownBoardGets(ops: seq<Op>, m: nat, n: nat)
    requires m < n < |ops| && Got(ops, m) && ops[n].Get? && ops[n].f.board == ops[m].f.board
    ensures ResultOf(ops, n) == if IsHeld(ops, n, ops[n].f) then -EBUSY else ResultOf(ops, m)
  {
    hide IsHeld;
    BusyIff(ops, n);
    GotNumber(ops, m);
    RunKeepsEntries(ops, m + 1, n, ResultOf(ops, m));
    RunKeepsTable(ops, n);
    FindIsUnique(After(ops, n), ops[n].f.board, ResultOf(ops, m));
  }

  /** A board without a number gets the next one, unless there is none left or no memory. */
  lemma NewBoardGets(ops: seq<Op>, n: nat)
    requires n < |ops| && ops[n].Get?
    requires forall i | 0 <= i < |After(ops, n)| :: After(ops, n)[i].board != ops[n].f.board
    ensures Got(ops, n) <==> |After(ops, n)| < MAX_CARDS && !ops[n].nomem
    ensures Got(ops, n) ==> ResultOf(ops, n) == |After(ops, n)|
  {
    RunKeepsTable(ops, n);
  }

  /** A get fails for want of numbers only when sixteen other boards have one. */
  lemma NoSpaceIff(ops: seq<Op>, n: nat)
    requires n < |ops| && ops[n].Get?
    ensures ResultOf(ops, n) == -ENOSPC <==>
            |After(ops, n)| == MAX_CARDS && forall i | 0 <= i < MAX_CARDS :: After(ops, n)[i].board != ops[n].f.board
  {
    RunKeepsTable(ops, n);
  }

  // ---------------------------------------------------------------------------------------------
  // The list as the driver walks it
  // ---------------------------------------------------------------------------------------------

  class BoardList {
    var entries: seq<Entry>
    var count: nat

    ghost predicate Valid()
      reads this
    {
      IsTable(entries) && count == |entries|
    }

    constructor ()
      ensures Valid() && entries == []
    {
      entries, count := [], 0;
    }

    method BoardGet(f: Function, nomem: bool) returns (number: int)
      requires Valid()
      modifies this
      ensures Valid()
      ensures number == Result(old(entries), Get(f, nomem)) && entries == Next(old(entries), Get(f, nomem))
    {
      StepKeepsTable(entries, Get(f, nomem));
      for i := 0 to |entries|
        invariant Valid() && entries == old(entries)
        invariant forall j | 0 <= j < i :: entries[j].board != f.board
      {
        if entries[i].board == f.board {
          FindIsUnique(entries, f.board, i);
          if f.pf in entries[i].active {
            return -EBUSY;
          }
          number := entries[i].number;
          entries := entries[i := entries[i].(active := entries[i].active + {f.pf})];
          return;
        }
      }
      if count == MAX_CARDS {
        return -ENOSPC;
      }
      if nomem {
        return -ENOMEM;
      }
      number := count;
      entries, count := entries + [Entry(f.board, count, {f.pf})], count + 1;
    }

    /** False if the board had no entry. */
    method BoardPut(f: Function) returns (known: bool)
      requires Valid()
      modifies this
      ensures Valid()
      ensures entries == Next(old(entries), Put(f)) && known == (Find(old(entries), f.board) < |old(entries)|)
    {
      StepKeepsTable(entries, Put(f));
      for i := 0 to |entries|
        invariant Valid() && entries == old(entries)
        invariant forall j | 0 <= j < i :: entries[j].board != f.board
      {
        if entries[i].board == f.board {
          FindIsUnique(entries, f.board, i);
          entries := entries[i := entries[i].(active := entries[i].active - {f.pf})];
          return true;
        }
      }
      known := false;
    }
  }

  // ---------------------------------------------------------------------------------------------
  // Minors
  // ---------------------------------------------------------------------------------------------

  datatype Device = Hotplug | Ctl(card: nat) | Qdma(card: nat)

  predicate IsDevice(d: Device) { d.Hotplug? || d.card < MAX_CARDS }

  function MinorOf(d: Device): nat {
    match d
    case Hotplug => 0
    case Ctl(card) => 2 * card + 1
    case Qdma(card) => 2 * card + 2
  }

  /** The device a minor is named after: bit 0 tells control nodes from QDMA nodes. */
  function DeviceOf(minor: nat): Device {
    if minor == 0 then Hotplug
    else if minor % 2 == 1 then Ctl((minor - 1) / 2)
    else Qdma((minor - 1) / 2)
  }

  /** Devices and the minors of the range correspond one to one. */
  lemma MinorsCorrespond(d: Device, minor: nat)
    ensures IsDevice(d) ==> MinorOf(d) < MINORS
    ensures minor < MINORS ==> IsDevice(DeviceOf(minor))
    ensures MinorOf(d) == minor <==> DeviceOf(minor) == d
  {}

  /** Cards follow each other, each with its odd control minor and the QDMA minor right behind it. */
  lemma MinorsAreOrdered(card: nat)
    ensures MinorOf(Hotplug) == 0 && MinorOf(Ctl(0)) == 1
    ensures MinorOf(Ctl(card)) % 2 == 1 && MinorOf(Qdma(card)) == MinorOf(Ctl(card)) + 1
    ensures MinorOf(Ctl(card + 1)) == MinorOf(Qdma(card)) + 1
  {}
}
