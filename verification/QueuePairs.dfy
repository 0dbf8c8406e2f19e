/**
  Queue pairs in driver/slash_qdma.c: the id table, the per-pair handles and direction bits, and the
  hardware queues behind them.  libqdma is an environment whose calls may fail at will: call number
  i fails when `fails(i)` says so, and whenever the queue is in the wrong state for it.
 */
module QueuePairs {
  import opened Common

  const QTYPES: nat := 3          // Q_H2C, Q_C2H, Q_CMPT
  const MAX_QPAIRS: nat := 256
  const EIO: int := 5
  const EBUSY: int := 16
  const ENOENT: int := 2
  const ENODEV: int := 19
  const ENOMEM: int := 12

  /** A libqdma handle names one hardware queue: its index and its type. */
  datatype Handle = Handle(qid: nat, qtype: nat)

  /** Q_STATE_ENABLED or Q_STATE_ONLINE; a queue libqdma does not have is Q_STATE_DISABLED. */
  datatype QState = Enabled | Online

  datatype Op = Start | Stop | Delete

  /** `struct slash_qdma_qpair_entry`; bit q of dir_mask is membership of q. */
  datatype Entry = Entry(qhndl: seq<Option<Handle>>, dirMask: set<nat>)

  /** A direction bit is set exactly when its handle is valid, and a handle's type is its position. */
  predicate EntryOk(e: Entry) {
    && |e.qhndl| == QTYPES
    && (forall q :: q in e.dirMask ==> q < QTYPES)
    && forall q :: 0 <= q < QTYPES ==>
         && (q in e.dirMask <==> e.qhndl[q].Some?)
         && (e.qhndl[q].Some? ==> e.qhndl[q].value.qtype == q)
  }

  /** Every handle of the entry has queue index qid. */
  predicate Names(e: Entry, qid: nat) {
    forall q :: 0 <= q < |e.qhndl| && e.qhndl[q].Some? ==> e.qhndl[q].value.qid == qid
  }

  ghost predicate TableOk(entries: map<nat, Entry>, table: map<nat, nat>, nextEntry: nat) {
    && (forall e :: e in entries ==> e < nextEntry && EntryOk(entries[e]))
    && (forall q :: q in table ==>
          q < MAX_QPAIRS && table[q] in entries && Names(entries[table[q]], q) && entries[table[q]].dirMask != {})
    && (forall p, q :: p in table && q in table && table[p] == table[q] ==> p == q)
  }

  /** Every hardware queue belongs to a pair in the table. */
  ghost predicate NoOrphans(hw: map<Handle, QState>, entries: map<nat, Entry>, table: map<nat, nat>) {
    forall h :: h in hw ==> h.qid in table && table[h.qid] in entries && h.qtype in entries[table[h.qid]].dirMask
  }

  /** Exactly the queues (qid, t) with t in `types` were added to `was`, enabled. */
  ghost predicate Grown(was: map<Handle, QState>, hw: map<Handle, QState>, qid: nat, types: set<nat>) {
    forall h: Handle ::
      if h.qid == qid && h.qtype in types then h !in was && h in hw && hw[h] == Enabled
      else (h in hw <==> h in was) && (h in hw ==> hw[h] == was[h])
  }

  /** Exactly the queues (qid, t) with t in `types` are gone from `was`. */
  ghost predicate Shrunk(was: map<Handle, QState>, hw: map<Handle, QState>, qid: nat, types: set<nat>) {
    forall h: Handle ::
      if h.qid == qid && h.qtype in types then h !in hw
      else (h in hw <==> h in was) && (h in hw ==> hw[h] == was[h])
  }

  /** Only queues with index qid may differ. */
  ghost predicate OthersKept(was: map<Handle, QState>, hw: map<Handle, QState>, qid: nat) {
    forall h: Handle :: h.qid != qid ==> (h in hw <==> h in was) && (h in hw ==> hw[h] == was[h])
  }

  lemma GrowThenShrink(was: map<Handle, QState>, mid: map<Handle, QState>, hw: map<Handle, QState>,
                       qid: nat, types: set<nat>)
    requires Grown(was, mid, qid, types) && Shrunk(mid, hw, qid, types)
    ensures hw == was
  {
    assert forall h: Handle :: h in hw <==> h in was;
  }

  /** The state the device lock protects, as a value. */
  datatype Snapshot = Snapshot(hw: map<Handle, QState>, entries: map<nat, Entry>, table: map<nat, nat>, nextEntry: nat)

  /** A new pair with exactly these directions stands at `qid`, its queues enabled; nothing else
      changed. */
  ghost predicate PairStands(was: Snapshot, now: Snapshot, qid: nat, dirMask: set<nat>) {
    var n := was.nextEntry;
    && now.nextEntry == n + 1 && now.table == was.table[qid := n]
    && n in now.entries && now.entries == was.entries[n := now.entries[n]] && now.entries[n].dirMask == dirMask
    && Grown(was.hw, now.hw, qid, dirMask)
  }

  /** A pair added under a free id keeps the table sound and leaves no orphan. */
  lemma PairAdded(hw: map<Handle, QState>, hw': map<Handle, QState>, entries: map<nat, Entry>, table: map<nat, nat>,
                  n: nat, qid: nat, x: Entry)
    requires TableOk(entries, table, n) && qid < MAX_QPAIRS && qid !in table
    requires EntryOk(x) && Names(x, qid) && x.dirMask != {} && Grown(hw, hw', qid, x.dirMask)
    ensures TableOk(entries[n := x], table[qid := n], n + 1)
    ensures NoOrphans(hw, entries, table) ==> NoOrphans(hw', entries[n := x], table[qid := n])
    ensures PairStands(Snapshot(hw, entries, table, n), Snapshot(hw', entries[n := x], table[qid := n], n + 1),
                       qid, x.dirMask)
  {
    var t := table[qid := n];
    forall p, q | p in t && q in t && t[p] == t[q]
      ensures p == q
    {
      assert p != qid ==> table[p] in entries && table[p] < n;
      assert q != qid ==> table[q] in entries && table[q] < n;
    }
  }

  function StateOf(hw: map<Handle, QState>, h: Handle): Option<QState> {
    if h in hw then Some(hw[h]) else None
  }

  /** The state a successful operation leaves a queue in; None is Q_STATE_DISABLED. */
  function Target(op: Op): Option<QState> {
    match op
    case Start => Some(Online)
    case Stop => Some(Enabled)
    case Delete => None
  }

  /** The queue is in a state from which libqdma can carry out the operation. */
  predicate CanApply(op: Op, hw: map<Handle, QState>, h: Handle) {
    match op
    case Start => StateOf(hw, h) == Some(Enabled)
    case Stop => StateOf(hw, h) == Some(Online)
    case Delete => true
  }

  ghost predicate AllCanApply(op: Op, hw: map<Handle, QState>, qid: nat, types: set<nat>, first: nat) {
    forall q :: q in types && first <= q ==> CanApply(op, hw, Handle(qid, q))
  }

  lemma ReadyOne(op: Op, hw: map<Handle, QState>, qid: nat, types: set<nat>, q: nat)
    ensures AllCanApply(op, hw, qid, types, q) && q in types ==> CanApply(op, hw, Handle(qid, q))
  {}

  /** A command on one queue leaves the others as ready as they were. */
  lemma OthersCanApply(op: Op, was: map<Handle, QState>, hw: map<Handle, QState>, qid: nat, types: set<nat>, first: nat)
    requires AllCanApply(op, was, qid, types, first)
    requires forall g: Handle :: g != Handle(qid, first) ==> StateOf(hw, g) == StateOf(was, g)
    ensures AllCanApply(op, hw, qid, types, first + 1)
  {
    hide StateOf;
  }

  /** Every queue other than (qid, t), t in `types`, is as in `was`. */
  ghost predicate KeptExcept(was: map<Handle, QState>, hw: map<Handle, QState>, qid: nat, types: set<nat>) {
    forall h: Handle :: !(h.qid == qid && h.qtype in types) ==> StateOf(hw, h) == StateOf(was, h)
  }

  /** Taking a pair out of the table, whatever its removal did to its own entry. */
  lemma PairRemoved(entries: map<nat, Entry>, entries': map<nat, Entry>, table: map<nat, nat>, n: nat, qid: nat)
    requires TableOk(entries, table, n) && qid in table && entries'.Keys == entries.Keys
    requires EntryOk(entries'[table[qid]])
    requires forall x :: x in entries && x != table[qid] ==> entries'[x] == entries[x]
    ensures TableOk(entries', table - {qid}, n)
    ensures forall q :: q in table && q != qid ==> table[q] in entries' && entries'[table[q]] == entries[table[q]]
  {
  }

  lemma PairDropped(was: map<Handle, QState>, hw: map<Handle, QState>, entries: map<nat, Entry>,
                    entries': map<nat, Entry>, table: map<nat, nat>, qid: nat)
    requires qid in table && table[qid] in entries && NoOrphans(was, entries, table)
    requires Shrunk(was, hw, qid, entries[table[qid]].dirMask)
    requires forall q :: q in table && q != qid ==>
               table[q] in entries && table[q] in entries' && entries'[table[q]] == entries[table[q]]
    ensures NoOrphans(hw, entries', table - {qid})
  {
    forall h | h in hw
      ensures h.qid in table && h.qid != qid && h.qtype in entries'[table[h.qid]].dirMask
    {
      assert h in was;
    }
  }

  /** An operation on the queues of one pair leaves none without a pair, also if it took them all away
      and the pair with them. */
  lemma OpLeavesNoOrphans(was: map<Handle, QState>, hw: map<Handle, QState>, entries: map<nat, Entry>,
                          table: map<nat, nat>, qid: nat, gone: bool)
    requires qid in table && table[qid] in entries && NoOrphans(was, entries, table)
    requires KeptExcept(was, hw, qid, entries[table[qid]].dirMask)
    requires gone ==> forall q :: q in entries[table[qid]].dirMask ==> StateOf(hw, Handle(qid, q)) == None
    ensures NoOrphans(hw, entries, if gone then table - {qid} else table)
  {
    forall h | h in hw
      ensures h.qid in table && (gone ==> h.qid != qid) && h.qtype in entries[table[h.qid]].dirMask
    {
      assert StateOf(hw, h).Some?;
      if h.qid == qid && h.qtype in entries[table[qid]].dirMask {
        assert h == Handle(qid, h.qtype);
      } else {
        assert h in was;
      }
    }
  }

  lemma NoPairsNoQueues(hw: map<Handle, QState>, entries: map<nat, Entry>)
    requires NoOrphans(hw, entries, map[])
    ensures hw == map[]
  {
    var none: map<nat, nat> := map[];
    assert forall h :: h in hw ==> h.qid in none;
  }

  lemma FreeIdIsUnused(hw: map<Handle, QState>, entries: map<nat, Entry>, table: map<nat, nat>, qid: nat)
    requires NoOrphans(hw, entries, table) && qid !in table
    ensures forall h :: h in hw ==> h.qid != qid
  {
  }

  lemma FreshEntryId(entries: map<nat, Entry>, table: map<nat, nat>, n: nat)
    requires TableOk(entries, table, n)
    ensures n !in entries
  {
  }

  lemma InsertThenRemove<V>(m: map<nat, V>, k: nat, v: V)
    requires k !in m
    ensures m[k := v] - {k} == m
  {
  }

  lemma EntryReplaced(was: map<nat, Entry>, now: map<nat, Entry>, e: nat)
    requires now.Keys == was.Keys + {e} && forall x :: x in now && x != e ==> now[x] == was[x]
    ensures now == was[e := now[e]]
  {
  }

  class Qdma {
    const fails: nat -> bool
    var calls: nat                     // libqdma calls made so far
    var libErrors: nat                 // libqdma calls that returned an error
    var removeErrors: nat              // failed slash_qdma_queue_remove_safe() calls
    var hw: map<Handle, QState>
    var entries: map<nat, Entry>       // every entry ever allocated, also those only an fd still holds
    var table: map<nat, nat>           // the xarray: qid -> entry
    var nextEntry: nat
    var haveHandle: bool

    constructor (fails: nat -> bool)
      ensures this.fails == fails && Valid() && haveHandle
      ensures hw == map[] && entries == map[] && table == map[] && nextEntry == 0
      ensures calls == 0 && libErrors == 0 && removeErrors == 0
    {
      this.fails := fails;
      calls, libErrors, removeErrors := 0, 0, 0;
      hw, entries, table, nextEntry, haveHandle := map[], map[], map[], 0, true;
    }

    ghost function Now(): Snapshot
      reads this
    {
      Snapshot(hw, entries, table, nextEntry)
    }

    /** Holds between any two critical sections of the device lock. */
    ghost predicate Valid()
      reads this
    {
      && TableOk(entries, table, nextEntry)
      && removeErrors <= libErrors
      && (removeErrors == 0 ==> NoOrphans(hw, entries, table))
    }

    // ------------------------------------------------------------------ libqdma

    /** The common part of a libqdma call: it fails by choice, or because it must. */
    method Call(allowed: bool) returns (err: int)
      modifies this`calls, this`libErrors
      ensures calls == old(calls) + 1
      ensures err <= 0 && (err == 0 <==> allowed && !fails(old(calls)))
      ensures libErrors == old(libErrors) + if err == 0 then 0 else 1
    {
      err := if allowed && !fails(calls) then 0 else -EIO;
      calls := calls + 1;
      if err != 0 {
        libErrors := libErrors + 1;
      }
    }

    method QueueAdd(h: Handle) returns (err: int)
      modifies this`calls, this`libErrors, this`hw
      ensures err <= 0 && (err == 0 <==> h !in old(hw) && !fails(old(calls)))
      ensures hw == if err == 0 then old(hw)[h := Enabled] else old(hw)
      ensures calls == old(calls) + 1 && libErrors == old(libErrors) + if err == 0 then 0 else 1
    {
      err := Call(h !in hw);
      if err == 0 { hw := hw[h := Enabled]; }
    }

    method QueueStart(h: Handle) returns (err: int)
      modifies this`calls, this`libErrors, this`hw
      ensures err <= 0 && (err == 0 <==> h in old(hw) && old(hw)[h] == Enabled && !fails(old(calls)))
      ensures hw == if err == 0 then old(hw)[h := Online] else old(hw)
      ensures calls == old(calls) + 1 && libErrors == old(libErrors) + if err == 0 then 0 else 1
    {
      err := Call(h in hw && hw[h] == Enabled);
      if err == 0 { hw := hw[h := Online]; }
    }

    method QueueStop(h: Handle) returns (err: int)
      modifies this`calls, this`libErrors, this`hw
      ensures err <= 0 && (err == 0 <==> h in old(hw) && old(hw)[h] == Online && !fails(old(calls)))
      ensures hw == if err == 0 then old(hw)[h := Enabled] else old(hw)
      ensures calls == old(calls) + 1 && libErrors == old(libErrors) + if err == 0 then 0 else 1
    {
      err := Call(h in hw && hw[h] == Online);
      if err == 0 { hw := hw[h := Enabled]; }
    }

    method QueueRemove(h: Handle) returns (err: int)
      modifies this`calls, this`libErrors, this`hw
      ensures err <= 0 && (err == 0 <==> h in old(hw) && old(hw)[h] == Enabled && !fails(old(calls)))
      ensures hw == if err == 0 then old(hw) - {h} else old(hw)
      ensures calls == old(calls) + 1 && libErrors == old(libErrors) + if err == 0 then 0 else 1
    {
      err := Call(h in hw && hw[h] == Enabled);
      if err == 0 { hw := hw - {h}; }
    }

    method GetQueueState(h: Handle) returns (err: int, st: Option<QState>)
      modifies this`calls, this`libErrors
      ensures err <= 0 && (err == 0 <==> !fails(old(calls)))
      ensures st == if h in hw then Some(hw[h]) else None
      ensures calls == old(calls) + 1 && libErrors == old(libErrors) + if err == 0 then 0 else 1
    {
      err := Call(true);
      st := if h in hw then Some(hw[h]) else None;
    }

    // ------------------------------------------------------------ single queues

    /** `slash_qdma_queue_remove_safe`: whatever state the queue is in, success means it is gone, and
        it can only fail when libqdma reported an error. */
    method QueueRemoveSafe(h: Handle) returns (err: int)
      modifies this`calls, this`libErrors, this`removeErrors, this`hw
      ensures err <= 0
      ensures err == 0 ==> hw == old(hw) - {h} && removeErrors == old(removeErrors)
      ensures err == 0 <==> libErrors == old(libErrors)
      ensures err != 0 ==>
                && libErrors == old(libErrors) + 1 && removeErrors == old(removeErrors) + 1
                && (hw == old(hw) || (h in old(hw) && old(hw)[h] == Online && hw == old(hw)[h := Enabled]))
      ensures old(calls) <= calls && ((forall i :: old(calls) <= i ==> !fails(i)) ==> err == 0)
    {
      var st;
      err, st := GetQueueState(h);
      if err != 0 {
        removeErrors := removeErrors + 1;
        return;
      }
      match st {
        case None =>
          return;
        case Some(Enabled) =>
        case Some(Online) =>
          err := QueueStop(h);
          if err != 0 {
            removeErrors := removeErrors + 1;
            return;
          }
      }
      err := QueueRemove(h);
      if err != 0 {
        removeErrors := removeErrors + 1;
      }
    }

    /** `slash_qdma_ioctl_qpair_add_q`: adds one hardware queue and records it, or leaves no trace of
        it unless the removal of the half-added queue fails. */
    method AddQ(e: nat, qid: nat, q: nat) returns (err: int)
      requires e in entries && EntryOk(entries[e]) && Names(entries[e], qid)
      requires q < QTYPES && q !in entries[e].dirMask
      modifies this`calls, this`libErrors, this`removeErrors, this`hw, this`entries
      ensures err <= 0
      ensures err == 0 ==>
                && Grown(old(hw), hw, qid, {q}) && removeErrors == old(removeErrors) && libErrors == old(libErrors)
                && var x := old(entries)[e];
                && entries == old(entries)[e := Entry(x.qhndl[q := Some(Handle(qid, q))], x.dirMask + {q})]
                && EntryOk(entries[e]) && Names(entries[e], qid)
      ensures err != 0 ==> entries == old(entries) && libErrors > old(libErrors)
      ensures err != 0 ==> if removeErrors == old(removeErrors) then hw == old(hw) else OthersKept(old(hw), hw, qid)
      ensures old(removeErrors) <= removeErrors && removeErrors - old(removeErrors) <= libErrors - old(libErrors)
      ensures old(calls) <= calls
      ensures (forall i :: old(calls) <= i ==> !fails(i)) && Handle(qid, q) !in old(hw) ==> err == 0
    {
      var h := Handle(qid, q);
      err := QueueAdd(h);
      if err != 0 {
        return;
      }
      err := Call(true);                     // qdma_queue_config()
      if err != 0 {
        var _ := QueueRemoveSafe(h);
        assert removeErrors == old(removeErrors) ==> hw == old(hw);
        return;
      }
      var x := entries[e];
      entries := entries[e := Entry(x.qhndl[q := Some(h)], x.dirMask + {q})];
    }

    /** `slash_qdma_ioctl_qpair_rm_q`: the bit and the handle go together, and only with the queue. */
    method RmQ(e: nat, q: nat)
      requires e in entries && EntryOk(entries[e]) && q < QTYPES
      modifies this`calls, this`libErrors, this`removeErrors, this`hw, this`entries
      ensures old(removeErrors) <= removeErrors && removeErrors - old(removeErrors) == libErrors - old(libErrors)
      ensures var x := old(entries)[e];
              if removeErrors == old(removeErrors)
              then entries == old(entries)[e := Entry(x.qhndl[q := None], x.dirMask - {q})] &&
                   hw == (if x.qhndl[q].Some? then old(hw) - {x.qhndl[q].value} else old(hw))
              else entries == old(entries) && x.qhndl[q].Some? && OthersKept(old(hw), hw, x.qhndl[q].value.qid)
      ensures EntryOk(entries[e])
      ensures forall h :: h in hw ==> h in old(hw)
      ensures old(calls) <= calls
    {
      var x := entries[e];
      if x.qhndl[q].Some? {
        var err := QueueRemoveSafe(x.qhndl[q].value);
        if err != 0 {
          return;
        }
      }
      entries := entries[e := Entry(x.qhndl[q := None], x.dirMask - {q})];
    }

    // -------------------------------------------------------------- queue pairs

    ghost predicate OnlyEntryChanged(was: map<nat, Entry>, e: nat)
      reads this
    {
      entries.Keys == was.Keys && forall x :: x in entries && x != e ==> entries[x] == was[x]
    }

    /** xa_alloc(): the lowest id in 0..255 that is not in use, 256 if there is none. */
    method LowestFree() returns (qid: nat)
      ensures qid <= MAX_QPAIRS && (qid < MAX_QPAIRS ==> qid !in table)
      ensures forall i :: 0 <= i < qid ==> i in table
    {
      qid := 0;
      while qid < MAX_QPAIRS && qid in table
        invariant qid <= MAX_QPAIRS && forall i :: 0 <= i < qid ==> i in table
      {
        qid := qid + 1;
      }
    }

    ghost function Below(types: set<nat>, k: nat): set<nat> {
      set t | t in types && t < k
    }

    /** Adds the requested queues in order and stops at the first failure, `reached`. */
    method AddQueues(e: nat, qid: nat, dirMask: set<nat>) returns (err: int, reached: nat)
      requires e in entries && entries[e] == Entry([None, None, None], {})
      modifies this`calls, this`libErrors, this`removeErrors, this`hw, this`entries
      ensures err <= 0 && reached <= QTYPES && (err == 0 <==> reached == QTYPES)
      ensures OnlyEntryChanged(old(entries), e)
      ensures EntryOk(entries[e]) && Names(entries[e], qid) && entries[e].dirMask == Below(dirMask, reached)
      ensures err == 0 ==> removeErrors == old(removeErrors) && libErrors == old(libErrors)
      ensures if removeErrors == old(removeErrors) then Grown(old(hw), hw, qid, Below(dirMask, reached))
              else OthersKept(old(hw), hw, qid)
      ensures err != 0 ==> libErrors > old(libErrors)
      ensures old(removeErrors) <= removeErrors && removeErrors - old(removeErrors) <= libErrors - old(libErrors)
      ensures old(calls) <= calls
      ensures (forall i :: old(calls) <= i ==> !fails(i)) && (forall h :: h in old(hw) ==> h.qid != qid) ==> err == 0
    {
      reached, err := 0, 0;
      while reached < QTYPES
        invariant reached <= QTYPES && err == 0
        invariant OnlyEntryChanged(old(entries), e)
        invariant EntryOk(entries[e]) && Names(entries[e], qid) && entries[e].dirMask == Below(dirMask, reached)
        invariant removeErrors == old(removeErrors) && libErrors == old(libErrors)
        invariant Grown(old(hw), hw, qid, Below(dirMask, reached))
        invariant old(calls) <= calls
      {
        if reached in dirMask {
          ghost var before := hw;
          err := AddQ(e, qid, reached);
          if err != 0 {
            return;
          }
          assert Grown(before, hw, qid, {reached});
        }
        assert Below(dirMask, reached + 1) == Below(dirMask, reached) + (if reached in dirMask then {reached} else {});
        reached := reached + 1;
      }
    }

    /** Removes every queue of an entry, in order, clearing bit and handle of those that go. */
    method RemoveAll(e: nat, qid: nat)
      requires e in entries && EntryOk(entries[e]) && Names(entries[e], qid)
      modifies this`calls, this`libErrors, this`removeErrors, this`hw, this`entries
      ensures OnlyEntryChanged(old(entries), e) && EntryOk(entries[e])
      ensures old(removeErrors) <= removeErrors && removeErrors - old(removeErrors) == libErrors - old(libErrors)
      ensures removeErrors == old(removeErrors) ==>
                Shrunk(old(hw), hw, qid, old(entries[e].dirMask)) && entries[e].dirMask == {}
      ensures OthersKept(old(hw), hw, qid)
      ensures old(calls) <= calls
    {
      var q := 0;
      ghost var mask := entries[e].dirMask;
      while q < QTYPES
        invariant OnlyEntryChanged(old(entries), e)
        invariant q <= QTYPES && EntryOk(entries[e]) && Names(entries[e], qid)
        invariant old(removeErrors) <= removeErrors && removeErrors - old(removeErrors) == libErrors - old(libErrors)
        invariant removeErrors == old(removeErrors) ==>
                    entries[e].dirMask == mask - Below(mask, q) && Shrunk(old(hw), hw, qid, Below(mask, q))
        invariant OthersKept(old(hw), hw, qid)
        invariant old(calls) <= calls
      {
        if q in entries[e].dirMask {
          RmQ(e, q);
        }
        q := q + 1;
      }
    }

    predicate TableFull()
      reads this
    {
      forall i :: 0 <= i < MAX_QPAIRS ==> i in table
    }

    /** Adds all requested queues to a fresh entry, or none of them. */
    method AddQueuesOrNone(e: nat, qid: nat, dirMask: set<nat>) returns (err: int)
      requires e in entries && entries[e] == Entry([None, None, None], {})
      requires forall q :: q in dirMask ==> q < QTYPES
      modifies this`calls, this`libErrors, this`removeErrors, this`hw, this`entries
      ensures err <= 0 && OnlyEntryChanged(old(entries), e)
      ensures err == 0 ==>
                && EntryOk(entries[e]) && Names(entries[e], qid) && entries[e].dirMask == dirMask
                && Grown(old(hw), hw, qid, dirMask) && removeErrors == old(removeErrors) && libErrors == old(libErrors)
      ensures err != 0 ==> if removeErrors == old(removeErrors) then hw == old(hw) else OthersKept(old(hw), hw, qid)
      ensures old(removeErrors) <= removeErrors && removeErrors - old(removeErrors) <= libErrors - old(libErrors)
      ensures old(calls) <= calls
      ensures (forall i :: old(calls) <= i ==> !fails(i)) && (forall h :: h in old(hw) ==> h.qid != qid) ==> err == 0
    {
      var reached;
      err, reached := AddQueues(e, qid, dirMask);
      if err != 0 {
        ghost var mid, types := hw, entries[e].dirMask;
        RemoveAll(e, qid);
        if removeErrors == old(removeErrors) {
          GrowThenShrink(old(hw), mid, hw, qid, types);
        }
      } else {
        assert Below(dirMask, reached) == dirMask;
      }
    }

    /** Inserts a fresh entry under a free id and adds its queues; takes it out again on failure. */
    method InsertPair(qid: nat, dirMask: set<nat>) returns (err: int)
      requires TableOk(entries, table, nextEntry) && qid < MAX_QPAIRS && qid !in table
      requires dirMask != {} && forall q :: q in dirMask ==> q < QTYPES
      modifies this`calls, this`libErrors, this`removeErrors, this`hw, this`entries, this`table, this`nextEntry
      ensures err <= 0 && TableOk(entries, table, nextEntry)
      ensures err == 0 ==> PairStands(old(Now()), Now(), qid, dirMask)
      ensures err == 0 ==> removeErrors == old(removeErrors) && libErrors == old(libErrors)
      ensures err == 0 && NoOrphans(old(hw), old(entries), old(table)) ==> NoOrphans(hw, entries, table)
      ensures err != 0 ==> table == old(table) && entries == old(entries) && nextEntry == old(nextEntry)
      ensures err != 0 && removeErrors == old(removeErrors) ==> hw == old(hw)
      ensures old(removeErrors) <= removeErrors && removeErrors - old(removeErrors) <= libErrors - old(libErrors)
      ensures old(calls) <= calls
      ensures (forall i :: old(calls) <= i ==> !fails(i)) && (forall h :: h in old(hw) ==> h.qid != qid) ==> err == 0
    {
      hide TableOk, NoOrphans, PairStands, Grown, OthersKept, EntryOk, Names;
      var e := nextEntry;
      FreshEntryId(entries, table, e);
      entries := entries[e := Entry([None, None, None], {})];
      table := table[qid := e];
      err := AddQueuesOrNone(e, qid, dirMask);
      EntryReplaced(old(entries), entries, e);
      if err == 0 {
        PairAdded(old(hw), hw, old(entries), old(table), e, qid, entries[e]);
        nextEntry := nextEntry + 1;
      } else {
        InsertThenRemove(old(entries), e, entries[e]);
        InsertThenRemove(old(table), qid, e);
        table := table - {qid};
        entries := entries - {e};
      }
    }

    /** `slash_qdma_ioctl_qpair_add`.  Success: the lowest free id now names a pair with exactly the
        requested directions, every one of its queues enabled and nothing else touched.  Failure: the
        id table is as before, and so are the hardware queues unless a rollback removal failed. */
    method QpairAdd(dirMask: set<nat>, allocOk: bool) returns (err: int, qid: nat)
      requires Valid() && haveHandle && dirMask != {} && forall q :: q in dirMask ==> q < QTYPES
      modifies this
      ensures Valid() && haveHandle && err <= 0
      ensures err == 0 ==>
                && qid < MAX_QPAIRS && qid !in old(table) && (forall i :: 0 <= i < qid ==> i in old(table))
                && PairStands(old(Now()), Now(), qid, dirMask)
      ensures err != 0 ==> table == old(table) && entries == old(entries) && nextEntry == old(nextEntry)
      ensures err != 0 && removeErrors == old(removeErrors) ==> hw == old(hw)
      ensures !allocOk ==> err == -ENOMEM && hw == old(hw)
      ensures old(removeErrors) <= removeErrors && old(calls) <= calls
      ensures allocOk && (forall i :: old(calls) <= i ==> !fails(i)) && old(removeErrors) == 0 && old(!TableFull()) ==>
                err == 0 && removeErrors == 0
    {
      hide TableOk, NoOrphans, PairStands;
      qid := 0;
      if !allocOk {
        return -ENOMEM, qid;
      }
      qid := LowestFree();
      if qid == MAX_QPAIRS {
        err := -EBUSY;
      } else {
        if removeErrors == 0 {
          FreeIdIsUnused(hw, entries, table, qid);
        }
        err := InsertPair(qid, dirMask);
      }
    }

    /** libqdma fails no call from number `first` on. */
    ghost predicate NoMoreFailures(first: nat) {
      forall i :: first <= i ==> !fails(i)
    }

    /** The per-queue command the operation stands for. */
    method Command(op: Op, h: Handle) returns (err: int)
      modifies this`calls, this`libErrors, this`removeErrors, this`hw
      ensures err <= 0 && libErrors == old(libErrors) + if err == 0 then 0 else 1
      ensures removeErrors == old(removeErrors) + if op == Delete && err != 0 then 1 else 0
      ensures err == 0 ==> StateOf(hw, h) == Target(op)
      ensures forall g: Handle :: g != h ==> StateOf(hw, g) == StateOf(old(hw), g)
      ensures op != Delete ==> hw.Keys == old(hw).Keys
      ensures hw.Keys <= old(hw).Keys
      ensures old(calls) <= calls
      ensures CanApply(op, old(hw), h) && NoMoreFailures(old(calls)) ==> err == 0
    {
      match op
      case Start => err := QueueStart(h);
      case Stop => err := QueueStop(h);
      case Delete => err := QueueRemoveSafe(h);
    }

    /** One turn of the loop below: the command, if the pair has a queue of this type. */
    method ApplyOne(e: nat, op: Op, idx: nat, ghost qid: nat) returns (err: int)
      requires e in entries && EntryOk(entries[e]) && Names(entries[e], qid) && idx < QTYPES
      modifies this`calls, this`libErrors, this`removeErrors, this`hw
      ensures err <= 0 && (err != 0 ==> idx in entries[e].dirMask) && old(calls) <= calls
      ensures libErrors == old(libErrors) + if err == 0 then 0 else 1
      ensures removeErrors == old(removeErrors) + if op == Delete && err != 0 then 1 else 0
      ensures err == 0 && idx in entries[e].dirMask ==> StateOf(hw, Handle(qid, idx)) == Target(op)
      ensures forall g: Handle :: g != Handle(qid, idx) || idx !in entries[e].dirMask ==>
                StateOf(hw, g) == StateOf(old(hw), g)
      ensures op != Delete ==> hw.Keys == old(hw).Keys
      ensures AllCanApply(op, old(hw), qid, entries[e].dirMask, idx) ==>
                AllCanApply(op, hw, qid, entries[e].dirMask, idx + 1)
      ensures AllCanApply(op, old(hw), qid, entries[e].dirMask, idx) && NoMoreFailures(old(calls)) ==>
                err == 0 && NoMoreFailures(calls)
    {
      hide Target, CanApply, AllCanApply, StateOf;
      err := 0;
      if idx in entries[e].dirMask && entries[e].qhndl[idx].Some? {
        ReadyOne(op, hw, qid, entries[e].dirMask, idx);
        err := Command(op, entries[e].qhndl[idx].value);
      }
      if AllCanApply(op, old(hw), qid, entries[e].dirMask, idx) {
        OthersCanApply(op, old(hw), hw, qid, entries[e].dirMask, idx);
      }
    }

    /** `slash_qdma_ioctl_qpair_op_apply`: every queue of the pair tried and not in `failed` is in the
        operation's target state; with stopOnErr the first failure ends the loop, without it every
        queue is tried. */
    method OpApply(e: nat, op: Op, stopOnErr: bool, ghost qid: nat)
        returns (firstErr: int, ghost failed: set<nat>, ghost tried: nat)
      requires e in entries && EntryOk(entries[e]) && Names(entries[e], qid)
      modifies this`calls, this`libErrors, this`removeErrors, this`hw
      ensures firstErr <= 0 && failed <= entries[e].dirMask && (firstErr == 0 <==> failed == {})
      ensures libErrors == old(libErrors) + |failed|
      ensures removeErrors == old(removeErrors) + if op == Delete then |failed| else 0
      ensures tried <= QTYPES && (firstErr == 0 || !stopOnErr ==> tried == QTYPES)
      ensures forall q :: q in entries[e].dirMask && q < tried && q !in failed ==>
                StateOf(hw, Handle(qid, q)) == Target(op)
      ensures KeptExcept(old(hw), hw, qid, entries[e].dirMask)
      ensures op != Delete ==> hw.Keys == old(hw).Keys
      ensures old(calls) <= calls
      ensures AllCanApply(op, old(hw), qid, entries[e].dirMask, 0) && NoMoreFailures(old(calls)) ==> firstErr == 0
      ensures stopOnErr && firstErr != 0 ==>
                && failed == {tried}
                && forall q :: tried < q ==> StateOf(hw, Handle(qid, q)) == StateOf(old(hw), Handle(qid, q))
    {
      hide Target, CanApply, AllCanApply, StateOf, NoMoreFailures, EntryOk, Names;
      ghost var lucky := AllCanApply(op, hw, qid, entries[e].dirMask, 0) && NoMoreFailures(calls);
      firstErr, failed, tried := 0, {}, 0;
      var idx := 0;
      while idx < QTYPES
        invariant tried == idx <= QTYPES
        invariant firstErr <= 0 && failed <= Below(entries[e].dirMask, idx) && (firstErr == 0 <==> failed == {})
        invariant stopOnErr ==> failed == {}
        invariant libErrors == old(libErrors) + |failed|
        invariant removeErrors == old(removeErrors) + if op == Delete then |failed| else 0
        invariant forall q :: q in entries[e].dirMask && q < idx && q !in failed ==>
                    StateOf(hw, Handle(qid, q)) == Target(op)
        invariant KeptExcept(old(hw), hw, qid, entries[e].dirMask)
        invariant op != Delete ==> hw.Keys == old(hw).Keys
        invariant old(calls) <= calls
        invariant forall q :: idx <= q ==> StateOf(hw, Handle(qid, q)) == StateOf(old(hw), Handle(qid, q))
        invariant lucky ==>
                    firstErr == 0 && AllCanApply(op, hw, qid, entries[e].dirMask, idx) && NoMoreFailures(calls)
      {
        var err := ApplyOne(e, op, idx, qid);
        if err != 0 {
          failed := failed + {idx};
          if stopOnErr {
            return err, failed, tried;
          }
          if firstErr == 0 {
            firstErr := err;
          }
        }
        idx := idx + 1;
        tried := idx;
      }
    }

    /** `slash_qdma_ioctl_qpair_op`.  After any history, zero means every queue of the pair reached the
        operation's state and, for a delete, that the id is free; an error means libqdma reported one,
        and the pair keeps its id.  A delete tries every queue; a start or stop ends at its first error,
        and the queues behind that one are untouched.  Other pairs never notice. */
    method QpairOp(qid: nat, op: Op) returns (err: int, ghost failed: set<nat>)
      requires Valid()
      modifies this`calls, this`libErrors, this`removeErrors, this`hw, this`table
      ensures Valid() && err <= 0
      ensures !haveHandle ==> err == -ENODEV && Now() == old(Now())
      ensures haveHandle && qid !in old(table) ==> err == -ENOENT && Now() == old(Now())
      ensures haveHandle && qid in old(table) ==>
                var types := entries[old(table)[qid]].dirMask;
                && (err == 0 <==> libErrors == old(libErrors))
                && (err == 0 ==> forall q :: q in types ==> StateOf(hw, Handle(qid, q)) == Target(op))
                && KeptExcept(old(hw), hw, qid, types)
                && table == if op == Delete && err == 0 then old(table) - {qid} else old(table)
      ensures old(removeErrors) <= removeErrors && old(calls) <= calls
      ensures err == 0 ==> removeErrors == old(removeErrors)
      ensures haveHandle && qid in old(table) ==>
                && failed <= entries[old(table)[qid]].dirMask && libErrors == old(libErrors) + |failed|
                && (op == Delete ==>
                      forall q :: q in entries[old(table)[qid]].dirMask - failed ==> Handle(qid, q) !in hw)
                && (op != Delete && err != 0 ==>
                      exists k :: failed == {k} &&
                        forall q :: k < q ==> StateOf(hw, Handle(qid, q)) == StateOf(old(hw), Handle(qid, q)))
      ensures haveHandle && qid in old(table) && err == 0 ==>
                forall q :: q in entries[old(table)[qid]].dirMask ==>
                  var h := Handle(qid, q);
                  match op
                  case Start => h in hw && hw[h] == Online
                  case Stop => h in hw && hw[h] == Enabled
                  case Delete => h !in hw
      ensures haveHandle && qid in old(table) && (forall i :: old(calls) <= i ==> !fails(i)) &&
              (forall q :: q in entries[old(table)[qid]].dirMask ==>
                 var h := Handle(qid, q);
                 match op
                 case Start => h in old(hw) && old(hw)[h] == Enabled
                 case Stop => h in old(hw) && old(hw)[h] == Online
                 case Delete => true) ==>
                err == 0
    {
      if !haveHandle {
        return -ENODEV, {};
      }
      if qid !in table {
        return -ENOENT, {};
      }
      ghost var tried;
      err, failed, tried := OpApply(table[qid], op, op != Delete, qid);
      PairRemoved(entries, entries, table, nextEntry, qid);
      if removeErrors == 0 {
        OpLeavesNoOrphans(old(hw), hw, entries, table, qid, op == Delete && err == 0);
      }
      hide TableOk, NoOrphans, KeptExcept;
      if op == Delete && err == 0 {
        table := table - {qid};
      }
    }

    /** One pair's share of the teardown loop. */
    method DropPair(qid: nat)
      requires Valid() && qid in table
      modifies this`calls, this`libErrors, this`removeErrors, this`hw, this`entries, this`table
      ensures Valid() && table == old(table) - {qid} && entries.Keys == old(entries).Keys
      ensures OthersKept(old(hw), hw, qid)
      ensures old(removeErrors) <= removeErrors
    {
      var e := table[qid];
      RemoveAll(e, qid);
      hide EntryOk, Names, Shrunk, OthersKept;
      PairRemoved(old(entries), entries, table, nextEntry, qid);
      if removeErrors == 0 {
        PairDropped(old(hw), hw, old(entries), entries, table, qid);
      }
      table := table - {qid};
      hide TableOk, NoOrphans;
    }

    /** The locked half of `slash_qdma_destroy_qdma_device`: empties the table and closes the libqdma
        handle if it is still open.  Unless a removal ever failed, no hardware queue is left. */
    method TearDown() returns (closed: bool)
      requires Valid()
      modifies this
      ensures Valid() && table == map[] && !haveHandle && closed == old(haveHandle)
      ensures removeErrors == 0 ==> hw == map[]
    {
      hide TableOk, NoOrphans;
      while table != map[]
        invariant Valid() && haveHandle == old(haveHandle)
        decreases |table|
      {
        var qid :| qid in table;
        assert |(table - {qid}).Keys| < |table.Keys|;
        DropPair(qid);
      }
      if removeErrors == 0 {
        NoPairsNoQueues(hw, entries);
      }
      closed := haveHandle;
      haveHandle := false;
    }

    // ------------------------------------------------- what a bound fd can reach

    /** The locked check of `slash_qdma_xfer_prep` on the entry an fd is bound to.  While the pair is in
        the table the queue it resolves to is its own.  Afterwards it is the queue of the pair that now
        has the id, exactly if there is one with that direction; otherwise there is no such queue, as
        long as no removal has failed. */
    method ResolveQueue(e: nat, q: nat) returns (r: Option<Handle>)
      requires Valid() && e in entries && q < QTYPES
      ensures r.Some? <==> haveHandle && q in entries[e].dirMask
      ensures r.Some? ==> r == entries[e].qhndl[q]
      ensures r.Some? ==>
                ((exists id :: id in table && table[id] == e) <==> r.value.qid in table && table[r.value.qid] == e)
      ensures r.Some? && r.value.qid in table && table[r.value.qid] == e ==> r == Some(Handle(r.value.qid, q))
      ensures r.Some? && e !in table.Values ==>
                ((exists id :: id in table && table[id] != e && entries[table[id]].qhndl[q] == r) <==>
                 HasQueue(entries, table, r.value.qid, q))
      ensures r.Some? && removeErrors == 0 && !HasQueue(entries, table, r.value.qid, q) ==> r.value !in hw
    {
      if !haveHandle || q !in entries[e].dirMask || entries[e].qhndl[q].None? {
        r := None;
      } else {
        r := entries[e].qhndl[q];
        if e !in table.Values {
          WhoseQueue(entries, table, nextEntry, r.value, q);
        }
      }
    }
  }

  /** The pair with this id has a queue of this direction. */
  predicate HasQueue(entries: map<nat, Entry>, table: map<nat, nat>, qid: nat, q: nat) {
    qid in table && table[qid] in entries && q in entries[table[qid]].dirMask
  }

  /** A handle belongs to the pair whose id it carries, if that pair has the direction, and to no other. */
  lemma WhoseQueue(entries: map<nat, Entry>, table: map<nat, nat>, n: nat, h: Handle, q: nat)
    requires TableOk(entries, table, n) && q < QTYPES && h.qtype == q
    ensures HasQueue(entries, table, h.qid, q) ==>
              entries[table[h.qid]].qhndl[q] == Some(h)
    ensures forall id :: id in table && entries[table[id]].qhndl[q] == Some(h) ==>
              id == h.qid && HasQueue(entries, table, id, q)
  {
    forall id | id in table && entries[table[id]].qhndl[q] == Some(h)
      ensures id == h.qid && HasQueue(entries, table, id, q)
    {
      assert EntryOk(entries[table[id]]) && Names(entries[table[id]], id);
    }
    if HasQueue(entries, table, h.qid, q) {
      assert EntryOk(entries[table[h.qid]]) && Names(entries[table[h.qid]], h.qid);
    }
  }

  /** Adds an H2C pair to an empty table while libqdma never fails. */
  method AddOnlyPair(d: Qdma) returns (e: nat)
    requires d.Valid() && d.haveHandle && d.table == map[] && d.removeErrors == 0 && forall i :: 0 <= i ==> !d.fails(i)
    modifies d
    ensures d.Valid() && d.haveHandle && d.removeErrors == 0
    ensures e == old(d.nextEntry) && d.table == map[0 := e] && e in d.entries && 0 in d.entries[e].dirMask
    ensures Handle(0, 0) in d.hw
    ensures forall x :: x in old(d.entries) ==> x in d.entries && x != e && d.entries[x] == old(d.entries)[x]
  {
    assert 0 !in d.table;
    e := d.nextEntry;
    var err, qid := d.QpairAdd({0}, true);
    assert qid == 0;
  }

  /** A delete keeps the handles in an entry that an fd still holds; once the id is given out again, a
      transfer on the old fd resolves to a queue of the new pair. */
  method StaleFdReachesNewPair() returns (d: Qdma, stale: nat, h: Option<Handle>)
    ensures fresh(d) && d.Valid()
    ensures h.Some? && h.value in d.hw && h.value.qid in d.table && d.table[h.value.qid] != stale
  {
    d := new Qdma(_ => false);
    stale := AddOnlyPair(d);
    assert d.entries[stale].qhndl[0] == Some(Handle(0, 0)) by {
      assert EntryOk(d.entries[stale]) && Names(d.entries[d.table[0]], 0);
    }
    var err, _ := d.QpairOp(0, Delete);
    var anew := AddOnlyPair(d);
    hide TableOk, NoOrphans, Names;
    h := d.ResolveQueue(stale, 0);
  }
}
