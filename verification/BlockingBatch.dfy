/**
  The blocking transfer batch, `slash_qdma_qpair_transfer`: prepare every sub-transfer, submit all
  but the last asynchronously, run the last one synchronously, wait, aggregate.  libqdma's workers
  interfere between any two statements of the submitting thread: `Interfere` lets any pending
  callbacks fire.
 */
module BlockingBatch {
  import opened Common
  import opened Outcomes
  import UringBatch

  const EINVAL := 22
  const ENODEV := 19
  const ENOMEM := 12

  /** The parts of `struct slash_qdma_xfer_req` the batch uses. */
  datatype Request = Request(
    buf: nat, held: bool, c2h: bool, synced: bool, bytesDone: nat, err: int, asyncInflight: bool, done: bool)

  /** A sub-transfer descriptor: the queue pair it selects, the buffer it names, its direction, and the
      verdict of `slash_qdma_xfer_prep` on it (zero or a negative errno). */
  datatype Descriptor = Descriptor(qpairIndex: nat, buf: nat, c2h: bool, verdict: int)

  function PrepResult(d: Descriptor, nQpairs: nat): int {
    if d.qpairIndex >= nQpairs then -EINVAL else d.verdict
  }

  /** The result of the first descriptor that fails to prepare, or 0. */
  ghost function FirstRejection(ds: seq<Descriptor>, nQpairs: nat): int {
    if ds == [] then 0
    else if PrepResult(ds[0], nQpairs) != 0 then PrepResult(ds[0], nQpairs)
    else FirstRejection(ds[1..], nQpairs)
  }

  lemma {:induction false} FirstRejectionAt(ds: seq<Descriptor>, nQpairs: nat, k: nat)
    requires k <= |ds| && forall i :: 0 <= i < k ==> PrepResult(ds[i], nQpairs) == 0
    ensures FirstRejection(ds, nQpairs) == FirstRejection(ds[k..], nQpairs)
  {
    if k > 0 {
      FirstRejectionAt(ds[1..], nQpairs, k - 1);
      assert ds[1..][k - 1..] == ds[k..];
    }
  }

  /** The first rejection, in terms of the descriptors: none exactly if every index is in range and every
      verdict zero, and otherwise the code of the least descriptor that fails. */
  lemma {:induction false} RejectionMeans(ds: seq<Descriptor>, nQpairs: nat)
    ensures FirstRejection(ds, nQpairs) == 0 <==>
            forall i :: 0 <= i < |ds| ==> ds[i].qpairIndex < nQpairs && ds[i].verdict == 0
    ensures forall i |
              && 0 <= i < |ds| && !(ds[i].qpairIndex < nQpairs && ds[i].verdict == 0)
              && (forall j :: 0 <= j < i ==> ds[j].qpairIndex < nQpairs && ds[j].verdict == 0) ::
              FirstRejection(ds, nQpairs) == if ds[i].qpairIndex >= nQpairs then -EINVAL else ds[i].verdict
  {
    if ds != [] {
      RejectionMeans(ds[1..], nQpairs);
      assert forall i :: 1 <= i < |ds| ==> ds[i] == ds[1..][i - 1];
      forall i | 1 <= i < |ds| && !(ds[i].qpairIndex < nQpairs && ds[i].verdict == 0) &&
        (forall j :: 0 <= j < i ==> ds[j].qpairIndex < nQpairs && ds[j].verdict == 0)
        ensures FirstRejection(ds, nQpairs) == if ds[i].qpairIndex >= nQpairs then -EINVAL else ds[i].verdict
      {
        assert forall j :: 0 <= j < i - 1 ==> ds[1..][j] == ds[j + 1];
        assert ds[1..][i - 1] == ds[i];
      }
    }
  }

  /** The byte sum, or the error at the lowest index. */
  ghost function Verdict(os: seq<Outcome>): int {
    if LowestError(os) != 0 then LowestError(os) else TotalBytes(os)
  }

  /** How many of the descriptors lo..hi-1 name buffer b. */
  ghost function Uses(ds: seq<Descriptor>, lo: nat, hi: nat, b: nat): nat
    requires lo <= hi <= |ds|
  {
    if lo == hi then 0 else Uses(ds, lo, hi - 1, b) + (if ds[hi - 1].buf == b then 1 else 0)
  }

  lemma {:induction false} UsesFront(ds: seq<Descriptor>, lo: nat, hi: nat, b: nat)
    requires lo < hi <= |ds|
    ensures Uses(ds, lo, hi, b) == (if ds[lo].buf == b then 1 else 0) + Uses(ds, lo + 1, hi, b)
  {
    if lo + 1 < hi {
      UsesFront(ds, lo, hi - 1, b);
    }
  }

  /** Every kref in `refs` is the one in `was` plus one per descriptor in lo..hi-1 naming the buffer. */
  ghost predicate Took(refs: map<nat, nat>, was: map<nat, nat>, ds: seq<Descriptor>, lo: nat, hi: nat)
    requires lo <= hi <= |ds|
  {
    refs.Keys == was.Keys && forall b :: b in was ==> refs[b] == was[b] + Uses(ds, lo, hi, b)
  }

  lemma TookKeys(refs: map<nat, nat>, was: map<nat, nat>, ds: seq<Descriptor>, lo: nat, hi: nat)
    requires lo <= hi <= |ds| && Took(refs, was, ds, lo, hi)
    ensures refs.Keys == was.Keys
  {}

  lemma TookNothing(refs: map<nat, nat>, was: map<nat, nat>, ds: seq<Descriptor>)
    requires Took(refs, was, ds, |ds|, |ds|)
    ensures refs == was
  {}

  lemma TookOneMore(refs: map<nat, nat>, was: map<nat, nat>, ds: seq<Descriptor>, k: nat)
    requires k < |ds| && Took(refs, was, ds, 0, k) && ds[k].buf in refs
    ensures Took(refs[ds[k].buf := refs[ds[k].buf] + 1], was, ds, 0, k + 1)
  {
  }

  lemma GaveBackLast(refs: map<nat, nat>, was: map<nat, nat>, ds: seq<Descriptor>, k: nat)
    requires k < |ds| && Took(refs, was, ds, 0, k + 1) && ds[k].buf in refs
    ensures refs[ds[k].buf] > 0 && Took(refs[ds[k].buf := refs[ds[k].buf] - 1], was, ds, 0, k)
  {
  }

  lemma GaveBackFirst(refs: map<nat, nat>, was: map<nat, nat>, ds: seq<Descriptor>, k: nat)
    requires k < |ds| && Took(refs, was, ds, k, |ds|) && ds[k].buf in refs
    ensures refs[ds[k].buf] > 0 && Took(refs[ds[k].buf := refs[ds[k].buf] - 1], was, ds, k + 1, |ds|)
  {
    forall b | b in was
      ensures refs[b] == was[b] + (if ds[k].buf == b then 1 else 0) + Uses(ds, k + 1, |ds|, b)
    {
      UsesFront(ds, k, |ds|, b);
    }
  }

  lemma AccountStep(os: seq<Outcome>, i: nat)
    requires i < |os|
    ensures TotalBytes(os[..i + 1]) == TotalBytes(os[..i]) + os[i].Bytes()
    ensures LowestError(os[..i + 1]) == if LowestError(os[..i]) != 0 then LowestError(os[..i]) else os[i].Err()
  {
    assert os[..i + 1][..i] == os[..i];
  }

  /** The byte count a request ends up with; the synchronous last one records none next to an error. */
  function Recorded(o: Outcome, last: bool): nat {
    if last && o.Err() != 0 then 0 else o.Bytes()
  }

  lemma RecordedWithoutError(o: Outcome, last: bool)
    ensures o.Err() == 0 ==> Recorded(o, last) == o.Bytes()
  {}

  lemma AccountNothing(os: seq<Outcome>)
    ensures TotalBytes(os[..0]) == 0 && LowestError(os[..0]) == 0
  {}

  predicate Matches(x: Request, o: Outcome, last: bool) {
    x.err == o.Err() && x.bytesDone == Recorded(o, last)
  }

  predicate Holds(x: Request, d: Descriptor) {
    x.held && x.buf == d.buf && x.c2h == d.c2h
  }

  /** A request fresh from `slash_qdma_xfer_prep`. */
  predicate Untouched(x: Request) {
    x.err == 0 && x.bytesDone == 0 && !x.done && !x.asyncInflight && !x.synced
  }

  /** An asynchronous request once its iteration of the submit loop is over. */
  predicate Submitted(x: Request, o: Outcome, isPending: bool) {
    if o.Refused? then !x.asyncInflight && !isPending && x.err == o.code && x.bytesDone == 0
    else
      && x.asyncInflight
      && (if isPending then !x.done else x.done && x.err == o.err && x.bytesDone == o.bytes)
  }

  class Transfer {
    var xrs: array<Request>
    const outcomes: seq<Outcome>      // what libqdma will do with each sub-transfer
    var pending: set<nat>             // accepted by libqdma, fp_done not fired yet
    var refs: map<nat, nat>           // kref of every live buffer
    var submits: nat                  // calls of qdma_request_submit()

    constructor (outcomes: seq<Outcome>, refs: map<nat, nat>)
      ensures this.outcomes == outcomes && this.refs == refs && pending == {} && submits == 0
    {
      this.outcomes, this.refs, submits := outcomes, refs, 0;
      xrs := new Request[0];
      pending := {};
    }

    // ------------------------------------------------------- libqdma's workers

    /** Only accepted, not yet reported requests are pending. */
    ghost predicate PendingOk()
      reads this, xrs
    {
      && xrs.Length == |outcomes|
      && forall i :: i in pending ==> i < xrs.Length && outcomes[i].Reported? && !xrs[i].done
    }

    /** Nothing but deliveries of callbacks pending in `before` happened since `was`. */
    ghost predicate OnlyDeliveries(was: seq<Request>, before: set<nat>)
      reads this, xrs
    {
      && pending <= before
      && |was| == xrs.Length == |outcomes|
      && forall i :: 0 <= i < |was| ==>
           if i in before && i !in pending
           then outcomes[i].Reported? &&
                xrs[i] == was[i].(done := true, bytesDone := outcomes[i].Bytes(), err := outcomes[i].Err())
           else xrs[i] == was[i]
    }

    /** fp_done, `slash_qdma_xfer_done`: records the result and wakes the waiter. */
    method FireDone(i: nat)
      requires PendingOk() && i in pending
      modifies this`pending, xrs
      ensures PendingOk() && pending == old(pending) - {i}
      ensures OnlyDeliveries(old(xrs[..]), old(pending))
    {
      var o := outcomes[i];
      xrs[i] := xrs[i].(bytesDone := o.bytes, err := o.err, done := true);
      pending := pending - {i};
    }

    /** libqdma's workers run for a while: any pending callbacks may fire. */
    method Interfere()
      requires PendingOk()
      modifies this`pending, xrs
      ensures PendingOk() && OnlyDeliveries(old(xrs[..]), old(pending))
    {
      var i := 0;
      while i < xrs.Length
        invariant PendingOk() && OnlyDeliveries(old(xrs[..]), old(pending))
      {
        var fires: bool := *;
        if fires && i in pending {
          FireDone(i);
        }
        i := i + 1;
      }
    }

    /** `qdma_request_submit` with fp_done set: queue the request or refuse it. */
    method SubmitAsync(i: nat) returns (res: int)
      requires PendingOk() && i < xrs.Length && i !in pending && !xrs[i].done
      requires outcomes[i].Legal()
      modifies this`pending, this`submits
      ensures PendingOk() && submits == old(submits) + 1
      ensures outcomes[i].Refused? ==> res == outcomes[i].code && pending == old(pending)
      ensures outcomes[i].Reported? ==> res >= 0 && pending == old(pending) + {i}
    {
      submits := submits + 1;
      if outcomes[i].Refused? {
        res := outcomes[i].code;
      } else {
        pending := pending + {i};
        res := *;
        res := if res < 0 then 0 else res;
      }
    }

    /** `qdma_request_submit` without fp_done blocks; the other requests go on meanwhile. */
    method SubmitSync(i: nat) returns (res: int)
      requires PendingOk() && i < xrs.Length && i !in pending && outcomes[i].Legal()
      modifies this`pending, this`submits, xrs
      ensures submits == old(submits) + 1
      ensures PendingOk() && OnlyDeliveries(old(xrs[..]), old(pending))
      ensures res == if outcomes[i].Err() != 0 then outcomes[i].Err() else outcomes[i].Bytes()
    {
      submits := submits + 1;
      Interfere();
      res := if outcomes[i].Err() != 0 then outcomes[i].Err() else outcomes[i].Bytes();
    }

    /** `wait_for_completion` returns only for a request whose callback has fired or is still due. */
    method WaitFor(i: nat)
      requires PendingOk() && i < xrs.Length && (xrs[i].done || i in pending)
      modifies this`pending, xrs
      ensures PendingOk() && OnlyDeliveries(old(xrs[..]), old(pending)) && xrs[i].done && i !in pending
    {
      Interfere();
      if !xrs[i].done {
        FireDone(i);
      }
    }

    // ---------------------------------------------------- the submitting thread

    /** `slash_qdma_xfer_cleanup`: drops the buffer reference taken in prep. */
    method Cleanup(i: nat)
      requires i < xrs.Length && xrs[i].held && xrs[i].buf in refs && refs[xrs[i].buf] > 0
      modifies xrs, this`refs
      ensures refs == old(refs)[old(xrs[i].buf) := old(refs[xrs[i].buf]) - 1]
      ensures xrs[i] == old(xrs[i]).(held := false)
      ensures forall j :: 0 <= j < xrs.Length && j != i ==> xrs[j] == old(xrs[j])
    {
      refs := refs[xrs[i].buf := refs[xrs[i].buf] - 1];
      xrs[i] := xrs[i].(held := false);
    }

    /** `slash_qdma_xfer_finish`: a card-to-host slice that received data is handed back to the CPU. */
    method Finish(i: nat)
      requires i < xrs.Length && xrs[i].held && xrs[i].buf in refs && refs[xrs[i].buf] > 0
      modifies xrs, this`refs
      ensures refs == old(refs)[old(xrs[i].buf) := old(refs[xrs[i].buf]) - 1]
      ensures xrs[i] == old(xrs[i].(held := false, synced := xrs[i].synced || (xrs[i].c2h && xrs[i].bytesDone != 0)))
      ensures forall j :: 0 <= j < xrs.Length && j != i ==> xrs[j] == old(xrs[j])
    {
      if xrs[i].c2h && xrs[i].bytesDone != 0 {
        xrs[i] := xrs[i].(synced := true);
      }
      Cleanup(i);
    }

    /** A descriptor that prepares names a live buffer. */
    ghost predicate NamesBuffers(nQpairs: nat, ds: seq<Descriptor>)
      reads this
    {
      forall i :: 0 <= i < |ds| && PrepResult(ds[i], nQpairs) == 0 ==> ds[i].buf in refs
    }

    /** The prepare loop with its rollback. */
    method PrepareAll(nQpairs: nat, ds: seq<Descriptor>) returns (rv: int)
      requires |ds| == |outcomes| && pending == {} && NamesBuffers(nQpairs, ds)
      modifies this`xrs, this`refs
      ensures fresh(xrs) && xrs.Length == |ds|
      ensures rv == FirstRejection(ds, nQpairs)
      ensures rv != 0 ==> refs == old(refs)
      ensures rv == 0 ==>
                && Took(refs, old(refs), ds, 0, |ds|)
                && (forall i :: 0 <= i < |ds| ==> Untouched(xrs[i]))
                && (forall i :: 0 <= i < |ds| ==> Holds(xrs[i], ds[i]) && ds[i].buf in old(refs))
    {
      xrs := new Request[|ds|](_ => Request(0, false, false, false, 0, 0, false, false));
      var i := 0;
      while i < |ds|
        invariant 0 <= i <= |ds| && fresh(xrs) && xrs.Length == |ds|
        invariant Took(refs, old(refs), ds, 0, i)
        invariant forall j :: 0 <= j < i ==> PrepResult(ds[j], nQpairs) == 0
        invariant forall j :: 0 <= j < i ==> Holds(xrs[j], ds[j])
        invariant forall j :: 0 <= j < |ds| ==> Untouched(xrs[j])
      {
        FirstRejectionAt(ds, nQpairs, i);
        rv := PrepResult(ds[i], nQpairs);
        if rv != 0 {
          RollBack(ds, i, old(refs));
          return;
        }
        TookOneMore(refs, old(refs), ds, i);
        refs := refs[ds[i].buf := refs[ds[i].buf] + 1];
        xrs[i] := xrs[i].(buf := ds[i].buf, held := true, c2h := ds[i].c2h);
        i := i + 1;
      }
      FirstRejectionAt(ds, nQpairs, |ds|);
      rv := 0;
    }

    /** Undoes the first k preparations, last one first. */
    method RollBack(ds: seq<Descriptor>, k: nat, ghost was: map<nat, nat>)
      requires k <= |ds| == xrs.Length && Took(refs, was, ds, 0, k)
      requires forall j :: 0 <= j < k ==> Holds(xrs[j], ds[j]) && ds[j].buf in was
      modifies xrs, this`refs
      ensures refs == was
    {
      var i := k;
      while i > 0
        invariant 0 <= i <= k && Took(refs, was, ds, 0, i)
        invariant forall j :: 0 <= j < i ==> Holds(xrs[j], ds[j])
      {
        i := i - 1;
        GaveBackLast(refs, was, ds, i);
        Cleanup(i);
      }
    }

    /** Submits every request but the last; callbacks may arrive at any moment. */
    method SubmitAllButLast()
      requires PendingOk() && pending == {} && |outcomes| > 0
      requires forall i :: 0 <= i < |outcomes| ==> outcomes[i].Legal() && Untouched(xrs[i])
      modifies this`pending, this`submits, xrs
      ensures PendingOk() && submits == old(submits) + |outcomes| - 1
      ensures forall i :: 0 <= i < |outcomes| - 1 ==> Submitted(xrs[i], outcomes[i], i in pending)
      ensures Untouched(xrs[|outcomes| - 1]) && |outcomes| - 1 !in pending
      ensures SameBuffers(old(xrs[..]))
    {
      var i := 0;
      var last := xrs.Length - 1;
      while i < last
        invariant 0 <= i <= last && PendingOk() && SameBuffers(old(xrs[..])) && submits == old(submits) + i
        invariant forall j :: 0 <= j < i ==> Submitted(xrs[j], outcomes[j], j in pending)
        invariant forall j :: i <= j <= last ==> Untouched(xrs[j]) && j !in pending
      {
        var res := SubmitAsync(i);
        Interfere();
        if res < 0 {
          xrs[i] := xrs[i].(err := res);
        } else {
          xrs[i] := xrs[i].(asyncInflight := true);
        }
        i := i + 1;
      }
    }

    ghost predicate SameBuffers(was: seq<Request>)
      reads this, xrs
    {
      |was| == xrs.Length &&
      forall i :: 0 <= i < |was| ==>
        && xrs[i].buf == was[i].buf && xrs[i].held == was[i].held
        && xrs[i].c2h == was[i].c2h && xrs[i].synced == was[i].synced
    }

    /** Waits for the queued requests only. */
    method WaitAll()
      requires PendingOk() && |outcomes| > 0
      requires forall i :: 0 <= i < |outcomes| - 1 ==> Submitted(xrs[i], outcomes[i], i in pending)
      requires |outcomes| - 1 !in pending
      modifies this`pending, xrs
      ensures PendingOk() && pending == {}
      ensures forall i :: 0 <= i < |outcomes| - 1 ==> Submitted(xrs[i], outcomes[i], i in pending)
      ensures xrs[|outcomes| - 1] == old(xrs[|outcomes| - 1])
      ensures SameBuffers(old(xrs[..]))
    {
      var i := 0;
      var last := xrs.Length - 1;
      while i < last
        invariant 0 <= i <= last && PendingOk() && SameBuffers(old(xrs[..]))
        invariant forall j :: 0 <= j < last ==> Submitted(xrs[j], outcomes[j], j in pending)
        invariant forall j :: 0 <= j < i ==> j !in pending
        invariant last !in pending && xrs[last] == old(xrs[last])
      {
        if xrs[i].asyncInflight {
          WaitFor(i);
        }
        i := i + 1;
      }
    }

    /** The CPU sees exactly the card-to-host slices that received data. */
    ghost predicate SyncedAt(ds: seq<Descriptor>, i: nat)
      requires i < |ds| == xrs.Length == |outcomes|
      reads this, xrs
    {
      xrs[i].synced == (ds[i].c2h && Recorded(outcomes[i], i == |ds| - 1) != 0)
    }

    ghost predicate AllSynced(ds: seq<Descriptor>)
      requires |ds| == xrs.Length == |outcomes|
      reads this, xrs
    {
      forall i :: 0 <= i < |ds| ==> SyncedAt(ds, i)
    }

    /** Sums the bytes, picks the first error and drops every reference. */
    method Aggregate(ds: seq<Descriptor>, ghost was: map<nat, nat>) returns (firstErr: int, total: nat)
      requires |ds| == xrs.Length == |outcomes|
      requires forall i :: 0 <= i < |ds| ==> Holds(xrs[i], ds[i]) && ds[i].buf in was
      requires forall i :: 0 <= i < |ds| ==> Matches(xrs[i], outcomes[i], i == |ds| - 1) && !xrs[i].synced
      requires Took(refs, was, ds, 0, |ds|)
      modifies xrs, this`refs
      ensures firstErr == LowestError(outcomes)
      ensures firstErr == 0 ==> total == TotalBytes(outcomes)
      ensures refs == was && AllSynced(ds)
    {
      hide Took, LowestError, TotalBytes, Recorded;
      firstErr, total := 0, 0;
      var i := 0;
      TookKeys(refs, was, ds, 0, |ds|);
      AccountNothing(outcomes);
      while i < xrs.Length
        invariant 0 <= i <= |ds| && refs.Keys == was.Keys
        invariant firstErr == LowestError(outcomes[..i])
        invariant firstErr == 0 ==> total == TotalBytes(outcomes[..i])
        invariant Took(refs, was, ds, i, |ds|)
        invariant forall j :: i <= j < |ds| ==> xrs[j] == old(xrs[j])
        invariant forall j :: 0 <= j < i ==>
                    xrs[j].synced == (ds[j].c2h && Recorded(outcomes[j], j == |ds| - 1) != 0)
      {
        AccountStep(outcomes, i);
        GaveBackFirst(refs, was, ds, i);
        if xrs[i].err != 0 && firstErr == 0 {
          firstErr := xrs[i].err;
        }
        RecordedWithoutError(outcomes[i], i == |ds| - 1);
        total := total + xrs[i].bytesDone;
        Finish(i);
        i := i + 1;
      }
      assert outcomes[..i] == outcomes;
      TookNothing(refs, was, ds);
    }

    /** Everything after a successful preparation. */
    method Execute(ds: seq<Descriptor>, ghost was: map<nat, nat>) returns (ret: int)
      requires 0 < |ds| == |outcomes| && PendingOk() && pending == {}
      requires forall i :: 0 <= i < |outcomes| ==> outcomes[i].Legal() && Untouched(xrs[i])
      requires forall i :: 0 <= i < |ds| ==> Holds(xrs[i], ds[i]) && ds[i].buf in was
      requires Took(refs, was, ds, 0, |ds|)
      modifies this`pending, this`submits, this`refs, xrs
      ensures pending == {} && refs == was && AllSynced(ds) && submits == old(submits) + |ds|
      ensures ret == Verdict(outcomes)
    {
      var last := |ds| - 1;
      SubmitAllButLast();
      var res := SubmitSync(last);
      if res < 0 {
        xrs[last] := xrs[last].(err := res);
      } else {
        xrs[last] := xrs[last].(bytesDone := res);
      }
      assert forall i :: 0 <= i < |outcomes| - 1 ==> Submitted(xrs[i], outcomes[i], i in pending);
      WaitAll();
      var firstErr, total := Aggregate(ds, was);
      ret := if firstErr != 0 then firstErr else total;
    }

    /** Whatever libqdma does and however its workers interleave: a rejected batch returns its
        rejection with every reference given back, an accepted one waits for exactly what it queued
        and returns the byte sum or the lowest-index error. */
    method Run(nQpairs: nat, maxQpairs: nat, ds: seq<Descriptor>, allocOk: bool) returns (ret: int)
      requires |ds| == |outcomes| && pending == {} && NamesBuffers(nQpairs, ds)
      requires forall i :: 0 <= i < |outcomes| ==> outcomes[i].Legal()
      modifies this
      ensures pending == {} && refs == old(refs)
      ensures nQpairs == 0 ==> ret == -ENODEV
      ensures nQpairs > 0 && (ds == [] || |ds| > maxQpairs) ==> ret == -EINVAL
      ensures nQpairs > 0 && 0 < |ds| <= maxQpairs && !allocOk ==> ret == -ENOMEM
      ensures nQpairs > 0 && 0 < |ds| <= maxQpairs && allocOk && FirstRejection(ds, nQpairs) == 0 ==>
                xrs.Length == |ds| && AllSynced(ds)
      ensures nQpairs > 0 && 0 < |ds| <= maxQpairs && allocOk ==>
                submits == old(submits) +
                  if forall i :: 0 <= i < |ds| ==> ds[i].qpairIndex < nQpairs && ds[i].verdict == 0 then |ds| else 0
      ensures nQpairs > 0 && 0 < |ds| <= maxQpairs && allocOk ==>
                forall i |
                  && 0 <= i < |ds| && !(ds[i].qpairIndex < nQpairs && ds[i].verdict == 0)
                  && (forall j :: 0 <= j < i ==> ds[j].qpairIndex < nQpairs && ds[j].verdict == 0) ::
                  ret == if ds[i].qpairIndex >= nQpairs then -EINVAL else ds[i].verdict
      ensures nQpairs == 0 || ds == [] || |ds| > maxQpairs || !allocOk ==> submits == old(submits)
      ensures nQpairs > 0 && 0 < |ds| <= maxQpairs && allocOk ==>
                ret == if FirstRejection(ds, nQpairs) != 0 then FirstRejection(ds, nQpairs) else Verdict(outcomes)
    {
      if nQpairs == 0 {
        return -ENODEV;
      }
      if |ds| == 0 || |ds| > maxQpairs {
        return -EINVAL;
      }
      if !allocOk {
        return -ENOMEM;
      }
      RejectionMeans(ds, nQpairs);
      ret := PrepareAll(nQpairs, ds);
      if ret != 0 {
        return;
      }
      ret := Execute(ds, old(refs));
    }
  }

  /** The two batches agree: on every all-success outcome they return the same count, and they report
      an error on exactly the same outcomes. */
  lemma BatchesAgree(os: seq<Outcome>, uringRet: int)
    requires forall i :: 0 <= i < |os| ==> os[i].Legal()
    requires UringBatch.Answers(os, uringRet)
    ensures !AnyError(os) ==> uringRet == Verdict(os) == TotalBytes(os)
    ensures uringRet < 0 <==> Verdict(os) < 0
    ensures Verdict(os) < 0 <==> AnyError(os)
    ensures Verdict(os) < 0 ==> IsErrorOf(os, Verdict(os))
  {
    LowestErrorMeaning(os);
  }

  /** A result cut to a signed 32-bit integer: the result field of an io_uring completion entry, and the
      variable in which the user library keeps the answer of the blocking ioctl. */
  function CompletionResult(ret: int): int {
    var low := ret % TWO32;
    if low < TWO32 / 2 then low else low - TWO32
  }

  /** A result reaches the io_uring user unchanged exactly when it fits: every errno does, a byte count
      only below 2^31. */
  lemma CompletionEntryIsExactIff(os: seq<Outcome>, ret: int)
    requires UringBatch.Answers(os, ret) && forall i :: 0 <= i < |os| ==> os[i].Legal() && os[i].Err() >= -4095
    ensures CompletionResult(ret) == ret <==> AnyError(os) || TotalBytes(os) < TWO32 / 2
  {}

  /** Two sub-transfers of 2^30 bytes each succeed, and the completion entry reads as an error. */
  lemma LargeBatchLooksFailed()
    ensures var os := [Reported(TWO32 / 4, 0), Reported(TWO32 / 4, 0)];
            UringBatch.Answers(os, TWO32 / 2) && CompletionResult(TWO32 / 2) < 0
  {
    var os := [Reported(TWO32 / 4, 0), Reported(TWO32 / 4, 0)];
    assert os[..1] == [os[0]] && os[..1][..0] == [];
    assert TotalBytes(os[..1]) == TWO32 / 4;
  }

  /** What the library's batch call returns for a result of the blocking ioctl. */
  function LibraryResult(ret: int): int {
    if ret < 0 || CompletionResult(ret) < 0 then -1 else CompletionResult(ret)
  }

  /** The library reports the blocking batch's outcome exactly under the same condition. */
  lemma LibraryResultIsExactIff(os: seq<Outcome>)
    requires forall i :: 0 <= i < |os| ==> os[i].Legal()
    ensures LibraryResult(Verdict(os)) == (if AnyError(os) then -1 else TotalBytes(os)) <==>
            AnyError(os) || TotalBytes(os) < TWO32 / 2
  {
    LowestErrorMeaning(os);
  }
}
