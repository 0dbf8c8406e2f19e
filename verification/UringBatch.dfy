/**
  The asynchronous transfer batch: `slash_qdma_qpair_uring_cmd`, its worker callbacks and the
  deferred completion, as a state machine whose steps are the individual accesses to the shared
  batch context.  The submitting thread, every libqdma worker and the deferred completion interleave freely.
 */
module UringBatch {
  import opened Outcomes

  /** How far one sub-transfer has got.  From `Recording` on, the thread that accounts for it is the
      libqdma worker (`Reported`) or the submitting thread itself (`Refused`). */
  datatype Stage =
    | Prepared                    // holds a buffer reference, not submitted yet
    | Queued                      // accepted by libqdma, callback still to come
    | Recording(o: Outcome)       // about to store bytes_done / err in its request
    | Adding(o: Outcome)          // about to add to total_bytes
    | Electing(o: Outcome)        // about to compare-and-exchange first_err
    | Dropping(o: Outcome)        // about to decrement outstanding
    | Scheduling(o: Outcome)      // its decrement reached zero
    | Settled(o: Outcome)

  datatype Task =
    | Idle
    | Finishing(ret: int, done: nat)   // slash_qdma_xfer_finish() done for the first `done` requests
    | Freeing                          // completion posted, context still allocated
    | Gone

  /** The heap context together with what the outside world has seen of it. */
  datatype Batch = Batch(
    c2h: seq<bool>,            // direction of each sub-transfer
    stage: seq<Stage>,
    next: nat,                 // loop index of the submitting thread
    outstanding: int,
    total: nat,
    firstErr: int,
    bytesDone: seq<nat>,       // xrs[i].bytes_done
    scheduled: nat,            // calls of io_uring_cmd_complete_in_task()
    started: nat,              // runs of the deferred completion
    task: Task,
    drops: seq<nat>,           // buffer references dropped per sub-transfer
    synced: seq<bool>,         // slice handed back to the CPU
    posted: seq<int>,          // completion results seen by io_uring
    freed: bool)

  datatype Step =
    | SubmitAccepted
    | SubmitRefused(code: int)
    | Fire(i: nat, bytes: nat, err: int)
    | Record(i: nat)
    | Add(i: nat)
    | Elect(i: nat)
    | Drop(i: nat)
    | Schedule(i: nat)
    | StartTask
    | FinishOne
    | Post
    | Free

  function Init(c2h: seq<bool>): Batch {
    var n := |c2h|;
    Batch(c2h, seq(n, _ => Prepared), 0, n, 0, 0, seq(n, _ => 0), 0, 0, Idle,
          seq(n, _ => 0), seq(n, _ => false), [], false)
  }

  predicate Shaped(b: Batch) {
    && |b.c2h| == |b.stage| == |b.bytesDone| == |b.drops| == |b.synced|
    && (b.task.Finishing? ==> b.task.done <= |b.stage|)
  }

  /** The guards say which thread is where; none of them looks at `freed`. */
  predicate Enabled(b: Batch, st: Step)
    requires Shaped(b)
  {
    match st
    case SubmitAccepted => b.next < |b.stage| && b.stage[b.next] == Prepared
    case SubmitRefused(code) => code < 0 && b.next < |b.stage| && b.stage[b.next] == Prepared
    case Fire(i, bytes, err) => Reported(bytes, err).Legal() && i < |b.stage| && b.stage[i] == Queued
    case Record(i) => i < |b.stage| && b.stage[i].Recording?
    case Add(i) => i < |b.stage| && b.stage[i].Adding?
    case Elect(i) => i < |b.stage| && b.stage[i].Electing?
    case Drop(i) => i < |b.stage| && b.stage[i].Dropping?
    case Schedule(i) => i < |b.stage| && b.stage[i].Scheduling?
    case StartTask => b.started < b.scheduled && (b.task == Idle || b.task == Gone)
    case FinishOne => b.task.Finishing? && b.task.done < |b.stage|
    case Post => b.task.Finishing? && b.task.done == |b.stage|
    case Free => b.task == Freeing
  }

  /** Moves request i on; a refused one is settled by the submitter, which then advances its loop. */
  function Settle(b: Batch, i: nat): Batch
    requires Shaped(b) && i < |b.stage| && (b.stage[i].Dropping? || b.stage[i].Scheduling?)
  {
    b.(stage := b.stage[i := Settled(b.stage[i].o)],
       next := if b.stage[i].o.Refused? then b.next + 1 else b.next)
  }

  function Apply(b: Batch, st: Step): Batch
    requires Shaped(b) && Enabled(b, st)
    ensures Shaped(Apply(b, st)) && |Apply(b, st).stage| == |b.stage|
  {
    match st
    case SubmitAccepted => b.(stage := b.stage[b.next := Queued], next := b.next + 1)
    case SubmitRefused(code) => b.(stage := b.stage[b.next := Recording(Refused(code))])
    case Fire(i, bytes, err) => b.(stage := b.stage[i := Recording(Reported(bytes, err))])
    case Record(i) =>
      var o := b.stage[i].o;
      if o.Refused? then b.(stage := b.stage[i := Electing(o)])
      else b.(stage := b.stage[i := Adding(o)], bytesDone := b.bytesDone[i := o.bytes])
    case Add(i) => b.(stage := b.stage[i := Electing(b.stage[i].o)], total := b.total + b.stage[i].o.Bytes())
    case Elect(i) =>
      var o := b.stage[i].o;
      b.(stage := b.stage[i := Dropping(o)],
         firstErr := if o.Err() != 0 && b.firstErr == 0 then o.Err() else b.firstErr)
    case Drop(i) =>
      var left := b.outstanding - 1;
      if left == 0 then b.(outstanding := left, stage := b.stage[i := Scheduling(b.stage[i].o)])
      else Settle(b, i).(outstanding := left)
    case Schedule(i) => Settle(b, i).(scheduled := b.scheduled + 1)
    case StartTask =>
      b.(started := b.started + 1, task := Finishing(if b.firstErr != 0 then b.firstErr else b.total, 0))
    case FinishOne =>
      var k := b.task.done;
      b.(task := Finishing(b.task.ret, k + 1), drops := b.drops[k := b.drops[k] + 1],
         synced := b.synced[k := b.synced[k] || (b.c2h[k] && b.bytesDone[k] != 0)])
    case Post => b.(task := Freeing, posted := b.posted + [b.task.ret])
    case Free => b.(task := Gone, freed := true)
  }

  /** `steps` is a possible interleaving from `b`, ending in `e`. */
  ghost predicate Run(b: Batch, steps: seq<Step>, e: Batch)
    requires Shaped(b)
    decreases |steps|
  {
    if steps == [] then b == e
    else Enabled(b, steps[0]) && Run(Apply(b, steps[0]), steps[1..], e)
  }

  // ---------------------------------------------------------------- invariant

  predicate Undropped(s: Stage) { !s.Scheduling? && !s.Settled? }
  predicate Elected(s: Stage) { s.Dropping? || s.Scheduling? || s.Settled? }
  predicate Underway(s: Stage) { !s.Prepared? && !s.Queued? && !s.Settled? }
  function Contribution(s: Stage): nat { if s.Electing? || Elected(s) then s.o.Bytes() else 0 }

  ghost function Pending(stage: seq<Stage>): set<nat> {
    set i: nat | i < |stage| && Undropped(stage[i])
  }

  ghost function Schedulers(stage: seq<Stage>): set<nat> {
    set i: nat | i < |stage| && stage[i].Scheduling?
  }

  ghost function Contributed(stage: seq<Stage>): nat {
    if stage == [] then 0 else Contributed(stage[..|stage| - 1]) + Contribution(stage[|stage| - 1])
  }

  ghost predicate AllSettled(stage: seq<Stage>) {
    forall i :: 0 <= i < |stage| ==> stage[i].Settled?
  }

  ghost function OutcomesOf(stage: seq<Stage>): (os: seq<Outcome>)
    requires AllSettled(stage)
    ensures |os| == |stage| && forall i :: 0 <= i < |os| ==> os[i] == stage[i].o
  {
    seq(|stage|, i requires 0 <= i < |stage| => stage[i].o)
  }

  /** What the completion may report: all bytes if nothing failed, else one of the recorded errors. */
  ghost predicate Answers(os: seq<Outcome>, ret: int) {
    if AnyError(os) then IsErrorOf(os, ret) else ret == TotalBytes(os)
  }

  /** What request i may be doing while the submitting thread is at loop index `next`. */
  predicate SubmitterAt(next: nat, i: nat, s: Stage) {
    if i < next then s != Prepared && (Underway(s) ==> s.o.Reported?)
    else if i > next then s == Prepared
    else s == Prepared || (Underway(s) && s.o.Refused?)
  }

  ghost predicate SubmitterInv(b: Batch) {
    && b.next <= |b.stage|
    && forall i :: 0 <= i < |b.stage| ==> SubmitterAt(b.next, i, b.stage[i])
  }

  ghost predicate StageInv(b: Batch)
    requires Shaped(b)
  {
    forall i :: 0 <= i < |b.stage| ==>
      var s := b.stage[i];
      && (!s.Prepared? && !s.Queued? ==> s.o.Legal())
      && (s.Adding? ==> s.o.Reported?)
      && b.bytesDone[i] == (if s.Prepared? || s.Queued? || s.Recording? then 0 else s.o.Bytes())
  }

  ghost predicate ErrorInv(b: Batch)
    requires Shaped(b)
  {
    if b.firstErr == 0 then forall i :: 0 <= i < |b.stage| && Elected(b.stage[i]) ==> b.stage[i].o.Err() == 0
    else exists i :: 0 <= i < |b.stage| && Elected(b.stage[i]) && b.stage[i].o.Err() == b.firstErr
  }

  ghost predicate Balanced(b: Batch) {
    && b.outstanding == |Pending(b.stage)|
    && b.scheduled + |Schedulers(b.stage)| == (if b.outstanding == 0 then 1 else 0)
  }

  ghost predicate CounterInv(b: Batch)
    requires Shaped(b)
  {
    Balanced(b) && b.total == Contributed(b.stage)
  }

  ghost predicate TaskInv(b: Batch)
    requires Shaped(b)
  {
    && b.started <= b.scheduled
    && (b.task == Idle <==> b.started == 0)
    && (b.started > 0 ==> b.started == 1 && AllSettled(b.stage))
    && b.freed == (b.task == Gone)
    && (b.task == Idle || b.task.Finishing? ==> b.posted == [])
    && (b.task.Finishing? ==> Answers(OutcomesOf(b.stage), b.task.ret))
    && (b.task == Freeing || b.task == Gone ==>
          |b.posted| == 1 && Answers(OutcomesOf(b.stage), b.posted[0]))
    && var finished := if b.task == Idle then 0 else if b.task.Finishing? then b.task.done else |b.stage|;
       forall i :: 0 <= i < |b.stage| ==>
         && b.drops[i] == (if i < finished then 1 else 0)
         && b.synced[i] == (i < finished && b.c2h[i] && b.bytesDone[i] != 0)
  }

  ghost predicate Inv(b: Batch) {
    && Shaped(b) && |b.stage| > 0
    && SubmitterInv(b) && StageInv(b) && ErrorInv(b) && CounterInv(b) && TaskInv(b)
  }

  // ------------------------------------------------------------ small lemmas

  lemma {:induction false} ContributedUpdate(stage: seq<Stage>, i: nat, s: Stage)
    requires i < |stage|
    ensures Contributed(stage[i := s]) == Contributed(stage) - Contribution(stage[i]) + Contribution(s)
  {
    var last := |stage| - 1;
    if i == last {
      assert stage[i := s][..last] == stage[..last];
    } else {
      assert stage[i := s][..last] == stage[..last][i := s];
      ContributedUpdate(stage[..last], i, s);
    }
  }

  lemma {:induction false} ContributedWhenSettled(stage: seq<Stage>)
    requires AllSettled(stage)
    ensures Contributed(stage) == TotalBytes(OutcomesOf(stage))
  {
    if stage != [] {
      var init := stage[..|stage| - 1];
      ContributedWhenSettled(init);
      assert OutcomesOf(stage)[..|stage| - 1] == OutcomesOf(init);
    }
  }

  /** A change of stage that does not cross the decrement leaves both sets alone. */
  lemma PendingKept(stage: seq<Stage>, i: nat, s: Stage)
    requires i < |stage|
    requires Undropped(s) == Undropped(stage[i])
    requires s.Scheduling? == stage[i].Scheduling?
    ensures Pending(stage[i := s]) == Pending(stage) && Schedulers(stage[i := s]) == Schedulers(stage)
  {
  }

  lemma PendingDropped(stage: seq<Stage>, i: nat, s: Stage)
    requires i < |stage| && Undropped(stage[i]) && !Undropped(s)
    ensures Pending(stage[i := s]) == Pending(stage) - {i}
    ensures |Pending(stage[i := s])| == |Pending(stage)| - 1
    ensures Schedulers(stage[i := s]) == Schedulers(stage) + (if s.Scheduling? then {i} else {})
    ensures |Schedulers(stage[i := s])| == |Schedulers(stage)| + (if s.Scheduling? then 1 else 0)
  {
    assert i in Pending(stage) && i !in Schedulers(stage);
    assert Pending(stage[i := s]) == Pending(stage) - {i};
    assert Schedulers(stage[i := s]) == Schedulers(stage) + (if s.Scheduling? then {i} else {});
  }

  lemma SchedulerLeaves(stage: seq<Stage>, i: nat, s: Stage)
    requires i < |stage| && stage[i].Scheduling? && s.Settled?
    ensures Pending(stage[i := s]) == Pending(stage)
    ensures |Schedulers(stage[i := s])| == |Schedulers(stage)| - 1
  {
    assert i in Schedulers(stage);
    assert Schedulers(stage[i := s]) == Schedulers(stage) - {i};
  }

  /** Once the counter is zero and its scheduler is gone, nobody is left. */
  lemma ScheduledMeansSettled(b: Batch)
    requires Shaped(b) && CounterInv(b) && b.scheduled > 0
    ensures AllSettled(b.stage) && b.scheduled == 1 && b.outstanding == 0
  {
    forall i | 0 <= i < |b.stage|
      ensures b.stage[i].Settled?
    {
      assert i !in Pending(b.stage) && i !in Schedulers(b.stage);
    }
  }

  /** The elected error keeps a witness, and nobody elected has an error it does not know of. */
  lemma ErrorKept(b: Batch, b': Batch, i: nat, s: Stage)
    requires Shaped(b) && Shaped(b') && i < |b.stage| && ErrorInv(b)
    requires b'.stage == b.stage[i := s]
    requires Elected(b.stage[i]) ==> Elected(s) && s.o == b.stage[i].o
    requires b'.firstErr ==
             if Elected(s) && !Elected(b.stage[i]) && s.o.Err() != 0 && b.firstErr == 0 then s.o.Err() else b.firstErr
    ensures ErrorInv(b')
  {
    if b.firstErr != 0 {
      var j :| 0 <= j < |b.stage| && Elected(b.stage[j]) && b.stage[j].o.Err() == b.firstErr;
      assert Elected(b'.stage[j]) && b'.stage[j].o.Err() == b'.firstErr;
    } else if b'.firstErr != 0 {
      assert Elected(b'.stage[i]) && b'.stage[i].o.Err() == b'.firstErr;
    }
  }

  // ------------------------------------------------- every step keeps the invariant

  lemma InitInv(c2h: seq<bool>)
    requires c2h != []
    ensures Inv(Init(c2h))
  {
    AllPrepared(Init(c2h).stage);
  }

  lemma {:induction false} AllPrepared(stage: seq<Stage>)
    requires forall i :: 0 <= i < |stage| ==> stage[i] == Prepared
    ensures Contributed(stage) == 0 && |Pending(stage)| == |stage| && Schedulers(stage) == {}
  {
    if stage != [] {
      var last := |stage| - 1;
      AllPrepared(stage[..last]);
      assert Pending(stage) == Pending(stage[..last]) + {last};
    }
  }

  /** Nobody is mid-way through a sub-transfer once the deferred completion has been scheduled. */
  lemma NotScheduledWhile(b: Batch, i: nat)
    requires Shaped(b) && CounterInv(b) && TaskInv(b) && i < |b.stage| && !b.stage[i].Settled?
    ensures b.task == Idle && b.scheduled == 0 && b.started == 0
  {
    if b.scheduled > 0 {
      ScheduledMeansSettled(b);
    }
  }

  predicate MovesOne(st: Step) {
    !st.StartTask? && !st.FinishOne? && !st.Post? && !st.Free?
  }

  function Mover(b: Batch, st: Step): nat
    requires MovesOne(st)
  {
    if st.SubmitAccepted? || st.SubmitRefused? then b.next else st.i
  }

  lemma MoveIsUpdate(b: Batch, st: Step)
    requires Shaped(b) && Enabled(b, st) && MovesOne(st)
    ensures Mover(b, st) < |b.stage|
    ensures var i := Mover(b, st); Apply(b, st).stage == b.stage[i := Apply(b, st).stage[i]]
  {
  }

  lemma MoveKeepsSubmitter(b: Batch, st: Step)
    requires Shaped(b) && Enabled(b, st) && MovesOne(st) && SubmitterInv(b)
    ensures SubmitterInv(Apply(b, st))
  {
    var b' := Apply(b, st);
    assert SubmitterAt(b.next, Mover(b, st), b.stage[Mover(b, st)]);
    forall i | 0 <= i < |b'.stage|
      ensures SubmitterAt(b'.next, i, b'.stage[i])
    {
      assert SubmitterAt(b.next, i, b.stage[i]);
    }
  }

  lemma MoveKeepsStages(b: Batch, st: Step)
    requires Shaped(b) && Enabled(b, st) && MovesOne(st) && StageInv(b)
    ensures StageInv(Apply(b, st))
  {
  }

  lemma MoveKeepsError(b: Batch, st: Step)
    requires Shaped(b) && Enabled(b, st) && MovesOne(st) && ErrorInv(b)
    ensures ErrorInv(Apply(b, st))
  {
    MoveIsUpdate(b, st);
    ErrorKept(b, Apply(b, st), Mover(b, st), Apply(b, st).stage[Mover(b, st)]);
  }

  lemma MoveKeepsTotal(b: Batch, st: Step)
    requires Shaped(b) && Enabled(b, st) && MovesOne(st) && StageInv(b)
    requires b.total == Contributed(b.stage)
    ensures Apply(b, st).total == Contributed(Apply(b, st).stage)
  {
    var i := Mover(b, st);
    MoveIsUpdate(b, st);
    ContributedUpdate(b.stage, i, Apply(b, st).stage[i]);
  }

  lemma DropKeepsBalance(b: Batch, i: nat)
    requires Shaped(b) && Enabled(b, Drop(i)) && Balanced(b)
    ensures Balanced(Apply(b, Drop(i)))
  {
    assert i in Pending(b.stage);
    PendingDropped(b.stage, i, Apply(b, Drop(i)).stage[i]);
  }

  lemma ScheduleKeepsBalance(b: Batch, i: nat)
    requires Shaped(b) && Enabled(b, Schedule(i)) && Balanced(b)
    ensures Balanced(Apply(b, Schedule(i)))
  {
    SchedulerLeaves(b.stage, i, Apply(b, Schedule(i)).stage[i]);
  }

  lemma OthersKeepBalance(b: Batch, st: Step)
    requires Shaped(b) && Enabled(b, st) && MovesOne(st) && !st.Drop? && !st.Schedule? && Balanced(b)
    ensures Balanced(Apply(b, st))
  {
    var i := Mover(b, st);
    MoveIsUpdate(b, st);
    PendingKept(b.stage, i, Apply(b, st).stage[i]);
  }

  lemma MoveKeepsCounters(b: Batch, st: Step)
    requires Shaped(b) && Enabled(b, st) && MovesOne(st) && StageInv(b) && CounterInv(b)
    ensures CounterInv(Apply(b, st))
  {
    hide StageInv, Contributed, Contribution;
    MoveKeepsTotal(b, st);
    match st
    case Drop(i) => DropKeepsBalance(b, i);
    case Schedule(i) => ScheduleKeepsBalance(b, i);
    case _ => OthersKeepBalance(b, st);
  }

  lemma MoveKeepsTask(b: Batch, st: Step)
    requires Shaped(b) && Enabled(b, st) && MovesOne(st) && StageInv(b) && CounterInv(b) && TaskInv(b)
    ensures TaskInv(Apply(b, st))
  {
    MoveIsUpdate(b, st);
    NotScheduledWhile(b, Mover(b, st));
  }

  lemma TaskKeepsInv(b: Batch, st: Step)
    requires Inv(b) && Enabled(b, st) && !MovesOne(st)
    ensures Inv(Apply(b, st))
  {
    var b' := Apply(b, st);
    assert b'.stage == b.stage;
    assert TaskInv(b') by {
      if st.StartTask? {
        StartAnswers(b);
      }
    }
  }

  lemma StartAnswers(b: Batch)
    requires Inv(b) && Enabled(b, StartTask)
    ensures AllSettled(b.stage) && b.started == 0
    ensures Answers(OutcomesOf(b.stage), if b.firstErr != 0 then b.firstErr else b.total)
  {
    ScheduledMeansSettled(b);
    ContributedWhenSettled(b.stage);
    var os := OutcomesOf(b.stage);
    if b.firstErr != 0 {
      var i :| 0 <= i < |b.stage| && Elected(b.stage[i]) && b.stage[i].o.Err() == b.firstErr;
      assert os[i].Err() == b.firstErr;
    } else {
      assert forall i :: 0 <= i < |os| ==> Elected(b.stage[i]) && os[i].Err() == 0;
    }
  }

  lemma StepKeepsInv(b: Batch, st: Step)
    requires Inv(b) && Enabled(b, st)
    ensures Inv(Apply(b, st))
  {
    if MovesOne(st) {
      MoveKeepsSubmitter(b, st);
      MoveKeepsStages(b, st);
      MoveKeepsError(b, st);
      MoveKeepsCounters(b, st);
      MoveKeepsTask(b, st);
    } else {
      TaskKeepsInv(b, st);
    }
  }

  lemma {:induction false} RunKeepsInv(b: Batch, steps: seq<Step>, e: Batch)
    requires Inv(b) && Run(b, steps, e)
    ensures Inv(e) && e.c2h == b.c2h
    decreases |steps|
  {
    hide SubmitterInv, StageInv, ErrorInv, CounterInv, TaskInv;
    if steps != [] {
      StepKeepsInv(b, steps[0]);
      RunKeepsInv(Apply(b, steps[0]), steps[1..], e);
    }
  }

  // -------------------------------------------------------------- main results

  ghost predicate Reachable(c2h: seq<bool>, steps: seq<Step>, e: Batch) {
    c2h != [] && Run(Init(c2h), steps, e)
  }

  lemma RunOfNothing(c2h: seq<bool>)
    ensures Run(Init(c2h), [], Init(c2h))
  {}

  lemma {:induction false} RunOneMore(b: Batch, steps: seq<Step>, e: Batch, st: Step)
    requires Shaped(b) && Run(b, steps, e) && Shaped(e) && Enabled(e, st)
    ensures Run(b, steps + [st], Apply(e, st))
    decreases |steps|
  {
    hide Enabled, Apply;
    if steps == [] {
      assert (steps + [st])[1..] == [];
    } else {
      assert (steps + [st])[1..] == steps[1..] + [st];
      RunOneMore(Apply(b, steps[0]), steps[1..], e, st);
    }
  }

  /** In every interleaving, no thread has an access to the context left once it is freed: every step
      reads or writes the context, and none of them is enabled then. */
  lemma NoTouchAfterFree(c2h: seq<bool>, steps: seq<Step>, e: Batch, st: Step)
    requires Reachable(c2h, steps, e) && Shaped(e) && Enabled(e, st)
    ensures !e.freed
  {
    InitInv(c2h);
    RunKeepsInv(Init(c2h), steps, e);
    if e.freed && MovesOne(st) {
      MoveIsUpdate(e, st);
    }
  }

  /** The first index the submitting thread has not yet handed to libqdma. */
  function FirstUnsubmitted(b: Batch): nat {
    if b.next < |b.stage| && b.stage[b.next] != Prepared then b.next + 1 else b.next
  }

  /** The counter never falls below the number of sub-transfers still to be submitted. */
  lemma OutstandingCoversUnsubmitted(c2h: seq<bool>, steps: seq<Step>, e: Batch)
    requires Reachable(c2h, steps, e)
    ensures |e.stage| == |c2h| && FirstUnsubmitted(e) <= |c2h|
    ensures forall i: nat :: i < |c2h| ==> (i >= FirstUnsubmitted(e) <==> e.stage[i] == Prepared)
    ensures e.outstanding >= |c2h| - FirstUnsubmitted(e)
  {
    InitInv(c2h);
    RunKeepsInv(Init(c2h), steps, e);
    hide StageInv, ErrorInv, TaskInv, Run, Contributed;
    forall i: nat | i < |c2h|
      ensures i >= FirstUnsubmitted(e) <==> e.stage[i] == Prepared
    {
      assert SubmitterAt(e.next, i, e.stage[i]);
    }
    PendingOfTail(e.stage, FirstUnsubmitted(e));
  }

  lemma {:induction false} PendingOfTail(stage: seq<Stage>, k: nat)
    requires k <= |stage| && forall i :: k <= i < |stage| ==> Undropped(stage[i])
    ensures |Pending(stage)| >= |stage| - k
  {
    if k < |stage| {
      var last := |stage| - 1;
      PendingOfTail(stage[..last], k);
      assert Pending(stage) == Pending(stage[..last]) + {last};
    }
  }

  /** The completion is scheduled at most once and only after every sub-transfer is accounted for;
      whatever is posted answers for all of them. */
  lemma CompletionIsUnique(c2h: seq<bool>, steps: seq<Step>, e: Batch)
    requires Reachable(c2h, steps, e)
    ensures e.scheduled <= 1 && e.started <= 1 && |e.posted| <= 1
    ensures e.scheduled == 1 ==> AllSettled(e.stage) && e.outstanding == 0
    ensures e.posted != [] ==> AllSettled(e.stage) && Answers(OutcomesOf(e.stage), e.posted[0])
    ensures forall i :: 0 <= i < |e.drops| ==> e.drops[i] <= 1
  {
    InitInv(c2h);
    RunKeepsInv(Init(c2h), steps, e);
    if e.scheduled > 0 {
      ScheduledMeansSettled(e);
    }
  }

  function StageRank(s: Stage): nat {
    match s
    case Prepared => 7
    case Queued => 6
    case Recording(_) => 5
    case Adding(_) => 4
    case Electing(_) => 3
    case Dropping(_) => 2
    case Scheduling(_) => 1
    case Settled(_) => 0
  }

  ghost function RankSum(stage: seq<Stage>): nat {
    if stage == [] then 0 else RankSum(stage[..|stage| - 1]) + StageRank(stage[|stage| - 1])
  }

  ghost function WorkLeft(b: Batch): nat
    requires Shaped(b)
  {
    var n := |b.stage|;
    RankSum(b.stage) +
    match b.task
    case Idle => n + 3
    case Finishing(_, done) => n - done + 2
    case Freeing => 1
    case Gone => 0
  }

  lemma {:induction false} RankSumUpdate(stage: seq<Stage>, i: nat, s: Stage)
    requires i < |stage|
    ensures RankSum(stage[i := s]) == RankSum(stage) - StageRank(stage[i]) + StageRank(s)
  {
    var last := |stage| - 1;
    if i == last {
      assert stage[i := s][..last] == stage[..last];
    } else {
      assert stage[i := s][..last] == stage[..last][i := s];
      RankSumUpdate(stage[..last], i, s);
    }
  }

  lemma {:induction false} RankSumBound(stage: seq<Stage>)
    ensures RankSum(stage) <= 7 * |stage|
  {
    if stage != [] {
      RankSumBound(stage[..|stage| - 1]);
    }
  }

  lemma MoveLowersRank(b: Batch, st: Step)
    requires Shaped(b) && Enabled(b, st) && MovesOne(st)
    ensures var i := Mover(b, st);
            i < |b.stage| && StageRank(Apply(b, st).stage[i]) < StageRank(b.stage[i])
  {
  }

  lemma StepDoesWork(b: Batch, st: Step)
    requires Inv(b) && Enabled(b, st)
    ensures WorkLeft(Apply(b, st)) < WorkLeft(b)
  {
    if MovesOne(st) {
      MoveIsUpdate(b, st);
      MoveLowersRank(b, st);
      hide Inv, StageRank;
      RankSumUpdate(b.stage, Mover(b, st), Apply(b, st).stage[Mover(b, st)]);
    } else if st.StartTask? {
      ScheduledMeansSettled(b);
      hide SubmitterInv, StageInv, ErrorInv, CounterInv;
    } else {
      hide SubmitterInv, StageInv, ErrorInv, CounterInv, TaskInv;
    }
  }

  lemma {:induction false} RunIsShort(b: Batch, steps: seq<Step>, e: Batch)
    requires Inv(b) && Run(b, steps, e)
    ensures Shaped(e) && |steps| + WorkLeft(e) <= WorkLeft(b)
    decreases |steps|
  {
    hide SubmitterInv, StageInv, ErrorInv, CounterInv, TaskInv, WorkLeft;
    if steps != [] {
      StepKeepsInv(b, steps[0]);
      StepDoesWork(b, steps[0]);
      RunIsShort(Apply(b, steps[0]), steps[1..], e);
    }
  }

  /** The next access of the thread in charge of request i. */
  function NextAccess(stage: seq<Stage>, i: nat): Step
    requires i < |stage| && !stage[i].Settled?
  {
    match stage[i]
    case Prepared => SubmitAccepted
    case Queued => Fire(i, 0, 0)
    case Recording(_) => Record(i)
    case Adding(_) => Add(i)
    case Electing(_) => Elect(i)
    case Dropping(_) => Drop(i)
    case Scheduling(_) => Schedule(i)
  }

  lemma NeverStuck(b: Batch)
    requires Inv(b) && !b.freed
    ensures exists st :: Enabled(b, st)
  {
    if b.task.Finishing? {
      assert Enabled(b, if b.task.done < |b.stage| then FinishOne else Post);
    } else if b.task == Freeing {
      assert Enabled(b, Free);
    } else if i: nat :| i < |b.stage| && !b.stage[i].Settled? && !b.stage[i].Prepared? {
      assert Enabled(b, NextAccess(b.stage, i));
    } else if b.next < |b.stage| {
      assert Enabled(b, NextAccess(b.stage, b.next));
    } else {
      assert Pending(b.stage) == {} && Schedulers(b.stage) == {};
      assert Enabled(b, StartTask);
    }
  }

  /** Every interleaving is finite and can only end with one completion, which reports the byte sum
      or a recorded error, each buffer reference dropped exactly once, every C2H slice that received
      data handed back to the CPU, and the context freed. */
  lemma EveryBatchCompletesOnce(c2h: seq<bool>, steps: seq<Step>, e: Batch)
    requires Reachable(c2h, steps, e)
    ensures |steps| <= 8 * |c2h| + 3
    ensures Shaped(e) && |e.stage| == |c2h|
    ensures (forall st :: !Enabled(e, st)) ==>
              && e.freed && e.scheduled == 1 && AllSettled(e.stage)
              && |e.posted| == 1 && Answers(OutcomesOf(e.stage), e.posted[0])
              && (forall i :: 0 <= i < |c2h| ==> e.drops[i] == 1)
              && (forall i :: 0 <= i < |c2h| ==> e.synced[i] == (c2h[i] && OutcomesOf(e.stage)[i].Bytes() != 0))
  {
    var b := Init(c2h);
    InitInv(c2h);
    RunKeepsInv(b, steps, e);
    RunIsShort(b, steps, e);
    RankSumBound(b.stage);
    if forall st :: !Enabled(e, st) {
      if !e.freed {
        NeverStuck(e);
      }
    }
  }
}
