/**
  Which error an io_uring batch reports.  Every sub-transfer that fails offers its error with one
  compare-and-exchange (step Elect of module UringBatch); the earliest offer in the run is the one that
  is posted.  The outcomes themselves are what libqdma answered in the run's Fire and SubmitRefused
  steps.
 */
module UringFirstError {
  import opened Outcomes
  import opened UringBatch

  predicate HasOutcome(s: Stage) { !s.Prepared? && !s.Queued? }

  /** Step k offers the error of a sub-transfer that has one. */
  predicate Offers(steps: seq<Step>, stage: seq<Stage>, k: nat) {
    && k < |steps| && steps[k].Elect? && steps[k].i < |stage|
    && HasOutcome(stage[steps[k].i]) && stage[steps[k].i].o.Err() != 0
  }

  ghost predicate IsEarliest(steps: seq<Step>, stage: seq<Stage>, k: nat) {
    Offers(steps, stage, k) && forall j: nat | j < k :: !Offers(steps, stage, j)
  }

  /** Offers are made by the sub-transfers that are past them, and by no others. */
  ghost predicate OffersInv(steps: seq<Step>, b: Batch) {
    && (forall k: nat | k < |steps| && steps[k].Elect? :: steps[k].i < |b.stage| && Elected(b.stage[steps[k].i]))
    && (forall i: nat | i < |b.stage| && Elected(b.stage[i]) :: Elect(i) in steps)
  }

  ghost predicate WinnerInv(steps: seq<Step>, b: Batch) {
    if b.firstErr == 0 then forall k: nat :: !Offers(steps, b.stage, k)
    else exists k: nat :: IsEarliest(steps, b.stage, k) && b.stage[steps[k].i].o.Err() == b.firstErr
  }

  ghost predicate AnswerInv(b: Batch) {
    var ret := if b.firstErr != 0 then b.firstErr else b.total;
    (b.task.Finishing? ==> b.task.ret == ret) && (b.posted != [] ==> b.posted[0] == ret)
  }

  /** An outcome is an answer libqdma gave in the run. */
  predicate Answered(steps: seq<Step>, i: nat, o: Outcome) {
    match o
    case Refused(code) => SubmitRefused(code) in steps
    case Reported(bytes, err) => Fire(i, bytes, err) in steps
  }

  ghost predicate OutcomeInv(steps: seq<Step>, b: Batch) {
    forall i: nat | i < |b.stage| && HasOutcome(b.stage[i]) :: Answered(steps, i, b.stage[i].o)
  }

  ghost predicate History(steps: seq<Step>, b: Batch) {
    OffersInv(steps, b) && WinnerInv(steps, b) && AnswerInv(b) && OutcomeInv(steps, b)
  }

  // ------------------------------------------------------------- every step keeps the history

  /** An outcome never changes, and an offer is never taken back. */
  lemma OutcomeStays(b: Batch, st: Step, i: nat)
    requires Shaped(b) && Enabled(b, st) && i < |b.stage| && HasOutcome(b.stage[i])
    ensures var s := Apply(b, st).stage[i]; HasOutcome(s) && s.o == b.stage[i].o && (Elected(b.stage[i]) ==> Elected(s))
  {}

  lemma OnlyElectElects(b: Batch, st: Step, i: nat)
    requires Shaped(b) && Enabled(b, st) && i < |b.stage| && !Elected(b.stage[i])
    ensures Elected(Apply(b, st).stage[i]) <==> st == Elect(i)
  {}

  lemma StepKeepsOffers(steps: seq<Step>, b: Batch, st: Step)
    requires Shaped(b) && Enabled(b, st) && OffersInv(steps, b)
    ensures OffersInv(steps + [st], Apply(b, st))
  {
    hide Apply, Enabled, Elected;
    var e, more := Apply(b, st), steps + [st];
    StepKeepsLength(b, st);
    forall k: nat | k < |more| && more[k].Elect? ensures more[k].i < |e.stage| && Elected(e.stage[more[k].i]) {
      if k < |steps| {
        ElectedHasOutcome(b.stage[more[k].i]);
        OutcomeStays(b, st, more[k].i);
      } else {
        ElectElects(b, st);
      }
    }
    forall i: nat | i < |e.stage| && Elected(e.stage[i]) ensures Elect(i) in more {
      if !Elected(b.stage[i]) {
        OnlyElectElects(b, st, i);
      }
    }
  }

  lemma StepKeepsLength(b: Batch, st: Step)
    requires Shaped(b) && Enabled(b, st)
    ensures |Apply(b, st).stage| == |b.stage|
  {}

  lemma ElectedHasOutcome(s: Stage)
    requires Elected(s)
    ensures HasOutcome(s)
  {}

  lemma ElectElects(b: Batch, st: Step)
    requires Shaped(b) && Enabled(b, st) && st.Elect?
    ensures st.i < |b.stage| && HasOutcome(b.stage[st.i]) && Elected(Apply(b, st).stage[st.i])
    ensures Apply(b, st).firstErr ==
            if b.stage[st.i].o.Err() != 0 && b.firstErr == 0 then b.stage[st.i].o.Err() else b.firstErr
  {}

  lemma OthersKeepWinner(b: Batch, st: Step)
    requires Shaped(b) && Enabled(b, st) && !st.Elect?
    ensures Apply(b, st).firstErr == b.firstErr
  {}

  /** Offers of earlier steps are the same before and after a step. */
  lemma OffersStay(steps: seq<Step>, b: Batch, st: Step, k: nat)
    requires Shaped(b) && Enabled(b, st) && OffersInv(steps, b) && k < |steps|
    ensures Offers(steps + [st], Apply(b, st).stage, k) <==> Offers(steps, b.stage, k)
    ensures Offers(steps, b.stage, k) ==> Apply(b, st).stage[steps[k].i].o == b.stage[steps[k].i].o
  {
    hide Apply, Enabled, Elected;
    StepKeepsLength(b, st);
    if steps[k].Elect? {
      ElectedHasOutcome(b.stage[steps[k].i]);
      OutcomeStays(b, st, steps[k].i);
    }
  }

  lemma StepKeepsWinner(steps: seq<Step>, b: Batch, st: Step)
    requires Shaped(b) && Enabled(b, st) && OffersInv(steps, b) && WinnerInv(steps, b)
    ensures WinnerInv(steps + [st], Apply(b, st))
  {
    hide Apply, Enabled, OffersInv;
    var e, more, n := Apply(b, st), steps + [st], |steps|;
    forall k: nat | k < n
      ensures Offers(more, e.stage, k) <==> Offers(steps, b.stage, k)
      ensures Offers(steps, b.stage, k) ==> e.stage[steps[k].i].o == b.stage[steps[k].i].o
    {
      OffersStay(steps, b, st, k);
    }
    if st.Elect? {
      ElectElects(b, st);
      OutcomeStays(b, st, st.i);
    } else {
      OthersKeepWinner(b, st);
    }
    StepKeepsLength(b, st);
    if b.firstErr != 0 {
      var k: nat :| IsEarliest(steps, b.stage, k) && b.stage[steps[k].i].o.Err() == b.firstErr;
      assert IsEarliest(more, e.stage, k);
    } else if e.firstErr != 0 {
      assert IsEarliest(more, e.stage, n);
    }
  }

  /** Once the completion has read the error and the sum, neither changes any more. */
  lemma StepKeepsAnswer(b: Batch, st: Step)
    requires Inv(b) && Enabled(b, st) && AnswerInv(b)
    ensures AnswerInv(Apply(b, st))
  {
    hide SubmitterInv, StageInv, ErrorInv, CounterInv, OutcomesOf, Answers;
  }

  lemma StepKeepsOutcomes(steps: seq<Step>, b: Batch, st: Step)
    requires Shaped(b) && Enabled(b, st) && OutcomeInv(steps, b)
    ensures OutcomeInv(steps + [st], Apply(b, st))
  {
    var e := Apply(b, st);
    forall i: nat | i < |e.stage| && HasOutcome(e.stage[i]) ensures Answered(steps + [st], i, e.stage[i].o) {
      if HasOutcome(b.stage[i]) {
        OutcomeStays(b, st, i);
        assert Answered(steps, i, b.stage[i].o);
      }
    }
  }

  lemma {:induction false} RunKeepsHistory(before: seq<Step>, b: Batch, steps: seq<Step>, e: Batch)
    requires Inv(b) && History(before, b) && Run(b, steps, e)
    ensures Inv(e) && History(before + steps, e)
    decreases |steps|
  {
    hide SubmitterInv, StageInv, ErrorInv, CounterInv, TaskInv, OffersInv, WinnerInv, AnswerInv, OutcomeInv;
    hide Enabled, Apply;
    if steps == [] {
      assert before + steps == before;
    } else {
      var st := steps[0];
      StepKeepsInv(b, st);
      StepKeepsOffers(before, b, st);
      StepKeepsWinner(before, b, st);
      StepKeepsAnswer(b, st);
      StepKeepsOutcomes(before, b, st);
      RunKeepsHistory(before + [st], Apply(b, st), steps[1..], e);
      assert before + [st] + steps[1..] == before + steps;
    }
  }

  lemma ReachableHistory(c2h: seq<bool>, steps: seq<Step>, e: Batch)
    requires Reachable(c2h, steps, e)
    ensures Inv(e) && History(steps, e)
  {
    InitInv(c2h);
    assert [] + steps == steps;
    assert History([], Init(c2h));
    RunKeepsHistory([], Init(c2h), steps, e);
  }

  // ------------------------------------------------------------------------- main results

  /** Step k elects a sub-transfer whose outcome is an error. */
  predicate Fails(steps: seq<Step>, os: seq<Outcome>, k: nat) {
    k < |steps| && steps[k].Elect? && steps[k].i < |os| && os[steps[k].i].Err() != 0
  }

  /**
    Over every run, what is posted is the error of the earliest step that elects a failed sub-transfer,
    or the byte sum if there is no such step; and every outcome is one libqdma gave in the run.
   */
  lemma PostedIsEarliest(c2h: seq<bool>, steps: seq<Step>, e: Batch)
    requires Reachable(c2h, steps, e) && e.posted != []
    ensures AllSettled(e.stage)
    ensures var os := OutcomesOf(e.stage);
            && (forall k: nat | Fails(steps, os, k) && forall j: nat | j < k :: !Fails(steps, os, j) ::
                  e.posted[0] == os[steps[k].i].Err())
            && ((forall k: nat :: !Fails(steps, os, k)) ==> !AnyError(os) && e.posted[0] == TotalBytes(os))
            && (forall i: nat | i < |os| :: Answered(steps, i, os[i]))
  {
    ReachableHistory(c2h, steps, e);
    CompletionIsUnique(c2h, steps, e);
    hide Reachable, Inv, Run;
    var os := OutcomesOf(e.stage);
    forall k: nat ensures Fails(steps, os, k) <==> Offers(steps, e.stage, k) {}
    if forall k: nat :: !Fails(steps, os, k) {
      forall i | 0 <= i < |os| ensures os[i].Err() == 0 {
        assert Elected(e.stage[i]);
        var k :| 0 <= k < |steps| && steps[k] == Elect(i);
        assert !Fails(steps, os, k);
      }
    }
  }

  lemma PostedGrows(b: Batch, st: Step)
    requires Shaped(b) && Enabled(b, st)
    ensures b.posted <= Apply(b, st).posted
  {}

  lemma {:induction false} PostedOnlyGrows(b: Batch, steps: seq<Step>, e: Batch)
    requires Shaped(b) && Run(b, steps, e)
    ensures b.posted <= e.posted
    decreases |steps|
  {
    hide Enabled, Apply;
    if steps != [] {
      PostedGrows(b, steps[0]);
      PostedOnlyGrows(Apply(b, steps[0]), steps[1..], e);
    }
  }

  /** No later step changes what was posted. */
  lemma PostedStays(c2h: seq<bool>, steps: seq<Step>, b: Batch, more: seq<Step>, e: Batch)
    requires Reachable(c2h, steps, b) && b.posted != [] && Shaped(b) && Run(b, more, e)
    ensures e.posted == b.posted
  {
    CompletionIsUnique(c2h, steps, b);
    PostedOnlyGrows(b, more, e);
    InitInv(c2h);
    RunKeepsInv(Init(c2h), steps, b);
    RunKeepsInv(b, more, e);
    hide SubmitterInv, StageInv, ErrorInv, CounterInv, Run;
  }
}
