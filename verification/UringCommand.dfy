/**
  A whole io_uring transfer command (`slash_qdma_qpair_uring_cmd` in driver/slash_qdma.c): every
  sub-transfer is prepared before any is submitted, a rejection undoes the preparations made so far
  and frees the context, and otherwise the batch of module UringBatch runs.  Nothing else can reach
  the context before the first submit, so preparation has one thread.
 */
module UringCommand {
  import opened Outcomes
  import UB = UringBatch

  datatype Phase =
    | Preparing(k: nat)                           // the first k sub-transfers are prepared
    | Undoing(k: nat, rv: int)                    // the first k are still to be undone
    | Rejected(rv: int)
    | Running(b: UB.Batch, history: seq<UB.Step>)

  /** `taken` and `undone` count the buffer references per sub-transfer taken in preparation and given
      back by the rollback. */
  datatype Command = Command(c2h: seq<bool>, phase: Phase, taken: seq<nat>, undone: seq<nat>, freed: bool)

  datatype Step = PrepOk | PrepFail(rv: int) | Undo | FreeContext | Launch | Inner(st: UB.Step)

  function Start(c2h: seq<bool>): Command {
    Command(c2h, Preparing(0), seq(|c2h|, _ => 0), seq(|c2h|, _ => 0), false)
  }

  predicate Shaped(c: Command) {
    && |c.taken| == |c.undone| == |c.c2h|
    && match c.phase
       case Preparing(k) => k <= |c.c2h|
       case Undoing(k, _) => k <= |c.c2h|
       case Rejected(_) => true
       case Running(b, _) => UB.Shaped(b)
  }

  /** A failing preparation has given back its own reference before it returns. */
  predicate Enabled(c: Command, st: Step)
    requires Shaped(c)
  {
    match st
    case PrepOk => c.phase.Preparing? && c.phase.k < |c.c2h|
    case PrepFail(rv) => rv < 0 && c.phase.Preparing? && c.phase.k < |c.c2h|
    case Undo => c.phase.Undoing? && c.phase.k > 0
    case FreeContext => c.phase.Undoing? && c.phase.k == 0
    case Launch => c.phase.Preparing? && c.phase.k == |c.c2h|
    case Inner(st) => c.phase.Running? && UB.Enabled(c.phase.b, st)
  }

  function Apply(c: Command, st: Step): (e: Command)
    requires Shaped(c) && Enabled(c, st)
    ensures Shaped(e) && e.c2h == c.c2h
  {
    match st
    case PrepOk =>
      var k := c.phase.k;
      c.(phase := Preparing(k + 1), taken := c.taken[k := c.taken[k] + 1])
    case PrepFail(rv) => c.(phase := Undoing(c.phase.k, rv))
    case Undo =>
      var k := c.phase.k - 1;
      c.(phase := Undoing(k, c.phase.rv), undone := c.undone[k := c.undone[k] + 1])
    case FreeContext => c.(phase := Rejected(c.phase.rv), freed := true)
    case Launch => c.(phase := Running(UB.Init(c.c2h), []))
    case Inner(st) => c.(phase := Running(UB.Apply(c.phase.b, st), c.phase.history + [st]))
  }

  ghost predicate Run(c: Command, steps: seq<Step>, e: Command)
    requires Shaped(c)
    decreases |steps|
  {
    if steps == [] then c == e
    else Enabled(c, steps[0]) && Run(Apply(c, steps[0]), steps[1..], e)
  }

  // ------------------------------------------------------------------ invariant

  predicate At(c: Command, i: nat)
    requires Shaped(c) && i < |c.c2h|
  {
    match c.phase
    case Preparing(k) => c.taken[i] == (if i < k then 1 else 0) && c.undone[i] == 0
    case Undoing(k, _) =>
      c.taken[i] <= 1 && if i < k then c.taken[i] == 1 && c.undone[i] == 0 else c.undone[i] == c.taken[i]
    case Rejected(_) => c.taken[i] <= 1 && c.undone[i] == c.taken[i]
    case Running(_, _) => c.taken[i] == 1 && c.undone[i] == 0
  }

  ghost predicate Inv(c: Command) {
    && Shaped(c) && c.c2h != []
    && (forall i: nat :: i < |c.c2h| ==> At(c, i))
    && (c.freed <==> c.phase.Rejected?)
    && (c.phase.Undoing? || c.phase.Rejected? ==> c.phase.rv < 0)
    && (c.phase.Running? ==> UB.Reachable(c.c2h, c.phase.history, c.phase.b))
  }

  lemma StepKeepsInv(c: Command, st: Step)
    requires Inv(c) && Enabled(c, st)
    ensures Inv(Apply(c, st))
  {
    hide UB.Run, UB.Apply, UB.Enabled;
    var e := Apply(c, st);
    if st.Inner? {
      UB.RunOneMore(UB.Init(c.c2h), c.phase.history, c.phase.b, st.st);
    } else if st.Launch? {
      UB.RunOfNothing(c.c2h);
    }
    forall i: nat | i < |c.c2h| ensures At(e, i) {
      assert At(c, i);
    }
  }

  lemma {:induction false} RunKeepsInv(c: Command, steps: seq<Step>, e: Command)
    requires Inv(c) && Run(c, steps, e)
    ensures Inv(e) && e.c2h == c.c2h
    decreases |steps|
  {
    hide At, Enabled, UB.Reachable;
    if steps != [] {
      StepKeepsInv(c, steps[0]);
      RunKeepsInv(Apply(c, steps[0]), steps[1..], e);
    }
  }

  // ------------------------------------------------------------------- main result

  /** Nothing of the command is left: it was rejected, or its batch is over. */
  ghost predicate IsOver(c: Command)
    requires Shaped(c)
  {
    forall st :: !Enabled(c, st)
  }

  lemma PreparationGoesOn(c: Command)
    requires Inv(c) && (c.phase.Preparing? || c.phase.Undoing?)
    ensures exists st :: Enabled(c, st)
  {
    if c.phase.Preparing? {
      assert Enabled(c, if c.phase.k < |c.c2h| then PrepOk else Launch);
    } else {
      assert Enabled(c, if c.phase.k > 0 then Undo else FreeContext);
    }
  }

  lemma OverMeans(c: Command)
    requires Inv(c) && IsOver(c)
    ensures c.phase.Rejected? || c.phase.Running?
    ensures c.phase.Running? ==> forall st :: !UB.Enabled(c.phase.b, st)
  {
    hide UB.Enabled, UB.Reachable;
    if c.phase.Preparing? || c.phase.Undoing? {
      PreparationGoesOn(c);
    } else if c.phase.Running? {
      forall st ensures !UB.Enabled(c.phase.b, st) {
        assert !Enabled(c, Inner(st));
      }
    }
  }

  /** A rejection carries the code of the preparation that failed in the run. */
  lemma {:induction false} RejectionIsTheFailure(c: Command, steps: seq<Step>, e: Command)
    requires Shaped(c) && Run(c, steps, e) && !c.phase.Undoing? && !c.phase.Rejected?
    ensures Shaped(e) && (e.phase.Undoing? || e.phase.Rejected? ==> PrepFail(e.phase.rv) in steps)
    decreases |steps|
  {
    hide UB.Apply, UB.Enabled, UB.Init;
    if steps != [] {
      var next := Apply(c, steps[0]);
      if steps[0].PrepFail? {
        CodeStays(next, steps[1..], e);
      } else {
        RejectionIsTheFailure(next, steps[1..], e);
      }
    }
  }

  lemma {:induction false} CodeStays(c: Command, steps: seq<Step>, e: Command)
    requires Shaped(c) && Run(c, steps, e) && (c.phase.Undoing? || c.phase.Rejected?)
    ensures (e.phase.Undoing? || e.phase.Rejected?) && e.phase.rv == c.phase.rv && Shaped(e)
    decreases |steps|
  {
    hide UB.Apply, UB.Enabled, UB.Init;
    if steps != [] {
      CodeStays(Apply(c, steps[0]), steps[1..], e);
    }
  }

  /**
    Every command ends in one of two ways.  Rejected: the rejection is returned, every reference taken
    was given back exactly once, the context is freed and no batch ever ran, so nothing was posted.
    Run: every reference taken in preparation was dropped exactly once by the completion, which was
    posted exactly once and answers for all sub-transfers.
   */
  lemma EveryCommandEnds(c2h: seq<bool>, steps: seq<Step>, e: Command)
    requires c2h != [] && Run(Start(c2h), steps, e) && Shaped(e) && IsOver(e)
    ensures e.phase.Rejected? || e.phase.Running?
    ensures |e.taken| == |e.undone| == |c2h|
    ensures e.phase.Rejected? ==>
              && PrepFail(e.phase.rv) in steps && e.phase.rv < 0 && e.freed
              && forall i: nat :: i < |c2h| ==> e.undone[i] == e.taken[i] <= 1
    ensures e.phase.Running? ==>
              && var b := e.phase.b;
              && |b.stage| == |b.drops| == |c2h| && UB.AllSettled(b.stage) && b.freed && |b.posted| == 1
              && UB.Answers(UB.OutcomesOf(b.stage), b.posted[0])
              && forall i: nat :: i < |c2h| ==> b.drops[i] == e.taken[i] == 1 && e.undone[i] == 0
  {
    hide UB.Reachable, UB.Enabled, UB.Answers, UB.OutcomesOf;
    RunKeepsInv(Start(c2h), steps, e);
    RejectionIsTheFailure(Start(c2h), steps, e);
    OverMeans(e);
    forall i: nat | i < |c2h|
      ensures e.phase.Rejected? ==> e.undone[i] == e.taken[i] <= 1
      ensures e.phase.Running? ==> e.taken[i] == 1 && e.undone[i] == 0
    {
      assert At(e, i);
    }
    if e.phase.Running? {
      UB.EveryBatchCompletesOnce(c2h, e.phase.history, e.phase.b);
    }
  }

  function Rank(c: Command): nat
    requires Shaped(c)
  {
    var n := |c.c2h|;
    match c.phase
    case Preparing(k) => 9 * n + 5 + n - k
    case Undoing(k, _) => k + 1
    case Rejected(_) => 0
    case Running(_, history) => if |history| <= 8 * n + 3 then 8 * n + 3 - |history| else 0
  }

  lemma StepLowersRank(c: Command, st: Step)
    requires Inv(c) && Enabled(c, st)
    ensures Rank(Apply(c, st)) < Rank(c)
  {
    hide UB.Reachable, UB.Enabled, UB.Apply;
    if st.Inner? {
      StepKeepsInv(c, st);
      UB.EveryBatchCompletesOnce(c.c2h, c.phase.history + [st.st], Apply(c, st).phase.b);
    }
  }

  /** No command goes on forever, however its threads interleave. */
  lemma {:induction false} CommandIsShort(c: Command, steps: seq<Step>, e: Command)
    requires Inv(c) && Run(c, steps, e)
    ensures Shaped(e) && |steps| + Rank(e) <= Rank(c)
    decreases |steps|
  {
    hide At, Enabled, UB.Reachable, Rank;
    if steps != [] {
      StepKeepsInv(c, steps[0]);
      StepLowersRank(c, steps[0]);
      CommandIsShort(Apply(c, steps[0]), steps[1..], e);
    }
  }

  lemma StartInv(c2h: seq<bool>)
    requires c2h != []
    ensures Inv(Start(c2h))
  {}

  /** Every run of a command of n sub-transfers has at most 10 n + 5 steps. */
  lemma EveryRunIsShort(c2h: seq<bool>, steps: seq<Step>, e: Command)
    requires c2h != [] && Run(Start(c2h), steps, e)
    ensures |steps| <= 10 * |c2h| + 5
  {
    StartInv(c2h);
    CommandIsShort(Start(c2h), steps, e);
  }
}
