/**
 The status of API operations over whole runs: how it moves for operations that cannot be cancelled, and when a final
 status is final.
 */
module ApiStatus {
  import opened Prelude
  import opened ApiOperations

  // ----- operations that cannot be cancelled ------------------------------------------------------------------------

  predicate Plain(op: Op) {
    !op.kind.Token? && !op.hooks.onCancel && op.canceler.NoCanceler?
  }

  /** Pending, then Running, then Success or Failure for good. */
  predicate Moves(a: Status, b: Status) {
    || a == b
    || (a.Pending? && (b.Running? || b.Success? || b.Failure?))
    || (a.Running? && (b.Success? || b.Failure?))
  }

  /** Never cancelled, and one goroutine at most, which is running exactly while the status may still change. */
  predicate PlainInv(op: Op) {
    && Plain(op)
    && op.cancelChecked == 0 && op.cancelling == multiset{} && op.cancelTail == 0
    && (op.status.Pending? || op.status.Running? || op.status.Success? || op.status.Failure?)
    && op.running <= (if op.status.Running? then 1 else 0)
  }

  /** No Run takes the lock of an operation that another Run has started since the first one looked. */
  ghost predicate NoRunRace(op: Op, steps: seq<Step>)
    requires Runs(op, steps)
    decreases |steps|
  {
    steps == [] || ((steps[0].RunStart? ==> op.status.Pending?) && NoRunRace(Apply(op, steps[0]), steps[1..]))
  }

  lemma PlainStepKeepsInv(op: Op, step: Step)
    requires PlainInv(op) && Enabled(op, step) && (step.RunStart? ==> op.status.Pending?)
    ensures PlainInv(Apply(op, step))
  {
  }

  lemma PlainStepMoves(op: Op, step: Step)
    requires PlainInv(op) && Enabled(op, step)
    ensures (step.RunStart? ==> op.status.Pending?) ==> Moves(op.status, Apply(op, step).status)
    ensures op.status.Pending? ==> Apply(op, step).status.Pending? || Apply(op, step).status.Running?
    ensures step.RunStart? && IsFinal(op.status) ==> !Moves(op.status, Apply(op, step).status)
  {
  }

  lemma PlainStep(op: Op, step: Step)
    requires PlainInv(op) && Enabled(op, step)
    ensures (step.RunStart? ==> op.status.Pending?) ==>
              PlainInv(Apply(op, step)) && Moves(op.status, Apply(op, step).status)
    ensures op.status.Pending? ==> Apply(op, step).status.Pending? || Apply(op, step).status.Running?
    ensures step.RunStart? && IsFinal(op.status) ==> !Moves(op.status, Apply(op, step).status)
  {
    PlainStepMoves(op, step);
    if step.RunStart? ==> op.status.Pending? {
      PlainStepKeepsInv(op, step);
    }
  }

  /**
   For an operation that cannot be cancelled, the status only moves from Pending to Running to Success or Failure, and
   a final one never changes, in every run in which no two Runs race.
   */
  lemma {:induction false} StatusMoves(op: Op, steps: seq<Step>)
    requires PlainInv(op) && Runs(op, steps) && NoRunRace(op, steps)
    ensures PlainInv(After(op, steps)) && Moves(op.status, After(op, steps).status)
    decreases |steps|
  {
    if steps != [] {
      PlainStep(op, steps[0]);
      StatusMoves(Apply(op, steps[0]), steps[1..]);
    }
  }

  /** How often Run looks at the status. */
  function RunChecks(steps: seq<Step>): nat {
    if steps == [] then 0 else (if steps[0].RunCheck? then 1 else 0) + RunChecks(steps[1..])
  }

  /** One call of Run cannot race. */
  lemma {:induction false} OneRunHasNoRace(op: Op, steps: seq<Step>)
    requires PlainInv(op) && Runs(op, steps)
    requires op.runChecked + RunChecks(steps) <= 1 && (op.runChecked > 0 ==> op.status.Pending?)
    ensures NoRunRace(op, steps)
    decreases |steps|
  {
    if steps != [] {
      PlainStep(op, steps[0]);
      OneRunHasNoRace(Apply(op, steps[0]), steps[1..]);
    }
  }

  /** The daemon runs each operation once: then the status only ever moves forwards, from its creation on. */
  lemma StatusMovesOnOneRun(op: Op, before: seq<Step>, after: seq<Step>)
    requires PlainInv(op) && op.status.Pending? && op.runChecked == 0
    requires Runs(op, before + after) && RunChecks(before + after) <= 1
    ensures Runs(op, before)
    ensures Moves(After(op, before).status, After(op, before + after).status)
  {
    OneRunHasNoRace(op, before + after);
    RaceFreeSuffix(op, before, after);
    StatusMoves(op, before);
    StatusMoves(After(op, before), after);
  }

  lemma {:induction false} RaceFreeSuffix(op: Op, before: seq<Step>, after: seq<Step>)
    requires Runs(op, before + after) && NoRunRace(op, before + after)
    ensures Runs(op, before) && NoRunRace(op, before)
    ensures Runs(After(op, before), after) && NoRunRace(After(op, before), after)
    ensures After(op, before + after) == After(After(op, before), after)
    decreases |before|
  {
    if before == [] {
      assert before + after == after;
    } else {
      assert (before + after)[0] == before[0] && (before + after)[1..] == before[1..] + after;
      RaceFreeSuffix(Apply(op, before[0]), before[1..], after);
    }
  }

  /** With racing Runs a successful operation can be running again. */
  lemma RacingRunsUndoSuccess() returns (steps: seq<Step>, more: seq<Step>)
    ensures var op := Create(Task, "", "", Hooks(true, false, false), NoCanceler);
            && Runs(op, steps) && After(op, steps).status == Success
            && Runs(op, more) && |more| > |steps| && more[..|steps|] == steps && After(op, more).status == Running
  {
    var op := Create(Task, "", "", Hooks(true, false, false), NoCanceler);
    steps := Extend(op, [], RunCheck);
    steps := Extend(op, steps, RunCheck);
    steps := Extend(op, steps, RunStart);
    steps := Extend(op, steps, RunReturns(true));
    more := steps + [RunStart];
    RunsAppend(op, steps, RunStart);
  }

  // ----- when a final status is final ------------------------------------------------------------------------------

  /**
   No thread is left that would write another status: no Run past its check or hook running, no Cancel past its
   checks, no cancel hook but one that can only say Cancelled again, and no Cancel about to say so.
   */
  predicate Settled(op: Op) {
    && op.runChecked == 0 && op.running == 0 && op.cancelChecked == 0
    && (forall old' :: old' in op.cancelling ==> old'.Cancelled? && op.status.Cancelled?)
    && (op.cancelTail == 0 || op.status.Cancelled? || op.canceler == Canceler(false) ||
        (op.hooks.onCancel && op.finishing == 0 && op.doneChecked == 0))
  }

  lemma SettledCancelReturns(op: Op, ok: bool, was: Status)
    requires Settled(op) && IsFinal(op.status) && op.cancelling[was] > 0
    ensures Settled(Apply(op, CancelReturns(ok, was))) && Apply(op, CancelReturns(ok, was)).status == op.status
  {
    assert was in op.cancelling;
  }

  lemma SettledCancelTail(op: Op)
    requires Settled(op) && IsFinal(op.status) && op.cancelTail > 0
    ensures Settled(Apply(op, CancelTail)) && Apply(op, CancelTail).status == op.status
  {
  }

  lemma SettledDone(op: Op, step: Step)
    requires Settled(op) && IsFinal(op.status) && Enabled(op, step)
    requires step.DoneAtOnce? || step.DoneCheck? || step.DoneClose?
    ensures Settled(Apply(op, step)) && Apply(op, step).status == op.status
  {
  }

  lemma SettledStep(op: Op, step: Step)
    requires Settled(op) && IsFinal(op.status) && Enabled(op, step)
    ensures Settled(Apply(op, step)) && Apply(op, step).status == op.status
  {
    if step.CancelReturns? {
      SettledCancelReturns(op, step.ok, step.oldStatus);
    } else if step.CancelTail? {
      SettledCancelTail(op);
    } else if step.DoneAtOnce? || step.DoneCheck? || step.DoneClose? {
      SettledDone(op, step);
    } else {
      assert step.UpdateCheck? || step.UpdateWrite?;
    }
  }

  lemma {:induction false} SettledStays(op: Op, steps: seq<Step>)
    requires Settled(op) && IsFinal(op.status) && Runs(op, steps)
    ensures After(op, steps).status == op.status
    decreases |steps|
  {
    if steps != [] {
      SettledStep(op, steps[0]);
      SettledStays(Apply(op, steps[0]), steps[1..]);
    }
  }

  /** From any other final status some run leads away. */
  lemma UnsettledMoves(op: Op) returns (steps: seq<Step>)
    requires Inv(op) && !Settled(op) && IsFinal(op.status)
    ensures Runs(op, steps) && After(op, steps).status != op.status
  {
    if op.runChecked > 0 {
      steps := Extend(op, [], RunStart);
    } else if op.running > 0 {
      steps := Extend(op, [], RunReturns(!op.status.Success?));
    } else if op.cancelChecked > 0 {
      steps := Extend(op, [], CancelStart);
    } else if old' :| old' in op.cancelling && !(old'.Cancelled? && op.status.Cancelled?) {
      steps := Extend(op, [], CancelReturns(!op.status.Cancelled?, old'));
    } else if !op.hooks.onCancel {
      steps := Extend(op, [], CancelTail);
    } else {
      steps := HookDropped(op);
    }
  }

  /** A completion on its way to done takes the cancel hook away from a Cancel, which then speaks for itself. */
  lemma HookDropped(op: Op) returns (steps: seq<Step>)
    requires IsFinal(op.status) && !op.status.Cancelled? && op.hooks.onCancel && op.cancelTail > 0
    requires op.canceler != Canceler(false) && (op.finishing > 0 || op.doneChecked > 0) && !op.readonly
    ensures Runs(op, steps) && After(op, steps).status != op.status
  {
    steps := Extend(op, [], if op.doneChecked > 0 then DoneClose else DoneAtOnce);
    steps := Extend(op, steps, CancelTail);
  }

  /** A final status stays, whatever follows, exactly when no thread is left that would write another one. */
  lemma FinalForGoodIff(op: Op)
    requires Inv(op) && IsFinal(op.status)
    ensures Settled(op) <==> forall steps :: Runs(op, steps) ==> After(op, steps).status == op.status
  {
    if Settled(op) {
      forall steps | Runs(op, steps)
        ensures After(op, steps).status == op.status
      {
        SettledStays(op, steps);
      }
    } else {
      var steps := UnsettledMoves(op);
    }
  }

  /** For an operation that cannot be cancelled: exactly when no Run is past its check and no hook is running. */
  lemma PlainFinalForGoodIff(op: Op)
    requires Plain(op) && Inv(op) && op.cancelChecked == 0 && op.cancelling == multiset{} && op.cancelTail == 0
    requires IsFinal(op.status)
    ensures op.runChecked == 0 && op.running == 0
            <==> forall steps :: Runs(op, steps) ==> After(op, steps).status == op.status
  {
    FinalForGoodIff(op);
  }
}
