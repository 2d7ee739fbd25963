/**
 API operations: pending, running and then final, with hooks, resources and metadata that freeze when the operation
 is done. Run, Cancel and the updates check the status before they take the operation's lock, and completions set the
 status before they call done, so each of these pieces is a step of its own.
 */
module ApiOperations {
  import opened Prelude

  datatype Class = Task | Websocket | Token

  datatype Status = Pending | Running | Cancelling | Success | Failure | Cancelled

  predicate IsFinal(s: Status) {
    s.Success? || s.Failure? || s.Cancelled?
  }

  lemma FinalIff(s: Status)
    ensures IsFinal(s) <==> s != Pending && s != Running && s != Cancelling
  {
  }

  /** The canceler of a download: absent, or present and able to cancel or not. */
  datatype Canceler = NoCanceler | Canceler(cancelable: bool)

  datatype Update = Resources(resources: string) | Metadata(metadata: string)

  datatype Hooks = Hooks(onRun: bool, onCancel: bool, onConnect: bool)

  /** The operation, and how many threads are between two of the pieces. */
  datatype Op = Op(
    kind: Class,
    status: Status,
    resources: string,
    metadata: string,
    readonly: bool,
    closes: nat,                      // how often chanDone was closed
    hooks: Hooks,
    canceler: Canceler,
    runChecked: nat,                  // Run: status checked, lock not yet taken
    running: nat,                     // goroutines executing onRun
    cancelChecked: nat,               // Cancel: checks passed, lock not yet taken
    cancelling: multiset<Status>,     // goroutines executing onCancel, with the status they may restore
    cancelTail: nat,                  // Cancel: before the canceler
    finishing: nat,                   // completions that have set the status and are about to call done
    doneChecked: nat,                 // done: readonly checked, lock not yet taken
    updates: multiset<Update>         // updates: checks passed, lock not yet taken
  )

  function Create(kind: Class, resources: string, metadata: string, hooks: Hooks, canceler: Canceler): Op {
    Op(kind, Pending, resources, metadata, false, 0, hooks, canceler, 0, 0, 0, multiset{}, 0, 0, 0, multiset{})
  }

  predicate MayCancel(op: Op) {
    op.kind.Token? || op.hooks.onCancel || (op.canceler.Canceler? && op.canceler.cancelable)
  }

  datatype Step =
    | RunCheck
    | RunStart
    | RunReturns(ok: bool)
    | CancelCheck
    | CancelStart
    | CancelReturns(ok: bool, oldStatus: Status)
    | CancelTail
    | UpdateCheck(update: Update)
    | UpdateWrite(update: Update)
    | DoneAtOnce                      // done by one completion, without interference
    | DoneCheck                       // the same in two pieces
    | DoneClose

  predicate Enabled(op: Op, step: Step) {
    match step
    case RunCheck => op.status.Pending?
    case RunStart => op.runChecked > 0
    case RunReturns(ok) => op.running > 0
    case CancelCheck => op.status.Running? && MayCancel(op)
    case CancelStart => op.cancelChecked > 0
    case CancelReturns(ok, oldStatus) => op.cancelling[oldStatus] > 0
    case CancelTail => op.cancelTail > 0
    case UpdateCheck(update) => (op.status.Pending? || op.status.Running?) && !op.readonly
    case UpdateWrite(update) => op.updates[update] > 0
    case DoneAtOnce => op.finishing > 0
    case DoneCheck => op.finishing > 0
    case DoneClose => op.doneChecked > 0
  }

  /** The locked block of done. */
  function Close(op: Op): Op {
    op.(readonly := true, hooks := Hooks(false, false, false), closes := op.closes + 1)
  }

  function Write(op: Op, update: Update): Op {
    match update
    case Resources(r) => op.(resources := r)
    case Metadata(m) => op.(metadata := m)
  }

  function Apply(op: Op, step: Step): Op
    requires Enabled(op, step)
  {
    match step
    case RunCheck => op.(runChecked := op.runChecked + 1)
    case RunStart =>
      op.(runChecked := op.runChecked - 1, status := Running,
          running := if op.hooks.onRun then op.running + 1 else op.running)
    case RunReturns(ok) =>
      op.(running := op.running - 1, status := if ok then Success else Failure, finishing := op.finishing + 1)
    case CancelCheck => op.(cancelChecked := op.cancelChecked + 1)
    case CancelStart =>
      op.(cancelChecked := op.cancelChecked - 1, status := Cancelling, cancelTail := op.cancelTail + 1,
          cancelling := if op.hooks.onCancel then op.cancelling + multiset{op.status} else op.cancelling)
    case CancelReturns(ok, oldStatus) =>
      if ok then
        op.(cancelling := op.cancelling - multiset{oldStatus}, status := Cancelled, finishing := op.finishing + 1)
      else op.(cancelling := op.cancelling - multiset{oldStatus}, status := oldStatus)
    case CancelTail =>
      var tail := op.(cancelTail := op.cancelTail - 1);
      if op.canceler == Canceler(false) then tail
      else
        var cancelled := if op.canceler.Canceler? then tail.(canceler := Canceler(false)) else tail;
        if op.hooks.onCancel then cancelled
        else cancelled.(status := Cancelled, finishing := op.finishing + 1)
    case UpdateCheck(update) => op.(updates := op.updates + multiset{update})
    case UpdateWrite(update) => Write(op, update).(updates := op.updates - multiset{update})
    case DoneAtOnce =>
      var done := op.(finishing := op.finishing - 1);
      if op.readonly then done else Close(done)
    case DoneCheck =>
      op.(finishing := op.finishing - 1, doneChecked := if op.readonly then op.doneChecked else op.doneChecked + 1)
    case DoneClose => Close(op.(doneChecked := op.doneChecked - 1))
  }

  ghost predicate Runs(op: Op, steps: seq<Step>)
    decreases |steps|
  {
    steps == [] || (Enabled(op, steps[0]) && Runs(Apply(op, steps[0]), steps[1..]))
  }

  ghost function After(op: Op, steps: seq<Step>): Op
    requires Runs(op, steps)
    decreases |steps|
  {
    if steps == [] then op else After(Apply(op, steps[0]), steps[1..])
  }

  // ----- closed once -----------------------------------------------------------------------------------------------

  /** The channel is closed exactly when the operation is read-only, once, and then no hook is left. */
  predicate Inv(op: Op) {
    && op.closes <= 1
    && (op.closes == 1 <==> op.readonly)
    && (op.readonly ==> op.hooks == Hooks(false, false, false))
  }

  /** done runs without interference between its check and its lock. */
  predicate DoneIsAtomic(steps: seq<Step>) {
    forall i :: 0 <= i < |steps| ==> !steps[i].DoneCheck? && !steps[i].DoneClose?
  }

  /** A step breaks the invariant exactly when done takes its lock after another done. */
  lemma BrokenIff(op: Op, step: Step)
    requires Inv(op) && Enabled(op, step)
    ensures Inv(Apply(op, step)) <==> !(step.DoneClose? && op.readonly)
  {
  }

  /**
   In every interleaving of Run, run completion, Cancel, cancel completion and updates, with done as one step, the
   channel is closed at most once, exactly when the operation is read-only, and the hooks are gone from then on.
   */
  lemma {:induction false} ClosedOnce(op: Op, steps: seq<Step>)
    requires Inv(op) && Runs(op, steps) && DoneIsAtomic(steps)
    ensures Inv(After(op, steps))
    ensures op.readonly ==> After(op, steps).readonly
    decreases |steps|
  {
    if steps != [] {
      BrokenIff(op, steps[0]);
      assert DoneIsAtomic(steps[1..]) by {
        assert forall i :: 0 <= i < |steps| - 1 ==> steps[1..][i] == steps[i + 1];
      }
      ClosedOnce(Apply(op, steps[0]), steps[1..]);
    }
  }

  lemma {:induction false} RunsAppend(op: Op, steps: seq<Step>, last: Step)
    requires Runs(op, steps) && Enabled(After(op, steps), last)
    ensures Runs(op, steps + [last]) && After(op, steps + [last]) == Apply(After(op, steps), last)
    decreases |steps|
  {
    if steps == [] {
      assert [last][1..] == [];
      assert [] + [last] == [last];
    } else {
      assert (steps + [last])[0] == steps[0] && (steps + [last])[1..] == steps[1..] + [last];
      RunsAppend(Apply(op, steps[0]), steps[1..], last);
    }
  }

  lemma Extend(op: Op, steps: seq<Step>, last: Step) returns (more: seq<Step>)
    requires Runs(op, steps) && Enabled(After(op, steps), last)
    ensures Runs(op, more) && After(op, more) == Apply(After(op, steps), last)
  {
    more := steps + [last];
    RunsAppend(op, steps, last);
  }

  /** A download: a task with a canceler and no cancel hook. */
  function Download(): Op {
    Create(Task, "", "", Hooks(true, false, false), Canceler(true))
  }

  /** A download that runs and has been asked to cancel. */
  lemma CancelledDownload() returns (steps: seq<Step>)
    ensures Runs(Download(), steps)
    ensures After(Download(), steps)
         == Download().(status := Cancelled, canceler := Canceler(false), running := 1, finishing := 1)
  {
    steps := Extend(Download(), [], RunCheck);
    steps := Extend(Download(), steps, RunStart);
    steps := Extend(Download(), steps, CancelCheck);
    steps := Extend(Download(), steps, CancelStart);
    steps := Extend(Download(), steps, CancelTail);
  }

  /** The same when the download has failed for that, and both callers of done are past its unlocked check. */
  lemma BothCompletionsChecked() returns (steps: seq<Step>)
    ensures Runs(Download(), steps)
    ensures After(Download(), steps) == Download().(status := Failure, canceler := Canceler(false), doneChecked := 2)
  {
    steps := CancelledDownload();
    steps := Extend(Download(), steps, RunReturns(false));
    steps := Extend(Download(), steps, DoneCheck);
    steps := Extend(Download(), steps, DoneCheck);
  }

  /** In two pieces done can close the channel of a cancelled download twice, which panics. */
  lemma SplitDoneClosesTwice() returns (steps: seq<Step>)
    ensures Runs(Download(), steps) && After(Download(), steps).closes == 2
  {
    steps := BothCompletionsChecked();
    steps := Extend(Download(), steps, DoneClose);
    steps := Extend(Download(), steps, DoneClose);
  }

  // ----- frozen afterwards -----------------------------------------------------------------------------------------

  /** No update past its checks would change anything. */
  predicate NoneWaiting(op: Op) {
    forall update :: update in op.updates ==> Write(op, update) == op
  }

  lemma {:induction false} FrozenWhenNoneWaiting(op: Op, steps: seq<Step>)
    requires op.readonly && NoneWaiting(op) && Runs(op, steps)
    ensures After(op, steps).resources == op.resources && After(op, steps).metadata == op.metadata
    decreases |steps|
  {
    if steps != [] {
      var next := Apply(op, steps[0]);
      assert next.resources == op.resources && next.metadata == op.metadata;
      forall update | update in next.updates
        ensures Write(next, update) == next
      {
        assert update in op.updates;
        assert Write(op, update) == op;
      }
      FrozenWhenNoneWaiting(next, steps[1..]);
    }
  }

  /**
   Resources and metadata of a done operation are frozen, whatever follows, exactly when no update that would change
   them passed its checks before the operation was done.
   */
  lemma FrozenIff(op: Op)
    requires op.readonly
    ensures NoneWaiting(op) <==>
            (forall steps :: Runs(op, steps) ==>
               After(op, steps).resources == op.resources && After(op, steps).metadata == op.metadata)
  {
    if NoneWaiting(op) {
      forall steps | Runs(op, steps)
        ensures After(op, steps).resources == op.resources && After(op, steps).metadata == op.metadata
      {
        FrozenWhenNoneWaiting(op, steps);
      }
    } else {
      var update :| update in op.updates && Write(op, update) != op;
      var steps := Extend(op, [], UpdateWrite(update));
      assert After(op, steps).resources != op.resources || After(op, steps).metadata != op.metadata;
    }
  }

  // ----- the operation ---------------------------------------------------------------------------------------------

  datatype Error = WebsocketNeedsConnect | ConnectNeedsWebsocket | TokenCannotRun | TokenCannotCancel | NotPending
                 | NotRunning | NotCancelable | CancelerFailed | NotUpdatable | ReadOnly | BadMetadata

  /** operationCreate's sanity check of the hooks. */
  function HookError(kind: Class, hooks: Hooks): Option<Error> {
    if !kind.Websocket? && hooks.onConnect then Some(ConnectNeedsWebsocket)
    else if kind.Websocket? && !hooks.onConnect then Some(WebsocketNeedsConnect)
    else if kind.Token? && hooks.onRun then Some(TokenCannotRun)
    else if kind.Token? && hooks.onCancel then Some(TokenCannotCancel)
    else None
  }

  /** The hooks an operation of each kind may have; a connect hook on another than a websocket is reported first. */
  lemma HookErrorIs(kind: Class, hooks: Hooks)
    ensures HookError(kind, hooks) == None <==>
            (hooks.onConnect <==> kind == Websocket) && (kind == Token ==> !hooks.onRun && !hooks.onCancel)
    ensures HookError(kind, hooks) == Some(ConnectNeedsWebsocket) <==> kind != Websocket && hooks.onConnect
    ensures HookError(kind, hooks) == Some(WebsocketNeedsConnect) <==> kind == Websocket && !hooks.onConnect
    ensures HookError(kind, hooks) == Some(TokenCannotRun) <==> kind == Token && !hooks.onConnect && hooks.onRun
    ensures HookError(kind, hooks) == Some(TokenCannotCancel) <==>
            kind == Token && !hooks.onConnect && !hooks.onRun && hooks.onCancel
  {
  }

  /**
   What each completion makes of the status: a run hook's success or failure; a cancel hook's success, and on its failure
   the status of before; and a Cancel without a hook, unless its canceler refuses.
   */
  lemma CompletionsSetStatus(op: Op, ok: bool, was: Status)
    ensures op.running > 0 ==> Apply(op, RunReturns(ok)).status == if ok then Success else Failure
    ensures op.cancelling[was] > 0 ==> Apply(op, CancelReturns(ok, was)).status == if ok then Cancelled else was
    ensures op.cancelTail > 0 ==>
              Apply(op, CancelTail).status == if op.canceler == Canceler(false) || op.hooks.onCancel then op.status else Cancelled
    ensures op.cancelChecked > 0 ==> Apply(op, CancelStart).status == Cancelling
    ensures op.runChecked > 0 ==> Apply(op, RunStart).status == Running
  {
  }

  /** Which calls pass their checks. */
  lemma ChecksPassIff(op: Op, update: Update)
    ensures Enabled(op, RunCheck) <==> op.status == Pending
    ensures Enabled(op, CancelCheck) <==>
            op.status == Running && (op.kind == Token || op.hooks.onCancel || op.canceler == Canceler(true))
    ensures Enabled(op, UpdateCheck(update)) <==> (op.status == Pending || op.status == Running) && !op.readonly
  {
  }

  /** Cancel, past its checks, without interference. */
  function CancelAtOnce(op: Op): Op {
    var started := op.(status := Cancelling,
                       cancelling := if op.hooks.onCancel then op.cancelling + multiset{op.status} else op.cancelling);
    if op.canceler == Canceler(false) then started
    else
      var asked := started.(canceler := if op.canceler.Canceler? then Canceler(false) else op.canceler);
      if op.hooks.onCancel then asked
      else
        var cancelled := asked.(status := Cancelled);
        if op.readonly then cancelled else Close(cancelled)
  }

  /** That is its steps one after the other, with done at the end when there is no hook to wait for. */
  lemma CancelAtOnceIsSteps(op: Op)
    requires op.status.Running? && MayCancel(op) && op.cancelTail == 0 && op.finishing == 0
    ensures var tail := Apply(Apply(Apply(op, CancelCheck), CancelStart), CancelTail);
            CancelAtOnce(op) == if tail.finishing > 0 then Apply(tail, DoneAtOnce) else tail
  {
    var started := Apply(Apply(op, CancelCheck), CancelStart);
    assert started.cancelTail == 1 && started.hooks == op.hooks && started.canceler == op.canceler;
  }

  class Operation {
    const kind: Class
    var status: Status
    var resources: string
    var metadata: string
    var readonly: bool
    var hooks: Hooks
    var canceler: Canceler
    var running: nat
    var cancelling: multiset<Status>
    ghost var closes: nat

    /** The operation with no thread between two pieces of a call. */
    function State(): Op
      reads this
    {
      Op(kind, status, resources, metadata, readonly, if readonly then 1 else 0, hooks, canceler, 0, running, 0,
         cancelling, 0, 0, 0, multiset{})
    }

    /** chanDone is closed exactly when the operation is read-only, and then the hooks are gone. */
    ghost predicate Valid()
      reads this
    {
      Inv(State()) && closes == State().closes && HookError(kind, hooks) in {None, Some(WebsocketNeedsConnect)}
    }

    constructor (kind: Class, resources: string, metadata: string, hooks: Hooks, canceler: Canceler)
      requires HookError(kind, hooks).None?
      ensures Valid() && State() == Create(kind, resources, metadata, hooks, canceler)
      ensures status == Pending && !readonly && running == 0
    {
      this.kind, this.resources, this.metadata, this.hooks, this.canceler := kind, resources, metadata, hooks, canceler;
      status, readonly, running, cancelling, closes := Pending, false, 0, multiset{}, 0;
    }

    /** done: nothing on a read-only operation, else close the channel and drop the hooks. */
    method Done()
      requires Valid()
      modifies this
      ensures Valid() && readonly
      ensures State() == if old(readonly) then old(State()) else Close(old(State()))
      ensures !hooks.onRun && !hooks.onCancel && !hooks.onConnect
      ensures status == old(status) && resources == old(resources) && metadata == old(metadata) && canceler == old(canceler)
    {
      if readonly {
        return;
      }
      readonly := true;
      hooks := Hooks(false, false, false);
      closes := closes + 1;
    }

    method Run() returns (error: Option<Error>)
      requires Valid()
      modifies this
      ensures Valid()
      ensures error == if old(status).Pending? then None else Some(NotPending)
      ensures error.None? ==> State() == Apply(Apply(old(State()), RunCheck), RunStart)
      ensures error.None? ==> status == Running && running == old(running) + (if old(hooks).onRun then 1 else 0)
      ensures error.Some? ==> State() == old(State())
    {
      if !status.Pending? {
        return Some(NotPending);
      }
      status := Running;
      if hooks.onRun {
        running := running + 1;
      }
      return None;
    }

    /** The goroutine Run started, when its hook returns. */
    method HookReturns(ok: bool)
      requires Valid() && running > 0
      modifies this
      ensures Valid() && readonly
      ensures State() == Apply(Apply(old(State()), RunReturns(ok)), DoneAtOnce)
      ensures status == (if ok then Success else Failure) && running == old(running) - 1
    {
      running := running - 1;
      status := if ok then Success else Failure;
      Done();
    }

    method Cancel() returns (error: Option<Error>)
      requires Valid()
      modifies this
      ensures Valid()
      ensures error.Some? && error.value.NotRunning? <==> !old(status).Running?
      ensures error.Some? && error.value.NotCancelable? <==> old(status).Running? && !MayCancel(old(State()))
      ensures !old(status).Running? || !MayCancel(old(State())) ==> State() == old(State())
      ensures old(status).Running? && MayCancel(old(State())) ==>
                && (error == if old(canceler) == Canceler(false) then Some(CancelerFailed) else None)
                && State() == CancelAtOnce(old(State()))
      ensures error == Some(NotRunning) <==> old(status) != Running
      ensures error == Some(NotCancelable) <==> old(status) == Running && kind != Token && !old(hooks).onCancel
                                                && old(canceler) != Canceler(true)
      ensures error == Some(CancelerFailed) <==> old(status) == Running && (kind == Token || old(hooks).onCancel)
                                                 && old(canceler) == Canceler(false)
      ensures error.None? && !old(hooks).onCancel ==> status == Cancelled && readonly
      ensures error.None? && old(hooks).onCancel ==> status == Cancelling && readonly == old(readonly)
      ensures error == Some(CancelerFailed) ==> status == Cancelling && readonly == old(readonly)
    {
      if !status.Running? {
        return Some(NotRunning);
      }
      if !(kind.Token? || hooks.onCancel || (canceler.Canceler? && canceler.cancelable)) {
        return Some(NotCancelable);
      }
      var oldStatus := status;
      status := Cancelling;
      if hooks.onCancel {
        cancelling := cancelling + multiset{oldStatus};
      }
      if canceler.Canceler? {
        if !canceler.cancelable {
          return Some(CancelerFailed);
        }
        canceler := Canceler(false);
      }
      if !hooks.onCancel {
        status := Cancelled;
        Done();
      }
      return None;
    }

    method UpdateResources(opResources: string) returns (error: Option<Error>)
      requires Valid()
      modifies this
      ensures Valid()
      ensures error.None? <==> (old(status).Pending? || old(status).Running?) && !old(readonly)
      ensures error.None? ==> State() == Write(old(State()), Resources(opResources))
      ensures error.None? ==> resources == opResources && metadata == old(metadata) && status == old(status)
      ensures error == Some(NotUpdatable) <==> old(status) != Pending && old(status) != Running
      ensures error.Some? ==> State() == old(State())
    {
      if !status.Pending? && !status.Running? {
        return Some(NotUpdatable);
      }
      if readonly {
        return Some(ReadOnly);
      }
      resources := opResources;
      return None;
    }

    /** The parsed form is None when the metadata cannot be read. */
    method UpdateMetadata(parsed: Option<string>) returns (error: Option<Error>)
      requires Valid()
      modifies this
      ensures Valid()
      ensures error.None? <==> (old(status).Pending? || old(status).Running?) && !old(readonly) && parsed.Some?
      ensures error == Some(BadMetadata) <==> (old(status).Pending? || old(status).Running?) && !old(readonly) && parsed.None?
      ensures error.None? ==> State() == Write(old(State()), Metadata(parsed.value))
      ensures error.None? ==> metadata == parsed.value && resources == old(resources) && status == old(status)
      ensures error == Some(NotUpdatable) <==> old(status) != Pending && old(status) != Running
      ensures error.Some? ==> State() == old(State())
    {
      if !status.Pending? && !status.Running? {
        return Some(NotUpdatable);
      }
      if readonly {
        return Some(ReadOnly);
      }
      if parsed.None? {
        return Some(BadMetadata);
      }
      metadata := parsed.value;
      return None;
    }
  }
}
