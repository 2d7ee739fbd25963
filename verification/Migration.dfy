/**
 The migration protocol with the CRIU action script: the source's Do, the sink's Do with its goroutines, CRIU with
 its script, and the control websocket between them, as interleaved steps. Every send may be lost, every receive,
 transfer and external command may fail, and a step may be delayed for ever.
 */
module Migration {
  import opened Prelude

  /** What travels on the control websocket: a header says whether its sender wants CRIU images. */
  datatype Message = Header(criu: bool) | Control(success: bool)

  datatype Source =
    | SendHeader
    | AwaitHeader
    | SendRunning              // transfer what can be sent while the container runs
    | StartDump
    | AwaitDump                // select on dumpSuccess and dumpDone
    | SendImages
    | SendFinal                // SendAfterCheckpoint
    | AwaitResult
    | AwaitDumpEnd(result: bool)
    | Aborted
    | Finished(success: bool)

  /** CRIU dumping the source container; Frozen and Waiting are its post-dump script. */
  datatype Dump = NotStarted | Dumping | Frozen | Waiting | Ended(killed: bool)

  /** The operation the script waits for. */
  datatype ActionOp = Absent | Pending | Succeeded | Failed

  datatype Sink = Connecting | AwaitSourceHeader | Reply | Select | Returned

  /** The sink's restore goroutine. */
  datatype Restorer = Idle | ReceiveImages | AwaitFs | Restoring | Report(ok: bool) | Stopped

  /** The sink's filesystem goroutine. */
  datatype FsReceiver = NoTransfer | Transferring | Transferred(ok: bool) | Handed

  /** The sink's control channel reader: it reads one message. */
  datatype Reader = NotReading | Reading | Got(success: bool) | Closed | Consumed

  datatype SourceSide = SourceSide(
    pc: Source,
    dump: Dump,
    op: ActionOp,
    dumpDone: bool,                  // channel: the script has connected
    dumpSuccess: Option<bool>,       // channel: CRIU's exit, true for no error
    restoreSuccess: Option<bool>,    // channel: the sink's verdict, for the script's operation
    headerCriu: bool,                // the sink's header asked for CRIU images
    runningSent: bool,
    imagesSent: bool,
    scriptBroke: bool                // CRIU or its script failed on its own after the dump
  )

  datatype SinkSide = SinkSide(
    pc: Sink,
    restorer: Restorer,
    fs: FsReceiver,
    reader: Reader,
    restored: bool,                  // CRIU's restore returned success: the sink's copy runs
    verdict: Option<bool>            // the control message the sink sent, if any
  )

  datatype State = State(
    sourceLive: bool,
    sinkLive: bool,
    src: SourceSide,
    snk: SinkSide,
    toSink: seq<Message>,
    toSource: seq<Message>
  )

  function Init(sourceLive: bool, sinkLive: bool): State {
    State(sourceLive, sinkLive,
          SourceSide(SendHeader, NotStarted, Absent, false, None, None, false, false, false, false),
          SinkSide(Connecting, Idle, NoTransfer, NotReading, false, None), [], [])
  }

  /** Steps of the source's Do; ok says whether the operation the step stands for succeeds. */
  datatype SourceStep =
    | SourceSendHeader(ok: bool)
    | SourceStorageFails             // no storage driver: the header is sent all the same, then the error
    | SourceReceiveHeader(ok: bool)
    | SourceSendRunning(ok: bool)
    | SourceStartDump(ok: bool)
    | SourceSeesDumpDone
    | SourceSeesDumpSuccess
    | SourceSendImages(ok: bool)
    | SourceSendFinal(ok: bool)
    | SourceReceiveResult(ok: bool)
    | SourceSeesDumpEnd

  /** Steps of CRIU, its post-dump script and the operation the script waits for. */
  datatype CriuStep = DumpFails | DumpReachesScript | ScriptConnects | ScriptExits | ScriptBreaks | OperationDecides

  /** Steps of the sink's Do and its goroutines. */
  datatype SinkStep =
    | SinkConnect(ok: bool)
    | SinkReceiveHeader(ok: bool)
    | SinkReply(ok: bool)
    | RestorerReceivesImages(ok: bool)
    | RestorerSeesFs
    | RestorerRestores(ok: bool)
    | FsReceives(ok: bool)
    | ReaderReads(ok: bool)
    | SinkSeesRestore
    | SinkSeesSource

  datatype Step = OfSource(a: SourceStep) | OfCriu(b: CriuStep) | OfSink(c: SinkStep) | LoseToSink | LoseToSource

  predicate SourceEnabled(s: State, step: SourceStep) {
    match step
    case SourceSendHeader(ok) => s.src.pc.SendHeader?
    case SourceStorageFails => s.src.pc.SendHeader?
    case SourceReceiveHeader(ok) => s.src.pc.AwaitHeader? && (ok ==> s.toSource != [])
    case SourceSendRunning(ok) => s.src.pc.SendRunning?
    case SourceStartDump(ok) => s.src.pc.StartDump?
    case SourceSeesDumpDone => s.src.pc.AwaitDump? && s.src.dumpDone
    case SourceSeesDumpSuccess => s.src.pc.AwaitDump? && s.src.dumpSuccess.Some?
    case SourceSendImages(ok) => s.src.pc.SendImages?
    case SourceSendFinal(ok) => s.src.pc.SendFinal?
    case SourceReceiveResult(ok) => s.src.pc.AwaitResult? && (ok ==> s.toSource != [])
    case SourceSeesDumpEnd => s.src.pc.AwaitDumpEnd? && s.src.dumpSuccess.Some?
  }

  predicate CriuEnabled(s: State, step: CriuStep) {
    match step
    case DumpFails => s.src.dump.Dumping?
    case DumpReachesScript => s.src.dump.Dumping?
    case ScriptConnects => s.src.dump.Frozen?
    case ScriptExits => s.src.dump.Waiting? && (s.src.op.Succeeded? || s.src.op.Failed?)
    case ScriptBreaks => s.src.dump.Frozen? || s.src.dump.Waiting?
    case OperationDecides => s.src.op.Pending? && s.src.restoreSuccess.Some?
  }

  predicate SinkEnabled(s: State, step: SinkStep) {
    match step
    case SinkConnect(ok) => s.snk.pc.Connecting?
    case SinkReceiveHeader(ok) => s.snk.pc.AwaitSourceHeader? && (ok ==> s.toSink != [])
    case SinkReply(ok) => s.snk.pc.Reply?
    case RestorerReceivesImages(ok) => s.snk.restorer.ReceiveImages? && (ok ==> s.src.imagesSent)
    case RestorerSeesFs => s.snk.restorer.AwaitFs? && s.snk.fs.Transferred?
    case RestorerRestores(ok) => s.snk.restorer.Restoring?
    case FsReceives(ok) => s.snk.fs.Transferring? && (ok ==> s.src.runningSent)
    case ReaderReads(ok) => s.snk.reader.Reading? && (ok ==> s.toSink != [])
    case SinkSeesRestore => s.snk.pc.Select? && s.snk.restorer.Report?
    case SinkSeesSource => s.snk.pc.Select? && (s.snk.reader.Got? || s.snk.reader.Closed?)
  }

  predicate Enabled(s: State, step: Step) {
    match step
    case OfSource(a) => SourceEnabled(s, a)
    case OfCriu(b) => CriuEnabled(s, b)
    case OfSink(c) => SinkEnabled(s, c)
    case LoseToSink => s.toSink != []
    case LoseToSource => s.toSource != []
  }

  /** The source's own state after a step; `head` is the message received, if the step receives one. */
  function NextSource(live: bool, src: SourceSide, head: Message, step: SourceStep): SourceSide {
    match step
    case SourceSendHeader(ok) => src.(pc := if ok then AwaitHeader else Aborted)
    case SourceStorageFails => src.(pc := Aborted)
    case SourceReceiveHeader(ok) =>
      if ok && head.Header? then src.(pc := SendRunning, headerCriu := head.criu) else src.(pc := Aborted)
    case SourceSendRunning(ok) =>
      if !ok then src.(pc := Aborted)
      else if !live then src.(runningSent := true, pc := AwaitResult)
      else if !src.headerCriu then src.(runningSent := true, pc := Aborted)
      else src.(runningSent := true, pc := StartDump)
    case SourceStartDump(ok) =>
      if ok then src.(pc := AwaitDump, dump := Dumping, op := Pending) else src.(pc := Aborted)
    case SourceSeesDumpDone => src.(pc := SendImages, dumpDone := false)
    case SourceSeesDumpSuccess =>
      src.(pc := if src.dumpSuccess == Some(true) then Finished(true) else Aborted, dumpSuccess := None)
    case SourceSendImages(ok) => if ok then src.(pc := SendFinal, imagesSent := true) else src.(pc := Aborted)
    case SourceSendFinal(ok) => src.(pc := if ok then AwaitResult else Aborted)
    case SourceReceiveResult(ok) =>
      if !ok || head.Header? then src.(pc := Aborted)
      else if live then src.(pc := AwaitDumpEnd(head.success), restoreSuccess := Some(head.success))
      else src.(pc := Finished(head.success))
    case SourceSeesDumpEnd =>
      if src.pc.AwaitDumpEnd? then src.(pc := Finished(src.pc.result), dumpSuccess := None) else src
  }

  /** abort and the other error paths before the result tell the sink, losing the result does not. */
  function SourceSends(live: bool, src: SourceSide, next: SourceSide, step: SourceStep): seq<Message> {
    if step == SourceSendHeader(true) then [Header(live)]
    else if step.SourceStorageFails? then [Header(live), Control(false)]
    else if step.SourceSeesDumpSuccess? then [Control(src.dumpSuccess == Some(true))]
    else if next.pc.Aborted? && !step.SourceReceiveResult? then [Control(false)]
    else []
  }

  function ApplySource(s: State, step: SourceStep): State
    requires SourceEnabled(s, step)
  {
    var receives := step == SourceReceiveHeader(true) || step == SourceReceiveResult(true);
    var next := NextSource(s.sourceLive, s.src, if receives then s.toSource[0] else Control(false), step);
    s.(src := next,
       toSink := s.toSink + SourceSends(s.sourceLive, s.src, next, step),
       toSource := if receives then s.toSource[1..] else s.toSource)
  }

  function ApplyCriu(s: State, step: CriuStep): State
    requires CriuEnabled(s, step)
  {
    match step
    case DumpFails => s.(src := s.src.(dump := Ended(false), dumpSuccess := Some(false)))
    case DumpReachesScript => s.(src := s.src.(dump := Frozen))
    case ScriptConnects => s.(src := s.src.(dump := Waiting, dumpDone := true))
    case ScriptExits => s.(src := s.src.(dump := Ended(s.src.op.Succeeded?), dumpSuccess := Some(s.src.op.Succeeded?)))
    case ScriptBreaks => s.(src := s.src.(dump := Ended(false), dumpSuccess := Some(false), scriptBroke := true))
    case OperationDecides =>
      s.(src := s.src.(op := if s.src.restoreSuccess.value then Succeeded else Failed, restoreSuccess := None))
  }

  /** controller(err): the sink's one control message, after which it returns. */
  function Conclude(snk: SinkSide, ok: bool): SinkSide {
    snk.(pc := Returned, verdict := Some(ok))
  }

  /** The sink's own state after a step; `head` is the message received, if the step receives one. */
  function NextSink(live: bool, snk: SinkSide, head: Message, step: SinkStep): SinkSide {
    match step
    case SinkConnect(ok) => if ok then snk.(pc := AwaitSourceHeader) else Conclude(snk, false)
    case SinkReceiveHeader(ok) => if ok && head.Header? then snk.(pc := Reply) else Conclude(snk, false)
    case SinkReply(ok) =>
      if !ok then Conclude(snk, false)
      else snk.(pc := Select, restorer := if live then ReceiveImages else AwaitFs, fs := Transferring, reader := Reading)
    case RestorerReceivesImages(ok) => snk.(restorer := if ok then AwaitFs else Report(false))
    case RestorerSeesFs =>
      snk.(fs := Handed,
           restorer := if snk.fs != Transferred(true) then Report(false) else if live then Restoring else Report(true))
    case RestorerRestores(ok) => snk.(restorer := Report(ok), restored := ok)
    case FsReceives(ok) => snk.(fs := Transferred(ok))
    case ReaderReads(ok) => snk.(reader := if ok && head.Control? then Got(head.success) else Closed)
    case SinkSeesRestore => Conclude(snk.(restorer := Stopped), snk.restorer == Report(true))
    case SinkSeesSource =>
      if snk.reader == Got(true) then snk.(reader := Consumed) else snk.(pc := Returned, reader := Consumed)
  }

  function SinkSends(live: bool, snk: SinkSide, next: SinkSide, step: SinkStep): seq<Message> {
    if step == SinkReply(true) then [Header(live)]
    else if snk.verdict.None? && next.verdict.Some? then [Control(next.verdict.value)]
    else []
  }

  function ApplySink(s: State, step: SinkStep): State
    requires SinkEnabled(s, step)
  {
    var receives := step == SinkReceiveHeader(true) || step == ReaderReads(true);
    var next := NextSink(s.sinkLive, s.snk, if receives then s.toSink[0] else Control(false), step);
    s.(snk := next,
       toSource := s.toSource + SinkSends(s.sinkLive, s.snk, next, step),
       toSink := if receives then s.toSink[1..] else s.toSink)
  }

  function Apply(s: State, step: Step): State
    requires Enabled(s, step)
  {
    match step
    case OfSource(a) => ApplySource(s, a)
    case OfCriu(b) => ApplyCriu(s, b)
    case OfSink(c) => ApplySink(s, c)
    case LoseToSink => s.(toSink := s.toSink[1..])
    case LoseToSource => s.(toSource := s.toSource[1..])
  }

  predicate Runs(s: State, steps: seq<Step>)
    decreases |steps|
  {
    steps == [] || (Enabled(s, steps[0]) && Runs(Apply(s, steps[0]), steps[1..]))
  }

  function After(s: State, steps: seq<Step>): State
    requires Runs(s, steps)
    decreases |steps|
  {
    if steps == [] then s else After(Apply(s, steps[0]), steps[1..])
  }

  // ----- what every step keeps -------------------------------------------------------------------------------------

  /** The source is past the check of the sink's header. */
  predicate PastHeader(pc: Source) {
    pc.StartDump? || pc.AwaitDump? || pc.SendImages? || pc.SendFinal? || pc.AwaitDumpEnd?
  }

  /** Headers on their way to the source say what the sink is, control messages what it concluded. */
  predicate InFlight(toSource: seq<Message>, sinkLive: bool, verdict: Option<bool>) {
    forall i :: 0 <= i < |toSource| ==>
      match toSource[i]
      case Header(criu) => criu == sinkLive
      case Control(success) => verdict == Some(success)
  }

  /** Whatever the source and its script act on is what the sink concluded. */
  predicate VerdictsAgree(src: SourceSide, verdict: Option<bool>) {
    && (src.pc.AwaitDumpEnd? ==> verdict == Some(src.pc.result))
    && (src.pc.Finished? ==> verdict == Some(src.pc.success))
    && (src.restoreSuccess.Some? ==> verdict == src.restoreSuccess)
    && (src.op.Succeeded? ==> verdict == Some(true))
    && (src.op.Failed? ==> verdict == Some(false))
  }

  /** The dump follows the handshake, the images follow the dump, and the dump's end follows the verdict. */
  predicate DumpInOrder(sourceLive: bool, src: SourceSide) {
    && (PastHeader(src.pc) || !src.dump.NotStarted? ==> sourceLive && src.headerCriu)
    && (src.dump.NotStarted? ==> src.op.Absent? && !src.dumpDone && src.dumpSuccess.None?)
    && (src.pc.AwaitDump? ==> !src.dump.NotStarted?)
    && (src.pc.SendHeader? || src.pc.AwaitHeader? || src.pc.SendRunning? || src.pc.StartDump? ==> src.dump.NotStarted?)
    && (src.dumpDone || src.pc.SendImages? || src.imagesSent ==> src.dump.Waiting? || src.dump.Ended?)
    && (src.pc.SendFinal? || (src.pc.AwaitResult? && sourceLive) || src.pc.AwaitDumpEnd? ==> src.imagesSent)
    && (src.dump == Ended(true) ==> src.op.Succeeded?)
    && (src.scriptBroke ==> src.dump == Ended(false))
    && ((src.dumpDone || src.pc.SendImages? || src.imagesSent) && src.dump == Ended(false) && !src.scriptBroke ==>
          src.op.Failed?)
    && (src.op.Succeeded? || src.op.Failed? || src.restoreSuccess.Some? ==> src.pc.AwaitDumpEnd? || src.pc.Finished?)
    && (src.dumpSuccess.Some? ==> src.dump == Ended(src.dumpSuccess.value))
    && (src.pc.Finished? && sourceLive ==> src.dump.Ended? && src.imagesSent)
  }

  /** The sink says yes only after its restore, and no only when it will never restore. */
  predicate SinkInOrder(sinkLive: bool, imagesSent: bool, snk: SinkSide) {
    && (snk.restored ==> sinkLive && imagesSent && (snk.restorer == Report(true) || snk.restorer.Stopped?))
    && ((snk.restorer.AwaitFs? && sinkLive) || snk.restorer.Restoring? ==> imagesSent)
    && (snk.restorer.Restoring? ==> sinkLive)
    && (snk.restorer == Report(true) && sinkLive ==> snk.restored)
    && (snk.restorer.Stopped? ==> snk.pc.Returned? && snk.verdict.Some?)
    && (snk.pc.Connecting? || snk.pc.AwaitSourceHeader? || snk.pc.Reply? ==> snk.restorer.Idle?)
    && (snk.pc.Select? ==> !snk.restorer.Idle? && !snk.restorer.Stopped?)
    && (snk.verdict.Some? ==> snk.pc.Returned?)
    && (snk.verdict == Some(true) ==> snk.restorer.Stopped? && (sinkLive ==> snk.restored))
    && (snk.verdict == Some(false) ==> (snk.restorer.Idle? || snk.restorer.Stopped?) && !snk.restored)
  }

  predicate Inv(s: State) {
    && InFlight(s.toSource, s.sinkLive, s.snk.verdict)
    && (s.src.headerCriu ==> s.sinkLive)
    && VerdictsAgree(s.src, s.snk.verdict)
    && DumpInOrder(s.sourceLive, s.src)
    && SinkInOrder(s.sinkLive, s.src.imagesSent, s.snk)
  }

  lemma SourceKeepsDump(s: State, step: SourceStep)
    requires DumpInOrder(s.sourceLive, s.src) && SourceEnabled(s, step)
    ensures DumpInOrder(s.sourceLive, ApplySource(s, step).src)
  {
  }

  lemma SourceKeepsVerdicts(s: State, step: SourceStep)
    requires Inv(s) && SourceEnabled(s, step)
    ensures var t := ApplySource(s, step);
            VerdictsAgree(t.src, s.snk.verdict) && (t.src.headerCriu ==> s.sinkLive)
  {
  }

  lemma SourceKeepsInv(s: State, step: SourceStep)
    requires Inv(s) && SourceEnabled(s, step)
    ensures Inv(ApplySource(s, step))
  {
    SourceKeepsDump(s, step);
    SourceKeepsVerdicts(s, step);
  }

  lemma CriuKeepsInv(s: State, step: CriuStep)
    requires Inv(s) && CriuEnabled(s, step)
    ensures Inv(ApplyCriu(s, step))
  {
  }

  lemma SinkKeepsOrder(s: State, step: SinkStep)
    requires SinkInOrder(s.sinkLive, s.src.imagesSent, s.snk) && SinkEnabled(s, step)
    ensures var next := ApplySink(s, step).snk;
            && SinkInOrder(s.sinkLive, s.src.imagesSent, next)
            && (s.snk.verdict.Some? ==> next.verdict == s.snk.verdict)
  {
  }

  lemma SinkKeepsInv(s: State, step: SinkStep)
    requires Inv(s) && SinkEnabled(s, step)
    ensures Inv(ApplySink(s, step))
  {
    SinkKeepsOrder(s, step);
  }

  lemma StepKeepsInv(s: State, step: Step)
    requires Inv(s) && Enabled(s, step)
    ensures Inv(Apply(s, step))
  {
    match step
    case OfSource(a) => SourceKeepsInv(s, a);
    case OfCriu(b) => CriuKeepsInv(s, b);
    case OfSink(c) => SinkKeepsInv(s, c);
    case LoseToSink =>
    case LoseToSource =>
  }

  lemma {:induction false} RunKeepsInv(s: State, steps: seq<Step>)
    requires Inv(s) && Runs(s, steps)
    ensures Inv(After(s, steps))
    ensures After(s, steps).sourceLive == s.sourceLive && After(s, steps).sinkLive == s.sinkLive
    decreases |steps|
  {
    if steps != [] {
      StepKeepsInv(s, steps[0]);
      RunKeepsInv(Apply(s, steps[0]), steps[1..]);
    }
  }

  // ----- the guarantees --------------------------------------------------------------------------------------------

  /** The source's container is running: not yet checkpointed, or resumed by CRIU. */
  predicate SourceRuns(s: State) {
    s.src.dump.NotStarted? || s.src.dump.Dumping? || s.src.dump == Ended(false)
  }

  /** In every run, CRIU kills the source container only if the sink's restore returned success. */
  lemma KilledOnlyAfterRestore(sourceLive: bool, sinkLive: bool, steps: seq<Step>)
    requires Runs(Init(sourceLive, sinkLive), steps)
    ensures var s := After(Init(sourceLive, sinkLive), steps);
            s.src.dump == Ended(true) ==> s.snk.restored
  {
    RunKeepsInv(Init(sourceLive, sinkLive), steps);
  }

  /** In no run do both copies run, unless CRIU or its script failed on its own after the checkpoint. */
  lemma NeverTwoCopies(sourceLive: bool, sinkLive: bool, steps: seq<Step>)
    requires Runs(Init(sourceLive, sinkLive), steps)
    ensures var s := After(Init(sourceLive, sinkLive), steps);
            s.snk.restored && SourceRuns(s) ==> s.src.scriptBroke
  {
    RunKeepsInv(Init(sourceLive, sinkLive), steps);
  }

  /**
   A source whose Do returns without error has moved its container: the sink restored it, and the source's copy is
   gone unless CRIU or its script failed on its own. A source whose Do returns an error still has its container.
   */
  lemma SourceResultIsTrue(sinkLive: bool, steps: seq<Step>)
    requires Runs(Init(true, sinkLive), steps)
    ensures var s := After(Init(true, sinkLive), steps);
            && (s.src.pc == Finished(true) ==> s.snk.restored && (s.src.dump == Ended(true) || s.src.scriptBroke))
            && (s.src.pc == Finished(false) || s.src.pc.Aborted? ==> s.src.dump != Ended(true))
  {
    RunKeepsInv(Init(true, sinkLive), steps);
  }

  /**
   Once a live source's Do has returned, its container has been killed exactly when Do reports success and neither CRIU
   nor its script failed on its own.
   */
  lemma KilledIffSuccess(sinkLive: bool, steps: seq<Step>)
    requires Runs(Init(true, sinkLive), steps)
    requires var s := After(Init(true, sinkLive), steps); s.src.pc.Finished? || s.src.pc.Aborted?
    ensures var s := After(Init(true, sinkLive), steps);
            s.src.dump == Ended(true) <==> s.src.pc == Finished(true) && !s.src.scriptBroke
  {
    RunKeepsInv(Init(true, sinkLive), steps);
  }

  /** Live or not, what the source's Do reports after the transfer is what the sink concluded. */
  lemma ResultIsTheSinks(sourceLive: bool, sinkLive: bool, steps: seq<Step>)
    requires Runs(Init(sourceLive, sinkLive), steps)
    ensures var s := After(Init(sourceLive, sinkLive), steps);
            s.src.pc.Finished? ==> s.snk.verdict == Some(s.src.pc.success)
  {
    RunKeepsInv(Init(sourceLive, sinkLive), steps);
  }

  /** Ends that disagree on live migration never checkpoint the container and never restore it. */
  lemma DisagreementNeverDumps(sourceLive: bool, sinkLive: bool, steps: seq<Step>)
    requires sourceLive != sinkLive && Runs(Init(sourceLive, sinkLive), steps)
    ensures var s := After(Init(sourceLive, sinkLive), steps);
            s.src.dump.NotStarted? && !s.snk.restored
  {
    RunKeepsInv(Init(sourceLive, sinkLive), steps);
  }

  /**
   An abort after the checkpoint never tells the script anything: from then on, in every run, the container stays
   frozen until CRIU or its script fails on its own.
   */
  lemma {:induction false} AbortLeavesFrozen(s: State, steps: seq<Step>)
    requires Inv(s) && Runs(s, steps)
    requires AbortedFrozen(s.src) || AbortedBroken(s.src)
    ensures AbortedFrozen(After(s, steps).src) || AbortedBroken(After(s, steps).src)
    decreases |steps|
  {
    if steps != [] {
      StepKeepsInv(s, steps[0]);
      AbortedStep(s, steps[0]);
      AbortLeavesFrozen(Apply(s, steps[0]), steps[1..]);
    }
  }

  predicate AbortedFrozen(src: SourceSide) {
    src.pc.Aborted? && src.dump.Waiting?
  }

  predicate AbortedBroken(src: SourceSide) {
    src.pc.Aborted? && src.dump == Ended(false) && src.scriptBroke
  }

  lemma AbortedStep(s: State, step: Step)
    requires DumpInOrder(s.sourceLive, s.src) && Enabled(s, step)
    requires AbortedFrozen(s.src) || AbortedBroken(s.src)
    ensures var t := Apply(s, step);
            if AbortedFrozen(s.src) then AbortedFrozen(t.src) || AbortedBroken(t.src) else AbortedBroken(t.src)
  {
  }

  lemma Extend(s: State, steps: seq<Step>, last: Step) returns (more: seq<Step>)
    requires Runs(s, steps) && Enabled(After(s, steps), last)
    ensures Runs(s, more) && After(s, more) == Apply(After(s, steps), last)
  {
    more := steps + [last];
    RunsAppend(s, steps, last);
  }

  lemma {:induction false} RunsAppend(s: State, steps: seq<Step>, last: Step)
    requires Runs(s, steps) && Enabled(After(s, steps), last)
    ensures Runs(s, steps + [last]) && After(s, steps + [last]) == Apply(After(s, steps), last)
    decreases |steps|
  {
    if steps == [] {
      assert [last][1..] == [];
      assert [] + [last] == [last];
    } else {
      assert (steps + [last])[0] == steps[0] && (steps + [last])[1..] == steps[1..] + [last];
      RunsAppend(Apply(s, steps[0]), steps[1..], last);
    }
  }

  /** A live migration after the handshake. */
  lemma HandshakeRun() returns (steps: seq<Step>)
    ensures Runs(Init(true, true), steps)
    ensures After(Init(true, true), steps) ==
            State(true, true,
                  SourceSide(SendRunning, NotStarted, Absent, false, None, None, true, false, false, false),
                  SinkSide(Select, ReceiveImages, Transferring, Reading, false, None), [], [])
  {
    var s := Init(true, true);
    steps := Extend(s, [], OfSource(SourceSendHeader(true)));
    steps := Extend(s, steps, OfSink(SinkConnect(true)));
    steps := Extend(s, steps, OfSink(SinkReceiveHeader(true)));
    steps := Extend(s, steps, OfSink(SinkReply(true)));
    steps := Extend(s, steps, OfSource(SourceReceiveHeader(true)));
  }

  /** A live migration whose post-dump script has just connected. */
  lemma CheckpointRun() returns (steps: seq<Step>)
    ensures Runs(Init(true, true), steps)
    ensures After(Init(true, true), steps) ==
            State(true, true,
                  SourceSide(AwaitDump, Waiting, Pending, true, None, None, true, true, false, false),
                  SinkSide(Select, ReceiveImages, Transferring, Reading, false, None), [], [])
  {
    var s := Init(true, true);
    steps := HandshakeRun();
    steps := Extend(s, steps, OfSource(SourceSendRunning(true)));
    steps := Extend(s, steps, OfSource(SourceStartDump(true)));
    steps := Extend(s, steps, OfCriu(DumpReachesScript));
    steps := Extend(s, steps, OfCriu(ScriptConnects));
  }

  /** A live migration whose dump waits for the verdict, all images sent. */
  lemma DumpedRun() returns (steps: seq<Step>)
    ensures Runs(Init(true, true), steps)
    ensures After(Init(true, true), steps) ==
            State(true, true,
                  SourceSide(AwaitResult, Waiting, Pending, false, None, None, true, true, true, false),
                  SinkSide(Select, ReceiveImages, Transferring, Reading, false, None), [], [])
  {
    var s := Init(true, true);
    steps := CheckpointRun();
    steps := Extend(s, steps, OfSource(SourceSeesDumpDone));
    steps := Extend(s, steps, OfSource(SourceSendImages(true)));
    steps := Extend(s, steps, OfSource(SourceSendFinal(true)));
  }

  /** The same, with everything received and the sink about to restore. */
  lemma ReceivedRun() returns (steps: seq<Step>)
    ensures Runs(Init(true, true), steps)
    ensures After(Init(true, true), steps) ==
            State(true, true,
                  SourceSide(AwaitResult, Waiting, Pending, false, None, None, true, true, true, false),
                  SinkSide(Select, Restoring, Handed, Reading, false, None), [], [])
  {
    var s := Init(true, true);
    steps := DumpedRun();
    steps := Extend(s, steps, OfSink(FsReceives(true)));
    steps := Extend(s, steps, OfSink(RestorerReceivesImages(true)));
    steps := Extend(s, steps, OfSink(RestorerSeesFs));
  }

  /** The same, with the sink's copy restored and its verdict on the way. */
  lemma RestoredRun() returns (steps: seq<Step>)
    ensures Runs(Init(true, true), steps)
    ensures After(Init(true, true), steps) ==
            State(true, true,
                  SourceSide(AwaitResult, Waiting, Pending, false, None, None, true, true, true, false),
                  SinkSide(Returned, Stopped, Handed, Reading, true, Some(true)), [], [Control(true)])
  {
    var s := Init(true, true);
    steps := ReceivedRun();
    steps := Extend(s, steps, OfSink(RestorerRestores(true)));
    steps := Extend(s, steps, OfSink(SinkSeesRestore));
  }

  /**
   The converse of KilledOnlyAfterRestore fails: the sink's copy can run while the source has aborted with its own
   copy frozen for good, because the sink's verdict got lost.
   */
  lemma RestoredButNotKilled() returns (steps: seq<Step>)
    ensures Runs(Init(true, true), steps)
    ensures var s := After(Init(true, true), steps);
            s.snk.restored && s.src.pc.Aborted? && s.src.dump.Waiting? && !s.src.scriptBroke
  {
    var s := Init(true, true);
    steps := RestoredRun();
    steps := Extend(s, steps, LoseToSource);
    steps := Extend(s, steps, OfSource(SourceReceiveResult(false)));
  }

  /** A live migration can succeed: the sink's copy runs, the source's is gone, and both ends say so. */
  lemma LiveMigrationSucceeds() returns (steps: seq<Step>)
    ensures Runs(Init(true, true), steps)
    ensures var s := After(Init(true, true), steps);
            && s.snk.restored && s.snk.verdict == Some(true) && s.snk.pc.Returned?
            && s.src.pc == Finished(true) && s.src.dump == Ended(true)
  {
    var s := Init(true, true);
    steps := RestoredRun();
    steps := Extend(s, steps, OfSource(SourceReceiveResult(true)));
    steps := Extend(s, steps, OfCriu(OperationDecides));
    steps := Extend(s, steps, OfCriu(ScriptExits));
    steps := Extend(s, steps, OfSource(SourceSeesDumpEnd));
  }

  // ----- what each end concludes -----------------------------------------------------------------------------------

  /** A sink that is not live concludes what its transfer came to, and tells the source. */
  lemma PlainSinkConcludes(s: State, ok: bool)
    requires Inv(s) && !s.sinkLive && s.snk.pc.Select? && s.snk.restorer.AwaitFs? && s.snk.fs == Transferred(ok)
    ensures Runs(s, [OfSink(RestorerSeesFs), OfSink(SinkSeesRestore)])
    ensures var t := After(s, [OfSink(RestorerSeesFs), OfSink(SinkSeesRestore)]);
            t.snk.pc.Returned? && t.snk.verdict == Some(ok) && t.toSource == s.toSource + [Control(ok)]
  {
    var steps := [OfSink(RestorerSeesFs), OfSink(SinkSeesRestore)];
    assert steps[1..] == [OfSink(SinkSeesRestore)] && steps[1..][1..] == [];
  }

  /** A live sink restores only what was transferred; a transfer that failed ends it. */
  lemma LiveSinkRestoresTransfer(s: State, transferred: bool)
    requires Inv(s) && s.sinkLive && s.snk.pc.Select? && s.snk.restorer.AwaitFs? && s.snk.fs == Transferred(transferred)
    ensures Enabled(s, OfSink(RestorerSeesFs))
    ensures Apply(s, OfSink(RestorerSeesFs)).snk.restorer == if transferred then Restoring else Report(false)
  {
  }

  /** A sink concludes what its restore, or whatever it reports, came to, and tells the source. */
  lemma SinkConcludesReport(s: State, ok: bool)
    requires Inv(s) && s.snk.pc.Select? && s.snk.restorer == Report(ok)
    ensures Enabled(s, OfSink(SinkSeesRestore))
    ensures var t := Apply(s, OfSink(SinkSeesRestore));
            t.snk.pc.Returned? && t.snk.verdict == Some(ok) && t.toSource == s.toSource + [Control(ok)]
  {
  }

  lemma RestoreIsReported(s: State, ok: bool)
    requires Inv(s) && s.snk.pc.Select? && s.snk.restorer.Restoring?
    ensures Enabled(s, OfSink(RestorerRestores(ok)))
    ensures var t := Apply(s, OfSink(RestorerRestores(ok))); t.snk.restorer == Report(ok) && t.snk.restored == ok
  {
  }

  /** A source that is not live finishes with what the sink told it. */
  lemma PlainSourceFinishes(s: State, ok: bool)
    requires !s.sourceLive && s.src.pc.AwaitResult? && s.toSource != [] && s.toSource[0] == Control(ok)
    ensures Enabled(s, OfSource(SourceReceiveResult(true)))
    ensures Apply(s, OfSource(SourceReceiveResult(true))).src.pc == Finished(ok)
  {
  }

  /** Any operation of the source that fails before the result makes it abort and tell the sink. */
  lemma SourceFailureAborts(s: State, step: SourceStep)
    requires SourceEnabled(s, step)
    requires step in {SourceSendHeader(false), SourceReceiveHeader(false), SourceSendRunning(false), SourceStartDump(false),
                      SourceSendImages(false), SourceSendFinal(false)}
    ensures ApplySource(s, step).src.pc.Aborted? && ApplySource(s, step).toSink == s.toSink + [Control(false)]
  {
  }

  /** Each end's header says whether it is live. */
  lemma HeadersSayLive(s: State)
    ensures SourceEnabled(s, SourceSendHeader(true)) ==>
              ApplySource(s, SourceSendHeader(true)).toSink == s.toSink + [Header(s.sourceLive)]
    ensures SinkEnabled(s, SinkReply(true)) ==>
              ApplySink(s, SinkReply(true)).toSource == s.toSource + [Header(s.sinkLive)]
  {
  }

  /** The sink's reader passes on what the source says, and a broken connection as its end. */
  lemma ReaderPassesOn(s: State, ok: bool)
    requires SinkEnabled(s, ReaderReads(true)) && s.toSink[0] == Control(ok)
    ensures ApplySink(s, ReaderReads(true)).snk.reader == Got(ok) && ApplySink(s, ReaderReads(false)).snk.reader.Closed?
    ensures ApplySink(s, ReaderReads(true)).toSink == s.toSink[1..]
  {
  }

  /** A receive or transfer succeeds only when the other end has sent. */
  lemma ReceivesNeedSends(s: State)
    ensures SinkEnabled(s, FsReceives(true)) ==> s.src.runningSent
    ensures SinkEnabled(s, RestorerReceivesImages(true)) ==> s.src.imagesSent
    ensures SinkEnabled(s, SinkReceiveHeader(true)) || SinkEnabled(s, ReaderReads(true)) ==> s.toSink != []
    ensures SourceEnabled(s, SourceReceiveHeader(true)) || SourceEnabled(s, SourceReceiveResult(true)) ==> s.toSource != []
    ensures SinkEnabled(s, SinkSeesRestore) <==> s.snk.pc.Select? && s.snk.restorer.Report?
    ensures SinkEnabled(s, RestorerSeesFs) <==> s.snk.restorer.AwaitFs? && s.snk.fs.Transferred?
    ensures SourceEnabled(s, SourceSeesDumpDone) <==> s.src.pc.AwaitDump? && s.src.dumpDone
  {
  }

  /** Nothing is taken for granted: whatever can succeed can fail, messages can be lost, and CRIU can fail by itself. */
  lemma WhateverSucceedsCanFail(s: State, ok: bool)
    ensures SourceEnabled(s, SourceSendHeader(ok)) && SourceEnabled(s, SourceStorageFails) <==> s.src.pc.SendHeader?
    ensures SourceEnabled(s, SourceReceiveHeader(false)) <==> s.src.pc.AwaitHeader?
    ensures SourceEnabled(s, SourceSendRunning(ok)) <==> s.src.pc.SendRunning?
    ensures SourceEnabled(s, SourceStartDump(ok)) <==> s.src.pc.StartDump?
    ensures SourceEnabled(s, SourceSendImages(ok)) <==> s.src.pc.SendImages?
    ensures SourceEnabled(s, SourceSendFinal(ok)) <==> s.src.pc.SendFinal?
    ensures SourceEnabled(s, SourceReceiveResult(false)) <==> s.src.pc.AwaitResult?
    ensures SinkEnabled(s, SinkConnect(ok)) <==> s.snk.pc.Connecting?
    ensures SinkEnabled(s, SinkReceiveHeader(false)) <==> s.snk.pc.AwaitSourceHeader?
    ensures SinkEnabled(s, SinkReply(ok)) <==> s.snk.pc.Reply?
    ensures SinkEnabled(s, RestorerReceivesImages(false)) <==> s.snk.restorer.ReceiveImages?
    ensures SinkEnabled(s, RestorerRestores(ok)) <==> s.snk.restorer.Restoring?
    ensures SinkEnabled(s, FsReceives(false)) <==> s.snk.fs.Transferring?
    ensures SinkEnabled(s, ReaderReads(false)) <==> s.snk.reader.Reading?
    ensures Enabled(s, LoseToSink) <==> s.toSink != []
    ensures Enabled(s, LoseToSource) <==> s.toSource != []
    ensures CriuEnabled(s, DumpFails) && CriuEnabled(s, DumpReachesScript) <==> s.src.dump.Dumping?
    ensures CriuEnabled(s, ScriptBreaks) <==> s.src.dump.Frozen? || s.src.dump.Waiting?
  {
  }

  /** Without a storage driver the header goes out all the same, and the error after it. */
  lemma StorageFailureAborts(s: State)
    requires SourceEnabled(s, SourceStorageFails)
    ensures var t := ApplySource(s, SourceStorageFails);
            t.src.pc.Aborted? && t.toSink == s.toSink + [Header(s.sourceLive), Control(false)]
  {
  }

  /** A dump that ends before its script connects ends the source, which tells the sink how it ended. */
  lemma EarlyDumpEndIsTold(s: State, ok: bool)
    requires s.src.pc.AwaitDump? && s.src.dumpSuccess == Some(ok)
    ensures SourceEnabled(s, SourceSeesDumpSuccess)
    ensures var t := ApplySource(s, SourceSeesDumpSuccess);
            && t.src.pc == (if ok then Finished(true) else Aborted) && t.toSink == s.toSink + [Control(ok)]
  {
  }

  /** CRIU reports its end: a dump that fails or a script that breaks leaves the container running, else the operation decides. */
  lemma CriuReportsItsEnd(s: State, step: CriuStep)
    requires CriuEnabled(s, step) && (step.DumpFails? || step.ScriptBreaks? || step.ScriptExits?)
    ensures var killed := step.ScriptExits? && s.src.op == Succeeded;
            var t := ApplyCriu(s, step);
            && t.src.dump == Ended(killed) && t.src.dumpSuccess == Some(killed)
            && (t.src.scriptBroke <==> s.src.scriptBroke || step.ScriptBreaks?)
  {
  }

  /** The operation the script waits for succeeds exactly when the sink's verdict is positive. */
  lemma OperationFollowsVerdict(s: State)
    requires CriuEnabled(s, OperationDecides)
    ensures ApplyCriu(s, OperationDecides).src.op == if s.src.restoreSuccess == Some(true) then Succeeded else Failed
  {
  }

  /** Any operation of the sink that fails before its goroutines start makes it return and tell the source. */
  lemma SinkFailureReturns(s: State, step: SinkStep)
    requires Inv(s) && SinkEnabled(s, step) && step in {SinkConnect(false), SinkReceiveHeader(false), SinkReply(false)}
    ensures ApplySink(s, step).snk.pc.Returned? && ApplySink(s, step).toSource == s.toSource + [Control(false)]
  {
  }

  /** Images that do not arrive, and a source that reports failure, end the sink without a restore. */
  lemma SinkGivesUp(s: State)
    requires Inv(s) && s.snk.pc.Select?
    ensures s.snk.restorer.ReceiveImages? ==>
              Runs(s, [OfSink(RestorerReceivesImages(false)), OfSink(SinkSeesRestore)]) &&
              After(s, [OfSink(RestorerReceivesImages(false)), OfSink(SinkSeesRestore)]).snk.verdict == Some(false)
    ensures s.snk.reader == Got(false) || s.snk.reader.Closed? ==>
              Enabled(s, OfSink(SinkSeesSource)) && Apply(s, OfSink(SinkSeesSource)).snk.pc.Returned?
  {
    var steps := [OfSink(RestorerReceivesImages(false)), OfSink(SinkSeesRestore)];
    assert steps[1..] == [OfSink(SinkSeesRestore)] && steps[1..][1..] == [];
  }

  /** A migration that is not live, after the handshake. */
  lemma PlainHandshakeRun() returns (steps: seq<Step>)
    ensures Runs(Init(false, false), steps)
    ensures After(Init(false, false), steps) ==
            State(false, false,
                  SourceSide(SendRunning, NotStarted, Absent, false, None, None, false, false, false, false),
                  SinkSide(Select, AwaitFs, Transferring, Reading, false, None), [], [])
  {
    var s := Init(false, false);
    steps := Extend(s, [], OfSource(SourceSendHeader(true)));
    steps := Extend(s, steps, OfSink(SinkConnect(true)));
    steps := Extend(s, steps, OfSink(SinkReceiveHeader(true)));
    steps := Extend(s, steps, OfSink(SinkReply(true)));
    steps := Extend(s, steps, OfSource(SourceReceiveHeader(true)));
  }

  /** The same, when all has been sent and received. */
  lemma PlainTransferredRun() returns (steps: seq<Step>)
    ensures Runs(Init(false, false), steps)
    ensures After(Init(false, false), steps) ==
            State(false, false,
                  SourceSide(AwaitResult, NotStarted, Absent, false, None, None, false, true, false, false),
                  SinkSide(Select, AwaitFs, Transferred(true), Reading, false, None), [], [])
  {
    var s := Init(false, false);
    steps := PlainHandshakeRun();
    steps := Extend(s, steps, OfSource(SourceSendRunning(true)));
    steps := Extend(s, steps, OfSink(FsReceives(true)));
  }

  /** A migration that is not live can succeed, and both ends say so. */
  lemma PlainMigrationSucceeds() returns (steps: seq<Step>)
    ensures Runs(Init(false, false), steps)
    ensures var s := After(Init(false, false), steps);
            s.src.pc == Finished(true) && s.snk.verdict == Some(true) && s.snk.pc.Returned?
  {
    var s := Init(false, false);
    steps := PlainTransferredRun();
    steps := Extend(s, steps, OfSink(RestorerSeesFs));
    steps := Extend(s, steps, OfSink(SinkSeesRestore));
    steps := Extend(s, steps, OfSource(SourceReceiveResult(true)));
  }
}
