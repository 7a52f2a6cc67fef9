/**
 The browser session facade (`WasmWqSession` in `wq-wasm/browser.js`): deferred disposal, reentrant
 calls, one cooperative evaluation, debugger pauses and cancellation.

 A step is what runs between two points where other code can run: entering a core method, its
 return, or an `await` settling.  Between steps anything may happen: while a core method is
 active its callbacks may call the facade again, and while the evaluation is suspended the host
 may.  Core results, callback results and the abort signal are inputs of a step.
 */
module SessionLifecycle {
  import opened Wrappers

  /** What the evaluation does once pending notifications are delivered. */
  datatype After = AfterReady | AfterYielded | AfterPaused(id: nat)

  /**
   Where the evaluation is: inside a core method, or suspended at an await.  Delivering
   notifications is awaited even when there is none to deliver.
   */
  datatype Pc =
    | Idle
    | InStart
    | InSlice
    | InTakeNotifications(after: After)
    | AtNotification(after: After, remaining: nat)
    | AtInput
    | InResumeInput
    | AtPauseHandler(id: nat)
    | InResumeHandled(id: nat)
    | InResumeUnhandled
    | AtYield
    | InCancel
  {
    /** The evaluation is inside a core method. */
    predicate InCore() {
      InStart? || InSlice? || InTakeNotifications? || InResumeInput? || InResumeHandled? || InResumeUnhandled?
      || InCancel?
    }
  }

  /** What reaches the core session, in order; Started and Finished mark the evaluation's own progress. */
  datatype Event =
    | Entered(name: string)
    | CancelEntered
    | Returned
    | Started
    | Finished
    | Freed

  /** A trace grows at its end. */
  datatype Trace = Silence | Then(before: Trace, event: Event)

  /** The result of one evaluation slice; the core may have used up pause ids it never reported. */
  datatype Status = Ready | AwaitingInput(hasCallback: bool) | Paused(skipped: nat) | Yielded | Unknown

  datatype Outcome<T> = Value(value: T) | Throws

  /**
   The core's debugger: the id of its next pause, and the pause it waits to be resumed from, which
   it reports again when polled.
   */
  datatype Debugger = Debugger(nextId: nat, pending: Option<nat>) {
    function Pause(skipped: nat): (d: Debugger)
      ensures d.pending.Some?
    {
      if pending.Some? then this else Debugger(nextId + skipped + 1, Some(nextId + skipped))
    }

    function Resume(): Debugger {
      this.(pending := None)
    }
  }

  /** The handlers an evaluation was given. */
  datatype Options = Options(onPause: bool, onNotification: bool)

  datatype Action =
    | Free
    | CallMethod(name: string)
    | CallReturns
    | CallOfStop(stop: nat, name: string)
    | CallOfStopReturns
    | EvalAsync(options: Options, valid: bool, aborted: bool)
    | CoreReturns(ok: bool, status: Status, notifications: nat, aborted: bool)
    | AwaitSettles(ok: bool, aborted: bool)

  /**
   The private fields, the suspended evaluation's locals, the calls in progress, the ids of the
   pauses a handler was given a stop for, the trace, and the core's debugger.
   */
  datatype State = State(
    session: bool, activeCalls: nat, activeEvaluation: bool, activePauseId: Option<nat>, disposeRequested: bool,
    pc: Pc, options: Options, started: bool, finished: bool,
    facadeCalls: nat, stopCalls: nat, pauses: seq<nat>, trace: Trace,
    debugger: Debugger)
  {
    function Emit(e: Event): State {
      this.(trace := Then(trace, e))
    }

    // ---- disposal ----

    function FlushDisposal(): State {
      if disposeRequested && activeCalls == 0 && !activeEvaluation && session
      then this.(session := false).Emit(Freed)
      else this
    }

    function RequestFree(): State {
      if !session then this else this.(disposeRequested := true).FlushDisposal()
    }

    // ---- calls ----

    function Enter(e: Event): State {
      this.(activeCalls := activeCalls + 1).Emit(e)
    }

    /** The `finally` of every call: count down, then dispose if that was waited for. */
    function Leave(): State {
      Emit(Returned).(activeCalls := if activeCalls > 0 then activeCalls - 1 else 0).FlushDisposal()
    }

    function Call(name: string): State {
      if !session || disposeRequested || activeEvaluation then this
      else this.(facadeCalls := facadeCalls + 1).Enter(Entered(name))
    }

    /** A stop's method throws unless its own pause id is the active one. */
    function StopCall(stop: nat, name: string): State {
      if stop >= |pauses| || activePauseId != Some(pauses[stop]) || !session then this
      else this.(stopCalls := stopCalls + 1).Enter(Entered(name))
    }

    // ---- the evaluation ----

    /** A core call made by the evaluation, which then is at `next`; without a session it throws. */
    function EvaluationCall(e: Event, next: Pc): State {
      if !session then Finally() else this.(pc := next).Enter(e)
    }

    /** The end of the `finally` block. */
    function EndEvaluation(): State {
      this.(pc := Idle, activePauseId := None, activeEvaluation := false).FlushDisposal()
    }

    function Finally(): State {
      if started && !finished && session then this.(pc := InCancel).Enter(CancelEntered) else EndEvaluation()
    }

    function Begin(options: Options, valid: bool, aborted: bool): State {
      if !session || disposeRequested || activeEvaluation || !valid then this
      else
        var s := this.(activeEvaluation := true, started := false, finished := false, options := options);
        if aborted then s.Finally() else s.EvaluationCall(Entered("start_eval_wq_named"), InStart)
    }

    function LoopTop(aborted: bool): State {
      if disposeRequested || aborted then Finally()
      else EvaluationCall(Entered("run_eval_wq_slice"), InSlice)
    }

    function Deliver(after: After): State {
      if !options.onNotification then this.(pc := AtNotification(after, 0))
      else EvaluationCall(Entered("take_debugger_notifications"), InTakeNotifications(after))
    }

    function AfterDelivery(after: After): State {
      match after
      case AfterReady => this.(finished := true).Emit(Finished).Finally()
      case AfterYielded => this.(pc := AtYield)
      case AfterPaused(id) =>
        if options.onPause then this.(activePauseId := Some(id), pauses := pauses + [id], pc := AtPauseHandler(id))
        else EvaluationCall(Entered("resume_eval_wq_debugger"), InResumeUnhandled)
    }

    /** One of `remaining` notifications was handled, or there was none to handle. */
    function Notified(after: After, remaining: nat, ok: bool): State {
      if remaining > 0 && !ok then Finally()
      else if remaining > 1 then this.(pc := AtNotification(after, remaining - 1))
      else AfterDelivery(after)
    }

    function SlicePaused(skipped: nat): State {
      var paused := debugger.Pause(skipped);
      this.(debugger := paused).Deliver(AfterPaused(paused.pending.value))
    }

    function SliceReturned(status: Status): State {
      match status
      case Ready => Deliver(AfterReady)
      case Yielded => Deliver(AfterYielded)
      case Paused(skipped) => SlicePaused(skipped)
      case AwaitingInput(hasCallback) =>
        if hasCallback then this.(pc := AtInput)
        else EvaluationCall(Entered("resume_eval_wq_input"), InResumeInput)
      case Unknown => Finally()
    }

    /** The evaluation's core method returned or threw. */
    function CoreReturned(ok: bool, status: Status, notifications: nat, aborted: bool): State {
      Leave().Continue(pc, ok, status, notifications, aborted)
    }

    /** How the evaluation goes on after the core method it was in at `at`. */
    function Continue(at: Pc, ok: bool, status: Status, notifications: nat, aborted: bool): State {
      match at
      case InStart => if ok then StartReturned(aborted) else Finally()
      case InSlice => if ok then SliceReturned(status) else Finally()
      case InTakeNotifications(after) => if ok then this.(pc := AtNotification(after, notifications)) else Finally()
      case InCancel => EndEvaluation()
      case _ => ContinueLoop(at, ok, aborted)
    }

    function StartReturned(aborted: bool): State {
      this.(started := true, debugger := debugger.Resume()).Emit(Started).LoopTop(aborted)
    }

    /** After the other core methods it goes back to the top of its loop; a handled pause is over. */
    function ContinueLoop(at: Pc, ok: bool, aborted: bool): State {
      var s := if at.InResumeHandled? then this.(activePauseId := None) else this;
      if ok then s.Resumed(at).LoopTop(aborted) else s.Finally()
    }

    /** Resuming takes the core out of its pause; so does the first fragment of a new evaluation. */
    function Resumed(at: Pc): State {
      if at.InResumeHandled? || at.InResumeUnhandled? then this.(debugger := debugger.Resume()) else this
    }

    /** What the evaluation awaited settled; a throw is a callback error, a bad answer, an abort or a disposal. */
    function Settled(ok: bool, aborted: bool): State {
      match pc
      case AtNotification(after, remaining) => Notified(after, remaining, ok)
      case AtInput =>
        if !ok && (disposeRequested || aborted) then Finally()
        else EvaluationCall(Entered("resume_eval_wq_input"), InResumeInput)
      case AtPauseHandler(id) =>
        if ok then EvaluationCall(Entered("resume_eval_wq_debugger"), InResumeHandled(id))
        else this.(activePauseId := None).Finally()
      case AtYield => LoopTop(aborted)
      case _ => this
    }

    /** One step; an action that does not apply changes nothing. */
    function Step(action: Action): State {
      match action
      case Free => RequestFree()
      case CallMethod(name) => Call(name)
      case CallReturns => if facadeCalls == 0 then this else this.(facadeCalls := facadeCalls - 1).Leave()
      case CallOfStop(stop, name) => StopCall(stop, name)
      case CallOfStopReturns => if stopCalls == 0 then this else this.(stopCalls := stopCalls - 1).Leave()
      case EvalAsync(options, valid, aborted) => Begin(options, valid, aborted)
      case CoreReturns(ok, status, notifications, aborted) =>
        if pc.InCore() then CoreReturned(ok, status, notifications, aborted) else this
      case AwaitSettles(ok, aborted) => Settled(ok, aborted)
    }

    function Run(actions: seq<Action>): State
      decreases |actions|
    {
      if actions == [] then this else Step(actions[0]).Run(actions[1..])
    }
  }

  const NEW_SESSION :=
    State(true, 0, false, None, false, Idle, Options(false, false), false, false, 0, 0, [], Silence,
          Debugger(0, None))

  // ---- what a trace may look like ----

  /** The core session as its caller sees it: with an evaluation to end or not, and calls in progress. */
  datatype Core = Alive(open: bool, depth: nat) | Dead | Misused

  function Observe(core: Core, e: Event): Core {
    if !core.Alive? then Misused
    else
      match e
      case Entered(_) => core.(depth := core.depth + 1)
      case CancelEntered => if core.open then Alive(false, core.depth + 1) else Misused
      case Returned => if core.depth > 0 then core.(depth := core.depth - 1) else Misused
      case Started => if core.open then Misused else core.(open := true)
      case Finished => if core.open then core.(open := false) else Misused
      case Freed => if core.open || core.depth > 0 then Misused else Dead
  }

  function Observed(trace: Trace): Core {
    match trace
    case Silence => Alive(false, 0)
    case Then(before, event) => Observe(Observed(before), event)
  }

  // ---- the invariant ----

  predicate AtPause(pc: Pc, id: nat) {
    pc == AtPauseHandler(id) || pc == InResumeHandled(id)
  }

  /** An evaluation has started and still has to be finished or cancelled. */
  predicate MustEnd(s: State) {
    s.started && !s.finished && s.pc != Idle && s.pc != InCancel
  }

  predicate FieldsInv(s: State) {
    && s.activeCalls == s.facadeCalls + s.stopCalls + (if s.pc.InCore() then 1 else 0)
    && (s.activeEvaluation <==> s.pc != Idle)
    && (s.activePauseId.Some? ==> s.pauses != [] && s.activePauseId.value == s.pauses[|s.pauses| - 1])
    && (s.activePauseId.Some? ==> AtPause(s.pc, s.activePauseId.value))
    && (s.pc.AtPauseHandler? || s.pc.InResumeHandled? ==> s.activePauseId == Some(s.pc.id))
    && (s.pc == InStart ==> !s.started && !s.finished)
    && (s.pc != InStart && s.pc != Idle ==> s.started && !s.finished)
    && (!s.session <==> s.disposeRequested && s.activeCalls == 0 && !s.activeEvaluation)
  }

  predicate TraceInv(s: State) {
    Observed(s.trace) == if s.session then Alive(MustEnd(s), s.activeCalls) else Dead
  }

  predicate Inv(s: State) {
    FieldsInv(s) && TraceInv(s)
  }

  // ---- every step keeps the invariant ----

  /** In the middle of a step of the evaluation: outside the core, and no pause is active. */
  predicate Mid(s: State) {
    && s.session && s.activeEvaluation
    && s.activeCalls == s.facadeCalls + s.stopCalls
    && s.activePauseId.None?
    && Observed(s.trace) == Alive(s.started && !s.finished, s.activeCalls)
  }

  lemma EvaluationCallInv(s: State, name: string, next: Pc)
    requires Mid(s) && next.InCore() && next != InCancel && !next.InResumeHandled?
    requires if next == InStart then !s.started && !s.finished else s.started && !s.finished
    ensures Inv(s.EvaluationCall(Entered(name), next))
  {
  }

  lemma FinallyInv(s: State)
    requires Mid(s)
    ensures Inv(s.Finally())
  {
  }

  lemma LoopTopInv(s: State, aborted: bool)
    requires Mid(s) && s.started && !s.finished
    ensures Inv(s.LoopTop(aborted))
  {
  }

  lemma AfterDeliveryInv(s: State, after: After)
    requires Mid(s) && s.started && !s.finished
    ensures Inv(s.AfterDelivery(after))
  {
    match after
    case AfterReady =>
      FinallyInv(s.(finished := true).Emit(Finished));
    case AfterYielded =>
    case AfterPaused(id) =>
      if !s.options.onPause {
        EvaluationCallInv(s, "resume_eval_wq_debugger", InResumeUnhandled);
      }
  }

  lemma SliceReturnedInv(s: State, status: Status)
    requires Mid(s) && s.started && !s.finished
    ensures Inv(s.SliceReturned(status))
  {
    FinallyInv(s);
    EvaluationCallInv(s, "resume_eval_wq_input", InResumeInput);
    forall after: After
      ensures Inv(s.Deliver(after))
    {
      EvaluationCallInv(s, "take_debugger_notifications", InTakeNotifications(after));
    }
  }

  /** Leaving a core method of the evaluation never disposes: the evaluation is still active. */
  lemma LeaveIsMid(s: State)
    requires Inv(s) && s.pc.InCore() && s.pc != InCancel
    ensures s.Leave() == s.Emit(Returned).(activeCalls := s.activeCalls - 1)
    ensures Mid(s.Leave().(activePauseId := None))
  {
  }

  lemma StartReturnedInv(s: State, aborted: bool)
    requires Mid(s) && !s.started && !s.finished
    ensures Inv(s.StartReturned(aborted))
  {
  }

  lemma CancelReturnedInv(s: State)
    requires Inv(s) && s.pc == InCancel
    ensures Inv(s.Leave().EndEvaluation())
  {
  }

  lemma ContinueInv(s: State, at: Pc, ok: bool, status: Status, notifications: nat, aborted: bool)
    requires Mid(s) && at != InCancel
    requires if at == InStart then !s.started && !s.finished else s.started && !s.finished
    ensures Inv(s.Continue(at, ok, status, notifications, aborted))
  {
    if !ok {
      FinallyInv(s);
    } else if at == InStart {
      StartReturnedInv(s, aborted);
    } else if at == InSlice {
      SliceReturnedInv(s, status);
    } else if at.InTakeNotifications? {
    } else {
      LoopTopInv(s, aborted);
    }
  }

  lemma CoreReturnedInv(s: State, ok: bool, status: Status, notifications: nat, aborted: bool)
    requires Inv(s) && s.pc.InCore()
    ensures Inv(s.CoreReturned(ok, status, notifications, aborted))
  {
    if s.pc == InCancel {
      CancelReturnedInv(s);
    } else {
      LeaveIsMid(s);
      var t := s.Leave().(activePauseId := None);
      PauseIsOver(s.Leave(), s.pc, ok, status, notifications, aborted);
      ContinueInv(t, s.pc, ok, status, notifications, aborted);
    }
  }

  /** Going on from a handled pause clears its id; nowhere else is there one to clear. */
  lemma PauseIsOver(s: State, at: Pc, ok: bool, status: Status, notifications: nat, aborted: bool)
    requires at.InResumeHandled? || s.activePauseId.None?
    ensures s.Continue(at, ok, status, notifications, aborted)
         == s.(activePauseId := None).Continue(at, ok, status, notifications, aborted)
  {
  }

  lemma NotifiedInv(s: State, after: After, remaining: nat, ok: bool)
    requires Mid(s) && s.started && !s.finished
    ensures Inv(s.Notified(after, remaining, ok))
  {
    FinallyInv(s);
    AfterDeliveryInv(s, after);
  }

  lemma SettledInv(s: State, ok: bool, aborted: bool)
    requires Inv(s)
    ensures Inv(s.Settled(ok, aborted))
  {
    match s.pc
    case AtNotification(after, remaining) => NotifiedInv(s, after, remaining, ok);
    case AtInput =>
      FinallyInv(s);
      EvaluationCallInv(s, "resume_eval_wq_input", InResumeInput);
    case AtPauseHandler(id) =>
      FinallyInv(s.(activePauseId := None));
    case AtYield => LoopTopInv(s, aborted);
    case _ =>
  }

  lemma BeginInv(s: State, options: Options, valid: bool, aborted: bool)
    requires Inv(s)
    ensures Inv(s.Begin(options, valid, aborted))
  {
  }

  /** A call of the facade or of a stop returns: the last one out disposes if that was requested. */
  lemma CallReturnsInv(s: State, facadeCalls: nat, stopCalls: nat)
    requires Inv(s) && facadeCalls + stopCalls + 1 == s.facadeCalls + s.stopCalls
    ensures Inv(s.(facadeCalls := facadeCalls, stopCalls := stopCalls).Leave())
  {
  }

  lemma CallInv(s: State, name: string, stop: nat)
    requires Inv(s)
    ensures Inv(s.Call(name)) && Inv(s.StopCall(stop, name))
  {
  }

  lemma FreeInv(s: State)
    requires Inv(s)
    ensures Inv(s.RequestFree())
  {
  }

  lemma StepKeepsInv(s: State, action: Action)
    requires Inv(s)
    ensures Inv(s.Step(action))
  {
    match action
    case Free => FreeInv(s);
    case CallMethod(name) => CallInv(s, name, 0);
    case CallOfStop(stop, name) => CallInv(s, name, stop);
    case CallReturns => if s.facadeCalls > 0 { CallReturnsInv(s, s.facadeCalls - 1, s.stopCalls); }
    case CallOfStopReturns => if s.stopCalls > 0 { CallReturnsInv(s, s.facadeCalls, s.stopCalls - 1); }
    case EvalAsync(options, valid, aborted) => BeginInv(s, options, valid, aborted);
    case CoreReturns(ok, status, notifications, aborted) =>
      if s.pc.InCore() { CoreReturnedInv(s, ok, status, notifications, aborted); }
    case AwaitSettles(ok, aborted) => SettledInv(s, ok, aborted);
  }

  lemma {:induction false} RunKeepsInv(s: State, actions: seq<Action>)
    requires Inv(s)
    ensures Inv(s.Run(actions))
    decreases |actions|
  {
    if actions != [] {
      StepKeepsInv(s, actions[0]);
      RunKeepsInv(s.Step(actions[0]), actions[1..]);
    }
  }

  // ---- what every run guarantees ----

  function Count(trace: Trace, counted: Event -> bool): nat {
    match trace
    case Silence => 0
    case Then(before, event) => Count(before, counted) + if counted(event) then 1 else 0
  }

  /**
   A trace that is not misuse frees at most once and ends there, and has ended every started
   evaluation exactly once, by finishing or cancelling it, except one that is still open.
   */
  lemma {:induction false} ObservedMeans(trace: Trace)
    requires Observed(trace) != Misused
    ensures Count(trace, (e: Event) => e == Freed) == (if Observed(trace) == Dead then 1 else 0)
    ensures Observed(trace) == Dead ==> trace.Then? && trace.event == Freed
    ensures Count(trace, (e: Event) => e == Started)
         == Count(trace, (e: Event) => e == Finished) + Count(trace, (e: Event) => e == CancelEntered)
            + (if Observed(trace).Alive? && Observed(trace).open then 1 else 0)
  {
    if trace.Then? {
      ObservedMeans(trace.before);
    }
  }

  /**
   Whatever calls, callbacks, answers and disposal requests come in whatever order: the core is
   never misused, it is freed exactly when disposal was requested and nothing is active, and an
   evaluation is ended before the session is freed or another one starts.
   */
  lemma EveryRunIsSafe(actions: seq<Action>)
    ensures var s := NEW_SESSION.Run(actions);
      && Observed(s.trace) != Misused
      && (!s.session <==> Observed(s.trace) == Dead)
      && (!s.session <==> s.disposeRequested && s.activeCalls == 0 && s.pc == Idle)
      && (s.session ==> Observed(s.trace) == Alive(MustEnd(s), s.activeCalls))
      && (s.pc == Idle ==>
            Count(s.trace, (e: Event) => e == Started)
            == Count(s.trace, (e: Event) => e == Finished) + Count(s.trace, (e: Event) => e == CancelEntered))
      && Count(s.trace, (e: Event) => e == Freed) <= 1
  {
    RunKeepsInv(NEW_SESSION, actions);
    ObservedMeans(NEW_SESSION.Run(actions).trace);
  }

  /** A stop handed out for pause number `stop` gets through to the core. */
  predicate Reaches(s: State, stop: nat) {
    s.StopCall(stop, "debugger_stack").trace != s.trace
  }

  /** The pause a stop was handed out for is the one being handled now. */
  predicate OwnPauseIsCurrent(s: State, stop: nat) {
    stop < |s.pauses| && stop == |s.pauses| - 1 && AtPause(s.pc, s.pauses[stop])
  }

  /** In every run a stop reaches the core exactly while its own pause is being handled. */
  lemma StopsReachTheirOwnPause(actions: seq<Action>, stop: nat)
    ensures var s := NEW_SESSION.Run(actions);
      Reaches(s, stop) <==> OwnPauseIsCurrent(s, stop)
  {
    RunKeepsInv(NEW_SESSION, actions);
    RunKeepsPauseInv(NEW_SESSION, actions);
    var s := NEW_SESSION.Run(actions);
    if stop < |s.pauses| - 1 {
      RisingMeans(s.pauses, s.debugger.nextId, stop);
    }
  }

  // ---- no pause id is given out twice ----

  /** Strictly increasing and below the bound. */
  predicate Rising(ids: seq<nat>, bound: nat)
    decreases |ids|
  {
    ids == [] || (ids[|ids| - 1] < bound && Rising(ids[..|ids| - 1], ids[|ids| - 1]))
  }

  lemma {:induction false} RisingMeans(ids: seq<nat>, bound: nat, k: nat)
    requires Rising(ids, bound) && k < |ids|
    ensures ids[k] < bound && (k < |ids| - 1 ==> ids[k] < ids[|ids| - 1])
    decreases |ids|
  {
    if k < |ids| - 1 {
      RisingMeans(ids[..|ids| - 1], ids[|ids| - 1], k);
    }
  }

  lemma RisingSnoc(ids: seq<nat>, id: nat, bound: nat)
    requires Rising(ids, id) && id < bound
    ensures Rising(ids + [id], bound)
  {
    assert (ids + [id])[..|ids|] == ids;
  }

  lemma RisingBelow(ids: seq<nat>, bound: nat, higher: nat)
    requires Rising(ids, bound) && bound <= higher
    ensures Rising(ids, higher)
  {
  }

  /** The core waits in the pause the evaluation is about to hand out, and in none where it goes on. */
  predicate Awaits(d: Debugger, pauses: seq<nat>, after: After) {
    match after
    case AfterPaused(id) => d.pending == Some(id) && id < d.nextId && Rising(pauses, id)
    case _ => d.pending.None?
  }

  predicate PausesFit(pc: Pc, d: Debugger, pauses: seq<nat>) {
    && Rising(pauses, d.nextId)
    && match pc
       case InTakeNotifications(after) => Awaits(d, pauses, after)
       case AtNotification(after, _) => Awaits(d, pauses, after)
       case InSlice => d.pending.None?
       case AtInput => d.pending.None?
       case InResumeInput => d.pending.None?
       case AtYield => d.pending.None?
       case _ => true
  }

  predicate PauseInv(s: State) {
    PausesFit(s.pc, s.debugger, s.pauses)
  }

  lemma PauseFits(d: Debugger, pauses: seq<nat>, skipped: nat)
    requires d.pending.None? && Rising(pauses, d.nextId)
    ensures var paused := d.Pause(skipped);
      Rising(pauses, paused.nextId) && Awaits(paused, pauses, AfterPaused(paused.pending.value))
  {
    RisingBelow(pauses, d.nextId, d.nextId + skipped);
    RisingBelow(pauses, d.nextId, d.nextId + skipped + 1);
  }

  /** Ending the evaluation and calling the core change neither the pauses nor the debugger. */
  lemma EndingFits(s: State)
    requires Rising(s.pauses, s.debugger.nextId)
    ensures PauseInv(s.Finally())
  {
  }

  lemma CallFits(s: State, name: string, next: Pc)
    requires Rising(s.pauses, s.debugger.nextId) && PausesFit(next, s.debugger, s.pauses)
    ensures PauseInv(s.EvaluationCall(Entered(name), next))
  {
    EndingFits(s);
  }

  lemma DeliverKeepsPauseInv(s: State, after: After)
    requires Rising(s.pauses, s.debugger.nextId) && Awaits(s.debugger, s.pauses, after)
    ensures PauseInv(s.Deliver(after))
  {
    CallFits(s, "take_debugger_notifications", InTakeNotifications(after));
  }

  lemma AfterDeliveryKeepsPauseInv(s: State, after: After)
    requires Rising(s.pauses, s.debugger.nextId) && Awaits(s.debugger, s.pauses, after)
    ensures PauseInv(s.AfterDelivery(after))
  {
    match after
    case AfterReady => EndingFits(s.(finished := true).Emit(Finished));
    case AfterYielded =>
    case AfterPaused(id) =>
      if s.options.onPause {
        RisingSnoc(s.pauses, id, s.debugger.nextId);
      } else {
        CallFits(s, "resume_eval_wq_debugger", InResumeUnhandled);
      }
  }

  lemma SliceKeepsPauseInv(s: State, status: Status)
    requires Rising(s.pauses, s.debugger.nextId) && s.debugger.pending.None?
    ensures PauseInv(s.SliceReturned(status))
  {
    EndingFits(s);
    match status
    case Paused(skipped) =>
      var paused := s.debugger.Pause(skipped);
      PauseFits(s.debugger, s.pauses, skipped);
      DeliverKeepsPauseInv(s.(debugger := paused), AfterPaused(paused.pending.value));
    case Ready => DeliverKeepsPauseInv(s, AfterReady);
    case Yielded => DeliverKeepsPauseInv(s, AfterYielded);
    case _ =>
  }

  lemma LoopTopFits(s: State, aborted: bool)
    requires Rising(s.pauses, s.debugger.nextId) && s.debugger.pending.None?
    ensures PauseInv(s.LoopTop(aborted))
  {
    EndingFits(s);
    CallFits(s, "run_eval_wq_slice", InSlice);
  }

  lemma LoopKeepsPauseInv(s: State, at: Pc, ok: bool, aborted: bool)
    requires Rising(s.pauses, s.debugger.nextId)
    requires at.InResumeInput? ==> s.debugger.pending.None?
    requires at.InResumeInput? || at.InResumeHandled? || at.InResumeUnhandled?
    ensures PauseInv(s.ContinueLoop(at, ok, aborted))
  {
    var t := if at.InResumeHandled? then s.(activePauseId := None) else s;
    if ok {
      LoopTopFits(t.Resumed(at), aborted);
    } else {
      EndingFits(t);
    }
  }

  /** Returning from the core changes neither the pauses nor the debugger. */
  lemma LeaveKeepsPauses(s: State)
    ensures s.Leave().pauses == s.pauses && s.Leave().debugger == s.debugger
  {
  }

  lemma ContinueKeepsPauseInv(s: State, at: Pc, ok: bool, status: Status, notifications: nat, aborted: bool)
    requires PausesFit(at, s.debugger, s.pauses) && at.InCore()
    ensures PauseInv(s.Continue(at, ok, status, notifications, aborted))
  {
    EndingFits(s);
    match at
    case InStart => LoopTopFits(s.(started := true, debugger := s.debugger.Resume()).Emit(Started), aborted);
    case InSlice => SliceKeepsPauseInv(s, status);
    case InTakeNotifications(_) =>
    case InCancel =>
    case _ => LoopKeepsPauseInv(s, at, ok, aborted);
  }

  lemma SettledKeepsPauseInv(s: State, ok: bool, aborted: bool)
    requires PauseInv(s)
    ensures PauseInv(s.Settled(ok, aborted))
  {
    match s.pc
    case AtNotification(after, remaining) =>
      EndingFits(s);
      AfterDeliveryKeepsPauseInv(s, after);
    case AtInput =>
      EndingFits(s);
      CallFits(s, "resume_eval_wq_input", InResumeInput);
    case AtPauseHandler(id) =>
      EndingFits(s.(activePauseId := None));
      CallFits(s, "resume_eval_wq_debugger", InResumeHandled(id));
    case AtYield => LoopTopFits(s, aborted);
    case _ =>
  }

  lemma StepKeepsPauseInv(s: State, action: Action)
    requires PauseInv(s)
    ensures PauseInv(s.Step(action))
  {
    match action
    case CoreReturns(ok, status, notifications, aborted) =>
      if s.pc.InCore() {
        LeaveKeepsPauses(s);
        ContinueKeepsPauseInv(s.Leave(), s.pc, ok, status, notifications, aborted);
      }
    case AwaitSettles(ok, aborted) => SettledKeepsPauseInv(s, ok, aborted);
    case _ =>
  }

  lemma {:induction false} RunKeepsPauseInv(s: State, actions: seq<Action>)
    requires PauseInv(s)
    ensures PauseInv(s.Run(actions))
    decreases |actions|
  {
    if actions != [] {
      StepKeepsPauseInv(s, actions[0]);
      RunKeepsPauseInv(s.Step(actions[0]), actions[1..]);
    }
  }

  /** Once disposal is requested the evaluation enters no further slice. */
  lemma {:induction false} NoSliceAfterDisposal(s: State, actions: seq<Action>)
    requires Inv(s) && s.disposeRequested && s.pc != InSlice
    ensures s.Run(actions).pc != InSlice
    decreases |actions|
  {
    if actions != [] {
      StepKeepsInv(s, actions[0]);
      NoSliceInStep(s, actions[0]);
      NoSliceAfterDisposal(s.Step(actions[0]), actions[1..]);
    }
  }

  lemma NoSliceInStep(s: State, action: Action)
    requires Inv(s) && s.disposeRequested && s.pc != InSlice
    ensures s.Step(action).disposeRequested && s.Step(action).pc != InSlice
  {
    match action
    case CoreReturns(ok, status, notifications, aborted) =>
      NoSliceInContinue(s.Leave(), s.pc, ok, status, notifications, aborted);
    case AwaitSettles(_, _) =>
      if s.pc.AtNotification? {
        NoSliceInDelivery(s, s.pc.after);
      }
    case _ =>
  }

  predicate NoSlice(s: State) {
    s.disposeRequested && s.pc != InSlice
  }

  lemma NoSliceInContinue(s: State, at: Pc, ok: bool, status: Status, notifications: nat, aborted: bool)
    requires s.disposeRequested && at != InSlice
    ensures NoSlice(s.Continue(at, ok, status, notifications, aborted))
  {
    NoSliceAtTheEnd(s);
    NoSliceAtTheEnd(s.(activePauseId := None));
    NoSliceAtTheEnd(s.Resumed(at));
    NoSliceAtTheEnd(s.(activePauseId := None).Resumed(at));
    NoSliceAtTheEnd(s.(started := true, debugger := s.debugger.Resume()).Emit(Started));
  }

  /** The loop ends at its top, and ending enters no slice. */
  lemma NoSliceAtTheEnd(s: State)
    requires s.disposeRequested
    ensures forall aborted :: s.LoopTop(aborted) == s.Finally()
    ensures NoSlice(s.Finally())
  {
  }

  lemma NoSliceInDelivery(s: State, after: After)
    requires s.disposeRequested
    ensures NoSlice(s.AfterDelivery(after))
  {
  }

  // ---- disposal completes ----

  /** How many steps of the evaluation there can still be once disposal is requested. */
  function StepsLeft(pc: Pc): nat {
    match pc
    case Idle => 0
    case InCancel => 1
    case InSlice => 6
    case InTakeNotifications(_) => 5
    case AtNotification(_, _) => 4
    case AtInput => 3
    case AtPauseHandler(_) => 3
    case _ => 2
  }

  function Work(s: State): nat {
    StepsLeft(s.pc) + s.facadeCalls + s.stopCalls
  }

  /** An await the disposal signal rejects. */
  predicate IsRejected(pc: Pc) {
    pc.AtInput? || pc.AtPauseHandler? || (pc.AtNotification? && pc.remaining > 0)
  }

  /** A call in progress returns, or the current await settles, as it does after a disposal request. */
  predicate Winds(s: State, action: Action) {
    match action
    case CallReturns => s.facadeCalls > 0
    case CallOfStopReturns => s.stopCalls > 0
    case CoreReturns(_, _, _, _) => s.pc.InCore()
    case AwaitSettles(ok, _) => s.pc != Idle && !s.pc.InCore() && (IsRejected(s.pc) ==> !ok)
    case _ => false
  }

  ghost predicate AllWind(s: State, actions: seq<Action>)
    decreases |actions|
  {
    actions == [] || (Winds(s, actions[0]) && AllWind(s.Step(actions[0]), actions[1..]))
  }

  lemma FinallyWinds(s: State)
    requires s.disposeRequested
    ensures StepsLeft(s.Finally().pc) <= 1 && s.Finally().disposeRequested
    ensures s.Finally().facadeCalls == s.facadeCalls && s.Finally().stopCalls == s.stopCalls
  {
  }

  /** Only the evaluation moves. */
  predicate OnlyPc(s: State, t: State, most: nat) {
    t.disposeRequested && t.facadeCalls == s.facadeCalls && t.stopCalls == s.stopCalls && StepsLeft(t.pc) <= most
  }

  lemma AfterDeliveryWinds(s: State, after: After)
    requires s.disposeRequested && s.session
    ensures OnlyPc(s, s.AfterDelivery(after), 3)
  {
    if after.AfterReady? {
      FinallyWinds(s.(finished := true).Emit(Finished));
    }
  }

  lemma SliceWinds(s: State, status: Status)
    requires s.disposeRequested && s.session
    ensures OnlyPc(s, s.SliceReturned(status), 5)
  {
    match status
    case Ready => DeliverWinds(s, AfterReady);
    case Yielded => DeliverWinds(s, AfterYielded);
    case Paused(skipped) =>
      var paused := s.debugger.Pause(skipped);
      DeliverWinds(s.(debugger := paused), AfterPaused(paused.pending.value));
    case AwaitingInput(_) =>
    case Unknown => FinallyWinds(s);
  }

  lemma DeliverWinds(s: State, after: After)
    requires s.disposeRequested && s.session
    ensures OnlyPc(s, s.Deliver(after), 5)
  {
  }

  lemma LoopWinds(s: State, at: Pc, ok: bool, aborted: bool)
    requires s.disposeRequested
    ensures OnlyPc(s, s.ContinueLoop(at, ok, aborted), 1)
    ensures OnlyPc(s, s.StartReturned(aborted), 1)
  {
    var t := if at.InResumeHandled? then s.(activePauseId := None) else s;
    FinallyWinds(t);
    FinallyWinds(t.Resumed(at));
    FinallyWinds(s.(started := true, debugger := s.debugger.Resume()).Emit(Started));
  }

  lemma ContinueWinds(s: State, at: Pc, ok: bool, status: Status, notifications: nat, aborted: bool)
    requires s.disposeRequested && s.session && at.InCore()
    ensures OnlyPc(s, s.Continue(at, ok, status, notifications, aborted), StepsLeft(at) - 1)
  {
    FinallyWinds(s);
    match at
    case InSlice => SliceWinds(s, status);
    case InTakeNotifications(_) =>
    case InCancel =>
    case _ => LoopWinds(s, at, ok, aborted);
  }

  lemma SettledWinds(s: State, ok: bool, aborted: bool)
    requires s.disposeRequested && s.session && Winds(s, AwaitSettles(ok, aborted))
    ensures OnlyPc(s, s.Settled(ok, aborted), StepsLeft(s.pc) - 1)
  {
    FinallyWinds(s);
    FinallyWinds(s.(activePauseId := None));
    if s.pc.AtNotification? {
      AfterDeliveryWinds(s, s.pc.after);
    }
  }

  lemma LeaveWinds(s: State)
    requires Inv(s) && s.pc.InCore()
    ensures OnlyPc(s, s.Leave(), StepsLeft(s.pc)) || !s.disposeRequested
    ensures s.Leave().session
  {
  }

  /** Every step that winds leaves less to do. */
  lemma WindsDown(s: State, action: Action)
    requires Inv(s) && s.disposeRequested && Winds(s, action)
    ensures s.Step(action).disposeRequested && Work(s.Step(action)) < Work(s)
  {
    match action
    case CoreReturns(ok, status, notifications, aborted) =>
      LeaveWinds(s);
      ContinueWinds(s.Leave(), s.pc, ok, status, notifications, aborted);
    case AwaitSettles(ok, aborted) => SettledWinds(s, ok, aborted);
    case _ =>
  }

  lemma NothingLeftIsFreed(s: State)
    requires Inv(s) && s.disposeRequested
    requires !Winds(s, CallReturns) && !Winds(s, CallOfStopReturns)
    requires !Winds(s, CoreReturns(true, Ready, 0, false)) && !Winds(s, AwaitSettles(false, false))
    ensures !s.session
  {
  }

  lemma {:induction false} WindingEnds(s: State, actions: seq<Action>)
    requires Inv(s) && s.disposeRequested && AllWind(s, actions)
    ensures var end := s.Run(actions);
      |actions| + Work(end) <= Work(s) && Inv(end) && end.disposeRequested
    decreases |actions|
  {
    if actions != [] {
      StepKeepsInv(s, actions[0]);
      WindsDown(s, actions[0]);
      WindingEnds(s.Step(actions[0]), actions[1..]);
    }
  }

  /**
   Once disposal is requested, calls returning and awaits settling come to an end within six steps
   and one for each call in progress, whatever the core answers; and when none is left, the session
   has been freed.
   */
  lemma DisposalCompletes(before: seq<Action>, actions: seq<Action>)
    requires NEW_SESSION.Run(before).disposeRequested && AllWind(NEW_SESSION.Run(before), actions)
    ensures var s := NEW_SESSION.Run(before);
      && |actions| <= 6 + s.facadeCalls + s.stopCalls
      && ((forall action :: !Winds(s.Run(actions), action)) ==> !s.Run(actions).session)
  {
    var s := NEW_SESSION.Run(before);
    RunKeepsInv(NEW_SESSION, before);
    WindingEnds(s, actions);
    if forall action :: !Winds(s.Run(actions), action) {
      NothingLeftIsFreed(s.Run(actions));
    }
  }

  // ---- the class ----

  class WasmWqSession {
    var session: bool
    var activeCalls: nat
    var activeEvaluation: bool
    var activePauseId: Option<nat>
    var disposeRequested: bool
    // the suspended evaluation
    var pc: Pc
    var options: Options
    var started: bool
    var finished: bool
    // calls in progress and stops handed out
    var facadeCalls: nat
    var stopCalls: nat
    var pauses: seq<nat>
    ghost var trace: Trace
    // the core's part
    var debugger: Debugger

    ghost function Now(): State
      reads this
    {
      State(session, activeCalls, activeEvaluation, activePauseId, disposeRequested,
            pc, options, started, finished, facadeCalls, stopCalls, pauses, trace, debugger)
    }

    constructor ()
      ensures Now() == NEW_SESSION
    {
      session := true;
      activeCalls := 0;
      activeEvaluation := false;
      activePauseId := None;
      disposeRequested := false;
      pc := Idle;
      options := Options(false, false);
      started := false;
      finished := false;
      facadeCalls := 0;
      stopCalls := 0;
      pauses := [];
      trace := Silence;
      debugger := Debugger(0, None);
    }

    method FlushDisposal()
      modifies this
      ensures Now() == old(Now().FlushDisposal())
    {
      if !disposeRequested || activeCalls != 0 || activeEvaluation || !session {
        return;
      }
      session := false;
      trace := Then(trace, Freed);
    }

    method Dispose()
      modifies this
      ensures Now() == old(Now().RequestFree())
    {
      if !session {
        return;
      }
      disposeRequested := true;
      FlushDisposal();
    }

    method Enter(ghost event: Event)
      modifies this
      ensures Now() == old(Now().Enter(event))
    {
      activeCalls := activeCalls + 1;
      trace := Then(trace, event);
    }

    method Leave()
      modifies this
      ensures Now() == old(Now().Leave())
    {
      trace := Then(trace, Returned);
      activeCalls := if activeCalls > 0 then activeCalls - 1 else 0;
      FlushDisposal();
    }

    method Call(name: string) returns (entered: bool)
      modifies this
      ensures Now() == old(Now().Call(name))
      ensures entered == old(session && !disposeRequested && !activeEvaluation)
    {
      if !session || disposeRequested {
        return false;
      }
      if activeEvaluation {
        return false;
      }
      facadeCalls := facadeCalls + 1;
      Enter(Entered(name));
      return true;
    }

    method StopCall(stop: nat, name: string) returns (entered: bool)
      modifies this
      ensures Now() == old(Now().StopCall(stop, name))
      ensures entered == old(stop < |pauses| && activePauseId == Some(pauses[stop]) && session)
    {
      if stop >= |pauses| || activePauseId != Some(pauses[stop]) {
        return false;
      }
      if !session {
        return false;
      }
      stopCalls := stopCalls + 1;
      Enter(Entered(name));
      return true;
    }

    method EndEvaluation()
      modifies this
      ensures Now() == old(Now().EndEvaluation())
    {
      pc := Idle;
      activePauseId := None;
      activeEvaluation := false;
      FlushDisposal();
    }

    method Finally()
      modifies this
      ensures Now() == old(Now().Finally())
    {
      if started && !finished && session {
        pc := InCancel;
        Enter(CancelEntered);
      } else {
        EndEvaluation();
      }
    }

    method EvaluationCall(name: string, next: Pc)
      modifies this
      ensures Now() == old(Now().EvaluationCall(Entered(name), next))
    {
      if !session {
        Finally();
      } else {
        pc := next;
        Enter(Entered(name));
      }
    }

    method EvalWqAsync(given: Options, valid: bool, aborted: bool)
      modifies this
      ensures Now() == old(Now().Begin(given, valid, aborted))
    {
      if !session || disposeRequested || activeEvaluation || !valid {
        return;
      }
      activeEvaluation := true;
      started := false;
      finished := false;
      options := given;
      if aborted {
        Finally();
      } else {
        EvaluationCall("start_eval_wq_named", InStart);
      }
    }

    method LoopTop(aborted: bool)
      modifies this
      ensures Now() == old(Now().LoopTop(aborted))
    {
      if disposeRequested || aborted {
        Finally();
      } else {
        EvaluationCall("run_eval_wq_slice", InSlice);
      }
    }

    method AfterDelivery(after: After)
      modifies this
      ensures Now() == old(Now().AfterDelivery(after))
    {
      match after {
        case AfterReady =>
          finished := true;
          trace := Then(trace, Finished);
          Finally();
        case AfterYielded => pc := AtYield;
        case AfterPaused(id) =>
          if options.onPause {
            activePauseId := Some(id);
            pauses := pauses + [id];
            pc := AtPauseHandler(id);
          } else {
            EvaluationCall("resume_eval_wq_debugger", InResumeUnhandled);
          }
      }
    }

    method Deliver(after: After)
      modifies this
      ensures Now() == old(Now().Deliver(after))
    {
      if !options.onNotification {
        pc := AtNotification(after, 0);
      } else {
        EvaluationCall("take_debugger_notifications", InTakeNotifications(after));
      }
    }

    method Notified(after: After, remaining: nat, ok: bool)
      modifies this
      ensures Now() == old(Now().Notified(after, remaining, ok))
    {
      if remaining > 0 && !ok {
        Finally();
      } else if remaining > 1 {
        pc := AtNotification(after, remaining - 1);
      } else {
        AfterDelivery(after);
      }
    }

    method SlicePaused(skipped: nat)
      modifies this
      ensures Now() == old(Now().SlicePaused(skipped))
    {
      EnterPause(skipped);
      Deliver(AfterPaused(debugger.pending.value));
    }

    method EnterPause(skipped: nat)
      modifies this
      ensures Now() == old(Now().(debugger := debugger.Pause(skipped)))
    {
      debugger := debugger.Pause(skipped);
    }

    method SliceReturned(status: Status)
      modifies this
      ensures Now() == old(Now().SliceReturned(status))
    {
      match status {
        case Ready => Deliver(AfterReady);
        case Yielded => Deliver(AfterYielded);
        case Paused(skipped) => SlicePaused(skipped);
        case AwaitingInput(hasCallback) =>
          if hasCallback {
            pc := AtInput;
          } else {
            EvaluationCall("resume_eval_wq_input", InResumeInput);
          }
        case Unknown => Finally();
      }
    }

    method CoreReturned(ok: bool, status: Status, notifications: nat, aborted: bool)
      modifies this
      ensures Now() == old(Now().CoreReturned(ok, status, notifications, aborted))
    {
      var at := pc;
      Leave();
      Continue(at, ok, status, notifications, aborted);
    }

    method Continue(at: Pc, ok: bool, status: Status, notifications: nat, aborted: bool)
      modifies this
      ensures Now() == old(Now().Continue(at, ok, status, notifications, aborted))
    {
      match at {
        case InCancel => EndEvaluation();
        case InStart =>
          if ok {
            StartReturned(aborted);
          } else {
            Finally();
          }
        case InSlice =>
          if ok {
            SliceReturned(status);
          } else {
            Finally();
          }
        case InTakeNotifications(after) =>
          if ok {
            pc := AtNotification(after, notifications);
          } else {
            Finally();
          }
        case _ => ContinueLoop(at, ok, aborted);
      }
    }

    method StartReturned(aborted: bool)
      modifies this
      ensures Now() == old(Now().StartReturned(aborted))
    {
      started := true;
      debugger := debugger.Resume();
      trace := Then(trace, Started);
      LoopTop(aborted);
    }

    method ContinueLoop(at: Pc, ok: bool, aborted: bool)
      modifies this
      ensures Now() == old(Now().ContinueLoop(at, ok, aborted))
    {
      if at.InResumeHandled? {
        EndPause();
      }
      if ok {
        Resumed(at);
        LoopTop(aborted);
      } else {
        Finally();
      }
    }

    method EndPause()
      modifies this
      ensures Now() == old(Now().(activePauseId := None))
    {
      activePauseId := None;
    }

    method Resumed(at: Pc)
      modifies this
      ensures Now() == old(Now().Resumed(at))
    {
      if at.InResumeHandled? || at.InResumeUnhandled? {
        debugger := debugger.Resume();
      }
    }

    method Settled(ok: bool, aborted: bool)
      modifies this
      ensures Now() == old(Now().Settled(ok, aborted))
    {
      match pc {
        case AtNotification(after, remaining) => Notified(after, remaining, ok);
        case AtInput =>
          if !ok && (disposeRequested || aborted) {
            Finally();
          } else {
            EvaluationCall("resume_eval_wq_input", InResumeInput);
          }
        case AtPauseHandler(id) =>
          if ok {
            EvaluationCall("resume_eval_wq_debugger", InResumeHandled(id));
          } else {
            activePauseId := None;
            Finally();
          }
        case AtYield => LoopTop(aborted);
        case _ =>
      }
    }

    method ReturnFromCall()
      modifies this
      ensures Now() == old(Now().Step(CallReturns))
    {
      if facadeCalls > 0 {
        facadeCalls := facadeCalls - 1;
        Leave();
      }
    }

    method ReturnFromStopCall()
      modifies this
      ensures Now() == old(Now().Step(CallOfStopReturns))
    {
      if stopCalls > 0 {
        stopCalls := stopCalls - 1;
        Leave();
      }
    }

    method Perform(action: Action)
      modifies this
      ensures Now() == old(Now().Step(action))
    {
      match action {
        case Free => Dispose();
        case CallMethod(name) => var _ := Call(name);
        case CallReturns => ReturnFromCall();
        case CallOfStop(stop, name) => var _ := StopCall(stop, name);
        case CallOfStopReturns => ReturnFromStopCall();
        case EvalAsync(given, valid, aborted) => EvalWqAsync(given, valid, aborted);
        case CoreReturns(ok, status, notifications, aborted) =>
          if pc.InCore() {
            CoreReturned(ok, status, notifications, aborted);
          }
        case AwaitSettles(ok, aborted) => Settled(ok, aborted);
      }
    }
  }
}
