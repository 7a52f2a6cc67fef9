/**
 How the browser session conducts itself towards the core, step by step and in every run: which
 calls get through, when a slice is entered, what ends an evaluation and how each answer of the core
 is answered.  Everything is said of the trace and of where the evaluation is.
 */
module SessionConduct {
  import opened Wrappers
  import opened SessionLifecycle

  /** The trace with some more events at its end. */
  function Plus(trace: Trace, events: seq<Event>): Trace
    decreases |events|
  {
    if events == [] then trace else Plus(Then(trace, events[0]), events[1..])
  }

  const ENTER_START := Entered("start_eval_wq_named")
  const ENTER_SLICE := Entered("run_eval_wq_slice")
  const ENTER_INPUT := Entered("resume_eval_wq_input")
  const ENTER_RESUME := Entered("resume_eval_wq_debugger")
  const ENTER_NOTIFICATIONS := Entered("take_debugger_notifications")

  /** From `s` to `t` the core saw just these events, and the evaluation went to `pc`. */
  predicate Goes(s: State, t: State, events: seq<Event>, pc: Pc) {
    t.trace == Plus(s.trace, events) && t.pc == pc
  }

  /** The evaluation is over, and the core is freed if that was waited for. */
  predicate Over(s: State, t: State, last: Event) {
    Goes(s, t, if s.disposeRequested && s.facadeCalls + s.stopCalls == 0 then [last, Freed] else [last], Idle)
  }

  lemma PlusMeans(trace: Trace)
    ensures forall a :: Plus(trace, [a]) == Then(trace, a)
    ensures forall a, b :: Plus(trace, [a, b]) == Then(Then(trace, a), b)
    ensures forall a, b, c :: Plus(trace, [a, b, c]) == Then(Then(Then(trace, a), b), c)
  {
    forall a
      ensures Plus(trace, [a]) == Then(trace, a)
    {
      assert [a][1..] == [];
    }
    forall a, b
      ensures Plus(trace, [a, b]) == Then(Then(trace, a), b)
    {
      assert [a, b][1..] == [b] && [b][1..] == [];
      assert Plus(Then(trace, a), [b]) == Then(Then(trace, a), b);
    }
    forall a, b, c
      ensures Plus(trace, [a, b, c]) == Then(Then(Then(trace, a), b), c)
    {
      assert [a, b, c][1..] == [b, c] && [b, c][1..] == [c] && [c][1..] == [];
      assert Plus(Then(Then(trace, a), b), [c]) == Then(Then(Then(trace, a), b), c);
      assert Plus(Then(trace, a), [b, c]) == Plus(Then(Then(trace, a), b), [c]);
    }
  }

  // ---- calls and disposal ----

  /** A facade call reaches the core exactly if there is one, it is not to go, and no evaluation runs. */
  lemma CallsReachTheIdleCore(before: seq<Action>, name: string)
    ensures var s := NEW_SESSION.Run(before);
      Goes(s, s.Step(CallMethod(name)),
           if s.session && !s.disposeRequested && s.pc == Idle then [Entered(name)] else [], s.pc)
  {
    RunKeepsInv(NEW_SESSION, before);
    PlusMeans(NEW_SESSION.Run(before).trace);
  }

  /** A disposal request is kept until nothing is active, and carried out then. */
  lemma FreeIsHonoured(before: seq<Action>)
    ensures var s := NEW_SESSION.Run(before);
      var t := s.Step(Free);
      && t.disposeRequested
      && (t.session <==> s.pc != Idle || s.activeCalls > 0)
      && Goes(s, t, if s.session && !t.session then [Freed] else [], s.pc)
  {
    RunKeepsInv(NEW_SESSION, before);
    PlusMeans(NEW_SESSION.Run(before).trace);
  }

  /** A call that returns is seen to return; the last one out disposes if that was requested. */
  lemma ReturnsDispose(before: seq<Action>)
    ensures var s := NEW_SESSION.Run(before);
      var last := s.disposeRequested && s.pc == Idle && s.activeCalls == 1;
      var events := if last then [Returned, Freed] else [Returned];
      && Goes(s, s.Step(CallReturns), if s.facadeCalls > 0 then events else [], s.pc)
      && Goes(s, s.Step(CallOfStopReturns), if s.stopCalls > 0 then events else [], s.pc)
  {
    RunKeepsInv(NEW_SESSION, before);
    PlusMeans(NEW_SESSION.Run(before).trace);
  }

  // ---- an evaluation ----

  /** An evaluation starts exactly if the core is idle, the options are valid and it is not aborted already. */
  lemma StartsIff(before: seq<Action>, options: Options, valid: bool, aborted: bool)
    ensures var s := NEW_SESSION.Run(before);
      var starts := s.session && !s.disposeRequested && s.pc == Idle && valid && !aborted;
      var t := s.Step(EvalAsync(options, valid, aborted));
      && Goes(s, t, if starts then [ENTER_START] else [], if starts then InStart else s.pc)
      && (starts ==> t.options == options)
  {
    RunKeepsInv(NEW_SESSION, before);
    PlusMeans(NEW_SESSION.Run(before).trace);
  }

  /** The step brings the evaluation to the top of its loop: it has started, yielded or resumed. */
  predicate ComesToTheTop(s: State, action: Action) {
    match action
    case CoreReturns(ok, _, _, _) =>
      ok && (s.pc.InStart? || s.pc.InResumeInput? || s.pc.InResumeHandled? || s.pc.InResumeUnhandled?)
    case AwaitSettles(_, _) => s.pc.AtYield?
    case _ => false
  }

  /** The abort signal as the step sees it. */
  predicate IsAborted(action: Action) {
    match action
    case CoreReturns(_, _, _, aborted) => aborted
    case AwaitSettles(_, aborted) => aborted
    case EvalAsync(_, _, aborted) => aborted
    case _ => false
  }

  /** What the core sees on the way to the top of the loop, and then the last event. */
  function OnTheWayTo(s: State, last: Event): seq<Event> {
    if s.pc.InStart? then [Returned, Started, last] else if s.pc.InCore() then [Returned, last] else [last]
  }

  /** What the top of the loop leads to. */
  predicate EntersOrCancels(s: State, action: Action, t: State) {
    if IsAborted(action) || s.disposeRequested then Goes(s, t, OnTheWayTo(s, CancelEntered), InCancel)
    else Goes(s, t, OnTheWayTo(s, ENTER_SLICE), InSlice)
  }

  lemma ReturnToTheTop(s: State, action: Action)
    requires Inv(s) && action.CoreReturns? && ComesToTheTop(s, action)
    ensures EntersOrCancels(s, action, s.Step(action))
  {
    LeaveIsMid(s);
    PlusMeans(s.trace);
  }

  lemma YieldToTheTop(s: State, action: Action)
    requires Inv(s) && action.AwaitSettles? && ComesToTheTop(s, action)
    ensures EntersOrCancels(s, action, s.Step(action))
  {
    PlusMeans(s.trace);
  }

  /**
   At the top of the loop a slice is entered exactly if neither the abort signal is set nor disposal
   was requested; otherwise the evaluation is cancelled, with nothing in between.
   */
  lemma AbortsCancel(before: seq<Action>, action: Action)
    requires ComesToTheTop(NEW_SESSION.Run(before), action)
    ensures var s := NEW_SESSION.Run(before);
      EntersOrCancels(s, action, s.Step(action))
  {
    RunKeepsInv(NEW_SESSION, before);
    if action.CoreReturns? {
      ReturnToTheTop(NEW_SESSION.Run(before), action);
    } else {
      YieldToTheTop(NEW_SESSION.Run(before), action);
    }
  }

  lemma NoOtherReturnEntersASlice(s: State, action: Action)
    requires Inv(s) && s.pc.InCore() && action.CoreReturns? && !ComesToTheTop(s, action)
    ensures s.Step(action).pc != InSlice
  {
    if s.pc != InCancel {
      LeaveIsMid(s);
    }
  }

  lemma EndingEntersNoSlice(s: State)
    ensures s.Finally().pc != InSlice
  {
  }

  lemma DeliveryEntersNoSlice(s: State, after: After)
    ensures s.AfterDelivery(after).pc != InSlice
  {
    EndingEntersNoSlice(s.(finished := true).Emit(Finished));
    EndingEntersNoSlice(s);
  }

  lemma NoOtherAwaitEntersASlice(s: State, action: Action)
    requires action.AwaitSettles? && s.pc != InSlice && !ComesToTheTop(s, action)
    ensures s.Step(action).pc != InSlice
  {
    EndingEntersNoSlice(s);
    EndingEntersNoSlice(s.(activePauseId := None));
    if s.pc.AtNotification? {
      DeliveryEntersNoSlice(s, s.pc.after);
    }
  }

  /** No other step enters a slice. */
  lemma SlicesAreEnteredAtTheTop(before: seq<Action>, action: Action)
    ensures var s := NEW_SESSION.Run(before);
      s.Step(action).pc == InSlice ==>
        || (s.pc == InSlice && !action.CoreReturns?)
        || (ComesToTheTop(s, action) && !IsAborted(action) && !s.disposeRequested)
  {
    RunKeepsInv(NEW_SESSION, before);
    var s := NEW_SESSION.Run(before);
    if ComesToTheTop(s, action) {
      AbortsCancel(before, action);
    } else if action.CoreReturns? && s.pc.InCore() {
      NoOtherReturnEntersASlice(s, action);
    } else if action.AwaitSettles? && s.pc != InSlice {
      NoOtherAwaitEntersASlice(s, action);
    }
  }

  /** A cancelled evaluation is over as soon as the core returns, whatever it answers; nothing else moves it. */
  lemma CancelEnds(before: seq<Action>, action: Action)
    requires NEW_SESSION.Run(before).pc == InCancel
    ensures var s := NEW_SESSION.Run(before);
      if action.CoreReturns? then Over(s, s.Step(action), Returned) && !s.Step(action).activeEvaluation
      else s.Step(action).pc == InCancel
  {
    RunKeepsInv(NEW_SESSION, before);
    PlusMeans(NEW_SESSION.Run(before).trace);
  }

  /** A core method that throws cancels the evaluation, unless it had not started or is being cancelled. */
  lemma FailuresCancel(before: seq<Action>, action: Action)
    requires NEW_SESSION.Run(before).pc.InCore() && action.CoreReturns? && !action.ok
    ensures var s := NEW_SESSION.Run(before);
      if s.pc == InStart || s.pc == InCancel then Over(s, s.Step(action), Returned)
      else Goes(s, s.Step(action), [Returned, CancelEntered], InCancel)
  {
    RunKeepsInv(NEW_SESSION, before);
    PlusMeans(NEW_SESSION.Run(before).trace);
  }

  // ---- the answers to a slice ----

  /** What the evaluation goes on with once notifications are delivered. */
  function AfterStatus(d: Debugger, status: Status): After {
    match status
    case Yielded => AfterYielded
    case Paused(skipped) => AfterPaused(d.nextId + skipped)
    case _ => AfterReady
  }

  /** How each status of a slice is answered. */
  predicate IsAnswered(s: State, status: Status, t: State) {
    match status
    case Unknown => Goes(s, t, [Returned, CancelEntered], InCancel)
    case AwaitingInput(hasCallback) =>
      if hasCallback then Goes(s, t, [Returned], AtInput) else Goes(s, t, [Returned, ENTER_INPUT], InResumeInput)
    case _ =>
      var after := AfterStatus(s.debugger, status);
      if s.options.onNotification then Goes(s, t, [Returned, ENTER_NOTIFICATIONS], InTakeNotifications(after))
      else Goes(s, t, [Returned], AtNotification(after, 0))
  }

  lemma StatusIsAnswered(s: State, status: Status)
    requires Inv(s) && s.pc == InSlice && s.debugger.pending.None?
    ensures IsAnswered(s, status, s.Leave().SliceReturned(status))
  {
    LeaveIsMid(s);
    PlusMeans(s.trace);
    var left := s.Leave();
    match status
    case Ready => DeliveryFollows(s, left, AfterReady);
    case Yielded => DeliveryFollows(s, left, AfterYielded);
    case Paused(skipped) =>
      var paused := s.debugger.Pause(skipped);
      DeliveryFollows(s, left.(debugger := paused), AfterPaused(paused.pending.value));
    case _ =>
  }

  lemma DeliveryFollows(s: State, left: State, after: After)
    requires left.trace == Then(s.trace, Returned) && left.session && left.options == s.options
    ensures var t := left.Deliver(after);
      if s.options.onNotification then Goes(s, t, [Returned, ENTER_NOTIFICATIONS], InTakeNotifications(after))
      else Goes(s, t, [Returned], AtNotification(after, 0))
  {
    PlusMeans(s.trace);
  }

  lemma SlicesAreAnswered(before: seq<Action>, status: Status, notifications: nat, aborted: bool)
    requires NEW_SESSION.Run(before).pc == InSlice
    ensures var s := NEW_SESSION.Run(before);
      IsAnswered(s, status, s.Step(CoreReturns(true, status, notifications, aborted)))
  {
    RunKeepsInv(NEW_SESSION, before);
    RunKeepsPauseInv(NEW_SESSION, before);
    StatusIsAnswered(NEW_SESSION.Run(before), status);
  }

  /** Where the evaluation goes once the notifications are delivered. */
  predicate GoesOn(s: State, t: State, after: After) {
    match after
    case AfterReady => Over(s, t, Finished)
    case AfterYielded => Goes(s, t, [], AtYield)
    case AfterPaused(id) =>
      if s.options.onPause then Goes(s, t, [], AtPauseHandler(id)) && t.pauses == s.pauses + [id]
      else Goes(s, t, [ENTER_RESUME], InResumeUnhandled)
  }

  /** Every notification taken is delivered before the evaluation goes on; a handler that throws cancels it. */
  lemma NotificationsAreDelivered(before: seq<Action>, ok: bool, aborted: bool)
    requires NEW_SESSION.Run(before).pc.AtNotification?
    ensures var s := NEW_SESSION.Run(before);
      var t := s.Step(AwaitSettles(ok, aborted));
      var left := s.pc.remaining;
      if left > 0 && !ok then Goes(s, t, [CancelEntered], InCancel)
      else if left > 1 then Goes(s, t, [], AtNotification(s.pc.after, left - 1))
      else GoesOn(s, t, s.pc.after)
  {
    RunKeepsInv(NEW_SESSION, before);
    PlusMeans(NEW_SESSION.Run(before).trace);
  }

  lemma NotificationsAreTaken(before: seq<Action>, status: Status, notifications: nat, aborted: bool)
    requires NEW_SESSION.Run(before).pc.InTakeNotifications?
    ensures var s := NEW_SESSION.Run(before);
      Goes(s, s.Step(CoreReturns(true, status, notifications, aborted)), [Returned],
           AtNotification(s.pc.after, notifications))
  {
    RunKeepsInv(NEW_SESSION, before);
    PlusMeans(NEW_SESSION.Run(before).trace);
  }

  /**
   Input is handed on, a failing callback as well, unless it failed because of an abort or a
   disposal; a handled pause is resumed, and a handler that throws cancels the evaluation.
   */
  lemma AwaitsAreAnswered(before: seq<Action>, ok: bool, aborted: bool)
    requires NEW_SESSION.Run(before).pc.AtInput? || NEW_SESSION.Run(before).pc.AtPauseHandler?
    ensures var s := NEW_SESSION.Run(before);
      var t := s.Step(AwaitSettles(ok, aborted));
      match s.pc
      case AtInput =>
        if ok || !(s.disposeRequested || aborted) then Goes(s, t, [ENTER_INPUT], InResumeInput)
        else Goes(s, t, [CancelEntered], InCancel)
      case AtPauseHandler(id) =>
        if ok then Goes(s, t, [ENTER_RESUME], InResumeHandled(id)) && t.activePauseId == Some(id)
        else Goes(s, t, [CancelEntered], InCancel) && t.activePauseId == None
      case _ => false
  {
    RunKeepsInv(NEW_SESSION, before);
    PlusMeans(NEW_SESSION.Run(before).trace);
  }

  /** A core method returns only where one was entered, an await settles only where there is one. */
  lemma OtherStepsLeaveTheEvaluation(before: seq<Action>, action: Action)
    ensures var s := NEW_SESSION.Run(before);
      match action
      case EvalAsync(_, _, _) => true
      case CoreReturns(_, _, _, _) => !s.pc.InCore() ==> s.Step(action) == s
      case AwaitSettles(_, _) => s.pc == Idle || s.pc.InCore() ==> s.Step(action) == s
      case _ => s.Step(action).pc == s.pc
  {
    RunKeepsInv(NEW_SESSION, before);
    PlusMeans(NEW_SESSION.Run(before).trace);
  }

  // ---- a host that aborts ----

  /** The action is a step of the evaluation. */
  predicate Moves(s: State, action: Action) {
    match action
    case CoreReturns(_, _, _, _) => s.pc.InCore()
    case AwaitSettles(_, _) => s.pc != Idle && !s.pc.InCore()
    case _ => false
  }

  /** The action under an abort signal that is set, which rejects what is awaited of the host. */
  predicate UnderAbort(s: State, action: Action) {
    match action
    case AwaitSettles(ok, aborted) => aborted && (IsRejected(s.pc) ==> !ok)
    case _ => !IsAborted(action) ==> !action.CoreReturns? && !action.EvalAsync?
  }

  ghost predicate AllUnderAbort(s: State, actions: seq<Action>)
    decreases |actions|
  {
    actions == [] || (UnderAbort(s, actions[0]) && AllUnderAbort(s.Step(actions[0]), actions[1..]))
  }

  function Moved(s: State, actions: seq<Action>): nat
    decreases |actions|
  {
    if actions == [] then 0 else (if Moves(s, actions[0]) then 1 else 0) + Moved(s.Step(actions[0]), actions[1..])
  }

  lemma ReturnMovesOn(before: seq<Action>, action: Action)
    requires NEW_SESSION.Run(before).pc.InCore() && action.CoreReturns? && action.aborted
    ensures var s := NEW_SESSION.Run(before);
      StepsLeft(s.Step(action).pc) < StepsLeft(s.pc)
  {
    var s := NEW_SESSION.Run(before);
    if !action.ok {
      FailuresCancel(before, action);
    } else if s.pc == InCancel {
      CancelEnds(before, action);
    } else if s.pc == InSlice {
      SlicesAreAnswered(before, action.status, action.notifications, action.aborted);
    } else if s.pc.InTakeNotifications? {
      NotificationsAreTaken(before, action.status, action.notifications, action.aborted);
    } else {
      AbortsCancel(before, action);
    }
  }

  lemma DeliveryMovesOn(before: seq<Action>, action: Action)
    requires NEW_SESSION.Run(before).pc.AtNotification? && action.AwaitSettles?
    requires UnderAbort(NEW_SESSION.Run(before), action)
    ensures var s := NEW_SESSION.Run(before);
      StepsLeft(s.Step(action).pc) < StepsLeft(s.pc)
  {
    NotificationsAreDelivered(before, action.ok, action.aborted);
  }

  lemma AwaitMovesOn(before: seq<Action>, action: Action)
    requires action.AwaitSettles? && Moves(NEW_SESSION.Run(before), action)
    requires UnderAbort(NEW_SESSION.Run(before), action)
    ensures var s := NEW_SESSION.Run(before);
      StepsLeft(s.Step(action).pc) < StepsLeft(s.pc)
  {
    var s := NEW_SESSION.Run(before);
    if s.pc.AtNotification? {
      DeliveryMovesOn(before, action);
    } else if s.pc.AtYield? {
      AbortsCancel(before, action);
    } else {
      AwaitsAreAnswered(before, action.ok, action.aborted);
    }
  }

  lemma AbortMovesOn(before: seq<Action>, action: Action)
    requires UnderAbort(NEW_SESSION.Run(before), action)
    ensures var s := NEW_SESSION.Run(before);
      StepsLeft(s.Step(action).pc) + (if Moves(s, action) then 1 else 0) <= StepsLeft(s.pc)
  {
    var s := NEW_SESSION.Run(before);
    OtherStepsLeaveTheEvaluation(before, action);
    match action {
      case CoreReturns(_, _, _, _) => if s.pc.InCore() { ReturnMovesOn(before, action); }
      case AwaitSettles(_, _) => if Moves(s, action) { AwaitMovesOn(before, action); }
      case EvalAsync(options, valid, aborted) => StartsIff(before, options, valid, aborted);
      case _ =>
    }
  }

  /**
   Once the host has aborted, whatever else it calls and whatever the core answers: the evaluation
   takes at most six more steps, none starts again, and where no step is left it is over.
   */
  lemma {:induction false} AbortCompletes(before: seq<Action>, actions: seq<Action>)
    requires AllUnderAbort(NEW_SESSION.Run(before), actions)
    ensures var s := NEW_SESSION.Run(before);
      && Moved(s, actions) + StepsLeft(s.Run(actions).pc) <= StepsLeft(s.pc) <= 6
      && (StepsLeft(s.Run(actions).pc) == 0 <==> s.Run(actions).pc == Idle)
    decreases |actions|
  {
    if actions != [] {
      var s := NEW_SESSION.Run(before);
      AbortMovesOn(before, actions[0]);
      RunSnoc(NEW_SESSION, before, actions[0]);
      AbortCompletes(before + [actions[0]], actions[1..]);
    }
  }

  lemma {:induction false} RunSnoc(s: State, actions: seq<Action>, action: Action)
    ensures s.Run(actions + [action]) == s.Run(actions).Step(action)
    decreases |actions|
  {
    if actions != [] {
      assert (actions + [action])[1..] == actions[1..] + [action];
      RunSnoc(s.Step(actions[0]), actions[1..], action);
    } else {
      assert [action][1..] == [] && [] + [action] == [action];
      assert s.Run([action]) == s.Step(action).Run([]);
    }
  }
}
