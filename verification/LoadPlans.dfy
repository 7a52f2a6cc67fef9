/**
 A load as its files alone determine it: a plan of what happens in which order, and a flat session
 that performs it.  The recursive loader does neither more nor less than performing its plan.
 */
module LoadPlans {
  import opened Loading
  import opened Wrappers

  /** What a load comes to, in order, as long as nothing stops it before. */
  datatype Event =
    | Gives(fragment: Fragment, stack: seq<string>)
    | Warns(text: string)
    | Loads(title: string)
    | Stops(error: LoadError)

  // ---- the plan ----

  /** The events of a script, and the embedded scripts loaded behind it. */
  function PlanScript(w: World, context: Context, path: string, loaded: set<string>): (seq<Event>, set<string>)
    requires w.Valid()
    decreases w.Unloaded(context.loading), 0, 0, 0
  {
    var canonical := w.canonical(path);
    if canonical in context.loading then ([Stops(LoadError(Cycle(canonical), context.stack))], loaded)
    else if canonical !in w.files then ([Stops(LoadError(Io(path), context.stack))], loaded)
    else
      EnteringUnloads(w, context.loading, canonical);
      PlanItems(w, context.Enter(canonical, path), path, w.parent(path), w.files[canonical], loaded)
  }

  /** The items in order. */
  function PlanItems(w: World, context: Context, title: string, dir: string, items: seq<Item>, loaded: set<string>):
    (seq<Event>, set<string>)
    requires w.Valid()
    decreases w.Unloaded(context.loading), Rank(items), |items|, 2
  {
    if items == [] then ([], loaded)
    else
      var (first, between) := PlanItem(w, context, title, dir, items[0], loaded);
      var (others, after) := PlanItems(w, context, title, dir, items[1..], between);
      (first + others, after)
  }

  /** Code that is not blank is given to the session; a directive loads in its place. */
  function PlanItem(w: World, context: Context, title: string, dir: string, item: Item, loaded: set<string>):
    (seq<Event>, set<string>)
    requires w.Valid()
    decreases w.Unloaded(context.loading), if item.Meta? then 1 else 0, 0, 1
  {
    match item
    case Shebang => ([], loaded)
    case Code(text) => (if IsBlank(text) then [] else [Gives(Fragment(title, dir, text), context.stack)], loaded)
    case Meta(Unknown(text)) => ([Stops(LoadError(UnknownDirective(text), context.stack))], loaded)
    case Meta(LoadPath(path)) => PlanNested(w, context, w.resolve(dir, path), loaded)
    case Meta(PreludeAlias) => PlanNamed(w, context, dir, "prelude", loaded)
    case Meta(LoadEmbeddedOrFile(name)) => PlanNamed(w, context, dir, name, loaded)
  }

  /** The embedded script of that name, unless it was loaded before; a file if there is none, with a warning. */
  function PlanNamed(w: World, context: Context, dir: string, name: string, loaded: set<string>):
    (seq<Event>, set<string>)
    requires w.Valid()
    decreases w.Unloaded(context.loading), 1, 0, 0
  {
    match w.lookupEmbedded(name)
    case None =>
      var (events, after) := PlanNested(w, context, w.resolve(dir, name), loaded);
      ([Warns(Fallback(name))] + events, after)
    case Some(script) => PlanEmbedded(w, context, dir, script, loaded)
  }

  function PlanEmbedded(w: World, context: Context, dir: string, script: EmbeddedScript, loaded: set<string>):
    (seq<Event>, set<string>)
    requires w.Valid() && !HasDirective(script.items)
    decreases w.Unloaded(context.loading), 0, |script.items|, 3
  {
    var title := script.virtualName;
    if title in loaded then ([], loaded)
    else
      var (events, after) := PlanItems(w, context.Push(title), title, dir, script.items, loaded);
      ([Loads(title)] + Inner(events), after + {title})
  }

  function PlanNested(w: World, context: Context, path: string, loaded: set<string>): (seq<Event>, set<string>)
    requires w.Valid()
    decreases w.Unloaded(context.loading), 0, 0, 1
  {
    var (events, after) := PlanScript(w, context, path, loaded);
    ([Loads(path)] + Inner(events), after)
  }

  /** What is loaded further down does not give its name to anything here. */
  function Inner(events: seq<Event>): seq<Event> {
    if events == [] then []
    else (if events[0].Loads? then [] else [events[0]]) + Inner(events[1..])
  }

  // ---- performing it ----

  /** What was given to the session, and what it came to. */
  datatype Performance = Performance(given: seq<Fragment>, outcome: Outcome)

  /** The events in order, until the session is halted, a fragment raises or the plan stops. */
  function Perform(w: World, given: seq<Fragment>, p: Progress, events: seq<Event>): Performance
    decreases |events|
  {
    if events == [] || w.halted(given) then Performance(given, Done(p))
    else
      match events[0]
      case Stops(error) => Performance(given, Failed(error))
      case Warns(text) => Perform(w, given, p.(warnings := p.warnings + [text]), events[1..])
      case Loads(title) => Perform(w, given, p.(last := Some(title)), events[1..])
      case Gives(fragment, stack) =>
        var more := given + [fragment];
        match w.evaluate(more)
        case Raised(failure) => Performance(more, Failed(LoadError(Eval(fragment.title, failure), stack)))
        case Returned(value) => Perform(w, more, p.(value := Some(value)), events[1..])
  }

  /** Nothing comes behind a failure or a halt. */
  function Continued(w: World, first: Performance, events: seq<Event>): Performance {
    match first.outcome
    case Failed(_) => first
    case Done(p) => Perform(w, first.given, p, events)
  }

  lemma {:induction false} PerformConcat(w: World, given: seq<Fragment>, p: Progress, a: seq<Event>, b: seq<Event>)
    ensures Perform(w, given, p, a + b) == Continued(w, Perform(w, given, p, a), b)
    decreases |a|
  {
    if a == [] {
      assert a + b == b;
    } else if !w.halted(given) {
      assert (a + b)[1..] == a[1..] + b;
      match a[0] {
        case Stops(_) =>
        case Warns(text) => PerformConcat(w, given, p.(warnings := p.warnings + [text]), a[1..], b);
        case Loads(title) => PerformConcat(w, given, p.(last := Some(title)), a[1..], b);
        case Gives(fragment, _) =>
          var more := given + [fragment];
          if w.evaluate(more).Returned? {
            PerformConcat(w, more, p.(value := Some(w.evaluate(more).value)), a[1..], b);
          }
      }
    }
  }

  /** Behind what there was before. */
  function Behind(p: Progress, r: Performance): Performance {
    match r.outcome
    case Failed(_) => r
    case Done(child) => r.(outcome := Done(p.Then(child)))
  }

  lemma ThenAssoc(p: Progress, q: Progress, r: Progress)
    ensures p.Then(q).Then(r) == p.Then(q.Then(r))
  {
    assert p.warnings + q.warnings + r.warnings == p.warnings + (q.warnings + r.warnings);
  }

  lemma {:induction false} PerformBehind(w: World, given: seq<Fragment>, p: Progress, q: Progress, events: seq<Event>)
    ensures Perform(w, given, p.Then(q), events) == Behind(p, Perform(w, given, q, events))
    decreases |events|
  {
    if events != [] && !w.halted(given) {
      match events[0] {
        case Stops(_) =>
        case Warns(text) =>
          ThenAssoc(p, q, Progress(None, [text], None));
          PerformBehind(w, given, p, q.(warnings := q.warnings + [text]), events[1..]);
        case Loads(title) => PerformBehind(w, given, p, q.(last := Some(title)), events[1..]);
        case Gives(fragment, _) =>
          var more := given + [fragment];
          if w.evaluate(more).Returned? {
            PerformBehind(w, more, p, q.(value := Some(w.evaluate(more).value)), events[1..]);
          }
      }
    }
  }

  lemma PerformBehindAll(w: World, given: seq<Fragment>, p: Progress, events: seq<Event>)
    ensures Perform(w, given, p, events) == Behind(p, Perform(w, given, NOTHING, events))
  {
    assert p.warnings + [] == p.warnings;
    assert p.Then(NOTHING) == p;
    PerformBehind(w, given, p, NOTHING, events);
  }

  /** The name of the script loaded, whatever is loaded further down. */
  function Named(title: string, r: Performance): Performance {
    match r.outcome
    case Failed(_) => r
    case Done(p) => r.(outcome := Done(p.(last := Some(title))))
  }

  lemma {:induction false} PerformInner(w: World, given: seq<Fragment>, p: Progress, title: string, events: seq<Event>)
    ensures Perform(w, given, p.(last := Some(title)), Inner(events)) == Named(title, Perform(w, given, p, events))
    decreases |events|
  {
    if events != [] {
      var inner := (if events[0].Loads? then [] else [events[0]]) + Inner(events[1..]);
      assert events[0].Loads? ==> inner == Inner(events[1..]);
      assert !events[0].Loads? ==> inner[1..] == Inner(events[1..]);
      if !w.halted(given) {
        match events[0] {
          case Stops(_) =>
          case Warns(text) => PerformInner(w, given, p.(warnings := p.warnings + [text]), title, events[1..]);
          case Loads(other) => PerformInner(w, given, p.(last := Some(other)), title, events[1..]);
          case Gives(fragment, _) =>
            var more := given + [fragment];
            if w.evaluate(more).Returned? {
              PerformInner(w, more, p.(value := Some(w.evaluate(more).value)), title, events[1..]);
            }
        }
      }
    }
  }

  // ---- the recursive loader performs the plan ----

  /** The same fragments and the same outcome; the registry too, unless something stopped it. */
  ghost predicate Agrees(w: World, r: Ending, flat: Performance, after: set<string>) {
    && r.state.executed == flat.given
    && r.outcome == flat.outcome
    && (r.outcome.Done? && !w.halted(flat.given) ==> r.state.loaded == after)
  }

  /** The script exists and is not being loaded. */
  predicate Opens(w: World, context: Context, path: string) {
    w.canonical(path) !in context.loading && w.canonical(path) in w.files
  }

  lemma OpenedPlan(w: World, context: Context, path: string, loaded: set<string>)
    requires w.Valid() && Opens(w, context, path)
    ensures var canonical := w.canonical(path);
      PlanScript(w, context, path, loaded)
      == PlanItems(w, context.Enter(canonical, path), path, w.parent(path), w.files[canonical], loaded)
  {
  }

  lemma OpenedLoad(w: World, context: Context, path: string, s: State)
    requires w.Valid() && Opens(w, context, path)
    ensures var canonical := w.canonical(path);
      var r := RunItems(w, context.Enter(canonical, path), path, w.parent(path), w.files[canonical], s, NOTHING);
      LoadScript(w, context, path, s) ==
      if r.outcome.Failed? then r else r.(outcome := Done(r.outcome.progress.(last := Some(path))))
  {
  }

  lemma ClosedLoad(w: World, context: Context, path: string, s: State)
    requires w.Valid() && !Opens(w, context, path) && !w.halted(s.executed)
    ensures var (events, after) := PlanScript(w, context, path, s.loaded);
      Agrees(w, LoadScript(w, context, path, s), Named(path, Perform(w, s.executed, NOTHING, events)), after)
  {
  }

  /** A load performs the plan of its script, and is named after it. */
  lemma {:induction false} LoadPerformsPlan(w: World, context: Context, path: string, s: State)
    requires w.Valid() && (Opens(w, context, path) || !w.halted(s.executed))
    ensures var (events, after) := PlanScript(w, context, path, s.loaded);
      Agrees(w, LoadScript(w, context, path, s), Named(path, Perform(w, s.executed, NOTHING, events)), after)
    decreases w.Unloaded(context.loading), 0, 0, 0
  {
    if Opens(w, context, path) {
      var canonical := w.canonical(path);
      var inner := context.Enter(canonical, path);
      EnteringUnloads(w, context.loading, canonical);
      ItemsPerformPlan(w, inner, path, w.parent(path), w.files[canonical], s, NOTHING);
      OpenedPlan(w, context, path, s.loaded);
      OpenedLoad(w, context, path, s);
    } else {
      ClosedLoad(w, context, path, s);
    }
  }

  lemma {:induction false} ItemsPerformPlan(w: World, context: Context, title: string, dir: string,
                                            items: seq<Item>, s: State, p: Progress)
    requires w.Valid()
    ensures var (events, after) := PlanItems(w, context, title, dir, items, s.loaded);
      Agrees(w, RunItems(w, context, title, dir, items, s, p), Perform(w, s.executed, p, events), after)
    decreases w.Unloaded(context.loading), Rank(items), |items|, 2
  {
    if items != [] && !w.halted(s.executed) {
      var (events, between) := PlanItem(w, context, title, dir, items[0], s.loaded);
      var (others, after) := PlanItems(w, context, title, dir, items[1..], between);
      var first := RunItem(w, context, title, dir, items[0], s);
      ItemPerformsPlan(w, context, title, dir, items[0], s);
      PerformConcat(w, s.executed, p, events, others);
      PerformBehindAll(w, s.executed, p, events);
      if first.outcome.Done? {
        ItemsPerformPlan(w, context, title, dir, items[1..], first.state, p.Then(first.outcome.progress));
      }
    }
  }

  lemma {:induction false} ItemPerformsPlan(w: World, context: Context, title: string, dir: string,
                                            item: Item, s: State)
    requires w.Valid() && !w.halted(s.executed)
    ensures var (events, after) := PlanItem(w, context, title, dir, item, s.loaded);
      Agrees(w, RunItem(w, context, title, dir, item, s), Perform(w, s.executed, NOTHING, events), after)
    decreases w.Unloaded(context.loading), if item.Meta? then 1 else 0, 0, 1
  {
    match item {
      case Shebang =>
      case Code(text) =>
      case Meta(Unknown(text)) =>
      case Meta(LoadPath(path)) => NestedPerformsPlan(w, context, w.resolve(dir, path), s, []);
      case Meta(PreludeAlias) => NamedPerformsPlan(w, context, dir, "prelude", s);
      case Meta(LoadEmbeddedOrFile(name)) => NamedPerformsPlan(w, context, dir, name, s);
    }
  }

  /** A load inside another one, with the warnings that come before it. */
  function Nested(w: World, context: Context, path: string, s: State, warnings: seq<string>): Ending
    requires w.Valid()
  {
    var r := LoadScript(w, context, path, s);
    if r.outcome.Failed? then r
    else r.(outcome := Done(r.outcome.progress.(warnings := warnings + r.outcome.progress.warnings)))
  }

  lemma {:induction false} NestedPerformsPlan(w: World, context: Context, path: string, s: State, warnings: seq<string>)
    requires w.Valid() && !w.halted(s.executed)
    ensures var (events, after) := PlanNested(w, context, path, s.loaded);
      Agrees(w, Nested(w, context, path, s, warnings),
             Perform(w, s.executed, NOTHING.(warnings := warnings), events), after)
    decreases w.Unloaded(context.loading), 0, 0, 1
  {
    var (events, after) := PlanScript(w, context, path, s.loaded);
    LoadPerformsPlan(w, context, path, s);
    var p := NOTHING.(warnings := warnings);
    PerformBehindAll(w, s.executed, p, [Loads(path)] + Inner(events));
    assert ([Loads(path)] + Inner(events))[1..] == Inner(events);
    PerformInner(w, s.executed, NOTHING, path, events);
  }

  lemma {:induction false} NamedPerformsPlan(w: World, context: Context, dir: string, name: string, s: State)
    requires w.Valid() && !w.halted(s.executed)
    ensures var (events, after) := PlanNamed(w, context, dir, name, s.loaded);
      Agrees(w, RunDirective(w, context, dir, LoadEmbeddedOrFile(name), s),
             Perform(w, s.executed, NOTHING, events), after)
    decreases w.Unloaded(context.loading), 1, 0, 0
  {
    match w.lookupEmbedded(name) {
      case None =>
        var path := w.resolve(dir, name);
        var (events, _) := PlanNested(w, context, path, s.loaded);
        NestedPerformsPlan(w, context, path, s, [Fallback(name)]);
        assert ([Warns(Fallback(name))] + events)[1..] == events;
        assert [] + [Fallback(name)] == [Fallback(name)];
      case Some(script) => EmbeddedPerformsPlan(w, context, dir, script, s);
    }
  }

  lemma {:induction false} EmbeddedPerformsPlan(w: World, context: Context, dir: string, script: EmbeddedScript,
                                                s: State)
    requires w.Valid() && !HasDirective(script.items) && !w.halted(s.executed)
    ensures var (events, after) := PlanEmbedded(w, context, dir, script, s.loaded);
      Agrees(w, RunEmbedded(w, context, dir, script, s), Perform(w, s.executed, NOTHING, events), after)
    decreases w.Unloaded(context.loading), 0, |script.items|, 3
  {
    var title := script.virtualName;
    if title !in s.loaded {
      var (events, _) := PlanItems(w, context.Push(title), title, dir, script.items, s.loaded);
      ItemsPerformPlan(w, context.Push(title), title, dir, script.items, s.(begun := s.begun + [title]), NOTHING);
      assert ([Loads(title)] + Inner(events))[1..] == Inner(events);
      PerformInner(w, s.executed, NOTHING, title, events);
    }
  }

  // ---- which fragments the session is given ----

  /** The fragments of a plan, up to where it stops. */
  function Fragments(events: seq<Event>): seq<Fragment> {
    if events == [] || events[0].Stops? then []
    else (if events[0].Gives? then [events[0].fragment] else []) + Fragments(events[1..])
  }

  predicate Ends(events: seq<Event>) {
    exists k :: 0 <= k < |events| && events[k].Stops?
  }

  /** The first `k` fragments are given, and no more: it is the end of them, a halt or the first that raises. */
  ghost predicate GivenUpTo(w: World, given: seq<Fragment>, fragments: seq<Fragment>, k: nat) {
    && k <= |fragments|
    && (forall j :: 0 <= j < k ==> !w.halted(given + fragments[..j]))
    && (forall j :: 0 < j < k ==> w.evaluate(given + fragments[..j]).Returned?)
    && (k == |fragments| || w.halted(given + fragments[..k]) || Raises(w, given, fragments, k))
  }

  predicate Raises(w: World, given: seq<Fragment>, fragments: seq<Fragment>, k: nat)
    requires k <= |fragments|
  {
    k > 0 && w.evaluate(given + fragments[..k]).Raised?
  }

  /** What a performance gave, what it returned, and when it failed. */
  ghost predicate GivesUntilStopped(w: World, given: seq<Fragment>, value: Option<Value>, events: seq<Event>,
                                    executed: seq<Fragment>, outcome: Outcome) {
    var fragments := Fragments(events);
    && |given| <= |executed|
    && var k := |executed| - |given|;
       && GivenUpTo(w, given, fragments, k)
       && executed == given + fragments[..k]
       && (outcome.Failed? <==> Raises(w, given, fragments, k) || (!w.halted(executed) && Ends(events)))
       && (outcome.Done? ==> outcome.progress.value == if k == 0 then value else ValueOf(w.evaluate(executed)))
  }

  function ValueOf(e: Evaluation): Option<Value> {
    match e
    case Returned(value) => Some(value)
    case Raised(_) => None
  }

  lemma NothingGiven(w: World, given: seq<Fragment>, p: Progress, events: seq<Event>)
    requires events == [] || w.halted(given) || events[0].Stops?
    ensures var r := Perform(w, given, p, events);
      GivesUntilStopped(w, given, p.value, events, r.given, r.outcome)
  {
    assert given + Fragments(events)[..0] == given;
  }

  lemma PassedOver(w: World, given: seq<Fragment>, value: Option<Value>, events: seq<Event>, r: Performance)
    requires events != [] && (events[0].Warns? || events[0].Loads?)
    requires GivesUntilStopped(w, given, value, events[1..], r.given, r.outcome)
    ensures GivesUntilStopped(w, given, value, events, r.given, r.outcome)
  {
    EndsBehind(events);
    assert [] + Fragments(events[1..]) == Fragments(events[1..]);
  }

  lemma EndsBehind(events: seq<Event>)
    requires events != [] && !events[0].Stops?
    ensures Ends(events) <==> Ends(events[1..])
  {
    assert forall k :: 0 < k < |events| ==> events[k] == events[1..][k - 1];
  }

  lemma GivenFirst(w: World, given: seq<Fragment>, value: Option<Value>, events: seq<Event>, r: Performance)
    requires !w.halted(given) && events != [] && events[0].Gives?
    requires var more := given + [events[0].fragment];
      match w.evaluate(more)
      case Returned(v) => GivesUntilStopped(w, more, Some(v), events[1..], r.given, r.outcome)
      case Raised(_) => r.given == more && r.outcome.Failed?
    ensures GivesUntilStopped(w, given, value, events, r.given, r.outcome)
  {
    var fragment, others := events[0].fragment, Fragments(events[1..]);
    EndsBehind(events);
    if w.evaluate(given + [fragment]).Returned? {
      OneMoreGiven(w, given, fragment, others, |r.given| - |given| - 1);
    } else {
      LastGiven(w, given, fragment, others);
    }
  }

  lemma {:induction false} PerformGives(w: World, given: seq<Fragment>, p: Progress, events: seq<Event>)
    ensures var r := Perform(w, given, p, events);
      GivesUntilStopped(w, given, p.value, events, r.given, r.outcome)
    decreases |events|
  {
    if events == [] || w.halted(given) || events[0].Stops? {
      NothingGiven(w, given, p, events);
    } else {
      var r := Perform(w, given, p, events);
      match events[0] {
        case Warns(text) =>
          PerformGives(w, given, p.(warnings := p.warnings + [text]), events[1..]);
          PassedOver(w, given, p.value, events, r);
        case Loads(title) =>
          PerformGives(w, given, p.(last := Some(title)), events[1..]);
          PassedOver(w, given, p.value, events, r);
        case Gives(fragment, _) =>
          var more := given + [fragment];
          if w.evaluate(more).Returned? {
            PerformGives(w, more, p.(value := Some(w.evaluate(more).value)), events[1..]);
          }
          GivenFirst(w, given, p.value, events, r);
      }
    }
  }

  lemma OneMoreGiven(w: World, given: seq<Fragment>, fragment: Fragment, others: seq<Fragment>, k: nat)
    requires !w.halted(given) && w.evaluate(given + [fragment]).Returned?
    requires GivenUpTo(w, given + [fragment], others, k)
    ensures GivenUpTo(w, given, [fragment] + others, k + 1)
    ensures Raises(w, given, [fragment] + others, k + 1) == Raises(w, given + [fragment], others, k)
    ensures given + ([fragment] + others)[..k + 1] == given + [fragment] + others[..k]
  {
    var more, fragments := given + [fragment], [fragment] + others;
    forall j | 0 < j <= k + 1
      ensures given + fragments[..j] == more + others[..j - 1]
    {
      assert fragments[..j] == [fragment] + others[..j - 1];
    }
    assert given + fragments[..0] == given;
    assert more + others[..0] == more;
  }

  lemma LastGiven(w: World, given: seq<Fragment>, fragment: Fragment, others: seq<Fragment>)
    requires !w.halted(given) && w.evaluate(given + [fragment]).Raised?
    ensures GivenUpTo(w, given, [fragment] + others, 1) && Raises(w, given, [fragment] + others, 1)
    ensures given + ([fragment] + others)[..1] == given + [fragment]
  {
    assert ([fragment] + others)[..1] == [fragment] && given + ([fragment] + others)[..0] == given;
  }

  /**
   A script that can be opened gives to the session exactly the fragments of its plan in order, up to
   the first that raises or halts it; its value is what the last of them came to.
   */
  lemma LoadGivesItsFragments(w: World, context: Context, path: string, s: State)
    requires w.Valid() && Opens(w, context, path)
    ensures var r := LoadScript(w, context, path, s);
      GivesUntilStopped(w, s.executed, None, PlanScript(w, context, path, s.loaded).0, r.state.executed, r.outcome)
  {
    LoadPerformsPlan(w, context, path, s);
    PerformGives(w, s.executed, NOTHING, PlanScript(w, context, path, s.loaded).0);
  }
}
