/**
 What loading says about the import graph.  The graph is static: an edge leads from a script to
 every file some directive in its text would load, whether or not that directive is reached.
 */
module ImportGraph {
  import opened Wrappers
  import opened Loading
  import LoadRuns

  predicate LoadedBy(w: World, dir: string, item: Item, path: string) {
    && item.Meta?
    && var target := TargetOf(w, dir, item.directive);
    && target.File? && target.path == path
  }

  ghost predicate Mentions(w: World, dir: string, items: seq<Item>, path: string) {
    exists k :: 0 <= k < |items| && LoadedBy(w, dir, items[k], path)
  }

  ghost predicate Edge(w: World, importer: string, path: string) {
    var canonical := w.canonical(importer);
    canonical in w.files && Mentions(w, w.parent(importer), w.files[canonical], path)
  }

  ghost predicate Route(w: World, start: string, route: seq<string>)
    decreases |route|
  {
    && route != [] && route[0] == start
    && (|route| > 1 ==> Edge(w, start, route[1]) && Route(w, route[1], route[1..]))
  }

  /** The same script, by canonical name, at two places of a route. */
  ghost predicate Repeats(w: World, route: seq<string>) {
    exists i, j :: 0 <= i < j < |route| && w.canonical(route[i]) == w.canonical(route[j])
  }

  ghost predicate Avoids(w: World, route: seq<string>, loading: set<string>) {
    forall k :: 0 <= k < |route| ==> w.canonical(route[k]) !in loading
  }

  ghost predicate AllExist(w: World, route: seq<string>) {
    forall k :: 0 <= k < |route| ==> w.canonical(route[k]) in w.files
  }

  // ---- success ----

  ghost predicate Completed(w: World, r: Ending) {
    r.outcome.Done? && !w.halted(r.state.executed)
  }

  lemma HaltedStays(w: World, context: Context, title: string, dir: string, items: seq<Item>, s: State, p: Progress)
    requires w.Valid()
    ensures w.halted(s.executed) ==> RunItems(w, context, title, dir, items, s, p) == Ending(Done(p), s)
  {
  }

  /** A script that ran to its end has successfully loaded every file it mentions. */
  lemma {:induction false} EveryMentionWasLoaded(w: World, context: Context, title: string, dir: string,
                                                 items: seq<Item>, s: State, p: Progress, path: string)
    returns (before: State)
    requires w.Valid() && Completed(w, RunItems(w, context, title, dir, items, s, p))
    requires Mentions(w, dir, items, path)
    ensures Completed(w, LoadScript(w, context, path, before))
    decreases |items|
  {
    var k :| 0 <= k < |items| && LoadedBy(w, dir, items[k], path);
    var rest, r := items[1..], RunItem(w, context, title, dir, items[0], s);
    HaltedStays(w, context, title, dir, rest, r.state, p.Then(r.outcome.progress));
    if k == 0 {
      assert r == RunDirective(w, context, dir, items[0].directive, s);
      before := s;
    } else {
      assert LoadedBy(w, dir, rest[k - 1], path);
      before := EveryMentionWasLoaded(w, context, title, dir, rest, r.state, p.Then(r.outcome.progress), path);
    }
  }

  /**
   A load that completes proves its whole import graph sound: on every route through the static
   graph each script exists, none was already being loaded, and none comes twice.
   */
  lemma {:induction false} CompletionClearsEveryRoute(w: World, context: Context, path: string, s: State,
                                                      route: seq<string>)
    requires w.Valid() && Completed(w, LoadScript(w, context, path, s))
    requires Route(w, path, route)
    ensures AllExist(w, route) && Avoids(w, route, context.loading) && !Repeats(w, route)
    decreases |route|
  {
    var canonical := w.canonical(path);
    if |route| > 1 {
      var inner := context.Enter(canonical, path);
      var before :=
        EveryMentionWasLoaded(w, inner, path, w.parent(path), w.files[canonical], s, NOTHING, route[1]);
      CompletionClearsEveryRoute(w, inner, route[1], before, route[1..]);
      RouteUnfolds(w, route, context.loading);
    }
  }

  lemma RouteUnfolds(w: World, route: seq<string>, loading: set<string>)
    requires |route| > 1 && w.canonical(route[0]) in w.files && w.canonical(route[0]) !in loading
    requires AllExist(w, route[1..]) && Avoids(w, route[1..], loading + {w.canonical(route[0])})
    requires !Repeats(w, route[1..])
    ensures AllExist(w, route) && Avoids(w, route, loading) && !Repeats(w, route)
  {
  }

  // ---- failure ----

  /** Where along a route an error arose, and what it means there. */
  ghost predicate Explains(w: World, loading: set<string>, stack: seq<string>, route: seq<string>, error: LoadError) {
    route != [] &&
    var last := route[|route| - 1];
    match error.kind
    case Cycle(canonical) =>
      && error.stack == stack + route[..|route| - 1]
      && canonical == w.canonical(last)
      && (canonical in loading || exists k :: 0 <= k < |route| - 1 && w.canonical(route[k]) == canonical)
    case Io(path) =>
      error.stack == stack + route[..|route| - 1] && path == last && w.canonical(path) !in w.files
    case UnknownDirective(text) =>
      error.stack == stack + route && HasUnknown(w, last, text)
    case Eval(title, failure) =>
      && (error.stack == stack + route || error.stack == stack + route + [title])
      && error.stack != [] && title == error.stack[|error.stack| - 1]
  }

  ghost predicate HasUnknown(w: World, path: string, text: string) {
    var canonical := w.canonical(path);
    canonical in w.files && Meta(Unknown(text)) in w.files[canonical]
  }

  /** A failure inside a script is its own or comes from a file it mentions. */
  ghost predicate OwnFailure(w: World, context: Context, title: string, items: seq<Item>, error: LoadError) {
    match error.kind
    case Cycle(_) => false
    case Io(_) => false
    case UnknownDirective(text) => error.stack == context.stack && Meta(Unknown(text)) in items
    case Eval(failed, _) =>
      || (error.stack == context.stack && failed == title)
      || error.stack == context.stack + [failed]
  }

  lemma {:induction false} EmbeddedFailure(w: World, context: Context, title: string, dir: string,
                                           items: seq<Item>, s: State, p: Progress)
    requires w.Valid() && !HasDirective(items)
    ensures var r := RunItems(w, context, title, dir, items, s, p);
      r.outcome.Failed? ==>
        r.outcome.error.kind.Eval? && r.outcome.error.stack == context.stack && r.outcome.error.kind.title == title
    decreases |items|
  {
    if items != [] && !w.halted(s.executed) {
      assert !HasDirective(items[1..]) && !items[0].Meta?;
      var first := RunItem(w, context, title, dir, items[0], s);
      if first.outcome.Done? {
        EmbeddedFailure(w, context, title, dir, items[1..], first.state, p.Then(first.outcome.progress));
      }
    }
  }

  /** An unknown directive, or a failure of the code of an embedded script. */
  lemma FailureOfDirective(w: World, context: Context, title: string, dir: string, directive: Directive, s: State)
    requires w.Valid() && !TargetOf(w, dir, directive).File?
    ensures var r := RunDirective(w, context, dir, directive, s);
      r.outcome.Failed? ==> OwnFailure(w, context, title, [Meta(directive)], r.outcome.error)
  {
    var target := TargetOf(w, dir, directive);
    if target.Nothing? {
      assert directive == Unknown(target.text);
    } else {
      var name := target.script.virtualName;
      EmbeddedFailure(w, context.Push(name), name, dir, target.script.items, s.(begun := s.begun + [name]), NOTHING);
    }
  }

  /** A script fails by itself, or a file it mentions fails with the very same error. */
  lemma {:induction false} FailureOfItems(w: World, context: Context, title: string, dir: string,
                                          items: seq<Item>, s: State, p: Progress)
    returns (child: Option<string>, before: State)
    requires w.Valid() && RunItems(w, context, title, dir, items, s, p).outcome.Failed?
    ensures var error := RunItems(w, context, title, dir, items, s, p).outcome.error;
      match child
      case None => OwnFailure(w, context, title, items, error)
      case Some(path) =>
        Mentions(w, dir, items, path) && LoadScript(w, context, path, before).outcome == Failed(error)
    decreases |items|
  {
    var rest, r := items[1..], RunItem(w, context, title, dir, items[0], s);
    child, before := None, s;
    if r.outcome.Done? {
      child, before := FailureOfItems(w, context, title, dir, rest, r.state, p.Then(r.outcome.progress));
      if child.Some? {
        var k :| 0 <= k < |rest| && LoadedBy(w, dir, rest[k], child.value);
        assert LoadedBy(w, dir, items[k + 1], child.value);
      }
    } else if items[0].Meta? {
      var target := TargetOf(w, dir, items[0].directive);
      assert r == RunDirective(w, context, dir, items[0].directive, s);
      if target.File? {
        child := Some(target.path);
        assert LoadedBy(w, dir, items[0], target.path);
      } else {
        FailureOfDirective(w, context, title, dir, items[0].directive, s);
      }
    }
  }

  lemma ExplainedFromAbove(w: World, context: Context, path: string, route: seq<string>, error: LoadError)
    requires var inner := context.Enter(w.canonical(path), path);
      Explains(w, inner.loading, inner.stack, route, error)
    ensures Explains(w, context.loading, context.stack, [path] + route, error)
  {
    var full := [path] + route;
    var inner := context.Enter(w.canonical(path), path);
    assert full[..|full| - 1] == [path] + route[..|route| - 1];
    assert inner.stack + route[..|route| - 1] == context.stack + full[..|full| - 1];
    assert inner.stack + route == context.stack + full;
    if error.kind.Cycle? {
      CycleFromAbove(w, context.loading, path, route, error.kind.canonical);
    }
  }

  lemma CycleFromAbove(w: World, loading: set<string>, path: string, route: seq<string>, canonical: string)
    requires route != []
    requires || canonical in loading + {w.canonical(path)}
             || exists k :: 0 <= k < |route| - 1 && w.canonical(route[k]) == canonical
    ensures var full := [path] + route;
      canonical in loading || exists k :: 0 <= k < |full| - 1 && w.canonical(full[k]) == canonical
  {
    var full := [path] + route;
    if k :| 0 <= k < |route| - 1 && w.canonical(route[k]) == canonical {
      assert w.canonical(full[k + 1]) == canonical;
    } else if canonical !in loading {
      assert w.canonical(full[0]) == canonical;
    }
  }

  /**
   Every failure is located by a route of the static graph that starts at the loaded script.  The
   reported stack is that route; a cycle error means the route has come back to a script on it (or to
   one that was being loaded already), and an I/O error means it has left the existing scripts.
   */
  lemma {:induction false} EveryFailureIsExplained(w: World, context: Context, path: string, s: State)
    returns (route: seq<string>)
    requires w.Valid() && LoadScript(w, context, path, s).outcome.Failed?
    ensures Route(w, path, route)
    ensures Explains(w, context.loading, context.stack, route, LoadScript(w, context, path, s).outcome.error)
    decreases w.Unloaded(context.loading)
  {
    var error := LoadScript(w, context, path, s).outcome.error;
    var canonical := w.canonical(path);
    route := [path];
    assert route[..|route| - 1] == [];
    assert context.stack + [] == context.stack;
    if canonical !in context.loading && canonical in w.files {
      EnteringUnloads(w, context.loading, canonical);
      var inner := context.Enter(canonical, path);
      var child, before := FailureOfItems(w, inner, path, w.parent(path), w.files[canonical], s, NOTHING);
      if child.Some? {
        var tail := EveryFailureIsExplained(w, inner, child.value, before);
        ExplainedFromAbove(w, context, path, tail, error);
        route := [path] + tail;
        assert route[1..] == tail;
      }
    }
  }

  // ---- exactly the cyclic graphs ----

  /** No script holds an unknown directive, no code fails or halts, and every file mentioned exists. */
  ghost predicate Benign(w: World) {
    && (forall executed :: w.evaluate(executed).Returned? && !w.halted(executed))
    && (forall path, text :: !HasUnknown(w, path, text))
    && (forall importer, path :: Edge(w, importer, path) ==> w.canonical(path) in w.files)
  }

  ghost predicate CyclicFrom(w: World, path: string) {
    exists route :: Route(w, path, route) && Repeats(w, route)
  }

  lemma {:induction false} BenignRoutesExist(w: World, path: string, route: seq<string>)
    requires Benign(w) && w.canonical(path) in w.files && Route(w, path, route)
    ensures AllExist(w, route)
    decreases |route|
  {
    if |route| > 1 {
      BenignRoutesExist(w, route[1], route[1..]);
      assert route == [path] + route[1..];
    }
  }

  lemma OnlyCyclesFail(w: World, path: string, route: seq<string>, error: LoadError)
    requires Benign(w) && w.canonical(path) in w.files && Route(w, path, route)
    requires Explains(w, {}, [], route, error) && !error.kind.Eval?
    ensures error.kind.Cycle? && Repeats(w, route)
  {
    BenignRoutesExist(w, path, route);
    if error.kind.Cycle? {
      var k :| 0 <= k < |route| - 1 && w.canonical(route[k]) == error.kind.canonical;
      assert w.canonical(route[k]) == w.canonical(route[|route| - 1]);
    }
  }

  /**
   When nothing else can go wrong, loading fails exactly if some route through the import graph comes
   back to a script already on it, and it fails with the cycle error.  Repeats on separate branches
   do no harm.
   */
  lemma CycleErrorExactlyOnCyclicGraphs(w: World, path: string, s: State)
    requires w.Valid() && Benign(w) && w.canonical(path) in w.files
    ensures var outcome := LoadScript(w, Context({}, []), path, s).outcome;
      && (outcome.Failed? <==> CyclicFrom(w, path))
      && (outcome.Failed? ==> outcome.error.kind.Cycle?)
  {
    var context := Context({}, []);
    var r := LoadScript(w, context, path, s);
    if r.outcome.Failed? {
      var route := EveryFailureIsExplained(w, context, path, s);
      LoadRuns.ScriptRunIsSound(w, context, path, s);
      OnlyCyclesFail(w, path, route, r.outcome.error);
    } else {
      forall route | Route(w, path, route) ensures !Repeats(w, route) {
        CompletionClearsEveryRoute(w, context, path, s, route);
      }
    }
  }
}
