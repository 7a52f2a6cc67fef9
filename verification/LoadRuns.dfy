/**
 What every load does to the session and to the registry of embedded scripts, whatever it loads and
 however it ends.
 */
module LoadRuns {
  import opened Loading

  // ---- the fragments a load gives to the session ----

  ghost predicate Extends(from: seq<Fragment>, to: seq<Fragment>) {
    |from| <= |to| && to[..|from|] == from
  }

  /** Nothing is given to a halted session, and nothing is given to it after a failure. */
  ghost predicate Careful(w: World, from: seq<Fragment>, to: seq<Fragment>) {
    && (forall k :: |from| <= k < |to| ==> !w.halted(to[..k]))
    && (forall k :: |from| < k < |to| ==> w.evaluate(to[..k]).Returned?)
  }

  /** The load fails with an evaluation error exactly if the last fragment it gave to the session raised it. */
  ghost predicate Blames(w: World, from: seq<Fragment>, r: Ending) {
    var to := r.state.executed;
    if |to| > |from| && w.evaluate(to).Raised? then
      && r.outcome.Failed?
      && r.outcome.error.kind == Eval(to[|to| - 1].title, w.evaluate(to).failure)
    else
      r.outcome.Failed? ==> !r.outcome.error.kind.Eval?
  }

  ghost predicate SoundRun(w: World, from: seq<Fragment>, r: Ending) {
    Extends(from, r.state.executed) && Careful(w, from, r.state.executed) && Blames(w, from, r)
  }

  lemma NothingRun(w: World, r: Ending)
    requires r.outcome.Failed? ==> !r.outcome.error.kind.Eval?
    ensures SoundRun(w, r.state.executed, r)
  {
  }

  lemma SoundRunsCompose(w: World, from: seq<Fragment>, first: Ending, r: Ending)
    requires SoundRun(w, from, first) && first.outcome.Done? && SoundRun(w, first.state.executed, r)
    ensures SoundRun(w, from, r)
  {
    var middle, to := first.state.executed, r.state.executed;
    assert to[..|from|] == middle[..|from|];
    forall k | |from| <= k < |to|
      ensures !w.halted(to[..k])
      ensures |from| < k ==> w.evaluate(to[..k]).Returned?
    {
      if k < |middle| {
        assert to[..k] == middle[..k];
      } else if k == |middle| {
        assert to[..k] == middle;
      }
    }
    if |to| == |middle| {
      assert to == middle;
    }
  }

  lemma ProgressIsIrrelevant(w: World, from: seq<Fragment>, first: Ending, r: Ending)
    requires SoundRun(w, from, first) && r.state.executed == first.state.executed
    requires if first.outcome.Failed? then r.outcome == first.outcome else r.outcome.Done?
    ensures SoundRun(w, from, r)
  {
  }

  lemma OneFragment(w: World, from: seq<Fragment>, fragment: Fragment, r: Ending)
    requires !w.halted(from) && r.state.executed == from + [fragment]
    requires match w.evaluate(from + [fragment])
             case Raised(failure) => r.outcome.Failed? && r.outcome.error.kind == Eval(fragment.title, failure)
             case Returned(_) => r.outcome.Done?
    ensures SoundRun(w, from, r)
  {
  }

  lemma {:induction false} ScriptRunIsSound(w: World, context: Context, path: string, s: State)
    requires w.Valid()
    ensures SoundRun(w, s.executed, LoadScript(w, context, path, s))
    decreases w.Unloaded(context.loading), 0, 0, 0
  {
    var canonical := w.canonical(path);
    if canonical !in context.loading && canonical in w.files {
      EnteringUnloads(w, context.loading, canonical);
      ItemsRunIsSound(w, context.Enter(canonical, path), path, w.parent(path), w.files[canonical], s, NOTHING);
    } else {
      NothingRun(w, LoadScript(w, context, path, s));
    }
  }

  lemma {:induction false} ItemsRunIsSound(w: World, context: Context, title: string, dir: string,
                                           items: seq<Item>, s: State, p: Progress)
    requires w.Valid()
    ensures SoundRun(w, s.executed, RunItems(w, context, title, dir, items, s, p))
    decreases w.Unloaded(context.loading), Rank(items), |items|, 2
  {
    var r := RunItems(w, context, title, dir, items, s, p);
    if items == [] || w.halted(s.executed) {
      NothingRun(w, r);
    } else {
      ItemRunIsSound(w, context, title, dir, items[0], s);
      var first := RunItem(w, context, title, dir, items[0], s);
      if first.outcome.Done? {
        ItemsRunIsSound(w, context, title, dir, items[1..], first.state, p.Then(first.outcome.progress));
        SoundRunsCompose(w, s.executed, first, r);
      }
    }
  }

  lemma {:induction false} ItemRunIsSound(w: World, context: Context, title: string, dir: string, item: Item, s: State)
    requires w.Valid() && !w.halted(s.executed)
    ensures SoundRun(w, s.executed, RunItem(w, context, title, dir, item, s))
    decreases w.Unloaded(context.loading), if item.Meta? then 1 else 0, 0, 1
  {
    var r := RunItem(w, context, title, dir, item, s);
    match item {
      case Shebang => NothingRun(w, r);
      case Code(text) =>
        if IsBlank(text) {
          NothingRun(w, r);
        } else {
          OneFragment(w, s.executed, Fragment(title, dir, text), r);
        }
      case Meta(directive) => DirectiveRunIsSound(w, context, dir, directive, s);
    }
  }

  lemma {:induction false} DirectiveRunIsSound(w: World, context: Context, dir: string, directive: Directive, s: State)
    requires w.Valid()
    ensures SoundRun(w, s.executed, RunDirective(w, context, dir, directive, s))
    decreases w.Unloaded(context.loading), 1, 0, 0
  {
    match TargetOf(w, dir, directive) {
      case Nothing(_) => NothingRun(w, RunDirective(w, context, dir, directive, s));
      case Embedded(script) => EmbeddedRunIsSound(w, context, dir, script, s);
      case File(path, _) =>
        var loaded := LoadScript(w, context, path, s);
        ScriptRunIsSound(w, context, path, s);
        ProgressIsIrrelevant(w, s.executed, loaded, RunDirective(w, context, dir, directive, s));
    }
  }

  lemma {:induction false} EmbeddedRunIsSound(w: World, context: Context, dir: string, script: EmbeddedScript, s: State)
    requires w.Valid() && !HasDirective(script.items)
    ensures SoundRun(w, s.executed, RunEmbedded(w, context, dir, script, s))
    decreases w.Unloaded(context.loading), 0, |script.items|, 3
  {
    var name := script.virtualName;
    if name in s.loaded {
      NothingRun(w, RunEmbedded(w, context, dir, script, s));
    } else {
      ItemsRunIsSound(w, context.Push(name), name, dir, script.items, s.(begun := s.begun + [name]), NOTHING);
    }
  }

  // ---- embedded scripts run once ----

  ghost predicate Distinct(names: seq<string>) {
    forall i, j :: 0 <= i < j < |names| ==> names[i] != names[j]
  }

  /** The registry holds exactly the embedded scripts ever started, and none was started twice. */
  ghost predicate Registered(s: State) {
    Distinct(s.begun) && forall name :: name in s.loaded <==> name in s.begun
  }

  /** After a failure the script that failed may be started and not registered; nothing else differs. */
  ghost predicate OnceEach(r: Ending) {
    Distinct(r.state.begun) && (r.outcome.Done? ==> Registered(r.state))
  }

  lemma {:induction false} PlainItemsKeepRegistry(w: World, context: Context, title: string, dir: string,
                                                  items: seq<Item>, s: State, p: Progress)
    requires w.Valid() && !HasDirective(items)
    ensures var r := RunItems(w, context, title, dir, items, s, p);
      r.state.loaded == s.loaded && r.state.begun == s.begun
    decreases |items|
  {
    if items != [] && !w.halted(s.executed) {
      assert !HasDirective(items[1..]) && !items[0].Meta?;
      var first := RunItem(w, context, title, dir, items[0], s);
      if first.outcome.Done? {
        PlainItemsKeepRegistry(w, context, title, dir, items[1..], first.state, p.Then(first.outcome.progress));
      }
    }
  }

  lemma EmbeddedRunsOnce(w: World, context: Context, dir: string, script: EmbeddedScript, s: State)
    requires w.Valid() && !HasDirective(script.items) && Registered(s)
    ensures OnceEach(RunEmbedded(w, context, dir, script, s))
  {
    var name := script.virtualName;
    if name !in s.loaded {
      var begun := s.(begun := s.begun + [name]);
      PlainItemsKeepRegistry(w, context.Push(name), name, dir, script.items, begun, NOTHING);
    }
  }

  lemma {:induction false} ItemsRunEmbeddedOnce(w: World, context: Context, title: string, dir: string,
                                                items: seq<Item>, s: State, p: Progress)
    requires w.Valid() && Registered(s)
    ensures OnceEach(RunItems(w, context, title, dir, items, s, p))
    decreases w.Unloaded(context.loading), |items|
  {
    if items != [] && !w.halted(s.executed) {
      var first := RunItem(w, context, title, dir, items[0], s);
      if items[0].Meta? {
        assert first == RunDirective(w, context, dir, items[0].directive, s);
        match TargetOf(w, dir, items[0].directive) {
          case Nothing(_) =>
          case Embedded(script) => EmbeddedRunsOnce(w, context, dir, script, s);
          case File(path, _) => LoadRunsEmbeddedOnce(w, context, path, s);
        }
      }
      if first.outcome.Done? {
        ItemsRunEmbeddedOnce(w, context, title, dir, items[1..], first.state, p.Then(first.outcome.progress));
      }
    }
  }

  /** Within one top-level load each embedded script is started at most once, on every path of the import graph. */
  lemma {:induction false} LoadRunsEmbeddedOnce(w: World, context: Context, path: string, s: State)
    requires w.Valid() && Registered(s)
    ensures OnceEach(LoadScript(w, context, path, s))
    decreases w.Unloaded(context.loading), 0
  {
    var canonical := w.canonical(path);
    if canonical !in context.loading && canonical in w.files {
      EnteringUnloads(w, context.loading, canonical);
      ItemsRunEmbeddedOnce(w, context.Enter(canonical, path), path, w.parent(path), w.files[canonical], s, NOTHING);
    }
  }
}
