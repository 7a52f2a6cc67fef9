/**
 The loader as it is written (`wq-cli/src/load.rs`): a shared set of scripts being loaded, an import
 stack, a shared registry of embedded scripts and a loader object per file, all updated in place and
 put back on every exit.  Each method is proved to do what `Loading` says.
 */
module ScriptLoader {
  import opened Loading
  import opened Sequences
  import opened Wrappers

  class Session {
    const world: World
    var executed: seq<Fragment>

    constructor (world: World)
      ensures this.world == world && executed == []
    {
      this.world := world;
      executed := [];
    }

    predicate IsHalted()
      reads this
    {
      world.halted(executed)
    }

    method EvalSource(fragment: Fragment) returns (r: Evaluation)
      modifies this
      ensures executed == old(executed) + [fragment] && r == world.evaluate(executed)
    {
      executed := executed + [fragment];
      r := world.evaluate(executed);
    }
  }

  class LoadingSet {
    var paths: set<string>

    constructor ()
      ensures paths == {}
    {
      paths := {};
    }
  }

  class ImportStack {
    var frames: seq<string>

    constructor (frames: seq<string>)
      ensures this.frames == frames
    {
      this.frames := frames;
    }

    method Push(title: string) returns (previous: nat)
      modifies this
      ensures frames == old(frames) + [title] && previous == |old(frames)|
    {
      previous := |frames|;
      frames := frames + [title];
    }

    method Truncate(n: nat)
      modifies this
      ensures n <= |old(frames)| ==> frames == old(frames)[..n]
    {
      if n <= |frames| {
        frames := frames[..n];
      }
    }
  }

  class Registry {
    var loaded: set<string>
    ghost var begun: seq<string>

    constructor ()
      ensures loaded == {} && begun == []
    {
      loaded := {};
      begun := [];
    }
  }

  datatype Report = Report(title: string, warnings: seq<string>, result: Option<Value>)

  ghost function StateOf(session: Session, registry: Registry): State
    reads session, registry
  {
    State(session.executed, registry.loaded, registry.begun)
  }

  lemma LastIsTheScript(w: World, context: Context, path: string, s: State)
    requires w.Valid()
    ensures var outcome := Loading.LoadScript(w, context, path, s).outcome;
      outcome.Done? ==> outcome.progress.last == Some(path)
  {
  }

  function OrElse<T>(a: Option<T>, b: Option<T>): Option<T> {
    if a.Some? then a else b
  }

  class Loader {
    const stack: ImportStack
    const registry: Registry
    var warnings: seq<string>
    var lastLoaded: Option<string>

    constructor (stack: ImportStack, registry: Registry)
      ensures this.stack == stack && this.registry == registry && warnings == [] && lastLoaded == None
    {
      this.stack := stack;
      this.registry := registry;
      warnings := [];
      lastLoaded := None;
    }

    /** The result, the warnings added and the label remembered are those of `ending`, and so is the shared state. */
    ghost predicate Shows(ending: Ending, r: Result<Option<Value>, LoadError>, session: Session,
                          before: seq<string>, last: Option<string>)
      reads this, session, registry
    {
      && StateOf(session, registry) == ending.state
      && match ending.outcome
         case Failed(error) => r == Err(error)
         case Done(p) =>
           r == Ok(p.value) && warnings == before + p.warnings && lastLoaded == OrElse(p.last, last)
    }

    method LoadScript(session: Session, path: string, loading: LoadingSet) returns (r: Result<Report, LoadError>)
      requires session.world.Valid()
      modifies this, stack, registry, session, loading
      ensures loading.paths == old(loading.paths) && stack.frames == old(stack.frames)
      ensures var ending := Loading.LoadScript(session.world, Context(old(loading.paths), old(stack.frames)), path,
                                               old(StateOf(session, registry)));
        && StateOf(session, registry) == ending.state
        && match ending.outcome
           case Failed(error) => r == Err(error)
           case Done(p) =>
             && r == Ok(Report(path, old(warnings) + p.warnings, p.value))
             && warnings == [] && lastLoaded == p.last
      decreases session.world.Unloaded(loading.paths), 0, 0
    {
      var w := session.world;
      var canonical := w.canonical(path);
      if canonical in loading.paths {
        return Err(LoadError(Cycle(canonical), stack.frames));
      }
      ghost var outside := loading.paths;
      loading.paths := loading.paths + {canonical};
      if canonical !in w.files {
        loading.paths := loading.paths - {canonical};
        assert loading.paths == outside;
        return Err(LoadError(Io(path), stack.frames));
      }
      EnteringUnloads(w, outside, canonical);
      var previous := stack.Push(path);
      var result := EvalStreaming(session, w.files[canonical], w.parent(path), path, loading);
      stack.Truncate(previous);
      loading.paths := loading.paths - {canonical};
      assert loading.paths == outside;
      if result.Err? {
        return Err(result.error);
      }
      lastLoaded := Some(path);
      r := Ok(Report(path, warnings, result.value));
      warnings := [];
    }

    method EvalStreaming(session: Session, items: seq<Item>, dir: string, title: string, loading: LoadingSet)
      returns (r: Result<Option<Value>, LoadError>)
      requires session.world.Valid()
      modifies this, stack, registry, session, loading
      ensures loading.paths == old(loading.paths) && stack.frames == old(stack.frames)
      ensures var ending := RunItems(session.world, Context(old(loading.paths), old(stack.frames)), title, dir, items,
                                     old(StateOf(session, registry)), NOTHING);
        Shows(ending, r, session, old(warnings), old(lastLoaded))
      decreases session.world.Unloaded(loading.paths), Rank(items), 4
    {
      ghost var w, context, before := session.world, Context(loading.paths, stack.frames), StateOf(session, registry);
      ghost var p := NOTHING;
      var lastValue: Option<Value> := None;
      var k := 0;
      while k < |items|
        invariant 0 <= k <= |items|
        invariant loading.paths == context.loading && stack.frames == context.stack
        invariant RunItems(w, context, title, dir, items[k..], StateOf(session, registry), p)
               == RunItems(w, context, title, dir, items, before, NOTHING)
        invariant lastValue == p.value && warnings == old(warnings) + p.warnings
        invariant lastLoaded == OrElse(p.last, old(lastLoaded))
        decreases |items| - k
      {
        if session.IsHalted() {
          break;
        }
        assert items[k..][1..] == items[k + 1..] && items[k..][0] == items[k];
        ghost var child := RunItem(w, context, title, dir, items[k], StateOf(session, registry)).outcome;
        var result := EvalItem(session, items[k], dir, title, loading);
        if result.Err? {
          return Err(result.error);
        }
        if result.value.Some? {
          lastValue := result.value;
        }
        ConcatAssoc(old(warnings), p.warnings, child.progress.warnings);
        p := p.Then(child.progress);
        k := k + 1;
      }
      return Ok(lastValue);
    }

    method EvalItem(session: Session, item: Item, dir: string, title: string, loading: LoadingSet)
      returns (r: Result<Option<Value>, LoadError>)
      requires session.world.Valid()
      modifies this, stack, registry, session, loading
      ensures loading.paths == old(loading.paths) && stack.frames == old(stack.frames)
      ensures var ending := RunItem(session.world, Context(old(loading.paths), old(stack.frames)), title, dir, item,
                                    old(StateOf(session, registry)));
        Shows(ending, r, session, old(warnings), old(lastLoaded))
      decreases session.world.Unloaded(loading.paths), if item.Meta? then 1 else 0, 3
    {
      r := Ok(None);
      match item {
        case Shebang =>
        case Code(text) =>
          if !IsBlank(text) {
            var evaluation := session.EvalSource(Fragment(title, dir, text));
            match evaluation {
              case Raised(failure) => r := Err(LoadError(Eval(title, failure), stack.frames));
              case Returned(value) => r := Ok(Some(value));
            }
          }
        case Meta(directive) =>
          r := EvalDirective(session, directive, dir, loading);
      }
    }

    method EvalDirective(session: Session, directive: Directive, dir: string, loading: LoadingSet)
      returns (r: Result<Option<Value>, LoadError>)
      requires session.world.Valid()
      modifies this, stack, registry, session, loading
      ensures loading.paths == old(loading.paths) && stack.frames == old(stack.frames)
      ensures var ending := RunDirective(session.world, Context(old(loading.paths), old(stack.frames)), dir, directive,
                                         old(StateOf(session, registry)));
        Shows(ending, r, session, old(warnings), old(lastLoaded))
      decreases session.world.Unloaded(loading.paths), 1, 2
    {
      match directive {
        case PreludeAlias => r := LoadEmbeddedOrFile(session, "prelude", dir, loading);
        case LoadEmbeddedOrFile(name) => r := LoadEmbeddedOrFile(session, name, dir, loading);
        case LoadPath(path) => r := LoadNested(session, session.world.resolve(dir, path), loading);
        case Unknown(text) => r := Err(LoadError(UnknownDirective(text), stack.frames));
      }
    }

    method LoadEmbeddedOrFile(session: Session, name: string, dir: string, loading: LoadingSet)
      returns (r: Result<Option<Value>, LoadError>)
      requires session.world.Valid()
      modifies this, stack, registry, session, loading
      ensures loading.paths == old(loading.paths) && stack.frames == old(stack.frames)
      ensures var ending := RunDirective(session.world, Context(old(loading.paths), old(stack.frames)), dir,
                                         Directive.LoadEmbeddedOrFile(name), old(StateOf(session, registry)));
        Shows(ending, r, session, old(warnings), old(lastLoaded))
      decreases session.world.Unloaded(loading.paths), 1, 1
    {
      var script := session.world.lookupEmbedded(name);
      if script.None? {
        var path := session.world.resolve(dir, name);
        ghost var context := Context(loading.paths, stack.frames);
        ghost var outcome := Loading.LoadScript(session.world, context, path, StateOf(session, registry)).outcome;
        warnings := warnings + [Fallback(name)];
        r := LoadNested(session, path, loading);
        if r.Ok? {
          ConcatAssoc(old(warnings), [Fallback(name)], outcome.progress.warnings);
        }
        return;
      }
      r := LoadEmbedded(session, script.value, dir, loading);
    }

    /** Registered only once it has run without an error. */
    method LoadEmbedded(session: Session, script: EmbeddedScript, dir: string, loading: LoadingSet)
      returns (r: Result<Option<Value>, LoadError>)
      requires session.world.Valid() && !HasDirective(script.items)
      modifies this, stack, registry, session, loading
      ensures loading.paths == old(loading.paths) && stack.frames == old(stack.frames)
      ensures var ending := RunEmbedded(session.world, Context(old(loading.paths), old(stack.frames)), dir, script,
                                        old(StateOf(session, registry)));
        Shows(ending, r, session, old(warnings), old(lastLoaded))
      decreases session.world.Unloaded(loading.paths), 0, 5
    {
      var name := script.virtualName;
      if name in registry.loaded {
        return Ok(None);
      }
      registry.begun := registry.begun + [name];
      var previous := stack.Push(name);
      r := EvalStreaming(session, script.items, dir, name, loading);
      stack.Truncate(previous);
      if r.Ok? {
        registry.loaded := registry.loaded + {name};
        lastLoaded := Some(name);
      }
    }

    /** A loader of its own for the file: a copy of the stack, the same registry and loading set. */
    method LoadNested(session: Session, path: string, loading: LoadingSet)
      returns (r: Result<Option<Value>, LoadError>)
      requires session.world.Valid()
      modifies this, registry, session, loading
      ensures loading.paths == old(loading.paths)
      ensures var ending := Loading.LoadScript(session.world, Context(old(loading.paths), old(stack.frames)), path,
                                               old(StateOf(session, registry)));
        && StateOf(session, registry) == ending.state
        && match ending.outcome
           case Failed(error) => r == Err(error)
           case Done(p) => r == Ok(p.value) && warnings == old(warnings) + p.warnings && lastLoaded == p.last
      decreases session.world.Unloaded(loading.paths), 0, 1
    {
      LastIsTheScript(session.world, Context(loading.paths, stack.frames), path, StateOf(session, registry));
      var inherited := new ImportStack(stack.frames);
      var nested := new Loader(inherited, registry);
      var child := nested.LoadScript(session, path, loading);
      if child.Err? {
        return Err(child.error);
      }
      warnings := warnings + child.value.warnings;
      lastLoaded := Some(child.value.title);
      r := Ok(child.value.result);
    }
  }

  /** A top-level load. */
  method LoadScript(session: Session, path: string, loading: LoadingSet) returns (r: Result<Report, LoadError>)
    requires session.world.Valid()
    modifies session, loading
    ensures loading.paths == old(loading.paths)
    ensures var ending := Loading.LoadScript(session.world, Context(old(loading.paths), []), path,
                                             State(old(session.executed), {}, []));
      && session.executed == ending.state.executed
      && match ending.outcome
         case Failed(error) => r == Err(error)
         case Done(p) => r == Ok(Report(path, p.warnings, p.value))
  {
    var stack := new ImportStack([]);
    var registry := new Registry();
    var loader := new Loader(stack, registry);
    r := loader.LoadScript(session, path, loading);
    assert forall warnings: seq<string> :: [] + warnings == warnings;
  }

  /** An inline snippet is named after the last thing it loaded. */
  method EvalInlineWithLoad(session: Session, items: seq<Item>, dir: string, loading: LoadingSet)
    returns (r: Result<Report, LoadError>)
    requires session.world.Valid()
    modifies session, loading
    ensures loading.paths == old(loading.paths)
    ensures var ending := RunItems(session.world, Context(old(loading.paths), ["<script>"]), "<script>", dir, items,
                                   State(old(session.executed), {}, []), NOTHING);
      && session.executed == ending.state.executed
      && match ending.outcome
         case Failed(error) => r == Err(error)
         case Done(p) =>
           r == Ok(Report(if p.last.Some? then p.last.value else "<script>", p.warnings, p.value))
  {
    var stack := new ImportStack([]);
    var registry := new Registry();
    var loader := new Loader(stack, registry);
    var previous := stack.Push("<script>");
    assert stack.frames == ["<script>"];
    var result := loader.EvalStreaming(session, items, dir, "<script>", loading);
    stack.Truncate(previous);
    if result.Err? {
      return Err(result.error);
    }
    var title := if loader.lastLoaded.Some? then loader.lastLoaded.value else "<script>";
    assert forall warnings: seq<string> :: [] + warnings == warnings;
    r := Ok(Report(title, loader.warnings, result.value));
  }
}
