/**
 What loading a script means (`wq-cli/src/load.rs`): a recursive evaluation over a graph of files in
 which the files being loaded and the import stack are plain arguments.
 */
module Loading {
  import opened Characters
  import opened Wrappers

  type Value = string

  datatype Directive =
    | PreludeAlias
    | LoadEmbeddedOrFile(name: string)
    | LoadPath(path: string)
    | Unknown(text: string)

  datatype Item = Shebang | Code(text: string) | Meta(directive: Directive)

  datatype EmbeddedScript = EmbeddedScript(virtualName: string, items: seq<Item>)

  /** A piece of code the session was given: where it stands and where its own imports start from. */
  datatype Fragment = Fragment(title: string, origin: string, text: string)

  datatype Evaluation = Returned(value: Value) | Raised(failure: string)

  /**
   The surroundings: scripts by canonical name, the embedded scripts, path arithmetic, and what the
   session makes of the fragments it was given so far, in order.
   */
  datatype World = World(
    files: map<string, seq<Item>>,
    lookupEmbedded: string -> Option<EmbeddedScript>,
    canonical: string -> string,
    parent: string -> string,
    resolve: (string, string) -> string,
    evaluate: seq<Fragment> -> Evaluation,
    halted: seq<Fragment> -> bool)
  {
    /** Embedded scripts load nothing themselves. */
    ghost predicate Valid() {
      forall name :: lookupEmbedded(name).Some? ==> !HasDirective(lookupEmbedded(name).value.items)
    }

    /** How many scripts are not being loaded. */
    function Unloaded(loading: set<string>): nat {
      |files.Keys - loading|
    }
  }

  predicate HasDirective(items: seq<Item>) {
    exists k :: 0 <= k < |items| && items[k].Meta?
  }

  function Rank(items: seq<Item>): nat {
    if HasDirective(items) then 1 else 0
  }

  predicate IsBlank(text: string) {
    forall k :: 0 <= k < |text| ==> IsWhitespace(text[k])
  }

  datatype ErrorKind =
    | Cycle(canonical: string)
    | Io(path: string)
    | Eval(title: string, failure: string)
    | UnknownDirective(text: string)

  datatype LoadError = LoadError(kind: ErrorKind, stack: seq<string>)

  /** The scripts being loaded and the import stack. */
  datatype Context = Context(loading: set<string>, stack: seq<string>) {
    function Push(title: string): Context {
      this.(stack := stack + [title])
    }

    function Enter(canonical: string, title: string): Context {
      Context(loading + {canonical}, stack + [title])
    }
  }

  /** What the whole call graph shares; `begun` lists the embedded scripts ever started. */
  datatype State = State(executed: seq<Fragment>, loaded: set<string>, begun: seq<string>)

  /** What a script came to so far: its value, its warnings and the last thing loaded by a directive. */
  datatype Progress = Progress(value: Option<Value>, warnings: seq<string>, last: Option<string>) {
    function Then(child: Progress): Progress {
      Progress(
        if child.value.Some? then child.value else value,
        warnings + child.warnings,
        if child.last.Some? then child.last else last)
    }
  }

  const NOTHING := Progress(None, [], None)

  datatype Outcome = Done(progress: Progress) | Failed(error: LoadError)

  datatype Ending = Ending(outcome: Outcome, state: State)

  function Fallback(name: string): string {
    "'" + name + "' is not found in embedded scripts; attempting to load as a file"
  }

  // ---- evaluation ----

  function LoadScript(w: World, context: Context, path: string, s: State): Ending
    requires w.Valid()
    decreases w.Unloaded(context.loading), 0, 0, 0
  {
    var canonical := w.canonical(path);
    if canonical in context.loading then Ending(Failed(LoadError(Cycle(canonical), context.stack)), s)
    else if canonical !in w.files then Ending(Failed(LoadError(Io(path), context.stack)), s)
    else
      EnteringUnloads(w, context.loading, canonical);
      var r := RunItems(w, context.Enter(canonical, path), path, w.parent(path), w.files[canonical], s, NOTHING);
      if r.outcome.Failed? then r
      else r.(outcome := Done(r.outcome.progress.(last := Some(path))))
  }

  /** The items in order, until the session is halted or one of them fails. */
  function RunItems(w: World, context: Context, title: string, dir: string, items: seq<Item>, s: State, p: Progress):
    Ending
    requires w.Valid()
    decreases w.Unloaded(context.loading), Rank(items), |items|, 2
  {
    if items == [] || w.halted(s.executed) then Ending(Done(p), s)
    else
      var r := RunItem(w, context, title, dir, items[0], s);
      if r.outcome.Failed? then r
      else RunItems(w, context, title, dir, items[1..], r.state, p.Then(r.outcome.progress))
  }

  function RunItem(w: World, context: Context, title: string, dir: string, item: Item, s: State): Ending
    requires w.Valid()
    decreases w.Unloaded(context.loading), if item.Meta? then 1 else 0, 0, 1
  {
    match item
    case Shebang => Ending(Done(NOTHING), s)
    case Code(text) => if IsBlank(text) then Ending(Done(NOTHING), s) else RunCode(w, context, title, dir, text, s)
    case Meta(directive) => RunDirective(w, context, dir, directive, s)
  }

  function RunCode(w: World, context: Context, title: string, dir: string, text: string, s: State): Ending {
    var executed := s.executed + [Fragment(title, dir, text)];
    var outcome :=
      match w.evaluate(executed)
      case Raised(failure) => Failed(LoadError(Eval(title, failure), context.stack))
      case Returned(value) => Done(NOTHING.(value := Some(value)));
    Ending(outcome, s.(executed := executed))
  }

  /** The script a directive names, or the file it loads. */
  datatype Target = Embedded(script: EmbeddedScript) | File(path: string, warnings: seq<string>) | Nothing(text: string)

  function TargetOf(w: World, dir: string, directive: Directive): Target {
    match directive
    case PreludeAlias => NamedTarget(w, dir, "prelude")
    case LoadEmbeddedOrFile(name) => NamedTarget(w, dir, name)
    case LoadPath(path) => File(w.resolve(dir, path), [])
    case Unknown(text) => Nothing(text)
  }

  function NamedTarget(w: World, dir: string, name: string): Target {
    match w.lookupEmbedded(name)
    case Some(script) => Embedded(script)
    case None => File(w.resolve(dir, name), [Fallback(name)])
  }

  function RunDirective(w: World, context: Context, dir: string, directive: Directive, s: State): Ending
    requires w.Valid()
    decreases w.Unloaded(context.loading), 1, 0, 0
  {
    match TargetOf(w, dir, directive)
    case Nothing(text) => Ending(Failed(LoadError(UnknownDirective(text), context.stack)), s)
    case Embedded(script) => RunEmbedded(w, context, dir, script, s)
    case File(path, warnings) =>
      var r := LoadScript(w, context, path, s);
      if r.outcome.Failed? then r
      else r.(outcome := Done(r.outcome.progress.(warnings := warnings + r.outcome.progress.warnings)))
  }

  function RunEmbedded(w: World, context: Context, dir: string, script: EmbeddedScript, s: State): Ending
    requires w.Valid() && !HasDirective(script.items)
    decreases w.Unloaded(context.loading), 0, |script.items|, 3
  {
    var name := script.virtualName;
    if name in s.loaded then Ending(Done(NOTHING), s)
    else
      var begun := s.(begun := s.begun + [name]);
      var r := RunItems(w, context.Push(name), name, dir, script.items, begun, NOTHING);
      if r.outcome.Failed? then r
      else
        Ending(Done(r.outcome.progress.(last := Some(name))), r.state.(loaded := r.state.loaded + {name}))
  }

  lemma EnteringUnloads(w: World, loading: set<string>, canonical: string)
    requires canonical in w.files && canonical !in loading
    ensures w.Unloaded(loading + {canonical}) < w.Unloaded(loading)
  {
    var before, after := w.files.Keys - loading, w.files.Keys - (loading + {canonical});
    assert before == after + {canonical} && canonical !in after;
  }
}
