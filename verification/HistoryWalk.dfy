/**
 Walking through the history while editing a line (`wq-rl/src/edit.rs`).

 The editor keeps one line, one saved line and an index, and copies between them.  The view below is
 what the user is meant to see instead: a position among the entries and one draft behind the last
 of them; an entry can be scribbled on, but the scribble is gone once the position moves.
 */
module HistoryWalk {
  import opened Wrappers

  /** A line and its cursor. */
  datatype Line = Line(text: string, pos: nat) {
    predicate Valid() {
      pos <= |text|
    }
  }

  datatype Command =
    | Next(prev: bool)
    | End(first: bool)
    | Edit(line: Line)

  // ---- the view ----

  datatype View = View(position: nat, draft: Line, scribble: Option<Line>) {
    predicate Valid(history: seq<string>) {
      && position <= |history|
      && draft.Valid()
      && (scribble.Some? ==> scribble.value.Valid() && position < |history|)
    }

    /** The draft behind the last entry; an entry with the cursor at its end unless scribbled on. */
    function Shown(history: seq<string>): (line: Line)
      requires Valid(history)
      ensures line.Valid()
    {
      if position == |history| then draft
      else if scribble.Some? then scribble.value
      else Line(history[position], |history[position]|)
    }

    function MoveTo(target: nat): View {
      if target == position then this else View(target, draft, None)
    }

    function Do(history: seq<string>, command: Command): (v: View)
      requires Valid(history) && (command.Edit? ==> command.line.Valid())
      ensures v.Valid(history)
    {
      match command
      case Next(true) => MoveTo(if position == 0 then 0 else position - 1)
      case Next(false) => MoveTo(if position == |history| then position else position + 1)
      case End(true) => MoveTo(0)
      case End(false) => MoveTo(|history|)
      case Edit(line) => if position == |history| then this.(draft := line) else this.(scribble := Some(line))
    }
  }

  predicate ValidCommands(commands: seq<Command>) {
    forall k :: 0 <= k < |commands| && commands[k].Edit? ==> commands[k].line.Valid()
  }

  function Run(history: seq<string>, start: View, commands: seq<Command>): (v: View)
    requires start.Valid(history) && ValidCommands(commands)
    ensures v.Valid(history)
    decreases |commands|
  {
    if commands == [] then start
    else Run(history, start.Do(history, commands[0]), commands[1..])
  }

  // ---- the editor ----

  class LineBuffer {
    var buf: string
    var pos: nat

    constructor ()
      ensures Value() == Line("", 0)
    {
      buf := "";
      pos := 0;
    }

    function Value(): Line
      reads this
    {
      Line(buf, pos)
    }

    /** The buffer can grow, so nothing is cut. */
    method Update(text: string, pos: nat)
      requires pos <= |text|
      modifies this
      ensures Value() == Line(text, pos)
    {
      this.buf := "";
      this.buf := text + this.buf;
      this.pos := pos;
      assert this.buf == text;
    }
  }

  class EditState {
    const history: seq<string>
    const line: LineBuffer
    const savedLine: LineBuffer
    var historyIndex: nat
    ghost var view: View

    /** The editor shows the view; what it saved is needed only away from the draft. */
    ghost predicate Valid()
      reads this, line, savedLine
    {
      && line != savedLine
      && view.Valid(history)
      && historyIndex == view.position
      && line.Value() == view.Shown(history)
      && (historyIndex < |history| ==> savedLine.Value() == view.draft)
    }

    constructor (history: seq<string>)
      ensures Valid() && fresh(line) && fresh(savedLine)
      ensures this.history == history && view == View(|history|, Line("", 0), None)
    {
      this.history := history;
      line := new LineBuffer();
      savedLine := new LineBuffer();
      historyIndex := |history|;
      view := View(|history|, Line("", 0), None);
    }

    method Backup()
      requires line != savedLine && line.Value().Valid()
      modifies savedLine
      ensures savedLine.Value() == line.Value()
    {
      savedLine.Update(line.buf, line.pos);
    }

    method Restore()
      requires line != savedLine && savedLine.Value().Valid()
      modifies line
      ensures line.Value() == savedLine.Value()
    {
      line.Update(savedLine.buf, savedLine.pos);
    }

    /** Any command that changes the line or the cursor and leaves the history alone. */
    method ReplaceLine(text: string, pos: nat)
      requires Valid() && pos <= |text|
      modifies this, line
      ensures Valid() && view == old(view).Do(history, Edit(Line(text, pos)))
    {
      line.Update(text, pos);
      view := view.Do(history, Edit(Line(text, pos)));
    }

    method EditHistoryNext(prev: bool)
      requires Valid()
      modifies this, line, savedLine
      ensures Valid() && view == old(view).Do(history, Next(prev))
    {
      view := view.Do(history, Next(prev));
      if |history| == 0 {
        return;
      }
      if historyIndex == |history| {
        if prev {
          Backup();
        } else {
          return;
        }
      } else if historyIndex == 0 && prev {
        return;
      }
      var idx;
      if prev {
        idx := historyIndex - 1;
      } else {
        historyIndex := historyIndex + 1;
        idx := historyIndex;
      }
      if idx < |history| {
        historyIndex := idx;
        line.Update(history[idx], |history[idx]|);
      } else {
        Restore();
      }
    }

    method EditHistory(first: bool)
      requires Valid()
      modifies this, line, savedLine
      ensures Valid() && view == old(view).Do(history, End(first))
    {
      view := view.Do(history, End(first));
      if |history| == 0 {
        return;
      }
      if historyIndex == |history| {
        if first {
          Backup();
        } else {
          return;
        }
      } else if historyIndex == 0 && first {
        return;
      }
      if first {
        historyIndex := 0;
        line.Update(history[0], |history[0]|);
      } else {
        historyIndex := |history|;
        Restore();
      }
    }

    /** Every run of the editor shows what the same run of the view shows. */
    method Perform(commands: seq<Command>)
      requires Valid() && ValidCommands(commands)
      modifies this, line, savedLine
      ensures Valid() && view == Run(history, old(view), commands)
    {
      ghost var start := view;
      for k := 0 to |commands|
        invariant Valid()
        invariant Run(history, view, commands[k..]) == Run(history, start, commands)
      {
        assert commands[k..][1..] == commands[k + 1..];
        match commands[k] {
          case Next(prev) => EditHistoryNext(prev);
          case End(first) => EditHistory(first);
          case Edit(edited) => ReplaceLine(edited.text, edited.pos);
        }
      }
    }
  }

  // ---- what every walk keeps ----

  /** The line as it was when the position was last behind the last entry. */
  function LineLeft(history: seq<string>, start: View, commands: seq<Command>): Line
    requires start.Valid(history) && ValidCommands(commands)
    decreases |commands|
  {
    if commands == [] then start.Shown(history)
    else
      var before := Run(history, start, Front(commands));
      var after := before.Do(history, commands[|commands| - 1]);
      if after.position == |history| && before.position == |history| then after.Shown(history)
      else LineLeft(history, start, Front(commands))
  }

  function Front(commands: seq<Command>): (front: seq<Command>)
    requires commands != []
    ensures |front| == |commands| - 1
    ensures ValidCommands(commands) ==> ValidCommands(front)
  {
    commands[..|commands| - 1]
  }

  lemma {:induction false} RunSnoc(history: seq<string>, start: View, commands: seq<Command>)
    requires start.Valid(history) && ValidCommands(commands) && commands != []
    ensures Run(history, start, commands)
         == Run(history, start, Front(commands)).Do(history, commands[|commands| - 1])
    decreases |commands|
  {
    if |commands| > 1 {
      assert Front(commands)[1..] == Front(commands[1..]);
      RunSnoc(history, start.Do(history, commands[0]), commands[1..]);
    }
  }

  /**
   After any commands at all, edits included, a walk that started at the draft is at the draft as it
   was last left, or at an entry.
   */
  lemma {:induction false} ReturnsToTheLineLeft(history: seq<string>, start: View, commands: seq<Command>)
    requires start.Valid(history) && ValidCommands(commands) && start.position == |history|
    ensures var v := Run(history, start, commands);
      && v.draft == LineLeft(history, start, commands)
      && (v.position == |history| ==> v.Shown(history) == LineLeft(history, start, commands))
    decreases |commands|
  {
    if commands != [] {
      RunSnoc(history, start, commands);
      ReturnsToTheLineLeft(history, start, Front(commands));
    }
  }

  /** Where one command leads, whatever the history holds. */
  function Target(history: seq<string>, position: nat, command: Command): int {
    match command
    case Next(prev) => if prev then position - 1 else position + 1
    case End(first) => if first then 0 else |history|
    case Edit(_) => position
  }

  /**
   After any commands from the draft, one more goes where it should, and no further than the ends; it
   shows an edit, the entry or the draft it came to, and what was shown before if it moved nowhere.
   */
  lemma EveryCommandShows(history: seq<string>, start: View, commands: seq<Command>, command: Command)
    requires start.Valid(history) && ValidCommands(commands) && start.position == |history|
    requires command.Edit? ==> command.line.Valid()
    ensures ValidCommands(commands + [command])
    ensures var before, v := Run(history, start, commands), Run(history, start, commands + [command]);
      var target := Target(history, before.position, command);
      && v.position == (if target < 0 then 0 else if target > |history| then |history| else target)
      && v.Shown(history) ==
           if command.Edit? then command.line
           else if v.position == before.position then before.Shown(history)
           else if v.position < |history| then Line(history[v.position], |history[v.position]|)
           else LineLeft(history, start, commands)
  {
    var longer := commands + [command];
    assert Front(longer) == commands;
    RunSnoc(history, start, longer);
    ReturnsToTheLineLeft(history, start, commands);
  }

  /** A jump to the start shows the first entry, a jump to the end the line as it was last left there. */
  lemma JumpsReachTheEnds(history: seq<string>, start: View, commands: seq<Command>)
    requires start.Valid(history) && ValidCommands(commands) && start.position == |history|
    ensures ValidCommands(commands + [End(true)]) && ValidCommands(commands + [End(false)])
    ensures var before, first := Run(history, start, commands), Run(history, start, commands + [End(true)]);
      && first.position == 0
      && (history != [] && (before.position > 0 || before.scribble.None?) ==>
            first.Shown(history) == Line(history[0], |history[0]|))
    ensures var last := Run(history, start, commands + [End(false)]);
      last.position == |history| && last.Shown(history) == LineLeft(history, start, commands)
  {
    EveryCommandShows(history, start, commands, End(true));
    EveryCommandShows(history, start, commands, End(false));
    ReturnsToTheLineLeft(history, start, commands);
  }

  ghost predicate NoEdits(commands: seq<Command>) {
    forall k :: 0 <= k < |commands| ==> !commands[k].Edit?
  }

  /**
   Without edits: below the end the line is that entry with the cursor at its end, and at the end
   the line and the cursor are exactly the ones the walk began with.
   */
  lemma {:induction false} WalkShowsEntriesAndDraft(history: seq<string>, start: View, commands: seq<Command>)
    requires start.Valid(history) && start.scribble.None? && NoEdits(commands)
    ensures var v := Run(history, start, commands);
      && v.position <= |history|
      && v.draft == start.draft
      && v.Shown(history)
         == if v.position < |history| then Line(history[v.position], |history[v.position]|) else start.draft
    ensures Run(history, start, commands).scribble.None?
    decreases |commands|
  {
    if commands != [] {
      WalkShowsEntriesAndDraft(history, start.Do(history, commands[0]), commands[1..]);
    }
  }

  function Repeat(command: Command, n: nat): (commands: seq<Command>)
    requires !command.Edit?
    ensures |commands| == n && NoEdits(commands)
  {
    seq(n, _ => command)
  }

  lemma {:induction false} StepsBack(history: seq<string>, start: View, n: nat)
    requires start.Valid(history)
    ensures Run(history, start, Repeat(Next(true), n)).position == if n < start.position then start.position - n else 0
    decreases n
  {
    if n > 0 {
      assert Repeat(Next(true), n)[1..] == Repeat(Next(true), n - 1);
      StepsBack(history, start.Do(history, Next(true)), n - 1);
    }
  }

  lemma {:induction false} StepsForward(history: seq<string>, start: View, n: nat)
    requires start.Valid(history)
    ensures Run(history, start, Repeat(Next(false), n)).position
         == if start.position + n < |history| then start.position + n else |history|
    decreases n
  {
    if n > 0 {
      assert Repeat(Next(false), n)[1..] == Repeat(Next(false), n - 1);
      StepsForward(history, start.Do(history, Next(false)), n - 1);
    }
  }

  lemma {:induction false} RunConcat(history: seq<string>, start: View, a: seq<Command>, b: seq<Command>)
    requires start.Valid(history) && ValidCommands(a) && ValidCommands(b)
    ensures Run(history, start, a + b) == Run(history, Run(history, start, a), b)
    decreases |a|
  {
    if a == [] {
      assert a + b == b;
    } else {
      assert (a + b)[1..] == a[1..] + b;
      RunConcat(history, start.Do(history, a[0]), a[1..], b);
    }
  }

  /**
   From the draft, going back and then forward again at least as far shows the draft, untouched;
   going forward less far does so exactly if there are too few entries to have gone back further.
   */
  lemma BackAndForth(history: seq<string>, start: View, back: nat, forth: nat)
    requires start.Valid(history) && start.position == |history|
    ensures var v := Run(history, start, Repeat(Next(true), back) + Repeat(Next(false), forth));
      && (v.position == |history| <==> forth >= back || forth >= |history|)
      && (v.position == |history| ==> v.Shown(history) == start.Shown(history))
  {
    var there, andBack := Repeat(Next(true), back), Repeat(Next(false), forth);
    RunConcat(history, start, there, andBack);
    StepsBack(history, start, back);
    StepsForward(history, Run(history, start, there), forth);
    WalkShowsEntriesAndDraft(history, start, there + andBack);
  }
}
