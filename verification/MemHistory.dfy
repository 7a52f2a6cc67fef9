/**
 The in-memory history (`MemHistory` in `wq-rl/src/history.rs`): a deque with a cap, blank and
 duplicate filters, and a nearest-match search.
 */
module MemHistory {
  import opened Characters
  import opened Wrappers

  function LastN<T>(n: nat, s: seq<T>): seq<T> {
    if |s| <= n then s else s[|s| - n..]
  }

  datatype Config = Config(maxLen: nat, ignoreSpace: bool, ignoreDups: bool) {
    /** The line is refused whatever the history holds. */
    predicate Blank(line: string) {
      line == "" || (ignoreSpace && IsWhitespace(line[0]))
    }
  }

  /** The value of a history: its entries, and the settings the filters read. */
  datatype Mem = Mem(entries: seq<string>, cfg: Config) {
    predicate Ignores(line: string) {
      || cfg.maxLen == 0
      || cfg.Blank(line)
      || (cfg.ignoreDups && entries != [] && entries[|entries| - 1] == line)
    }

    function Insert(line: string): Mem {
      var kept := if |entries| == cfg.maxLen && entries != [] then entries[1..] else entries;
      this.(entries := kept + [line])
    }

    function Add(line: string): Mem {
      if Ignores(line) then this else Insert(line)
    }

    function AddAll(lines: seq<string>): Mem
      decreases |lines|
    {
      if lines == [] then this else Add(lines[0]).AddAll(lines[1..])
    }

    function SetMaxLen(len: nat): Mem {
      Mem(LastN(len, entries), cfg.(maxLen := len))
    }

    predicate Capped() {
      |entries| <= cfg.maxLen
    }

    predicate NoAdjacentDups() {
      forall i :: 0 < i < |entries| ==> entries[i - 1] != entries[i]
    }
  }

  // ---- the unbounded history the capped one is compared with ----

  /** Add a line to a history without a cap, under the filters of `cfg`. */
  function AddUnbounded(cfg: Config, all: seq<string>, line: string): seq<string> {
    if cfg.Blank(line) || (cfg.ignoreDups && all != [] && all[|all| - 1] == line) then all else all + [line]
  }

  function AddAllUnbounded(cfg: Config, all: seq<string>, lines: seq<string>): seq<string>
    decreases |lines|
  {
    if lines == [] then all else AddAllUnbounded(cfg, AddUnbounded(cfg, all, lines[0]), lines[1..])
  }

  lemma CappedAddRefinesUnbounded(m: Mem, all: seq<string>, line: string)
    requires m.cfg.maxLen >= 1 && m.entries == LastN(m.cfg.maxLen, all)
    ensures m.Add(line) == Mem(LastN(m.cfg.maxLen, AddUnbounded(m.cfg, all, line)), m.cfg)
    ensures m.Ignores(line) <==> AddUnbounded(m.cfg, all, line) == all
  {
    if !m.Ignores(line) {
      var next := all + [line];
      if |all| >= m.cfg.maxLen {
        assert next[|next| - m.cfg.maxLen..] == all[|all| - m.cfg.maxLen..][1..] + [line];
      }
    }
  }

  /** With a fixed cap of at least 1 the history is the tail of the unbounded one. */
  lemma {:induction false} CappedRefinesUnbounded(m: Mem, all: seq<string>, lines: seq<string>)
    requires m.cfg.maxLen >= 1 && m.entries == LastN(m.cfg.maxLen, all)
    ensures m.AddAll(lines) == Mem(LastN(m.cfg.maxLen, AddAllUnbounded(m.cfg, all, lines)), m.cfg)
    decreases |lines|
  {
    if lines != [] {
      CappedAddRefinesUnbounded(m, all, lines[0]);
      CappedRefinesUnbounded(m.Add(lines[0]), AddUnbounded(m.cfg, all, lines[0]), lines[1..]);
    }
  }

  // ---- any interleaving of add and set_max_len ----

  datatype Op = OpAdd(line: string) | OpSetMaxLen(len: nat)

  function Apply(m: Mem, op: Op): Mem {
    match op
    case OpAdd(line) => m.Add(line)
    case OpSetMaxLen(len) => m.SetMaxLen(len)
  }

  function ApplyAll(m: Mem, ops: seq<Op>): Mem
    decreases |ops|
  {
    if ops == [] then m else ApplyAll(Apply(m, ops[0]), ops[1..])
  }

  /** Whatever the calls, the cap holds, and duplicate-ignoring histories never hold equal neighbours. */
  lemma {:induction false} EveryInterleavingStaysCapped(m: Mem, ops: seq<Op>)
    requires m.Capped()
    requires m.cfg.ignoreDups ==> m.NoAdjacentDups()
    ensures ApplyAll(m, ops).Capped()
    ensures m.cfg.ignoreDups ==> ApplyAll(m, ops).NoAdjacentDups()
    decreases |ops|
  {
    if ops != [] {
      EveryInterleavingStaysCapped(Apply(m, ops[0]), ops[1..]);
    }
  }

  // ---- any interleaving is a view of an append-only journal ----

  /** Every line ever accepted, how many of them at the end are kept, and the settings. */
  datatype Journal = Journal(all: seq<string>, kept: nat, maxLen: nat, ignoreSpace: bool, ignoreDups: bool) {
    /** A line that is neither blank nor a repeat, while there is room for any. */
    predicate Accepts(line: string) {
      && maxLen > 0 && line != "" && !(ignoreSpace && IsWhitespace(line[0]))
      && !(ignoreDups && kept > 0 && all != [] && all[|all| - 1] == line)
    }

    function Do(op: Op): Journal {
      match op
      case OpAdd(line) =>
        if Accepts(line) then this.(all := all + [line], kept := if kept < maxLen then kept + 1 else maxLen) else this
      case OpSetMaxLen(len) => this.(maxLen := len, kept := if kept < len then kept else len)
    }

    function DoAll(ops: seq<Op>): Journal
      decreases |ops|
    {
      if ops == [] then this else Do(ops[0]).DoAll(ops[1..])
    }
  }

  predicate IsView(m: Mem, j: Journal) {
    && m.cfg == Config(j.maxLen, j.ignoreSpace, j.ignoreDups)
    && j.kept <= |j.all| && j.kept <= j.maxLen
    && m.entries == j.all[|j.all| - j.kept..]
  }

  lemma AcceptsWhatIsNotIgnored(m: Mem, j: Journal, line: string)
    requires IsView(m, j)
    ensures m.Ignores(line) <==> !j.Accepts(line)
  {
    assert m.entries != [] ==> m.entries[|m.entries| - 1] == j.all[|j.all| - 1];
  }

  lemma AddKeepsView(m: Mem, j: Journal, line: string)
    requires IsView(m, j)
    ensures IsView(m.Add(line), j.Do(OpAdd(line)))
  {
    var k := |j.all| - j.kept;
    AcceptsWhatIsNotIgnored(m, j, line);
    if j.Accepts(line) {
      assert (j.all + [line])[k..] == m.entries + [line];
      assert m.entries != [] ==> (j.all + [line])[k + 1..] == m.entries[1..] + [line];
    }
  }

  lemma SetMaxLenKeepsView(m: Mem, j: Journal, len: nat)
    requires IsView(m, j)
    ensures IsView(m.SetMaxLen(len), j.Do(OpSetMaxLen(len)))
  {
    if len < j.kept {
      assert m.entries[j.kept - len..] == j.all[|j.all| - len..];
    }
  }

  /** Whatever is added and however the cap moves, the history is the newest end of all lines it accepted. */
  lemma {:induction false} EveryInterleavingIsAView(m: Mem, j: Journal, ops: seq<Op>)
    requires IsView(m, j)
    ensures IsView(ApplyAll(m, ops), j.DoAll(ops))
    decreases |ops|
  {
    if ops != [] {
      match ops[0] {
        case OpAdd(line) => AddKeepsView(m, j, line);
        case OpSetMaxLen(len) => SetMaxLenKeepsView(m, j, len);
      }
      EveryInterleavingIsAView(Apply(m, ops[0]), j.Do(ops[0]), ops[1..]);
    }
  }

  // ---- nearest-match search ----

  datatype SearchDirection = Forward | Reverse

  datatype SearchResult = SearchResult(entry: string, idx: nat, pos: nat)

  /** `k` is the matching index nearest to `start` in the given direction. */
  ghost predicate NearestMatch(entries: seq<string>, start: nat, dir: SearchDirection,
                               test: string -> Option<nat>, k: nat)
    requires start < |entries|
  {
    && k < |entries|
    && test(entries[k]).Some?
    && match dir
       case Forward => start <= k && forall j :: start <= j < k ==> test(entries[j]).None?
       case Reverse => k <= start && forall j :: k < j <= start ==> test(entries[j]).None?
  }

  ghost predicate NoMatch(entries: seq<string>, start: nat, dir: SearchDirection, test: string -> Option<nat>)
    requires start < |entries|
  {
    match dir
    case Forward => forall j :: start <= j < |entries| ==> test(entries[j]).None?
    case Reverse => forall j :: 0 <= j <= start ==> test(entries[j]).None?
  }

  class History {
    var entries: seq<string>
    var maxLen: nat
    var ignoreSpace: bool
    var ignoreDups: bool

    function State(): Mem
      reads this
    {
      Mem(entries, Config(maxLen, ignoreSpace, ignoreDups))
    }

    constructor (maxLen: nat, ignoreSpace: bool, ignoreDups: bool)
      ensures State() == Mem([], Config(maxLen, ignoreSpace, ignoreDups))
    {
      this.entries := [];
      this.maxLen := maxLen;
      this.ignoreSpace := ignoreSpace;
      this.ignoreDups := ignoreDups;
    }

    method Ignore(line: string) returns (ignored: bool)
      ensures ignored == State().Ignores(line)
    {
      if maxLen == 0 {
        return true;
      }
      if line == "" || (ignoreSpace && IsWhitespace(line[0])) {
        return true;
      }
      if ignoreDups && entries != [] && entries[|entries| - 1] == line {
        return true;
      }
      return false;
    }

    method Insert(line: string)
      modifies this
      ensures State() == old(State().Insert(line))
    {
      if |entries| == maxLen && entries != [] {
        entries := entries[1..];
      }
      entries := entries + [line];
    }

    method Add(line: string) returns (added: bool)
      modifies this
      ensures State() == old(State().Add(line))
      ensures added == !old(State().Ignores(line))
    {
      var ignored := Ignore(line);
      if ignored {
        return false;
      }
      Insert(line);
      return true;
    }

    method SetMaxLen(len: nat)
      modifies this
      ensures State() == old(State().SetMaxLen(len))
    {
      maxLen := len;
      if |entries| > len {
        entries := entries[|entries| - len..];
      }
    }

    method SearchMatch(term: string, start: nat, dir: SearchDirection, test: string -> Option<nat>)
      returns (r: Option<SearchResult>)
      ensures r.None? <==> term == "" || start >= |entries| || NoMatch(entries, start, dir, test)
      ensures r.Some? ==> NearestMatch(entries, start, dir, test, r.value.idx)
      ensures r.Some? ==> r.value.entry == entries[r.value.idx] && Some(r.value.pos) == test(r.value.entry)
    {
      if term == "" || start >= |entries| {
        return None;
      }
      match dir {
        case Reverse =>
          var idx := 0;
          while idx <= start
            invariant 0 <= idx <= start + 1
            invariant forall j :: start - idx < j <= start ==> test(entries[j]).None?
          {
            var cursor := test(entries[start - idx]);
            if cursor.Some? {
              return Some(SearchResult(entries[start - idx], start - idx, cursor.value));
            }
            idx := idx + 1;
          }
        case Forward =>
          var idx := 0;
          while start + idx < |entries|
            invariant 0 <= idx <= |entries| - start
            invariant forall j :: start <= j < start + idx ==> test(entries[j]).None?
          {
            var cursor := test(entries[start + idx]);
            if cursor.Some? {
              return Some(SearchResult(entries[start + idx], start + idx, cursor.value));
            }
            idx := idx + 1;
          }
      }
      return None;
    }
  }
}
