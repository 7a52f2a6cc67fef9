/** Saving a history and loading it again (`save_to` and `load_from` in `wq-rl/src/history.rs`). */
module HistoryRoundTrip {
  import opened Wrappers
  import opened HistoryText
  import opened HistoryFile
  import M = MemHistory

  /** Entries that the filters of `cfg` would all let through, in this order. */
  ghost predicate Acceptable(cfg: M.Config, entries: seq<string>)
    decreases |entries|
  {
    entries == [] ||
    (var init, last := entries[..|entries| - 1], entries[|entries| - 1];
     && Acceptable(cfg, init)
     && !cfg.Blank(last)
     && (cfg.ignoreDups && init != [] ==> init[|init| - 1] != last))
  }

  /** That is: none is blank, and none repeats the one before it if duplicates are ignored. */
  lemma {:induction false} AcceptableMeans(cfg: M.Config, entries: seq<string>)
    ensures Acceptable(cfg, entries) <==>
      && (forall i :: 0 <= i < |entries| ==> !cfg.Blank(entries[i]))
      && (cfg.ignoreDups ==> forall i :: 0 < i < |entries| ==> entries[i - 1] != entries[i])
    decreases |entries|
  {
    if entries != [] {
      var init := entries[..|entries| - 1];
      AcceptableMeans(cfg, init);
      forall i | 0 <= i < |init| ensures init[i] == entries[i] && entries[i] == init[i] {
      }
    }
  }

  lemma AcceptableSnoc(cfg: M.Config, entries: seq<string>, line: string)
    ensures Acceptable(cfg, entries + [line]) <==>
      && Acceptable(cfg, entries)
      && !cfg.Blank(line)
      && (cfg.ignoreDups && entries != [] ==> entries[|entries| - 1] != line)
  {
  }

  lemma {:induction false} AcceptablePrefix(cfg: M.Config, entries: seq<string>, k: nat)
    requires Acceptable(cfg, entries) && k <= |entries|
    ensures Acceptable(cfg, entries[..k])
    decreases |entries|
  {
    if k < |entries| {
      assert entries[..|entries| - 1][..k] == entries[..k];
      AcceptablePrefix(cfg, entries[..|entries| - 1], k);
    } else {
      assert entries[..k] == entries;
    }
  }

  lemma AcceptableSuffix(cfg: M.Config, entries: seq<string>, k: nat)
    requires Acceptable(cfg, entries) && k <= |entries|
    ensures Acceptable(cfg, entries[k..])
  {
    AcceptableMeans(cfg, entries);
    AcceptableMeans(cfg, entries[k..]);
  }

  ghost predicate NoFinalCr(entries: seq<string>) {
    forall i :: 0 <= i < |entries| ==> !EndsInCr(entries[i])
  }

  lemma TakesAcceptable(mem: M.Mem, all: seq<string>, line: string)
    requires 1 <= mem.cfg.maxLen && mem.entries == M.LastN(mem.cfg.maxLen, all)
    requires Acceptable(mem.cfg, all + [line])
    ensures !mem.Ignores(line)
    ensures mem.Add(line) == M.Mem(M.LastN(mem.cfg.maxLen, all + [line]), mem.cfg)
  {
  }

  /** The next line of an acceptable list is taken. */
  lemma NextIsTaken(mem: M.Mem, all: seq<string>, entries: seq<string>)
    requires 1 <= mem.cfg.maxLen && mem.entries == M.LastN(mem.cfg.maxLen, all)
    requires entries != [] && Acceptable(mem.cfg, all + entries)
    ensures !mem.Ignores(entries[0])
    ensures mem.Add(entries[0]) == M.Mem(M.LastN(mem.cfg.maxLen, all + [entries[0]]), mem.cfg)
    ensures (all + [entries[0]]) + entries[1..] == all + entries
  {
    AcceptablePrefix(mem.cfg, all + entries, |all| + 1);
    assert (all + entries)[..|all| + 1] == all + [entries[0]];
    TakesAcceptable(mem, all, entries[0]);
  }

  /** One turn of the reader's loop on a written line. */
  lemma LoadNextLine(mem: M.Mem, entries: seq<string>, appendable: bool)
    requires entries != []
    ensures var head := StripCr(entries[0]);
      LoadLines(mem, true, WrittenLines(entries), appendable) ==
      if head == "" then LoadLines(mem, true, WrittenLines(entries[1..]), appendable)
      else LoadLines(mem.Add(head), true, WrittenLines(entries[1..]), appendable && !mem.Ignores(head))
  {
    ReadWrittenLine(entries[0]);
    assert WrittenLines(entries)[1..] == WrittenLines(entries[1..]);
  }

  /** The reader on the lines the writer wrote: it takes every entry, under the cap. */
  lemma {:induction false} LoadWrittenLines(mem: M.Mem, all: seq<string>, entries: seq<string>, appendable: bool)
    requires 1 <= mem.cfg.maxLen && mem.entries == M.LastN(mem.cfg.maxLen, all)
    requires Acceptable(mem.cfg, all + entries) && NoFinalCr(entries)
    ensures LoadLines(mem, true, WrittenLines(entries), appendable)
         == (M.Mem(M.LastN(mem.cfg.maxLen, all + entries), mem.cfg), appendable)
    decreases |entries|
  {
    if entries == [] {
      assert all + [] == all;
    } else {
      LoadNextLine(mem, entries, appendable);
      assert StripCr(entries[0]) == entries[0];
      NextIsTaken(mem, all, entries);
      LoadWrittenLines(mem.Add(entries[0]), all + [entries[0]], entries[1..], appendable);
    }
  }

  lemma LoadWrittenFile(mem: M.Mem, entries: seq<string>)
    requires Acceptable(mem.cfg, mem.entries + entries) && NoFinalCr(entries)
    requires |mem.entries| + |entries| <= mem.cfg.maxLen
    ensures LoadText(mem, Encode(entries)) == (M.Mem(mem.entries + entries, mem.cfg), true)
  {
    LinesOfEncode(entries);
    assert ([VERSION_LINE] + WrittenLines(entries))[1..] == WrittenLines(entries);
    if mem.cfg.maxLen == 0 {
      assert mem.entries + entries == mem.entries;
    } else {
      LoadWrittenLines(mem, mem.entries, entries, true);
    }
  }

  /** The entries as the line splitter leaves them. */
  function Chopped(entries: seq<string>): (r: seq<string>)
    ensures |r| == |entries|
  {
    if entries == [] then [] else [StripCr(entries[0])] + Chopped(entries[1..])
  }

  lemma {:induction false} ChoppedChanges(entries: seq<string>)
    requires Chopped(entries) == entries
    ensures NoFinalCr(entries)
  {
    if entries != [] {
      assert entries == [entries[0]] + entries[1..];
      assert entries[0] == StripCr(entries[0]) && Chopped(entries[1..]) == entries[1..];
      ChoppedChanges(entries[1..]);
    }
  }

  /** Reading written lines is adding the chopped entries; an empty line adds nothing either way. */
  lemma {:induction false} LoadIsAddAll(mem: M.Mem, entries: seq<string>, appendable: bool)
    ensures LoadLines(mem, true, WrittenLines(entries), appendable).0 == mem.AddAll(Chopped(entries))
    decreases |entries|
  {
    if entries != [] {
      var head := StripCr(entries[0]);
      LoadNextLine(mem, entries, appendable);
      LoadIsAddAll(mem.Add(head), entries[1..], if head == "" then appendable else appendable && !mem.Ignores(head));
      assert Chopped(entries)[1..] == Chopped(entries[1..]);
    }
  }

  /** Adding never yields more entries than lines, and as many only if every line came through. */
  lemma {:induction false} AddAllGrowth(mem: M.Mem, lines: seq<string>)
    ensures var after := mem.AddAll(lines).entries;
      && |after| <= |mem.entries| + |lines|
      && (|after| == |mem.entries| + |lines| ==> after == mem.entries + lines)
    decreases |lines|
  {
    if lines == [] {
      assert mem.entries + [] == mem.entries;
    } else {
      AddAllGrowth(mem.Add(lines[0]), lines[1..]);
      assert (mem.entries + [lines[0]]) + lines[1..] == mem.entries + lines;
    }
  }

  /** A written file gives back exactly the histories none of whose entries ends in a carriage return. */
  lemma EncodedLoadsBack(mem: M.Mem, files: Files, path: string)
    requires mem.Capped() && Acceptable(mem.cfg, mem.entries)
    requires path in files && files[path].text == Encode(mem.entries)
    ensures var h := Loaded(Fresh(mem.cfg), files, path);
      && (h.mem == mem <==> NoFinalCr(mem.entries))
      && (NoFinalCr(mem.entries) ==>
            h.newEntries == 0 && h.pathInfo == Some(PathInfo(path, files[path].mtime, |mem.entries|)))
  {
    var empty, es := M.Mem([], mem.cfg), mem.entries;
    assert [] + es == es;
    if NoFinalCr(es) {
      LoadWrittenFile(empty, es);
    } else {
      FinalCrNeverSurvives(empty, es);
    }
  }

  lemma FinalCrNeverSurvives(empty: M.Mem, entries: seq<string>)
    requires empty.entries == [] && |entries| <= empty.cfg.maxLen && !NoFinalCr(entries)
    ensures LoadText(empty, Encode(entries)).0.entries != entries
  {
    LinesOfEncode(entries);
    assert ([VERSION_LINE] + WrittenLines(entries))[1..] == WrittenLines(entries);
    LoadIsAddAll(empty, entries, true);
    AddAllGrowth(empty, Chopped(entries));
    assert [] + Chopped(entries) == Chopped(entries);
    if Chopped(entries) == entries {
      ChoppedChanges(entries);
    }
  }

  /** The smallest history that does not survive: one entry, a carriage return at its end. */
  lemma FinalCrIsLost()
    ensures Decode(M.Config(10, false, false), Encode(["a\r"])) == ["a"]
  {
    var empty := M.Mem([], M.Config(10, false, false));
    LinesOfEncode(["a\r"]);
    ReadWrittenLine("a\r");
    assert StripCr("a\r") == "a";
    var lines := [VERSION_LINE] + WrittenLines(["a\r"]);
    assert lines[1..] == [StripCr(Escape("a\r"))];
    assert LoadLines(empty, true, lines[1..], true).0 == empty.Add("a");
  }

  // ---- any history, however it came about ----

  /** The calls on a history, and what other processes do to the files in between. */
  datatype Call =
    | CallAdd(line: string)
    | CallSetMaxLen(len: nat)
    | CallSave(path: string)
    | CallAppend(path: string)
    | CallLoad(path: string)
    | Others(files: Files)

  function Perform(h: Hist, files: Files, call: Call): (Hist, Files) {
    match call
    case CallAdd(line) => (h.Add(line), files)
    case CallSetMaxLen(len) => (h.SetMaxLen(len), files)
    case CallSave(path) => Saved(h, files, path)
    case CallAppend(path) => Appended(h, files, path)
    case CallLoad(path) => (if path in files then Loaded(h, files, path) else h, files)
    case Others(after) => (h, after)
  }

  function PerformAll(h: Hist, files: Files, calls: seq<Call>): (Hist, Files)
    decreases |calls|
  {
    if calls == [] then (h, files)
    else
      var (next, after) := Perform(h, files, calls[0]);
      PerformAll(next, after, calls[1..])
  }

  ghost predicate GoodMem(mem: M.Mem) {
    mem.Capped() && Acceptable(mem.cfg, mem.entries)
  }

  ghost predicate GoodHist(h: Hist) {
    GoodMem(h.mem) && h.newEntries <= |h.mem.entries|
  }

  lemma AddKeepsGood(mem: M.Mem, line: string)
    requires GoodMem(mem)
    ensures GoodMem(mem.Add(line))
  {
    if !mem.Ignores(line) {
      AcceptableSnoc(mem.cfg, mem.entries, line);
      if mem.entries != [] {
        AcceptableSuffix(mem.cfg, mem.entries, 1);
        AcceptableSnoc(mem.cfg, mem.entries[1..], line);
      }
    }
  }

  lemma SetMaxLenKeepsGood(mem: M.Mem, len: nat)
    requires GoodMem(mem)
    ensures GoodMem(mem.SetMaxLen(len))
  {
    var after := mem.SetMaxLen(len);
    if |mem.entries| > len {
      AcceptableSuffix(mem.cfg, mem.entries, |mem.entries| - len);
    }
    AcceptableMeans(mem.cfg, after.entries);
    AcceptableMeans(after.cfg, after.entries);
  }

  lemma {:induction false} LoadKeepsGood(mem: M.Mem, v2: bool, lines: seq<string>, appendable: bool)
    requires GoodMem(mem)
    ensures GoodMem(LoadLines(mem, v2, lines, appendable).0)
    decreases |lines|
  {
    if lines != [] {
      if lines[0] == "" {
        LoadKeepsGood(mem, v2, lines[1..], appendable);
      } else {
        var line := if v2 then DecodeLine(lines[0]) else lines[0];
        AddKeepsGood(mem, line);
        LoadKeepsGood(mem.Add(line), v2, lines[1..], appendable && !mem.Ignores(line));
      }
    }
  }

  lemma LoadTextKeepsGood(mem: M.Mem, text: string)
    requires GoodMem(mem)
    ensures GoodMem(LoadText(mem, text).0)
  {
    var lines := Lines(text);
    if lines != [] {
      AddKeepsGood(mem, lines[0]);
      LoadKeepsGood(mem, true, lines[1..], true);
      LoadKeepsGood(mem.Add(lines[0]), false, lines[1..], false);
    }
  }

  lemma PerformKeepsGood(h: Hist, files: Files, call: Call)
    requires GoodHist(h)
    ensures GoodHist(Perform(h, files, call).0)
  {
    match call
    case CallAdd(line) => AddKeepsGood(h.mem, line);
    case CallSetMaxLen(len) => SetMaxLenKeepsGood(h.mem, len);
    case CallLoad(path) => if path in files { LoadTextKeepsGood(h.mem, files[path].text); }
    case _ =>
  }

  lemma {:induction false} EveryHistoryIsGood(h: Hist, files: Files, calls: seq<Call>)
    requires GoodHist(h)
    ensures GoodHist(PerformAll(h, files, calls).0)
    decreases |calls|
  {
    if calls != [] {
      var (next, after) := Perform(h, files, calls[0]);
      PerformKeepsGood(h, files, calls[0]);
      EveryHistoryIsGood(next, after, calls[1..]);
    }
  }

  // ---- what is unsaved ----

  /** The lines accepted since the last save, append or load, after one more call. */
  function Pending(h: Hist, files: Files, pending: seq<string>, call: Call): seq<string> {
    match call
    case CallAdd(line) => if h.mem.Ignores(line) then pending else pending + [line]
    case CallSetMaxLen(_) => pending
    case CallSave(_) => if h.Unsaved() == [] then pending else []
    case CallAppend(_) => if h.Unsaved() == [] then pending else []
    case CallLoad(path) => if path in files then [] else pending
    case Others(_) => pending
  }

  function PendingAll(h: Hist, files: Files, pending: seq<string>, calls: seq<Call>): seq<string>
    decreases |calls|
  {
    if calls == [] then pending
    else
      var (next, after) := Perform(h, files, calls[0]);
      PendingAll(next, after, Pending(h, files, pending, calls[0]), calls[1..])
  }

  /** The unsaved entries are the pending lines, except those the cap has pushed out. */
  predicate TracksPending(h: Hist, pending: seq<string>) {
    h.Unsaved() == M.LastN(|h.mem.entries|, pending) && h.newEntries == Min(|pending|, |h.mem.entries|)
  }

  lemma UnsavedIsLastN(h: Hist)
    requires h.newEntries <= |h.mem.entries|
    ensures h.Unsaved() == M.LastN(h.newEntries, h.mem.entries)
  {
  }

  lemma EntriesAfterAdd(mem: M.Mem, line: string)
    requires mem.Capped() && !mem.Ignores(line)
    ensures var n := |mem.Add(line).entries|;
      && n == Min(|mem.entries| + 1, mem.cfg.maxLen)
      && mem.Add(line).entries == M.LastN(n, mem.entries + [line])
  {
  }

  /** The same end of the entries and of the pending lines, with a line behind both. */
  lemma EndsAgree(entries: seq<string>, pending: seq<string>, line: string, unsaved: nat, n: nat)
    requires 1 <= n <= unsaved + 1 && unsaved <= |entries|
    requires M.LastN(unsaved, entries) == M.LastN(|entries|, pending)
    ensures M.LastN(n, entries + [line]) == M.LastN(n, pending + [line])
  {
    LastNSnoc(pending, line, n);
    LastNSnoc(entries, line, n);
    LastNOfLastN(entries, unsaved, n - 1);
    LastNOfLastN(pending, |entries|, n - 1);
  }

  lemma AddTracksPending(h: Hist, pending: seq<string>, line: string)
    requires GoodHist(h) && TracksPending(h, pending) && !h.mem.Ignores(line)
    ensures TracksPending(h.Add(line), pending + [line])
  {
    var next := h.Add(line);
    var n, length := next.newEntries, |next.mem.entries|;
    EntriesAfterAdd(h.mem, line);
    UnsavedIsLastN(h);
    UnsavedIsLastN(next);
    EndsAgree(h.mem.entries, pending, line, h.newEntries, n);
    LastNOfLastN(h.mem.entries + [line], length, n);
    LongEnough(pending + [line], n, length);
  }

  lemma LongEnough(s: seq<string>, n: nat, m: nat)
    requires n == Min(|s|, m)
    ensures M.LastN(n, s) == M.LastN(m, s)
  {
  }

  lemma LastNSnoc(s: seq<string>, line: string, n: nat)
    requires 1 <= n
    ensures M.LastN(n, s + [line]) == M.LastN(n - 1, s) + [line]
  {
  }

  lemma LastNOfLastN(s: seq<string>, n: nat, m: nat)
    requires m <= n
    ensures M.LastN(m, M.LastN(n, s)) == M.LastN(m, s)
  {
  }

  lemma SetMaxLenTracksPending(h: Hist, pending: seq<string>, len: nat)
    requires GoodHist(h) && TracksPending(h, pending)
    ensures TracksPending(h.SetMaxLen(len), pending)
  {
    var next, entries, n := h.SetMaxLen(len), h.mem.entries, Min(h.newEntries, len);
    UnsavedIsLastN(h);
    UnsavedIsLastN(next);
    LastNOfLastN(entries, len, n);
    LastNOfLastN(entries, h.newEntries, n);
    LastNOfLastN(pending, |entries|, n);
    LongEnough(pending, n, |next.mem.entries|);
  }

  lemma CallTracksPending(h: Hist, files: Files, pending: seq<string>, call: Call)
    requires GoodHist(h) && TracksPending(h, pending)
    ensures TracksPending(Perform(h, files, call).0, Pending(h, files, pending, call))
  {
    match call
    case CallAdd(line) => if !h.mem.Ignores(line) { AddTracksPending(h, pending, line); }
    case CallSetMaxLen(len) => SetMaxLenTracksPending(h, pending, len);
    case _ =>
  }

  /**
   Whatever calls come in whatever order, what is unsaved is what was accepted since the last save,
   append or load.
   */
  lemma {:induction false} UnsavedIsPending(h: Hist, files: Files, pending: seq<string>, calls: seq<Call>)
    requires GoodHist(h) && TracksPending(h, pending)
    ensures TracksPending(PerformAll(h, files, calls).0, PendingAll(h, files, pending, calls))
    decreases |calls|
  {
    if calls != [] {
      var (next, after) := Perform(h, files, calls[0]);
      PerformKeepsGood(h, files, calls[0]);
      CallTracksPending(h, files, pending, calls[0]);
      UnsavedIsPending(next, after, Pending(h, files, pending, calls[0]), calls[1..]);
    }
  }

  /**
   Saving any history, whatever calls and files it came from, and loading it into a fresh one with
   the same settings gives back the same history, nothing new and the file appendable, exactly if no
   entry ends in a carriage return; line feeds and backslashes anywhere are no obstacle.  With
   nothing unsaved, saving does nothing.
   */
  lemma SaveLoadRoundTrip(cfg: M.Config, files: Files, calls: seq<Call>, path: string)
    ensures var (h, now) := PerformAll(Fresh(cfg), files, calls);
      if h.newEntries == 0 then Saved(h, now, path) == (h, now)
      else
        var (_, after) := Saved(h, now, path);
        && path in after
        && var back := Loaded(Fresh(h.mem.cfg), after, path);
           && (back.mem == h.mem <==> NoFinalCr(h.mem.entries))
           && (NoFinalCr(h.mem.entries) ==>
                 && back.newEntries == 0
                 && back.pathInfo == Some(PathInfo(path, after[path].mtime, |h.mem.entries|)))
  {
    EveryHistoryIsGood(Fresh(cfg), files, calls);
    var (h, now) := PerformAll(Fresh(cfg), files, calls);
    if h.newEntries > 0 {
      EncodedLoadsBack(h.mem, Saved(h, now, path).1, path);
    }
  }

  // ---- loading into a history that already holds entries ----

  /** The lines a versioned file feeds to a history: decoded, without the empty ones. */
  function Fed(lines: seq<string>): seq<string> {
    if lines == [] then []
    else if lines[0] == "" then Fed(lines[1..])
    else [DecodeLine(lines[0])] + Fed(lines[1..])
  }

  /** The history takes every one of the lines, one after the other. */
  predicate TakesAll(mem: M.Mem, lines: seq<string>)
    decreases |lines|
  {
    lines == [] || (!mem.Ignores(lines[0]) && TakesAll(mem.Add(lines[0]), lines[1..]))
  }

  lemma {:induction false} LoadLinesFeeds(mem: M.Mem, lines: seq<string>, appendable: bool)
    ensures LoadLines(mem, true, lines, appendable)
         == (mem.AddAll(Fed(lines)), appendable && TakesAll(mem, Fed(lines)))
    decreases |lines|
  {
    if lines != [] {
      if lines[0] == "" {
        LoadLinesFeeds(mem, lines[1..], appendable);
      } else {
        var line, rest := DecodeLine(lines[0]), Fed(lines[1..]);
        LoadLinesFeeds(mem.Add(line), lines[1..], appendable && !mem.Ignores(line));
        assert ([line] + rest)[1..] == rest;
      }
    }
  }

  /** A capped history grows by what it takes, up to the cap. */
  lemma {:induction false} TakingGrows(mem: M.Mem, lines: seq<string>)
    requires mem.Capped() && TakesAll(mem, lines)
    ensures |mem.AddAll(lines).entries| == Min(|mem.entries| + |lines|, mem.cfg.maxLen)
    decreases |lines|
  {
    if lines != [] {
      TakingGrows(mem.Add(lines[0]), lines[1..]);
    }
  }

  /**
   Loading any file into any history: if the file is versioned and the history takes all its lines,
   the recorded size is the growth, and that is the number of entries in the file exactly if nothing
   had to make room; otherwise the path is forgotten and the next append goes the full route.
   */
  lemma ReloadRecordsSize(h: Hist, files: Files, path: string)
    requires h.mem.Capped() && path in files
    ensures var lines := Lines(files[path].text);
      var after := Loaded(h, files, path);
      if lines != [] && lines[0] == VERSION_LINE && TakesAll(h.mem, Fed(lines[1..])) then
        && after.pathInfo.Some?
        && (after.pathInfo.value.size == |Fed(lines[1..])|
            <==> |h.mem.entries| + |Fed(lines[1..])| <= h.mem.cfg.maxLen)
      else after.pathInfo.None?
  {
    var lines := Lines(files[path].text);
    AppendableMeans(h.mem, files[path].text);
    if lines != [] && lines[0] == VERSION_LINE {
      LoadLinesFeeds(h.mem, lines[1..], true);
      if TakesAll(h.mem, Fed(lines[1..])) {
        TakingGrows(h.mem, Fed(lines[1..]));
      }
    }
  }

  lemma AppendableMeans(mem: M.Mem, text: string)
    ensures LoadText(mem, text).1 ==>
      Lines(text) != [] && Lines(text)[0] == VERSION_LINE
  {
    if Lines(text) != [] && Lines(text)[0] != VERSION_LINE {
      NeverAppendable(mem.Add(Lines(text)[0]), Lines(text)[1..]);
    }
  }

  lemma {:induction false} NeverAppendable(mem: M.Mem, lines: seq<string>)
    ensures !LoadLines(mem, false, lines, false).1
    decreases |lines|
  {
    if lines != [] {
      NeverAppendable(if lines[0] == "" then mem else mem.Add(lines[0]), lines[1..]);
    }
  }

  /** A history full of one entry loads a file of one: it records no entry. */
  lemma ReloadUndercounts()
    ensures var full := Hist(M.Mem(["a"], M.Config(1, false, false)), 0, None);
      var files: Files := map["f" := File(Encode(["b"]), 0)];
      Loaded(full, files, "f") == Hist(M.Mem(["b"], full.mem.cfg), 0, Some(PathInfo("f", 0, 0)))
  {
    var mem := M.Mem(["a"], M.Config(1, false, false));
    AcceptableMeans(mem.cfg, ["a"] + ["b"]);
    LinesOfEncode(["b"]);
    assert ([VERSION_LINE] + WrittenLines(["b"]))[1..] == WrittenLines(["b"]);
    LoadWrittenLines(mem, ["a"], ["b"], true);
    assert M.LastN(1, ["a"] + ["b"]) == ["b"];
  }
}
