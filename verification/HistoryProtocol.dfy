/**
 Any number of histories with the same settings sharing one file: every interleaving of opening a
 history, loading the file, adding lines and appending to the file (`FileHistory::append` in
 `wq-rl/src/history.rs`).
 */
module HistoryProtocol {
  import opened Wrappers
  import opened HistoryText
  import opened HistoryFile
  import opened HistoryRoundTrip
  import M = MemHistory

  /**
   A history, the lines it has accepted and not written, and whether its last load, if nothing was
   rewritten since, had room for the whole file.
   */
  datatype Member = Member(hist: Hist, pending: seq<string>, roomy: bool)

  /** The histories, the files, the accepted lines of all appends in lock order, and the entries in the file. */
  datatype System = System(members: seq<Member>, files: Files, log: seq<string>, lines: seq<string>)

  datatype Op =
    | Open
    | Load(who: nat)                // also into a history that holds entries; what it had not written is lost
    | AddLine(who: nat, line: string)
    | AppendTo(who: nat)

  datatype Route = Nothing | Overwrite | Cheap | Full

  function RouteOf(h: Hist, files: Files, path: string): Route {
    if h.mem.entries == [] || h.newEntries == 0 then Nothing
    else if path !in files || h.newEntries == h.mem.cfg.maxLen then Overwrite
    else if h.CanJustAppend(path, files[path]) then Cheap
    else Full
  }

  /** The entries in the file after an append to a file that holds `lines`. */
  function LinesAfter(h: Hist, files: Files, path: string, lines: seq<string>): seq<string> {
    match RouteOf(h, files, path)
    case Nothing => lines
    case Overwrite => h.mem.entries
    case Cheap => lines + h.Unsaved()
    case Full => LoadText(M.Mem([], h.mem.cfg), files[path].text).0.AddAll(h.Unsaved()).entries
  }

  function Step(s: System, op: Op, cfg: M.Config, path: string): System {
    match op
    case Open => s.(members := s.members + [Member(Fresh(cfg), [], true)])
    case Load(i) =>
      if i >= |s.members| || path !in s.files then s
      else
        var h := s.members[i].hist;
        var roomy := |h.mem.entries| + |s.lines| <= cfg.maxLen;
        s.(members := s.members[i := Member(Loaded(h, s.files, path), [], roomy)])
    case AddLine(i, line) =>
      if i >= |s.members| || s.members[i].hist.mem.Ignores(line) then s
      else
        var m := s.members[i];
        s.(members := s.members[i := m.(hist := m.hist.Add(line), pending := m.pending + [line])])
    case AppendTo(i) =>
      if i >= |s.members| then s else Append(s, i, path)
  }

  function Append(s: System, i: nat, path: string): System
    requires i < |s.members|
  {
    var m := s.members[i];
    var (h, files) := Appended(m.hist, s.files, path);
    var route := RouteOf(m.hist, s.files, path);
    var roomy := if route.Nothing? || route.Cheap? then m.roomy else true;
    System(s.members[i := Member(h, [], roomy)], files, s.log + m.pending, LinesAfter(m.hist, s.files, path, s.lines))
  }

  function Run(s: System, ops: seq<Op>, cfg: M.Config, path: string): (end: System)
    decreases |ops|
  {
    if ops == [] then s else Run(Step(s, ops[0], cfg, path), ops[1..], cfg, path)
  }

  const NO_HISTORIES := System([], map[], [], [])

  /** What the file must decode to: the tail of everything appended so far, folded without a cap. */
  function Expected(cfg: M.Config, log: seq<string>): seq<string> {
    M.LastN(cfg.maxLen, M.AddAllUnbounded(cfg, [], log))
  }

  // ---- the invariant ----

  ghost predicate Clean(cfg: M.Config, entries: seq<string>) {
    Acceptable(cfg, entries) && NoFinalCr(entries)
  }

  /** What holds of one history when the file holds `lines`. */
  ghost predicate MemberInv(cfg: M.Config, path: string, files: Files, lines: seq<string>, m: Member) {
    var h := m.hist;
    && h.mem.cfg == cfg
    && h.mem.Capped()
    && Clean(cfg, h.mem.entries)
    && Clean(cfg, m.pending)
    && (cfg.maxLen == 0 ==> m.pending == [])
    && h.newEntries == Min(|m.pending|, cfg.maxLen) <= |h.mem.entries|
    && h.Unsaved() == M.LastN(cfg.maxLen, m.pending)
    && (path !in files ==> h.pathInfo.None? && h.newEntries == |h.mem.entries|)
    && (h.pathInfo.Some? ==> InfoInv(cfg, path, files, lines, m, h.pathInfo.value))
  }

  /** A stamp that still matches ties the memory to the end of the file, and the recorded size to its length. */
  ghost predicate InfoInv(cfg: M.Config, path: string, files: Files, lines: seq<string>, m: Member, info: PathInfo) {
    var h := m.hist;
    && info.path == path && path in files
    && info.mtime <= files[path].mtime
    && (h.newEntries == |h.mem.entries| ==> h.newEntries == cfg.maxLen)
    && (info.mtime == files[path].mtime ==>
          && info.size <= |lines|
          && (info.size == |lines| <==> m.roomy)
          && lines != []
          && (h.FirstNew() > 0 ==> h.mem.entries[h.FirstNew() - 1] == lines[|lines| - 1]))
  }

  ghost predicate FileInv(cfg: M.Config, path: string, files: Files, log: seq<string>, lines: seq<string>) {
    && NoFinalCr(log)
    && (path in files <==> log != [])
    && (log != [] ==>
          && cfg.maxLen >= 1
          && lines != [] && Clean(cfg, lines)
          && M.LastN(cfg.maxLen, lines) == Expected(cfg, log)
          && files[path].text == Encode(lines))
  }

  ghost predicate Inv(cfg: M.Config, path: string, s: System) {
    && FileInv(cfg, path, s.files, s.log, s.lines)
    && forall i :: 0 <= i < |s.members| ==> MemberInv(cfg, path, s.files, s.lines, s.members[i])
  }

  // ---- folding without a cap ----

  lemma {:induction false} FoldConcat(cfg: M.Config, all: seq<string>, a: seq<string>, b: seq<string>)
    ensures M.AddAllUnbounded(cfg, all, a + b) == M.AddAllUnbounded(cfg, M.AddAllUnbounded(cfg, all, a), b)
    decreases |a|
  {
    if a == [] {
      assert a + b == b;
    } else {
      assert (a + b)[1..] == a[1..] + b;
      FoldConcat(cfg, M.AddUnbounded(cfg, all, a[0]), a[1..], b);
    }
  }

  predicate Repeats(cfg: M.Config, all: seq<string>, batch: seq<string>) {
    cfg.ignoreDups && all != [] && batch != [] && all[|all| - 1] == batch[0]
  }

  /** What a batch lands on: all held so far, less a last line the batch starts by repeating. */
  function Base(cfg: M.Config, all: seq<string>, batch: seq<string>): seq<string> {
    if Repeats(cfg, all, batch) then all[..|all| - 1] else all
  }

  /** A clean batch goes in whole; a first line equal to the last one held is not doubled. */
  lemma {:induction false} FoldClean(cfg: M.Config, all: seq<string>, batch: seq<string>)
    requires Acceptable(cfg, batch)
    ensures M.AddAllUnbounded(cfg, all, batch) == Base(cfg, all, batch) + batch
    decreases |batch|
  {
    if batch == [] {
      assert all + [] == all;
    } else {
      var next := M.AddUnbounded(cfg, all, batch[0]);
      AcceptableMeans(cfg, batch);
      assert next == Base(cfg, all, batch) + [batch[0]];
      assert !Repeats(cfg, next, batch[1..]);
      AcceptableSuffix(cfg, batch, 1);
      FoldClean(cfg, next, batch[1..]);
      assert Base(cfg, all, batch) + [batch[0]] + batch[1..] == Base(cfg, all, batch) + batch;
    }
  }

  lemma {:induction false} FoldAcceptable(cfg: M.Config, all: seq<string>, log: seq<string>)
    requires Clean(cfg, all) && NoFinalCr(log)
    ensures Clean(cfg, M.AddAllUnbounded(cfg, all, log))
    decreases |log|
  {
    if log != [] {
      AcceptableSnoc(cfg, all, log[0]);
      FoldAcceptable(cfg, M.AddUnbounded(cfg, all, log[0]), log[1..]);
    }
  }

  lemma ExpectedIsClean(cfg: M.Config, log: seq<string>)
    requires NoFinalCr(log)
    ensures Clean(cfg, Expected(cfg, log)) && |Expected(cfg, log)| <= cfg.maxLen
  {
    FoldAcceptable(cfg, [], log);
    var all := M.AddAllUnbounded(cfg, [], log);
    if |all| > cfg.maxLen {
      AcceptableSuffix(cfg, all, |all| - cfg.maxLen);
    }
  }

  lemma ExpectedAfterBatch(cfg: M.Config, log: seq<string>, batch: seq<string>)
    requires Acceptable(cfg, batch)
    ensures Expected(cfg, log + batch)
         == M.LastN(cfg.maxLen, Base(cfg, M.AddAllUnbounded(cfg, [], log), batch) + batch)
  {
    FoldConcat(cfg, [], log, batch);
    FoldClean(cfg, M.AddAllUnbounded(cfg, [], log), batch);
  }

  /** The tail of `base + batch` ends in the tail of `batch`, and is just that when `batch` fills it. */
  lemma TailOfConcat(n: nat, base: seq<string>, batch: seq<string>)
    requires n >= 1 && batch != []
    ensures var held, own := M.LastN(n, base + batch), M.LastN(n, batch);
      && own != [] && |own| <= |held|
      && held[|held| - |own|..] == own
      && held[|held| - 1] == batch[|batch| - 1]
      && (n <= |batch| ==> held == own)
  {
    var joined := base + batch;
    var held, own := M.LastN(n, joined), M.LastN(n, batch);
    assert held == joined[|joined| - |held|..];
    assert held[|held| - |own|..] == joined[|joined| - |own|..] == own;
    assert own[|own| - 1] == batch[|batch| - 1];
  }

  /** What is behind two texts that end alike ends alike. */
  lemma TailDecides(n: nat, a: seq<string>, b: seq<string>, c: seq<string>)
    requires M.LastN(n, a) == M.LastN(n, b)
    ensures M.LastN(n, a + c) == M.LastN(n, b + c)
  {
    if |a| <= n && |b| <= n {
    } else if |c| >= n {
      assert M.LastN(n, a + c) == c[|c| - n..] == M.LastN(n, b + c);
    } else {
      TailInside(n, a, c);
      TailInside(n, b, c);
    }
  }

  lemma TailInside(n: nat, a: seq<string>, c: seq<string>)
    requires |c| < n
    ensures M.LastN(n, a + c) == M.LastN(n - |c|, M.LastN(n, a)) + c
  {
  }

  /** What the file decodes to. */
  lemma DecodeLines(cfg: M.Config, path: string, files: Files, log: seq<string>, lines: seq<string>)
    requires FileInv(cfg, path, files, log, lines) && path in files
    ensures LoadText(M.Mem([], cfg), files[path].text) == (M.Mem(Expected(cfg, log), cfg), true)
  {
    LinesOfEncode(lines);
    assert ([VERSION_LINE] + WrittenLines(lines))[1..] == WrittenLines(lines);
    assert [] + lines == lines;
    LoadWrittenLines(M.Mem([], cfg), [], lines, true);
  }

  // ---- each route writes what is expected ----

  lemma SomethingToAppend(cfg: M.Config, path: string, files: Files, lines: seq<string>, m: Member)
    requires MemberInv(cfg, path, files, lines, m) && m.pending != []
    ensures cfg.maxLen >= 1 && m.hist.mem.entries != [] && m.hist.newEntries >= 1
    ensures !RouteOf(m.hist, files, path).Nothing?
  {
  }

  /** Both ways of overwriting: no file yet, or a batch as long as the cap. */
  lemma OverwriteAsExpected(cfg: M.Config, path: string, files: Files, log: seq<string>, lines: seq<string>, m: Member)
    requires FileInv(cfg, path, files, log, lines) && MemberInv(cfg, path, files, lines, m)
    requires RouteOf(m.hist, files, path).Overwrite? && m.pending != []
    ensures m.hist.mem.entries == Expected(cfg, log + m.pending)
  {
    var base := Base(cfg, M.AddAllUnbounded(cfg, [], log), m.pending);
    ExpectedAfterBatch(cfg, log, m.pending);
    assert m.hist.FirstNew() == 0 && m.hist.mem.entries[0..] == m.hist.mem.entries;
    if path !in files {
      assert base + m.pending == m.pending;
    } else {
      TailOfConcat(cfg.maxLen, base, m.pending);
    }
  }

  /** The cheap route's guard: the batch is all that is unsaved, and does not repeat the end of the file. */
  lemma CheapGuard(cfg: M.Config, path: string, files: Files, lines: seq<string>, m: Member)
    requires MemberInv(cfg, path, files, lines, m) && m.pending != []
    requires RouteOf(m.hist, files, path).Cheap?
    ensures m.hist.Unsaved() == m.pending && m.hist.newEntries == |m.pending|
    ensures lines != [] && !Repeats(cfg, lines, m.pending)
    ensures m.hist.pathInfo.value.size + |m.pending| <= cfg.maxLen
    ensures m.hist.pathInfo.value.size <= |lines|
    ensures m.roomy <==> m.hist.pathInfo.value.size == |lines|
  {
    var h := m.hist;
    assert InfoInv(cfg, path, files, lines, m, h.pathInfo.value);
    var k := h.FirstNew();
    AcceptableMeans(cfg, h.mem.entries);
    assert k > 0 && h.mem.entries[k..][0] == h.mem.entries[k];
  }

  lemma CheapAsExpected(cfg: M.Config, path: string, files: Files, log: seq<string>, lines: seq<string>, m: Member)
    requires FileInv(cfg, path, files, log, lines) && MemberInv(cfg, path, files, lines, m) && m.pending != []
    requires RouteOf(m.hist, files, path).Cheap?
    ensures M.LastN(cfg.maxLen, lines + m.pending) == Expected(cfg, log + m.pending)
  {
    var all := M.AddAllUnbounded(cfg, [], log);
    CheapGuard(cfg, path, files, lines, m);
    LastOfTail(cfg.maxLen, lines, all);
    ExpectedAfterBatch(cfg, log, m.pending);
    TailDecides(cfg.maxLen, lines, all, m.pending);
  }

  lemma LastOfTail(n: nat, a: seq<string>, b: seq<string>)
    requires n >= 1 && a != [] && M.LastN(n, a) == M.LastN(n, b)
    ensures b != [] && a[|a| - 1] == b[|b| - 1]
  {
    var tail := M.LastN(n, a);
    assert tail[|tail| - 1] == a[|a| - 1];
    assert tail == M.LastN(n, b);
    assert b != [] ==> tail[|tail| - 1] == b[|b| - 1];
  }

  /** A clean batch behind a clean list it does not repeat. */
  lemma CleanConcat(cfg: M.Config, lines: seq<string>, batch: seq<string>)
    requires Clean(cfg, lines) && Clean(cfg, batch) && !Repeats(cfg, lines, batch)
    ensures Clean(cfg, lines + batch)
  {
    AcceptableMeans(cfg, lines);
    AcceptableMeans(cfg, batch);
    AcceptableMeans(cfg, lines + batch);
  }

  lemma EncodeAppend(a: seq<string>, b: seq<string>)
    ensures Encode(a) + Body(b) == Encode(a + b)
  {
    BodyConcat(a, b);
    var header := VERSION_LINE + "\n";
    assert (header + Body(a)) + Body(b) == header + (Body(a) + Body(b));
  }

  /** The full route's second history, wherever there is a file. */
  lemma FullAsExpected(cfg: M.Config, path: string, files: Files, log: seq<string>, lines: seq<string>, m: Member)
    requires FileInv(cfg, path, files, log, lines) && MemberInv(cfg, path, files, lines, m) && m.pending != []
    requires path in files && m.hist.newEntries != cfg.maxLen
    ensures LoadText(M.Mem([], cfg), files[path].text).0.AddAll(m.hist.Unsaved())
         == M.Mem(Expected(cfg, log + m.pending), cfg)
  {
    assert m.hist.Unsaved() == m.pending;
    DecodeLines(cfg, path, files, log, lines);
    var all := M.AddAllUnbounded(cfg, [], log);
    M.CappedRefinesUnbounded(M.Mem(Expected(cfg, log), cfg), all, m.pending);
    FoldConcat(cfg, [], log, m.pending);
  }

  /** An append that leaves `lines` in the file, and `size` on record. */
  function Wrote(h: Hist, files: Files, path: string, lines: seq<string>, size: nat): (Hist, Files) {
    (Hist(h.mem, 0, Some(PathInfo(path, Touched(files, path), size))), Write(files, path, Encode(lines)))
  }

  /** The size an append puts on record. */
  function SizeAfter(h: Hist, files: Files, path: string, lines: seq<string>): nat {
    if RouteOf(h, files, path).Cheap? && h.pathInfo.Some? then h.pathInfo.value.size + h.newEntries
    else |LinesAfter(h, files, path, lines)|
  }

  /**
   Whichever route an append takes, the file is the written form of entries whose tail is what was
   appended so far, in lock order.  Overwriting and merging leave just that tail, and record its
   length; the cheap route leaves the old entries and the new ones.
   */
  lemma EveryRouteWritesExpected(cfg: M.Config, path: string, files: Files, log: seq<string>, lines: seq<string>,
                                 m: Member)
    requires FileInv(cfg, path, files, log, lines) && MemberInv(cfg, path, files, lines, m) && m.pending != []
    ensures var after := LinesAfter(m.hist, files, path, lines);
      && Appended(m.hist, files, path)
         == Wrote(m.hist, files, path, after, SizeAfter(m.hist, files, path, lines))
      && M.LastN(cfg.maxLen, after) == Expected(cfg, log + m.pending)
      && after == if RouteOf(m.hist, files, path).Cheap? then lines + m.pending else Expected(cfg, log + m.pending)
  {
    SomethingToAppend(cfg, path, files, lines, m);
    match RouteOf(m.hist, files, path) {
      case Overwrite => OverwriteAsExpected(cfg, path, files, log, lines, m);
      case Cheap =>
        CheapGuard(cfg, path, files, lines, m);
        CheapAsExpected(cfg, path, files, log, lines, m);
        EncodeAppend(lines, m.pending);
      case Full => FullAsExpected(cfg, path, files, log, lines, m);
    }
  }

  // ---- when the cheap route agrees with the full one ----

  lemma {:induction false} WrittenLinesLength(entries: seq<string>)
    ensures |WrittenLines(entries)| == |entries|
  {
    if entries != [] {
      WrittenLinesLength(entries[1..]);
    }
  }

  lemma EncodeShowsLength(a: seq<string>, b: seq<string>)
    requires Encode(a) == Encode(b)
    ensures |a| == |b|
  {
    LinesOfEncode(a);
    LinesOfEncode(b);
    WrittenLinesLength(a);
    WrittenLinesLength(b);
  }

  lemma WroteAlike(h: Hist, files: Files, path: string, a: seq<string>, x: nat, b: seq<string>, y: nat)
    ensures Wrote(h, files, path, a, x) == Wrote(h, files, path, b, y) <==> Encode(a) == Encode(b) && x == y
  {
    var left, right := Wrote(h, files, path, a, x), Wrote(h, files, path, b, y);
    assert left.1[path].text == Encode(a) && right.1[path].text == Encode(b);
    assert left.0.pathInfo.value.size == x && right.0.pathInfo.value.size == y;
  }

  lemma CheapWrites(cfg: M.Config, path: string, files: Files, lines: seq<string>, m: Member)
    requires MemberInv(cfg, path, files, lines, m) && m.pending != []
    requires RouteOf(m.hist, files, path).Cheap? && files[path].text == Encode(lines)
    ensures FastAppended(m.hist, files, path)
         == Wrote(m.hist, files, path, lines + m.pending, m.hist.pathInfo.value.size + |m.pending|)
  {
    CheapGuard(cfg, path, files, lines, m);
    FastWrites(m.hist, files, path, lines, m.pending);
  }

  lemma FastWrites(h: Hist, files: Files, path: string, lines: seq<string>, batch: seq<string>)
    requires path in files && h.pathInfo.Some? && files[path].text == Encode(lines)
    requires h.Unsaved() == batch && h.newEntries == |batch|
    ensures FastAppended(h, files, path) == Wrote(h, files, path, lines + batch, h.pathInfo.value.size + |batch|)
  {
    EncodeAppend(lines, batch);
  }

  lemma FullWrites(cfg: M.Config, path: string, files: Files, log: seq<string>, lines: seq<string>, m: Member)
    requires FileInv(cfg, path, files, log, lines) && MemberInv(cfg, path, files, lines, m) && m.pending != []
    requires RouteOf(m.hist, files, path).Cheap?
    ensures var kept := M.LastN(cfg.maxLen, lines + m.pending);
      Merged(m.hist, files, path) == Wrote(m.hist, files, path, kept, |kept|)
  {
    CheapAsExpected(cfg, path, files, log, lines, m);
    FullAsExpected(cfg, path, files, log, lines, m);
  }

  /** The cheap route writes all of `lines + batch`, the full one cuts it to the cap. */
  ghost predicate WriteAllOrKept(h: Hist, files: Files, path: string, lines: seq<string>, batch: seq<string>, size: nat)
    requires path in files && h.pathInfo.Some?
  {
    var kept := M.LastN(h.mem.cfg.maxLen, lines + batch);
    && FastAppended(h, files, path) == Wrote(h, files, path, lines + batch, size + |batch|)
    && Merged(h, files, path) == Wrote(h, files, path, kept, |kept|)
  }

  lemma AlikeIffExact(h: Hist, files: Files, path: string, lines: seq<string>, batch: seq<string>, size: nat)
    requires path in files && h.pathInfo.Some? && WriteAllOrKept(h, files, path, lines, batch, size)
    requires size <= |lines| && size + |batch| <= h.mem.cfg.maxLen
    ensures FastAppended(h, files, path) == Merged(h, files, path) <==> size == |lines|
  {
    var all, kept := lines + batch, M.LastN(h.mem.cfg.maxLen, lines + batch);
    WroteAlike(h, files, path, all, size + |batch|, kept, |kept|);
    KeptAll(h.mem.cfg.maxLen, lines, batch, size);
  }

  lemma BothRoutes(cfg: M.Config, path: string, files: Files, log: seq<string>, lines: seq<string>, m: Member)
    requires FileInv(cfg, path, files, log, lines) && MemberInv(cfg, path, files, lines, m) && m.pending != []
    requires RouteOf(m.hist, files, path).Cheap?
    ensures WriteAllOrKept(m.hist, files, path, lines, m.pending, m.hist.pathInfo.value.size)
  {
    CheapWrites(cfg, path, files, lines, m);
    FullWrites(cfg, path, files, log, lines, m);
  }

  /**
   The cheap route leaves what the full route would have left, file and history, exactly if the last
   load had room for the whole file.
   */
  lemma CheapRouteAgreesIffRoomy(cfg: M.Config, path: string, files: Files, log: seq<string>, lines: seq<string>,
                                 m: Member)
    requires FileInv(cfg, path, files, log, lines) && MemberInv(cfg, path, files, lines, m) && m.pending != []
    requires RouteOf(m.hist, files, path).Cheap?
    ensures FastAppended(m.hist, files, path) == Merged(m.hist, files, path) <==> m.roomy
  {
    CheapGuard(cfg, path, files, lines, m);
    BothRoutes(cfg, path, files, log, lines, m);
    AlikeIffExact(m.hist, files, path, lines, m.pending, m.hist.pathInfo.value.size);
  }

  /**
   The cheap route always leaves the old entries and the new ones.  So it leaves more than the cap
   allows exactly if they are more, and that takes a load without room.
   */
  lemma CheapRouteMayOverfill(cfg: M.Config, path: string, files: Files, lines: seq<string>, m: Member)
    requires MemberInv(cfg, path, files, lines, m) && m.pending != []
    requires RouteOf(m.hist, files, path).Cheap? && files[path].text == Encode(lines)
    ensures FastAppended(m.hist, files, path).1[path].text == Encode(lines + m.pending)
    ensures |lines + m.pending| > cfg.maxLen ==> !m.roomy
  {
    CheapGuard(cfg, path, files, lines, m);
    CheapWrites(cfg, path, files, lines, m);
  }

  /** Nothing is cut and the size is the true one, exactly if the size before was. */
  lemma KeptAll(n: nat, lines: seq<string>, batch: seq<string>, size: nat)
    requires size <= |lines| && size + |batch| <= n
    ensures var all := lines + batch;
      var kept := M.LastN(n, all);
      Encode(all) == Encode(kept) && size + |batch| == |kept| <==> size == |lines|
  {
    var all := lines + batch;
    if Encode(all) == Encode(M.LastN(n, all)) {
      EncodeShowsLength(all, M.LastN(n, all));
    }
  }

  // ---- every step keeps the invariant ----

  /** A history that looks on while another one writes: its stamp is out of date from then on. */
  lemma OnlookerKeepsInv(cfg: M.Config, path: string, files: Files, lines: seq<string>, m: Member,
                         files': Files, lines': seq<string>)
    requires MemberInv(cfg, path, files, lines, m)
    requires path in files' && (path in files ==> files'[path].mtime > files[path].mtime)
    ensures MemberInv(cfg, path, files', lines', m)
  {
  }

  /** A history with nothing unsaved that ends as the file ends, and has just read or written it. */
  lemma SettledInv(cfg: M.Config, path: string, files: Files, lines: seq<string>, mem: M.Mem, size: nat, roomy: bool)
    requires mem.cfg == cfg && mem.Capped() && Clean(cfg, mem.entries) && mem.entries != []
    requires path in files && lines != [] && mem.entries[|mem.entries| - 1] == lines[|lines| - 1]
    requires size <= |lines| && (size == |lines| <==> roomy)
    ensures MemberInv(cfg, path, files, lines,
                      Member(Hist(mem, 0, Some(PathInfo(path, files[path].mtime, size))), [], roomy))
  {
  }

  lemma LastUnsaved(n: nat, es: seq<string>, unsaved: nat, pending: seq<string>)
    requires unsaved <= |es| && es[|es| - unsaved..] == M.LastN(n, pending)
    requires n >= 1 && pending != []
    ensures es != [] && es[|es| - 1] == pending[|pending| - 1]
  {
  }

  lemma TailKeepsLast(n: nat, a: seq<string>)
    requires n >= 1 && a != []
    ensures M.LastN(n, a) != [] && M.LastN(n, a)[|M.LastN(n, a)| - 1] == a[|a| - 1]
  {
  }

  lemma ExpectedEndsInBatch(cfg: M.Config, log: seq<string>, batch: seq<string>)
    requires cfg.maxLen >= 1 && batch != [] && Acceptable(cfg, batch)
    ensures var held := Expected(cfg, log + batch);
      held != [] && held[|held| - 1] == batch[|batch| - 1]
  {
    ExpectedAfterBatch(cfg, log, batch);
    TailOfConcat(cfg.maxLen, Base(cfg, M.AddAllUnbounded(cfg, [], log), batch), batch);
  }

  lemma TailOfLines(cfg: M.Config, lines: seq<string>, log: seq<string>, batch: seq<string>)
    requires cfg.maxLen >= 1 && batch != [] && Acceptable(cfg, batch)
    requires M.LastN(cfg.maxLen, lines) == Expected(cfg, log + batch)
    ensures lines != [] && lines[|lines| - 1] == batch[|batch| - 1]
  {
    ExpectedEndsInBatch(cfg, log, batch);
    if lines != [] {
      TailKeepsLast(cfg.maxLen, lines);
    }
  }

  /** The entries in the file after an append are clean. */
  lemma LinesStayClean(cfg: M.Config, path: string, files: Files, log: seq<string>, lines: seq<string>, m: Member)
    requires FileInv(cfg, path, files, log, lines) && MemberInv(cfg, path, files, lines, m) && m.pending != []
    ensures Clean(cfg, LinesAfter(m.hist, files, path, lines))
  {
    EveryRouteWritesExpected(cfg, path, files, log, lines, m);
    if RouteOf(m.hist, files, path).Cheap? {
      CheapGuard(cfg, path, files, lines, m);
      CleanConcat(cfg, lines, m.pending);
    } else {
      LogStaysClean(log, m.pending);
      ExpectedIsClean(cfg, log + m.pending);
    }
  }

  lemma LogStaysClean(log: seq<string>, batch: seq<string>)
    requires NoFinalCr(log) && NoFinalCr(batch)
    ensures NoFinalCr(log + batch)
  {
  }

  /** The size put on record, and whether it is the number of entries in the file. */
  lemma SizeOnRecord(cfg: M.Config, path: string, files: Files, log: seq<string>, lines: seq<string>, m: Member)
    requires FileInv(cfg, path, files, log, lines) && MemberInv(cfg, path, files, lines, m) && m.pending != []
    ensures var size, after := SizeAfter(m.hist, files, path, lines), LinesAfter(m.hist, files, path, lines);
      && size <= |after|
      && (size == |after| <==> !RouteOf(m.hist, files, path).Cheap? || m.roomy)
  {
    if RouteOf(m.hist, files, path).Cheap? {
      CheapGuard(cfg, path, files, lines, m);
      assert InfoInv(cfg, path, files, lines, m, m.hist.pathInfo.value);
    }
  }

  /** The file after an append. */
  lemma FileAfterAppend(cfg: M.Config, path: string, s: System, i: nat)
    requires Inv(cfg, path, s) && i < |s.members| && s.members[i].pending != []
    ensures var s' := Append(s, i, path);
      && path in s'.files && (path in s.files ==> s'.files[path].mtime > s.files[path].mtime)
      && FileInv(cfg, path, s'.files, s'.log, s'.lines)
  {
    var m := s.members[i];
    SomethingToAppend(cfg, path, s.files, s.lines, m);
    EveryRouteWritesExpected(cfg, path, s.files, s.log, s.lines, m);
    LinesStayClean(cfg, path, s.files, s.log, s.lines, m);
    LogStaysClean(s.log, m.pending);
    TailOfLines(cfg, LinesAfter(m.hist, s.files, path, s.lines), s.log, m.pending);
  }

  lemma WriterAfterAppend(cfg: M.Config, path: string, files: Files, log: seq<string>, lines: seq<string>, m: Member)
    requires FileInv(cfg, path, files, log, lines) && MemberInv(cfg, path, files, lines, m) && m.pending != []
    ensures var lines' := LinesAfter(m.hist, files, path, lines);
      var (h, files') := Wrote(m.hist, files, path, lines', SizeAfter(m.hist, files, path, lines));
      MemberInv(cfg, path, files', lines', Member(h, [], !RouteOf(m.hist, files, path).Cheap? || m.roomy))
  {
    var lines', size := LinesAfter(m.hist, files, path, lines), SizeAfter(m.hist, files, path, lines);
    var files' := Wrote(m.hist, files, path, lines', size).1;
    SomethingToAppend(cfg, path, files, lines, m);
    EveryRouteWritesExpected(cfg, path, files, log, lines, m);
    SizeOnRecord(cfg, path, files, log, lines, m);
    TailOfLines(cfg, lines', log, m.pending);
    LastUnsaved(cfg.maxLen, m.hist.mem.entries, m.hist.newEntries, m.pending);
    SettledInv(cfg, path, files', lines', m.hist.mem, size, !RouteOf(m.hist, files, path).Cheap? || m.roomy);
  }

  /** The writer and the file after an append. */
  lemma WriterKeepsInv(cfg: M.Config, path: string, s: System, i: nat)
    requires Inv(cfg, path, s) && i < |s.members| && s.members[i].pending != []
    ensures var s' := Append(s, i, path);
      && path in s'.files && (path in s.files ==> s'.files[path].mtime > s.files[path].mtime)
      && FileInv(cfg, path, s'.files, s'.log, s'.lines)
      && MemberInv(cfg, path, s'.files, s'.lines, s'.members[i])
  {
    FileAfterAppend(cfg, path, s, i);
    SomethingToAppend(cfg, path, s.files, s.lines, s.members[i]);
    EveryRouteWritesExpected(cfg, path, s.files, s.log, s.lines, s.members[i]);
    WriterAfterAppend(cfg, path, s.files, s.log, s.lines, s.members[i]);
  }

  lemma AppendKeepsInv(cfg: M.Config, path: string, s: System, i: nat)
    requires Inv(cfg, path, s) && i < |s.members|
    ensures Inv(cfg, path, Append(s, i, path))
  {
    if s.members[i].pending == [] {
      AppendNothing(cfg, path, s, i);
    } else {
      var s' := Append(s, i, path);
      WriterKeepsInv(cfg, path, s, i);
      forall j | 0 <= j < |s'.members|
        ensures MemberInv(cfg, path, s'.files, s'.lines, s'.members[j])
      {
        if j != i {
          OnlookerKeepsInv(cfg, path, s.files, s.lines, s.members[j], s'.files, s'.lines);
        }
      }
    }
  }

  lemma AppendNothing(cfg: M.Config, path: string, s: System, i: nat)
    requires Inv(cfg, path, s) && i < |s.members| && s.members[i].pending == []
    ensures Append(s, i, path) == s
  {
    assert MemberInv(cfg, path, s.files, s.lines, s.members[i]);
    assert s.log + [] == s.log && s.members[i := s.members[i]] == s.members;
  }

  /** How a history and its accepted lines move when a line is accepted. */
  ghost predicate Grew(cfg: M.Config, h: Hist, h': Hist, pending': seq<string>) {
    && h'.pathInfo == h.pathInfo && h'.mem.cfg == cfg && h'.mem.Capped()
    && h'.newEntries == Min(|pending'|, cfg.maxLen) <= |h'.mem.entries|
    && h'.Unsaved() == M.LastN(cfg.maxLen, pending')
    && (h.newEntries == |h.mem.entries| ==> h'.newEntries == |h'.mem.entries|)
    && (h'.newEntries == |h'.mem.entries| ==> h.newEntries == |h.mem.entries| || h'.newEntries == cfg.maxLen)
    && (h.newEntries == |h.mem.entries| == cfg.maxLen ==> h'.newEntries == cfg.maxLen)
    && (h'.FirstNew() > 0 ==>
          h.FirstNew() > 0 && h'.mem.entries[h'.FirstNew() - 1] == h.mem.entries[h.FirstNew() - 1])
  }

  lemma GrownKeepsInv(cfg: M.Config, path: string, files: Files, lines: seq<string>, m: Member,
                      h': Hist, pending': seq<string>)
    requires MemberInv(cfg, path, files, lines, m) && Grew(cfg, m.hist, h', pending')
    requires cfg.maxLen >= 1 && Clean(cfg, h'.mem.entries) && Clean(cfg, pending')
    ensures MemberInv(cfg, path, files, lines, Member(h', pending', m.roomy))
  {
  }

  /** How the unsaved tail of a capped list grows with one more line. */
  lemma GrownTail(n: nat, es: seq<string>, unsaved: nat, pending: seq<string>, line: string)
    requires n >= 1 && |es| <= n && unsaved == Min(|pending|, n) <= |es|
    requires es[|es| - unsaved..] == M.LastN(n, pending)
    ensures var es' := if |es| == n then es[1..] + [line] else es + [line];
      var unsaved' := Min(unsaved + 1, |es'|);
      && unsaved' == Min(|pending + [line]|, n)
      && es'[|es'| - unsaved'..] == M.LastN(n, pending + [line])
      && (|es'| > unsaved' ==> |es| > unsaved && es'[|es'| - unsaved' - 1] == es[|es| - unsaved - 1])
  {
  }

  lemma AcceptedGrows(cfg: M.Config, h: Hist, pending: seq<string>, line: string)
    requires h.mem.cfg == cfg && h.mem.Capped() && !h.mem.Ignores(line)
    requires h.newEntries == Min(|pending|, cfg.maxLen) <= |h.mem.entries|
    requires h.Unsaved() == M.LastN(cfg.maxLen, pending)
    ensures Grew(cfg, h, h.Add(line), pending + [line])
  {
    GrownTail(cfg.maxLen, h.mem.entries, h.newEntries, pending, line);
  }

  lemma AppendClean(cfg: M.Config, entries: seq<string>, line: string)
    requires Clean(cfg, entries) && !cfg.Blank(line) && !EndsInCr(line)
    requires cfg.ignoreDups && entries != [] ==> entries[|entries| - 1] != line
    ensures Clean(cfg, entries + [line])
  {
    AcceptableSnoc(cfg, entries, line);
    var all := entries + [line];
    forall k | 0 <= k < |all| ensures !EndsInCr(all[k]) {
      assert k < |entries| ==> all[k] == entries[k];
    }
  }

  lemma DropFirstClean(cfg: M.Config, entries: seq<string>)
    requires Clean(cfg, entries) && entries != []
    ensures Clean(cfg, entries[1..])
  {
    AcceptableSuffix(cfg, entries, 1);
  }

  /** Adding one accepted line to a clean list, with or without room for it. */
  lemma AddClean(cfg: M.Config, entries: seq<string>, line: string)
    requires Clean(cfg, entries) && !cfg.Blank(line) && !EndsInCr(line)
    requires cfg.ignoreDups && entries != [] ==> entries[|entries| - 1] != line
    ensures Clean(cfg, entries + [line])
    ensures entries != [] ==> Clean(cfg, entries[1..] + [line])
  {
    AppendClean(cfg, entries, line);
    if entries != [] {
      DropFirstClean(cfg, entries);
      AppendClean(cfg, entries[1..], line);
    }
  }

  lemma AcceptedIsClean(cfg: M.Config, h: Hist, pending: seq<string>, line: string)
    requires h.mem.cfg == cfg && Clean(cfg, h.mem.entries) && Clean(cfg, pending)
    requires !EndsInCr(line) && !h.mem.Ignores(line)
    requires pending != [] ==> h.mem.entries != [] && h.mem.entries[|h.mem.entries| - 1] == pending[|pending| - 1]
    ensures Clean(cfg, h.Add(line).mem.entries) && Clean(cfg, pending + [line])
  {
    AddClean(cfg, h.mem.entries, line);
    AddClean(cfg, pending, line);
  }

  lemma AddKeepsMemberInv(cfg: M.Config, path: string, files: Files, lines: seq<string>, m: Member, line: string)
    requires MemberInv(cfg, path, files, lines, m)
    requires !EndsInCr(line) && !m.hist.mem.Ignores(line)
    ensures MemberInv(cfg, path, files, lines, m.(hist := m.hist.Add(line), pending := m.pending + [line]))
  {
    if m.pending != [] {
      LastUnsaved(cfg.maxLen, m.hist.mem.entries, m.hist.newEntries, m.pending);
    }
    AcceptedIsClean(cfg, m.hist, m.pending, line);
    AcceptedGrows(cfg, m.hist, m.pending, line);
    GrownKeepsInv(cfg, path, files, lines, m, m.hist.Add(line), m.pending + [line]);
  }

  /** Loading clean lines into a clean history: it stays clean, and ends as they end. */
  lemma {:induction false} AddAllClean(mem: M.Mem, lines: seq<string>)
    requires mem.Capped() && Clean(mem.cfg, mem.entries) && Clean(mem.cfg, lines) && mem.cfg.maxLen >= 1
    ensures var after := mem.AddAll(lines);
      && after.cfg == mem.cfg && after.Capped() && Clean(mem.cfg, after.entries)
      && (lines != [] ==> after.entries != [] && after.entries[|after.entries| - 1] == lines[|lines| - 1])
    decreases |lines|
  {
    if lines != [] {
      AcceptableMeans(mem.cfg, lines);
      AcceptableSuffix(mem.cfg, lines, 1);
      if !mem.Ignores(lines[0]) {
        AddClean(mem.cfg, mem.entries, lines[0]);
      }
      AddAllClean(mem.Add(lines[0]), lines[1..]);
    }
  }

  lemma {:induction false} FedOfWritten(entries: seq<string>)
    requires NoFinalCr(entries) && forall k :: 0 <= k < |entries| ==> entries[k] != ""
    ensures Fed(WrittenLines(entries)) == entries
  {
    if entries != [] {
      FedOfWritten(entries[1..]);
      ReadWrittenLine(entries[0]);
      assert StripCr(entries[0]) == entries[0];
      assert WrittenLines(entries)[1..] == WrittenLines(entries[1..]);
      assert entries == [entries[0]] + entries[1..];
    }
  }

  lemma LoadTextOfWritten(mem: M.Mem, lines: seq<string>)
    requires Clean(mem.cfg, lines)
    ensures LoadText(mem, Encode(lines)) == (mem.AddAll(lines), TakesAll(mem, lines))
  {
    AcceptableMeans(mem.cfg, lines);
    LinesOfEncode(lines);
    assert ([VERSION_LINE] + WrittenLines(lines))[1..] == WrittenLines(lines);
    FedOfWritten(lines);
    LoadLinesFeeds(mem, WrittenLines(lines), true);
  }

  /** A history that was refused some line of the file forgets the path. */
  lemma ForgetfulInv(cfg: M.Config, path: string, files: Files, lines: seq<string>, mem: M.Mem, roomy: bool)
    requires mem.cfg == cfg && mem.Capped() && Clean(cfg, mem.entries) && path in files
    ensures MemberInv(cfg, path, files, lines, Member(Hist(mem, 0, None), [], roomy))
  {
  }

  /** What loading the file makes of a history. */
  lemma LoadedWritten(h: Hist, files: Files, path: string, lines: seq<string>)
    requires h.mem.Capped() && Clean(h.mem.cfg, lines)
    requires path in files && files[path].text == Encode(lines)
    ensures var after := h.mem.AddAll(lines);
      if TakesAll(h.mem, lines) then
        && |h.mem.entries| <= |after.entries|
        && Loaded(h, files, path)
           == Hist(after, 0, Some(PathInfo(path, files[path].mtime, |after.entries| - |h.mem.entries|)))
      else Loaded(h, files, path) == Hist(after, 0, None)
  {
    LoadTextOfWritten(h.mem, lines);
    if TakesAll(h.mem, lines) {
      TakingGrows(h.mem, lines);
    }
  }

  lemma LoadKeepsMemberInv(cfg: M.Config, path: string, files: Files, log: seq<string>, lines: seq<string>, m: Member)
    requires FileInv(cfg, path, files, log, lines) && path in files && MemberInv(cfg, path, files, lines, m)
    ensures MemberInv(cfg, path, files, lines,
                      Member(Loaded(m.hist, files, path), [], |m.hist.mem.entries| + |lines| <= cfg.maxLen))
  {
    var mem, roomy := m.hist.mem, |m.hist.mem.entries| + |lines| <= cfg.maxLen;
    var after := mem.AddAll(lines);
    LoadedWritten(m.hist, files, path, lines);
    AddAllClean(mem, lines);
    if TakesAll(mem, lines) {
      TakingGrows(mem, lines);
      SettledInv(cfg, path, files, lines, after, |after.entries| - |mem.entries|, roomy);
    } else {
      ForgetfulInv(cfg, path, files, lines, after, roomy);
    }
  }

  /** All histories after one of them changed in memory only. */
  lemma EveryoneAfterChange(cfg: M.Config, path: string, s: System, i: nat, m': Member)
    requires Inv(cfg, path, s) && i < |s.members| && MemberInv(cfg, path, s.files, s.lines, m')
    ensures Inv(cfg, path, s.(members := s.members[i := m']))
  {
  }

  lemma OpenKeepsInv(cfg: M.Config, path: string, s: System)
    requires Inv(cfg, path, s)
    ensures Inv(cfg, path, Step(s, Open, cfg, path))
  {
    var s' := Step(s, Open, cfg, path);
    forall j | 0 <= j < |s'.members|
      ensures MemberInv(cfg, path, s'.files, s'.lines, s'.members[j])
    {
      assert j < |s.members| ==> s'.members[j] == s.members[j];
    }
  }

  lemma StepKeepsInv(cfg: M.Config, path: string, s: System, op: Op)
    requires Inv(cfg, path, s) && (op.AddLine? ==> !EndsInCr(op.line))
    ensures Inv(cfg, path, Step(s, op, cfg, path))
  {
    match op
    case Open => OpenKeepsInv(cfg, path, s);
    case Load(i) =>
      if i < |s.members| && path in s.files {
        var h := s.members[i].hist;
        LoadKeepsMemberInv(cfg, path, s.files, s.log, s.lines, s.members[i]);
        EveryoneAfterChange(cfg, path, s, i,
                            Member(Loaded(h, s.files, path), [], |h.mem.entries| + |s.lines| <= cfg.maxLen));
      }
    case AddLine(i, line) =>
      if i < |s.members| && !s.members[i].hist.mem.Ignores(line) {
        var m := s.members[i];
        AddKeepsMemberInv(cfg, path, s.files, s.lines, m, line);
        EveryoneAfterChange(cfg, path, s, i, m.(hist := m.hist.Add(line), pending := m.pending + [line]));
      }
    case AppendTo(i) => if i < |s.members| { AppendKeepsInv(cfg, path, s, i); }
  }

  /** The lines given to `add` end in no carriage return. */
  ghost predicate OpsWithoutFinalCr(ops: seq<Op>) {
    forall k :: 0 <= k < |ops| && ops[k].AddLine? ==> !EndsInCr(ops[k].line)
  }

  lemma {:induction false} RunKeepsInv(cfg: M.Config, path: string, s: System, ops: seq<Op>)
    requires Inv(cfg, path, s) && OpsWithoutFinalCr(ops)
    ensures Inv(cfg, path, Run(s, ops, cfg, path))
    decreases |ops|
  {
    if ops != [] {
      StepKeepsInv(cfg, path, s, ops[0]);
      assert forall k :: 0 <= k < |ops[1..]| ==> ops[1..][k] == ops[k + 1];
      RunKeepsInv(cfg, path, Step(s, ops[0], cfg, path), ops[1..]);
    }
  }

  /** A current stamp records the number of entries in the file, exactly if the last load had room. */
  ghost predicate StampCertifies(path: string, s: System, m: Member) {
    m.hist.pathInfo.Some? ==>
      var info := m.hist.pathInfo.value;
      && info.path == path && path in s.files
      && (info.mtime == s.files[path].mtime ==> (info.size == |s.lines| <==> m.roomy))
  }

  /**
   From a file that does not exist, after any run the file is the written form of some entries, and
   decodes to the last `maxLen` of everything accepted and appended, in lock order.
   */
  lemma EveryRunWritesWhatWasAppended(cfg: M.Config, path: string, ops: seq<Op>)
    requires OpsWithoutFinalCr(ops)
    ensures var s := Run(NO_HISTORIES, ops, cfg, path);
      && (path in s.files <==> s.log != [])
      && (path in s.files ==>
            && s.files[path].text == Encode(s.lines)
            && Decode(cfg, s.files[path].text) == Expected(cfg, s.log))
      && forall i :: 0 <= i < |s.members| ==> StampCertifies(path, s, s.members[i])
  {
    RunKeepsInv(cfg, path, NO_HISTORIES, ops);
    var s := Run(NO_HISTORIES, ops, cfg, path);
    if path in s.files {
      DecodeLines(cfg, path, s.files, s.log, s.lines);
    }
    forall i | 0 <= i < |s.members| ensures StampCertifies(path, s, s.members[i]) {
      assert MemberInv(cfg, path, s.files, s.lines, s.members[i]);
    }
  }

  // ---- a run with a load without room ----

  const SMALL := M.Config(2, false, false)

  /** One history writes two entries, which is all the cap allows. */
  const WRITE_TWO := [Open, AddLine(0, "a"), AddLine(0, "b"), AppendTo(0)]

  /** Another one holds two of its own, loads the file, adds a line and appends. */
  const LOAD_AND_APPEND := [Open, AddLine(1, "c"), AddLine(1, "d"), Load(1), AddLine(1, "e"), AppendTo(1)]

  function Holding(entries: seq<string>, newEntries: nat, info: Option<PathInfo>): Hist {
    Hist(M.Mem(entries, SMALL), newEntries, info)
  }

  function TwoInFile(): Files {
    map["f" := File(Encode(["a", "b"]), 0)]
  }

  /** After the first history has written. */
  function Written(others: seq<Member>): System {
    System([Member(Holding(["a", "b"], 0, Some(PathInfo("f", 0, 2))), [], true)] + others,
           TwoInFile(), ["a", "b"], ["a", "b"])
  }

  lemma {:induction false} RunConcat(s: System, a: seq<Op>, b: seq<Op>, cfg: M.Config, path: string)
    ensures Run(s, a + b, cfg, path) == Run(Run(s, a, cfg, path), b, cfg, path)
    decreases |a|
  {
    if a == [] {
      assert a + b == b;
    } else {
      assert (a + b)[1..] == a[1..] + b;
      RunConcat(Step(s, a[0], cfg, path), a[1..], b, cfg, path);
    }
  }

  lemma AddTwo(a: string, b: string)
    requires a != "" && b != ""
    ensures Fresh(SMALL).Add(a).Add(b) == Holding([a, b], 2, None)
    ensures Fresh(SMALL).Add(a) == Holding([a], 1, None)
  {
  }

  /** Two lines added to the last member. */
  lemma TwoLinesAdded(before: System, a: string, b: string)
    requires a != "" && b != ""
    ensures var i := |before.members|;
      Run(before, [Open, AddLine(i, a), AddLine(i, b)], SMALL, "f")
      == before.(members := before.members + [Member(Holding([a, b], 2, None), [a, b], true)])
  {
    var i, ms := |before.members|, before.members;
    AddTwo(a, b);
    var s1 := before.(members := ms + [Member(Fresh(SMALL), [], true)]);
    var s2 := before.(members := ms + [Member(Holding([a], 1, None), [a], true)]);
    var s3 := before.(members := ms + [Member(Holding([a, b], 2, None), [a, b], true)]);
    assert Step(before, Open, SMALL, "f") == s1;
    assert [] + [a] == [a] && [a] + [b] == [a, b];
    assert s1.members[i := s2.members[i]] == s2.members && s2.members[i := s3.members[i]] == s3.members;
    assert Step(s1, AddLine(i, a), SMALL, "f") == s2;
    assert Step(s2, AddLine(i, b), SMALL, "f") == s3;
    RunThree(before, Open, AddLine(i, a), AddLine(i, b));
  }

  lemma RunThree(s: System, a: Op, b: Op, c: Op)
    ensures Run(s, [a, b, c], SMALL, "f") == Step(Step(Step(s, a, SMALL, "f"), b, SMALL, "f"), c, SMALL, "f")
  {
    RunConcat(s, [a], [b, c], SMALL, "f");
    RunOne(s, a);
    RunConcat(Step(s, a, SMALL, "f"), [b], [c], SMALL, "f");
    RunOne(Step(s, a, SMALL, "f"), b);
    RunOne(Step(Step(s, a, SMALL, "f"), b, SMALL, "f"), c);
    assert [a] + [b, c] == [a, b, c] && [b] + [c] == [b, c];
  }

  lemma RunOne(s: System, a: Op)
    ensures Run(s, [a], SMALL, "f") == Step(s, a, SMALL, "f")
  {
    assert [a][1..] == [];
  }

  lemma FirstWrites()
    ensures Run(NO_HISTORIES, WRITE_TWO, SMALL, "f") == Written([])
  {
    var added := NO_HISTORIES.(members := [Member(Holding(["a", "b"], 2, None), ["a", "b"], true)]);
    TwoLinesAdded(NO_HISTORIES, "a", "b");
    assert [] + added.members == added.members;
    RunConcat(NO_HISTORIES, [Open, AddLine(0, "a"), AddLine(0, "b")], [AppendTo(0)], SMALL, "f");
    assert [Open, AddLine(0, "a"), AddLine(0, "b")] + [AppendTo(0)] == WRITE_TWO;
    RunOne(added, AppendTo(0));
    assert [] + ["a", "b"] == ["a", "b"];
    assert Step(added, AppendTo(0), SMALL, "f") == Written([]);
  }

  /** Two entries in memory, two in the file, and room for two: the load records size 0. */
  lemma LoadWithoutRoom()
    ensures Loaded(Holding(["c", "d"], 2, None), TwoInFile(), "f") == Holding(["a", "b"], 0, Some(PathInfo("f", 0, 0)))
  {
    var mem := M.Mem(["c", "d"], SMALL);
    AcceptableMeans(SMALL, ["a", "b"]);
    LoadedWritten(Holding(["c", "d"], 2, None), TwoInFile(), "f", ["a", "b"]);
    assert ["a", "b"][1..] == ["b"] && ["b"][1..] == [];
    assert mem.Add("a").entries == ["d", "a"] && mem.Add("a").Add("b").entries == ["a", "b"];
  }

  lemma AddToFull()
    ensures Holding(["a", "b"], 0, Some(PathInfo("f", 0, 0))).Add("e")
            == Holding(["b", "e"], 1, Some(PathInfo("f", 0, 0)))
    ensures Holding(["b", "e"], 1, Some(PathInfo("f", 0, 0))).Unsaved() == ["e"]
  {
    assert ["a", "b"][1..] + ["e"] == ["b", "e"];
  }

  /** The second history before its load, behind it, and with one line more. */
  const UNLOADED := Member(Holding(["c", "d"], 2, None), ["c", "d"], true)
  const LOADED := Member(Holding(["a", "b"], 0, Some(PathInfo("f", 0, 0))), [], false)
  const GROWN := Member(Holding(["b", "e"], 1, Some(PathInfo("f", 0, 0))), ["e"], false)

  lemma ReplaceSecond(m: Member, m': Member)
    ensures Written([m]).members[1 := m'] == Written([m']).members && Written([m]).members[1] == m
  {
  }

  lemma SecondLoads()
    ensures Step(Written([UNLOADED]), Load(1), SMALL, "f") == Written([LOADED])
  {
    LoadWithoutRoom();
    ReplaceSecond(UNLOADED, LOADED);
  }

  lemma SecondAddsOne()
    ensures Step(Written([LOADED]), AddLine(1, "e"), SMALL, "f") == Written([GROWN])
  {
    AddToFull();
    ReplaceSecond(LOADED, GROWN);
    assert [] + ["e"] == ["e"];
  }

  ghost predicate HoldsThree(s: System) {
    s.lines == ["a", "b", "e"] && "f" in s.files && s.files["f"].text == Encode(["a", "b", "e"])
  }

  /** The append that follows takes the cheap route and leaves three entries. */
  lemma SecondAppends()
    ensures RouteOf(GROWN.hist, TwoInFile(), "f").Cheap?
    ensures HoldsThree(Step(Written([GROWN]), AppendTo(1), SMALL, "f"))
  {
    AddToFull();
    FastWrites(GROWN.hist, TwoInFile(), "f", ["a", "b"], ["e"]);
    ReplaceSecond(GROWN, GROWN);
    assert ["a", "b"] + ["e"] == ["a", "b", "e"];
  }

  lemma SecondOpens()
    ensures Run(Written([]), [Open, AddLine(1, "c"), AddLine(1, "d")], SMALL, "f") == Written([UNLOADED])
  {
    TwoLinesAdded(Written([]), "c", "d");
    assert Written([]).members + [UNLOADED] == Written([UNLOADED]).members;
  }

  lemma SecondLoadsAndAppends()
    ensures HoldsThree(Run(Written([]), LOAD_AND_APPEND, SMALL, "f"))
  {
    var opens, goesOn := [Open, AddLine(1, "c"), AddLine(1, "d")], [Load(1), AddLine(1, "e"), AppendTo(1)];
    assert opens + goesOn == LOAD_AND_APPEND;
    RunConcat(Written([]), opens, goesOn, SMALL, "f");
    SecondOpens();
    RunThree(Written([UNLOADED]), Load(1), AddLine(1, "e"), AppendTo(1));
    SecondLoads();
    SecondAddsOne();
    SecondAppends();
  }

  /** A run that ends with three entries in the file under a cap of two. */
  lemma CheapRouteOverfills()
    ensures var s := Run(NO_HISTORIES, WRITE_TWO + LOAD_AND_APPEND, SMALL, "f");
      && SMALL.maxLen == 2 && s.lines == ["a", "b", "e"]
      && "f" in s.files && s.files["f"].text == Encode(s.lines)
  {
    RunConcat(NO_HISTORIES, WRITE_TWO, LOAD_AND_APPEND, SMALL, "f");
    FirstWrites();
    SecondLoadsAndAppends();
  }

  // ---- without loads ----

  ghost predicate NoLoads(ops: seq<Op>) {
    forall k :: 0 <= k < |ops| ==> !ops[k].Load?
  }

  /** Everyone is roomy, and the file is within the cap. */
  ghost predicate Within(cfg: M.Config, s: System) {
    && |s.lines| <= cfg.maxLen
    && forall i :: 0 <= i < |s.members| ==> s.members[i].roomy
  }

  lemma StepStaysWithin(cfg: M.Config, path: string, s: System, op: Op)
    requires Inv(cfg, path, s) && Within(cfg, s) && !op.Load?
    ensures Within(cfg, Step(s, op, cfg, path))
  {
    if op.AppendTo? && op.who < |s.members| {
      var m := s.members[op.who];
      if m.pending == [] {
        AppendNothing(cfg, path, s, op.who);
      } else {
        EveryRouteWritesExpected(cfg, path, s.files, s.log, s.lines, m);
        if RouteOf(m.hist, s.files, path).Cheap? {
          CheapGuard(cfg, path, s.files, s.lines, m);
        }
      }
    }
  }

  lemma {:induction false} RunStaysWithin(cfg: M.Config, path: string, s: System, ops: seq<Op>)
    requires Inv(cfg, path, s) && Within(cfg, s) && OpsWithoutFinalCr(ops) && NoLoads(ops)
    ensures Within(cfg, Run(s, ops, cfg, path))
    decreases |ops|
  {
    if ops != [] {
      StepKeepsInv(cfg, path, s, ops[0]);
      StepStaysWithin(cfg, path, s, ops[0]);
      assert forall k :: 0 <= k < |ops[1..]| ==> ops[1..][k] == ops[k + 1];
      RunStaysWithin(cfg, path, Step(s, ops[0], cfg, path), ops[1..]);
    }
  }

  /**
   Without loads the recorded size is exact whenever a stamp is current, and the file never holds
   more entries than the cap.
   */
  lemma RunsWithoutLoads(cfg: M.Config, path: string, ops: seq<Op>)
    requires OpsWithoutFinalCr(ops) && NoLoads(ops)
    ensures var s := Run(NO_HISTORIES, ops, cfg, path);
      && |s.lines| <= cfg.maxLen
      && forall i :: 0 <= i < |s.members| && s.members[i].hist.pathInfo.Some? ==>
           var info := s.members[i].hist.pathInfo.value;
           path in s.files && (info.mtime == s.files[path].mtime ==> info.size == |s.lines|)
  {
    EveryRunWritesWhatWasAppended(cfg, path, ops);
    RunStaysWithin(cfg, path, NO_HISTORIES, ops);
    var s := Run(NO_HISTORIES, ops, cfg, path);
    forall i | 0 <= i < |s.members| && s.members[i].hist.pathInfo.Some?
      ensures StampCertifies(path, s, s.members[i])
    {
    }
  }

  // ---- the entries appended end the file ----

  /** `own` is the end of what the file at `path` decodes to. */
  ghost predicate FileEndsIn(cfg: M.Config, path: string, files: Files, own: seq<string>) {
    && path in files
    && var held := Decode(cfg, files[path].text);
       |own| <= |held| && held[|held| - |own|..] == own
  }

  lemma ExpectedEndsInTail(cfg: M.Config, path: string, files: Files, log: seq<string>, batch: seq<string>,
                           lines: seq<string>)
    requires cfg.maxLen >= 1 && batch != [] && Acceptable(cfg, batch)
    requires FileInv(cfg, path, files, log + batch, lines)
    ensures FileEndsIn(cfg, path, files, M.LastN(cfg.maxLen, batch))
  {
    DecodeLines(cfg, path, files, log + batch, lines);
    ExpectedEndsInOwn(cfg, log, batch);
  }

  lemma ExpectedEndsInOwn(cfg: M.Config, log: seq<string>, batch: seq<string>)
    requires cfg.maxLen >= 1 && batch != [] && Acceptable(cfg, batch)
    ensures var held, own := Expected(cfg, log + batch), M.LastN(cfg.maxLen, batch);
      |own| <= |held| && held[|held| - |own|..] == own
  {
    ExpectedAfterBatch(cfg, log, batch);
    TailOfConcat(cfg.maxLen, Base(cfg, M.AddAllUnbounded(cfg, [], log), batch), batch);
  }

  lemma AppendEndsTheFile(cfg: M.Config, path: string, s: System, i: nat)
    requires Inv(cfg, path, s) && i < |s.members| && s.members[i].pending != []
    ensures FileEndsIn(cfg, path, Append(s, i, path).files, M.LastN(cfg.maxLen, s.members[i].pending))
  {
    var m, s' := s.members[i], Append(s, i, path);
    SomethingToAppend(cfg, path, s.files, s.lines, m);
    WriterKeepsInv(cfg, path, s, i);
    ExpectedEndsInTail(cfg, path, s'.files, s.log, m.pending, s'.lines);
  }

  /** An append never loses an accepted line of its own except to the cap: they end the file. */
  lemma AppendedLinesEndTheFile(cfg: M.Config, path: string, ops: seq<Op>, i: nat)
    requires OpsWithoutFinalCr(ops)
    requires var s := Run(NO_HISTORIES, ops, cfg, path);
      i < |s.members| && s.members[i].pending != []
    ensures var s := Run(NO_HISTORIES, ops, cfg, path);
      FileEndsIn(cfg, path, Append(s, i, path).files, M.LastN(cfg.maxLen, s.members[i].pending))
  {
    RunKeepsInv(cfg, path, NO_HISTORIES, ops);
    AppendEndsTheFile(cfg, path, Run(NO_HISTORIES, ops, cfg, path), i);
  }
}
