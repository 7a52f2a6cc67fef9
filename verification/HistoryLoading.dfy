/**
 What any file at all loads to (`load_from` in `wq-rl/src/history.rs`): versioned or not, written by
 this program or not.
 */
module HistoryLoading {
  import opened Wrappers
  import opened Fields
  import opened HistoryText
  import opened HistoryFile
  import opened HistoryRoundTrip
  import M = MemHistory

  // ---- lines ----

  /** What stands between line feeds, without a carriage return in front of one; a final empty field is no line. */
  ghost predicate AreLinesOf(lines: seq<string>, fields: seq<string>)
    requires fields != []
  {
    var n := |fields| - 1;
    && |lines| == n + (if fields[n] == "" then 0 else 1)
    && (forall k :: 0 <= k < n ==> lines[k] == StripCr(fields[k]))
    && (fields[n] != "" ==> lines[n] == fields[n])
  }

  lemma OneMoreLine(lines: seq<string>, fields: seq<string>, field: string)
    requires fields != [] && AreLinesOf(lines, fields)
    ensures AreLinesOf([StripCr(field)] + lines, [field] + fields)
  {
  }

  lemma {:induction false} LinesAreFields(text: string)
    ensures AreLinesOf(Lines(text), Split(text, '\n'))
    decreases |text|
  {
    if text != "" {
      var k := LineEnd(text);
      IndexOfLineFeed(text, k);
      if k == |text| {
        assert text[..k] == text;
      } else {
        LinesAreFields(text[k + 1..]);
        OneMoreLine(Lines(text[k + 1..]), Split(text[k + 1..], '\n'), text[..k]);
      }
    }
  }

  lemma IndexOfLineFeed(text: string, k: nat)
    requires k == LineEnd(text)
    ensures IndexOf(text, '\n') == k
  {
    assert text[..k] + (if k == |text| then "" else ['\n'] + text[k + 1..]) == text;
    if k < |text| {
      assert text[..k] + ['\n'] + text[k + 1..] == text;
    }
    IndexOfUnique(text[..k], '\n', if k == |text| then "" else text[k + 1..]);
  }

  lemma NoLineFeedInLines(text: string)
    ensures forall k :: 0 <= k < |Lines(text)| ==> '\n' !in Lines(text)[k]
  {
    LinesAreFields(text);
    JoinSplit(text, '\n');
    forall k | 0 <= k < |Lines(text)|
      ensures '\n' !in Lines(text)[k]
    {
      assert '\n' !in Split(text, '\n')[k];
    }
  }

  // ---- what a line of a versioned file stands for ----

  /** The line is what the writer writes for some entry. */
  ghost predicate IsWritten(line: string) {
    exists entry :: Escape(entry) == line
  }

  lemma {:induction false} EscapeUnescape(line: string)
    requires '\n' !in line && Unescape(line).Some?
    ensures Escape(Unescape(line).value) == line
    decreases |line|
  {
    if line != "" {
      var n := if line[0] == '\\' then 2 else 1;
      EscapeUnescape(line[n..]);
      var entry := Unescape(line).value;
      assert entry[1..] == Unescape(line[n..]).value;
      assert line == line[..n] + line[n..];
    }
  }

  /** A line stands for the entry it was written for, and for itself if the writer never writes it. */
  ghost predicate StandsFor(line: string, entry: string) {
    if IsWritten(line) then Escape(entry) == line else entry == line
  }

  lemma DecodeLineMeans(line: string)
    requires '\n' !in line
    ensures StandsFor(line, DecodeLine(line))
  {
    if Unescape(line).Some? {
      EscapeUnescape(line);
    }
    if IsWritten(line) {
      var entry :| Escape(entry) == line;
      UnescapeEscape(entry);
    }
  }

  // ---- what a file feeds to a history ----

  function NonEmpty(lines: seq<string>): seq<string> {
    if lines == [] then []
    else (if lines[0] == "" then [] else [lines[0]]) + NonEmpty(lines[1..])
  }

  predicate IsVersioned(text: string) {
    Lines(text) != [] && Lines(text)[0] == VERSION_LINE
  }

  lemma {:induction false} PlainLinesFeed(mem: M.Mem, lines: seq<string>)
    ensures LoadLines(mem, false, lines, false) == (mem.AddAll(NonEmpty(lines)), false)
    decreases |lines|
  {
    if lines != [] {
      var rest := NonEmpty(lines[1..]);
      if lines[0] == "" {
        assert [] + rest == rest;
        PlainLinesFeed(mem, lines[1..]);
      } else {
        assert ([lines[0]] + rest)[1..] == rest;
        PlainLinesFeed(mem.Add(lines[0]), lines[1..]);
      }
    }
  }

  /** A file without the version line: every line that is not empty, from the first one on and as it stands. */
  lemma OtherFormatLoads(mem: M.Mem, text: string)
    requires !IsVersioned(text)
    ensures LoadText(mem, text) == (mem.AddAll(NonEmpty(Lines(text))), false)
  {
    var lines := Lines(text);
    if lines != [] {
      var rest := NonEmpty(lines[1..]);
      PlainLinesFeed(mem.Add(lines[0]), lines[1..]);
      assert [] + rest == rest && ([lines[0]] + rest)[1..] == rest;
    }
  }

  lemma {:induction false} FedMeans(lines: seq<string>)
    requires forall k :: 0 <= k < |lines| ==> '\n' !in lines[k]
    ensures var raw, fed := NonEmpty(lines), Fed(lines);
      && |fed| == |raw|
      && forall k :: 0 <= k < |raw| ==> StandsFor(raw[k], fed[k])
  {
    if lines != [] {
      FedMeans(lines[1..]);
      DecodeLineMeans(lines[0]);
    }
  }

  /**
   A versioned file: every line behind the version line that is not empty, as the entry it was
   written for, or as it stands if the writer never writes it.
   */
  lemma VersionedLoads(mem: M.Mem, text: string)
    requires IsVersioned(text)
    ensures var raw, fed := NonEmpty(Lines(text)[1..]), Fed(Lines(text)[1..]);
      && LoadText(mem, text) == (mem.AddAll(fed), TakesAll(mem, fed))
      && |fed| == |raw|
      && forall k :: 0 <= k < |raw| ==> StandsFor(raw[k], fed[k])
  {
    NoLineFeedInLines(text);
    FedMeans(Lines(text)[1..]);
    LoadLinesFeeds(mem, Lines(text)[1..], true);
  }

  // ---- what a save or an append leaves ----

  lemma {:induction false} AsManyLines(entries: seq<string>)
    ensures |WrittenLines(entries)| == |entries|
  {
    if entries != [] {
      AsManyLines(entries[1..]);
    }
  }

  /** What is recorded of the file is right: its stamp, and how many lines stand behind the version line. */
  predicate Records(h: Hist, files: Files, path: string) {
    && path in files && Lines(files[path].text) != []
    && h.pathInfo == Some(PathInfo(path, files[path].mtime, |Lines(files[path].text)| - 1))
  }

  lemma WholeWritesAreRecorded(mem: M.Mem, files: Files, path: string, entries: seq<string>)
    requires path in files && files[path].text == Encode(entries)
    ensures Records(Hist(mem, 0, Some(PathInfo(path, files[path].mtime, |entries|))), files, path)
  {
    LinesOfEncode(entries);
    AsManyLines(entries);
  }

  /** A save leaves the file of all entries, records it, and leaves nothing to save and no other file changed. */
  lemma SavesAreRecorded(h: Hist, files: Files, path: string)
    requires h.newEntries > 0 && h.mem.entries != []
    ensures var (next, after) := Saved(h, files, path);
      && Records(next, after, path) && after[path].text == Encode(h.mem.entries)
      && next.mem == h.mem && next.Unsaved() == []
      && after - {path} == files - {path}
  {
    WholeWritesAreRecorded(h.mem, Saved(h, files, path).1, path, h.mem.entries);
  }

  /** The history knows the file as it is now: it was the last to load or write it. */
  predicate Knows(h: Hist, files: Files, path: string) {
    path in files && h.pathInfo.Some? && h.pathInfo.value.path == path && h.pathInfo.value.mtime == files[path].mtime
  }

  /**
   An append to a file that another path was loaded from, or that somebody else has written since,
   trusts nothing it remembers: it reads the file, adds what is unsaved and records what it wrote.
   No append changes another file.
   */
  lemma UnknownFilesAreMerged(h: Hist, files: Files, path: string)
    requires h.newEntries > 0 && h.mem.entries != []
    ensures var (next, after) := Appended(h, files, path);
      && after - {path} == files - {path}
      && next.mem == h.mem && next.Unsaved() == []
      && (path in files && h.newEntries != h.mem.cfg.maxLen && !Knows(h, files, path) ==>
            && Records(next, after, path)
            && after[path].text
               == Encode(LoadText(M.Mem([], h.mem.cfg), files[path].text).0.AddAll(h.Unsaved()).entries))
  {
    if path in files && h.newEntries != h.mem.cfg.maxLen && !Knows(h, files, path) {
      var other := LoadText(M.Mem([], h.mem.cfg), files[path].text).0.AddAll(h.Unsaved());
      WholeWritesAreRecorded(h.mem, Appended(h, files, path).1, path, other.entries);
    }
  }

  // ---- an old file becomes a versioned one ----

  /** Load the file into a fresh history, add a line, append. */
  function LoadAddAppend(cfg: M.Config, files: Files, path: string, line: string): (Hist, Files)
    requires path in files
  {
    Appended(Loaded(Fresh(cfg), files, path).Add(line), files, path)
  }

  /** An append with one new line and no file known rewrites the file: what it holds and the new line. */
  lemma OneNewLineIsMerged(h: Hist, files: Files, path: string, line: string)
    requires path in files && h.newEntries == 1 && h.pathInfo.None? && h.mem.entries != []
    requires h.mem.entries[|h.mem.entries| - 1] == line
    requires h.mem == LoadText(M.Mem([], h.mem.cfg), files[path].text).0.Add(line)
    ensures var (_, after) := Appended(h, files, path);
      path in after && after[path].text == Encode(h.mem.entries)
  {
    var loaded := LoadText(M.Mem([], h.mem.cfg), files[path].text).0;
    assert h.Unsaved() == [line] && [line][1..] == [];
    assert loaded.AddAll([line]) == loaded.Add(line).AddAll([]) == h.mem;
  }

  /** The first append behind an old file rewrites it as a versioned file of all its lines and the new one. */
  lemma OldFormatIsRewritten(cfg: M.Config, files: Files, path: string, line: string)
    requires path in files && !IsVersioned(files[path].text)
    ensures var mem := M.Mem([], cfg).AddAll(NonEmpty(Lines(files[path].text)));
      !mem.Ignores(line) ==>
        var (_, after) := LoadAddAppend(cfg, files, path, line);
        path in after && after[path].text == Encode(mem.Add(line).entries)
  {
    var text := files[path].text;
    var mem := M.Mem([], cfg).AddAll(NonEmpty(Lines(text)));
    OtherFormatLoads(M.Mem([], cfg), text);
    SettingsStay(M.Mem([], cfg), NonEmpty(Lines(text)));
    if !mem.Ignores(line) {
      OneNewLineIsMerged(Hist(mem.Add(line), 1, None), files, path, line);
    }
  }

  lemma {:induction false} SettingsStay(mem: M.Mem, lines: seq<string>)
    ensures mem.AddAll(lines).cfg == mem.cfg
    decreases |lines|
  {
    if lines != [] {
      SettingsStay(mem.Add(lines[0]), lines[1..]);
    }
  }

  const TEN := M.Config(10, false, false)

  predicate IsLine(line: string) {
    '\n' !in line && !EndsInCr(line)
  }

  lemma LinesOfTwo(a: string, b: string)
    requires IsLine(a) && IsLine(b)
    ensures Lines(a + "\n" + (b + "\n")) == [a, b]
  {
    assert b + "\n" + "" == b + "\n";
    LinesCons(b, "");
    LinesCons(a, b + "\n");
  }

  lemma LinesOfThree(a: string, b: string, c: string)
    requires IsLine(a) && IsLine(b) && IsLine(c)
    ensures Lines(a + "\n" + (b + "\n" + (c + "\n"))) == [a, b, c]
  {
    LinesOfTwo(b, c);
    LinesCons(a, b + "\n" + (c + "\n"));
  }

  lemma NonEmptyTwo(first: string, second: string)
    requires first != "" && second != ""
    ensures NonEmpty([first, second]) == [first, second]
  {
    assert [first, second][1..] == [second] && [second][1..] == [];
    assert NonEmpty([second]) == [second];
  }

  lemma AddTwoPlain(mem: M.Mem, first: string, second: string)
    requires mem == M.Mem([], TEN) && first != "" && second != ""
    ensures mem.AddAll([first, second]).entries == [first, second]
  {
    assert [first, second][1..] == [second] && [second][1..] == [];
    assert mem.Add(first).entries == [first] && mem.Add(first).Add(second).entries == [first, second];
    assert mem.Add(first).AddAll([second]) == mem.Add(first).Add(second).AddAll([]);
  }

  /** Two lines of an old file, the first of them included. */
  lemma OldFileOfTwo()
    ensures Decode(TEN, "ls\ncd\n") == ["ls", "cd"]
  {
    var empty := M.Mem([], TEN);
    LinesOfTwo("ls", "cd");
    assert "ls" + "\n" + ("cd" + "\n") == "ls\ncd\n";
    NonEmptyTwo("ls", "cd");
    assert "ls" != VERSION_LINE;
    OtherFormatLoads(empty, "ls\ncd\n");
    AddTwoPlain(empty, "ls", "cd");
  }

  const VERSIONED := "#V2\na\\nb\n\\x\n"

  lemma LinesOfVersioned()
    ensures Lines(VERSIONED) == ["#V2", "a\\nb", "\\x"]
  {
    LinesOfThree("#V2", "a\\nb", "\\x");
    assert "#V2" + "\n" + ("a\\nb" + "\n" + ("\\x" + "\n")) == VERSIONED;
  }

  lemma DecodeTwo()
    ensures DecodeLine("a\\nb") == "a\nb" && DecodeLine("\\x") == "\\x"
  {
    UnescapeEscape("a\nb");
    assert "a\nb"[1..] == "\nb" && "\nb"[1..] == "b" && "b"[1..] == "";
    assert Escape("b") == "b" && Escape("\nb") == "\\nb" && Escape("a\nb") == "a\\nb";
  }

  lemma FedOfTwo(first: string, second: string)
    requires first != "" && second != ""
    ensures Fed([first, second]) == [DecodeLine(first), DecodeLine(second)]
  {
    assert [first, second][1..] == [second] && [second][1..] == [];
    assert Fed([second]) == [DecodeLine(second)];
  }

  /** A versioned file of an entry with a line feed in it, and of a line the writer never writes. */
  lemma VersionedFileOfTwo()
    ensures Decode(TEN, VERSIONED) == ["a\nb", "\\x"]
  {
    var lines := ["a\\nb", "\\x"];
    LinesOfVersioned();
    assert ["#V2", "a\\nb", "\\x"][1..] == lines;
    VersionedLoads(M.Mem([], TEN), VERSIONED);
    FedOfTwo(lines[0], lines[1]);
    DecodeTwo();
    AddTwoPlain(M.Mem([], TEN), "a\nb", "\\x");
  }
}
