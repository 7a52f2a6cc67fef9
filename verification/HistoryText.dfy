/**
 The text of a history file (`wq-rl/src/history.rs`): a version line, then one entry per
 line with line feeds and backslashes escaped.  Entries and file contents are sequences of
 Unicode scalar values; the three characters the format treats specially are ASCII.
 */
module HistoryText {
  import opened Sequences
  import opened Wrappers

  const VERSION_LINE := "#V2"

  // ---- writing one entry ----

  function EscapeChar(c: char): string {
    if c == '\n' then "\\n" else if c == '\\' then "\\\\" else [c]
  }

  function Escape(entry: string): string {
    if entry == "" then "" else EscapeChar(entry[0]) + Escape(entry[1..])
  }

  predicate NeedsEscape(c: char) {
    c == '\\' || c == '\n'
  }

  method FindEscapable(text: string) returns (i: nat)
    ensures i <= |text|
    ensures forall k :: 0 <= k < i ==> !NeedsEscape(text[k])
    ensures i < |text| ==> NeedsEscape(text[i])
  {
    i := 0;
    while i < |text| && !NeedsEscape(text[i])
      invariant i <= |text|
      invariant forall k :: 0 <= k < i ==> !NeedsEscape(text[k])
    {
      i := i + 1;
    }
  }

  lemma {:induction false} EscapeSkipsPlain(text: string, i: nat)
    requires i <= |text|
    requires forall k :: 0 <= k < i ==> !NeedsEscape(text[k])
    ensures Escape(text) == text[..i] + Escape(text[i..])
  {
    if i == 0 {
      assert text[0..] == text;
    } else {
      EscapeSkipsPlain(text[1..], i - 1);
      assert text[1..][i - 1..] == text[i..];
      assert text[..i] == [text[0]] + text[1..][..i - 1];
    }
  }

  lemma EscapeNext(out: string, rest: string, i: nat)
    requires i < |rest| && NeedsEscape(rest[i])
    requires forall k :: 0 <= k < i ==> !NeedsEscape(rest[k])
    ensures out + rest[..i] + EscapeChar(rest[i]) + Escape(rest[i + 1..]) == out + Escape(rest)
  {
    EscapeSkipsPlain(rest, i);
    assert rest[i..][1..] == rest[i + 1..];
    ConcatAssoc(out + rest[..i], EscapeChar(rest[i]), Escape(rest[i + 1..]));
    ConcatAssoc(out, rest[..i], EscapeChar(rest[i]) + Escape(rest[i + 1..]));
  }

  /** The writer's loop over one entry: copy up to the next special character, escape it, go on. */
  method WriteEntry(entry: string) returns (out: string)
    ensures out == Escape(entry) + "\n"
  {
    out := "";
    var rest := entry;
    var i: nat := FindEscapable(rest);
    while i < |rest|
      invariant i <= |rest|
      invariant forall k :: 0 <= k < i ==> !NeedsEscape(rest[k])
      invariant i < |rest| ==> NeedsEscape(rest[i])
      invariant out + Escape(rest) == Escape(entry)
      decreases |rest|
    {
      EscapeNext(out, rest, i);
      out := out + rest[..i];
      if rest[i] == '\n' {
        out := out + "\\n";
      } else {
        out := out + "\\\\";
      }
      rest := rest[i + 1..];
      i := FindEscapable(rest);
    }
    EscapeSkipsPlain(rest, |rest|);
    assert rest[..|rest|] == rest && rest[|rest|..] == "" && rest + "" == rest;
    out := out + rest;
    out := out + "\n";
  }

  // ---- reading one line ----

  /** None stands for a line with an escape the writer never produces. */
  function Unescape(line: string): Option<string> {
    if line == "" then Some("")
    else if line[0] != '\\' then
      match Unescape(line[1..])
      case Some(rest) => Some([line[0]] + rest)
      case None => None
    else if |line| < 2 || (line[1] != 'n' && line[1] != '\\') then None
    else
      match Unescape(line[2..])
      case Some(rest) => Some([if line[1] == 'n' then '\n' else '\\'] + rest)
      case None => None
  }

  /** A badly escaped line is kept as it stands. */
  function DecodeLine(line: string): string {
    match Unescape(line)
    case Some(entry) => entry
    case None => line
  }

  method FindBackslash(text: string) returns (i: nat)
    ensures i <= |text|
    ensures forall k :: 0 <= k < i ==> text[k] != '\\'
    ensures i < |text| ==> text[i] == '\\'
  {
    i := 0;
    while i < |text| && text[i] != '\\'
      invariant i <= |text|
      invariant forall k :: 0 <= k < i ==> text[k] != '\\'
    {
      i := i + 1;
    }
  }

  function Prepend(prefix: string, rest: Option<string>): Option<string> {
    match rest
    case Some(text) => Some(prefix + text)
    case None => None
  }

  lemma PrependNothing(rest: Option<string>)
    ensures Prepend("", rest) == rest
  {
    if rest.Some? {
      assert "" + rest.value == rest.value;
    }
  }

  lemma {:induction false} UnescapeSkipsPlain(text: string, i: nat)
    requires i <= |text|
    requires forall k :: 0 <= k < i ==> text[k] != '\\'
    ensures Unescape(text) == Prepend(text[..i], Unescape(text[i..]))
  {
    if i == 0 {
      assert text[0..] == text;
      PrependNothing(Unescape(text));
    } else {
      UnescapeSkipsPlain(text[1..], i - 1);
      assert text[1..][i - 1..] == text[i..];
      if Unescape(text[i..]).Some? {
        var rest := Unescape(text[i..]).value;
        assert text[..i] + rest == [text[0]] + (text[1..][..i - 1] + rest);
      }
    }
  }

  lemma UnescapeNext(copy: string, rest: string, i: nat)
    requires i < |rest| && rest[i] == '\\'
    requires forall k :: 0 <= k < i ==> rest[k] != '\\'
    ensures Prepend(copy, Unescape(rest)) ==
            if i + 1 < |rest| && (rest[i + 1] == 'n' || rest[i + 1] == '\\') then
              Prepend(copy + rest[..i] + [if rest[i + 1] == 'n' then '\n' else '\\'], Unescape(rest[i + 2..]))
            else None
  {
    UnescapeSkipsPlain(rest, i);
    if i + 1 < |rest| && (rest[i + 1] == 'n' || rest[i + 1] == '\\') {
      assert rest[i..][2..] == rest[i + 2..];
      if Unescape(rest[i + 2..]).Some? {
        var c := if rest[i + 1] == 'n' then '\n' else '\\';
        ConcatAssoc(copy + rest[..i], [c], Unescape(rest[i + 2..]).value);
        ConcatAssoc(copy, rest[..i], [c] + Unescape(rest[i + 2..]).value);
      }
    }
  }

  /** The reader's loop over one line, with the early exit on a bad escape. */
  method ReadEntry(line: string) returns (entry: string)
    ensures entry == DecodeLine(line)
  {
    var copy := "";
    var rest := line;
    PrependNothing(Unescape(line));
    var i: nat := FindBackslash(rest);
    while i < |rest|
      invariant i <= |rest|
      invariant forall k :: 0 <= k < i ==> rest[k] != '\\'
      invariant i < |rest| ==> rest[i] == '\\'
      invariant Unescape(line) == Prepend(copy, Unescape(rest))
      decreases |rest|
    {
      UnescapeNext(copy, rest, i);
      var j := i + 1;
      if j < |rest| && (rest[j] == 'n' || rest[j] == '\\') {
        copy := copy + rest[..i];
        copy := copy + [if rest[j] == 'n' then '\n' else '\\'];
        rest := rest[j + 1..];
        i := FindBackslash(rest);
      } else {
        return line;
      }
    }
    UnescapeSkipsPlain(rest, i);
    assert rest[..i] == rest && rest[i..] == "";
    assert rest + "" == rest;
    entry := copy + rest;
  }

  // ---- splitting a file into lines ----

  predicate EndsInCr(line: string) {
    |line| > 0 && line[|line| - 1] == '\r'
  }

  function StripCr(line: string): string {
    if EndsInCr(line) then line[..|line| - 1] else line
  }

  function LineEnd(text: string): (n: nat)
    ensures n <= |text|
    ensures forall k :: 0 <= k < n ==> text[k] != '\n'
    ensures n < |text| ==> text[n] == '\n'
  {
    if text == "" || text[0] == '\n' then 0 else 1 + LineEnd(text[1..])
  }

  /** Rust's `BufRead::lines`: a carriage return is dropped only in front of a line feed. */
  function Lines(text: string): seq<string> {
    if text == "" then []
    else
      var n := LineEnd(text);
      if n == |text| then [text] else [StripCr(text[..n])] + Lines(text[n + 1..])
  }

  // ---- a whole file ----

  function Body(entries: seq<string>): string {
    if entries == [] then "" else Escape(entries[0]) + "\n" + Body(entries[1..])
  }

  function Encode(entries: seq<string>): string {
    VERSION_LINE + "\n" + Body(entries)
  }

  lemma {:induction false} BodyConcat(a: seq<string>, b: seq<string>)
    ensures Body(a + b) == Body(a) + Body(b)
  {
    if a == [] {
      assert a + b == b;
    } else {
      BodyConcat(a[1..], b);
      var line := Escape(a[0]) + "\n";
      assert (a + b)[1..] == a[1..] + b && (a + b)[0] == a[0];
      assert Body(a + b) == line + (Body(a[1..]) + Body(b));
      assert (line + Body(a[1..])) + Body(b) == line + (Body(a[1..]) + Body(b));
    }
  }

  // ---- what reading undoes ----

  lemma {:induction false} UnescapeEscape(entry: string)
    ensures Unescape(Escape(entry)) == Some(entry)
  {
    if entry != "" {
      UnescapeEscape(entry[1..]);
      var e := EscapeChar(entry[0]);
      assert Escape(entry)[|e|..] == Escape(entry[1..]);
      assert entry == [entry[0]] + entry[1..];
    }
  }

  lemma {:induction false} EscapeHasNoNewline(entry: string)
    ensures '\n' !in Escape(entry)
  {
    if entry != "" {
      EscapeHasNoNewline(entry[1..]);
    }
  }

  lemma {:induction false} EscapeSnoc(entry: string, c: char)
    ensures Escape(entry + [c]) == Escape(entry) + EscapeChar(c)
  {
    if entry == "" {
      assert entry + [c] == [c] && [c][1..] == "";
      assert EscapeChar(c) + "" == EscapeChar(c);
    } else {
      EscapeSnoc(entry[1..], c);
      assert (entry + [c])[1..] == entry[1..] + [c];
    }
  }

  /** The line splitter sees the same final carriage return in an entry and in its escaped form. */
  lemma StripCrEscape(entry: string)
    ensures StripCr(Escape(entry)) == Escape(StripCr(entry))
  {
    if entry != "" {
      var init, last := entry[..|entry| - 1], entry[|entry| - 1];
      assert entry == init + [last];
      EscapeSnoc(init, last);
      if last == '\r' {
        assert (Escape(init) + "\r")[..|Escape(init)|] == Escape(init);
      }
    }
  }

  lemma LineEndUnique(text: string, n: nat)
    requires n < |text| && text[n] == '\n' && '\n' !in text[..n]
    ensures LineEnd(text) == n
  {
  }

  lemma LinesCons(line: string, rest: string)
    requires '\n' !in line
    ensures Lines(line + "\n" + rest) == [StripCr(line)] + Lines(rest)
  {
    var text := line + "\n" + rest;
    assert text[..|line|] == line;
    LineEndUnique(text, |line|);
    assert text[|line| + 1..] == rest;
  }

  /** The lines a reader gets for the entries written. */
  function WrittenLines(entries: seq<string>): seq<string> {
    if entries == [] then [] else [StripCr(Escape(entries[0]))] + WrittenLines(entries[1..])
  }

  lemma {:induction false} LinesOfBody(entries: seq<string>)
    ensures Lines(Body(entries)) == WrittenLines(entries)
  {
    if entries != [] {
      LinesOfBody(entries[1..]);
      EscapeHasNoNewline(entries[0]);
      LinesCons(Escape(entries[0]), Body(entries[1..]));
    }
  }

  lemma LinesOfEncode(entries: seq<string>)
    ensures Lines(Encode(entries)) == [VERSION_LINE] + WrittenLines(entries)
  {
    LinesCons(VERSION_LINE, Body(entries));
    LinesOfBody(entries);
  }

  /** Reading back the line written for an entry gives the entry without a final carriage return. */
  lemma ReadWrittenLine(entry: string)
    ensures DecodeLine(StripCr(Escape(entry))) == StripCr(entry)
    ensures StripCr(Escape(entry)) == "" <==> StripCr(entry) == ""
  {
    StripCrEscape(entry);
    UnescapeEscape(StripCr(entry));
  }
}
