/**
 Shell-word quoting for file name completion (`wq-rl/src/completion.rs`), in the Unix
 configuration.  Positions count characters.
 */
module Quoting {
  import opened Wrappers

  datatype Quote = Double | Single | Unquoted

  const ESCAPE_CHAR: char := '\\'

  predicate DefaultBreakChar(c: char) {
    || c == ' ' || c == '\t' || c == '\n' || c == '"' || c == '\\' || c == '\'' || c == '`' || c == '@' || c == '$'
    || c == '>' || c == '<' || c == '=' || c == ';' || c == '|' || c == '&' || c == '{' || c == '(' || c == '\0'
  }

  predicate DoubleQuotesSpecialChar(c: char) {
    c == '"' || c == '$' || c == '\\' || c == '`'
  }

  // ---- escaping and unescaping ----

  function EscapeChar(c: char, esc: char, isSpecial: char -> bool): string {
    if isSpecial(c) then [esc, c] else [c]
  }

  function Escaped(word: string, esc: char, isSpecial: char -> bool): string {
    if word == "" then "" else EscapeChar(word[0], esc, isSpecial) + Escaped(word[1..], esc, isSpecial)
  }

  function Unescaped(text: string, esc: char): string {
    if text == "" then ""
    else if text[0] != esc then [text[0]] + Unescaped(text[1..], esc)
    else if |text| == 1 then ""
    else [text[1]] + Unescaped(text[2..], esc)
  }

  lemma {:induction false} EscapedSnoc(word: string, c: char, esc: char, isSpecial: char -> bool)
    ensures Escaped(word + [c], esc, isSpecial) == Escaped(word, esc, isSpecial) + EscapeChar(c, esc, isSpecial)
  {
    if word == "" {
      assert (word + [c])[1..] == "";
      assert EscapeChar(c, esc, isSpecial) + "" == EscapeChar(c, esc, isSpecial);
    } else {
      EscapedSnoc(word[1..], c, esc, isSpecial);
      assert (word + [c])[1..] == word[1..] + [c];
    }
  }

  lemma {:induction false} NothingToEscape(word: string, esc: char, isSpecial: char -> bool)
    requires forall k :: 0 <= k < |word| ==> !isSpecial(word[k])
    ensures Escaped(word, esc, isSpecial) == word
  {
    if word != "" {
      NothingToEscape(word[1..], esc, isSpecial);
    }
  }

  lemma {:induction false} NothingToUnescape(text: string, esc: char)
    requires esc !in text
    ensures Unescaped(text, esc) == text
  {
    if text != "" {
      NothingToUnescape(text[1..], esc);
    }
  }

  /** Unescaping undoes escaping for every set of special characters that has the escape character. */
  lemma {:induction false} UnescapeEscaped(word: string, esc: char, isSpecial: char -> bool)
    requires isSpecial(esc)
    ensures Unescaped(Escaped(word, esc, isSpecial), esc) == word
  {
    if word != "" {
      UnescapeEscaped(word[1..], esc, isSpecial);
      var head, rest := EscapeChar(word[0], esc, isSpecial), Escaped(word[1..], esc, isSpecial);
      assert (head + rest)[|head|..] == rest;
    }
  }

  /** An escape character at the end of the text, with nothing to escape, is dropped. */
  lemma {:induction false} DanglingEscapeIsDropped(word: string, esc: char, isSpecial: char -> bool)
    requires isSpecial(esc)
    ensures Unescaped(Escaped(word, esc, isSpecial) + [esc], esc) == word
  {
    if word == "" {
      assert "" + [esc] == [esc];
    } else {
      DanglingEscapeIsDropped(word[1..], esc, isSpecial);
      var head, rest := EscapeChar(word[0], esc, isSpecial), Escaped(word[1..], esc, isSpecial);
      assert (head + rest + [esc])[|head|..] == rest + [esc];
    }
  }

  /** In single quotes, or without an escape character, nothing is escaped. */
  method Escape(input: string, esc: Option<char>, isBreakChar: char -> bool, quote: Quote) returns (r: string)
    ensures r == if quote == Single || esc.None? then input else Escaped(input, esc.value, isBreakChar)
  {
    if quote == Single {
      return input;
    }
    var n := 0;
    for k := 0 to |input|
      invariant n == 0 ==> forall j :: 0 <= j < k ==> !isBreakChar(input[j])
      invariant n >= 0
    {
      if isBreakChar(input[k]) {
        n := n + 1;
      }
    }
    if n == 0 {
      if esc.Some? {
        NothingToEscape(input, esc.value, isBreakChar);
      }
      return input;
    }
    if esc.None? {
      return input;
    }
    r := "";
    for k := 0 to |input|
      invariant r == Escaped(input[..k], esc.value, isBreakChar)
    {
      EscapedSnoc(input[..k], input[k], esc.value, isBreakChar);
      assert input[..k + 1] == input[..k] + [input[k]];
      if isBreakChar(input[k]) {
        r := r + [esc.value];
      }
      r := r + [input[k]];
    }
    assert input[..|input|] == input;
  }

  lemma UnescapeStep(r: string, chars: string, esc: char)
    requires chars != ""
    ensures r + Unescaped(chars, esc) ==
            if chars[0] != esc then (r + [chars[0]]) + Unescaped(chars[1..], esc)
            else if chars[1..] == "" then r + Unescaped("", esc)
            else (r + [chars[1..][0]]) + Unescaped(chars[1..][1..], esc)
  {
  }

  method Unescape(input: string, esc: Option<char>) returns (r: string)
    ensures r == if esc.None? then input else Unescaped(input, esc.value)
  {
    if esc.None? {
      return input;
    }
    if esc.value !in input {
      NothingToUnescape(input, esc.value);
      return input;
    }
    r := "";
    var chars := input;
    while chars != ""
      invariant r + Unescaped(chars, esc.value) == Unescaped(input, esc.value)
      decreases |chars|
    {
      UnescapeStep(r, chars, esc.value);
      var ch := chars[0];
      chars := chars[1..];
      if ch == esc.value {
        if chars != "" {
          r := r + [chars[0]];
          chars := chars[1..];
        }
      } else {
        r := r + [ch];
      }
    }
  }

  // ---- the forward quote scanner ----

  datatype ScanMode = InDoubleQuote | InEscape | InEscapeInDoubleQuote | Normal | InSingleQuote

  datatype Scan = Scan(mode: ScanMode, quoteIndex: nat)

  function ScanStep(s: Scan, index: nat, c: char): Scan {
    match s.mode
    case InDoubleQuote =>
      if c == '"' then s.(mode := Normal)
      else if c == '\\' then s.(mode := InEscapeInDoubleQuote)
      else s
    case InEscape => s.(mode := Normal)
    case InEscapeInDoubleQuote => s.(mode := InDoubleQuote)
    case Normal =>
      if c == '"' then Scan(InDoubleQuote, index)
      else if c == '\\' then s.(mode := InEscape)
      else if c == '\'' then Scan(InSingleQuote, index)
      else s
    case InSingleQuote =>
      if c == '\'' then s.(mode := Normal) else s
  }

  predicate InQuotes(mode: ScanMode) {
    mode == InDoubleQuote || mode == InEscapeInDoubleQuote || mode == InSingleQuote
  }

  function ScanOf(text: string): (s: Scan)
    ensures InQuotes(s.mode) ==> s.quoteIndex < |text|
  {
    if text == "" then Scan(Normal, 0)
    else ScanStep(ScanOf(text[..|text| - 1]), |text| - 1, text[|text| - 1])
  }

  function UnclosedQuote(text: string): (r: Option<(nat, Quote)>)
    ensures r.Some? ==> r.value.0 < |text|
  {
    var s := ScanOf(text);
    if s.mode == InDoubleQuote || s.mode == InEscapeInDoubleQuote then Some((s.quoteIndex, Double))
    else if s.mode == InSingleQuote then Some((s.quoteIndex, Single))
    else None
  }

  lemma ScanSnoc(text: string, c: char)
    ensures ScanOf(text + [c]) == ScanStep(ScanOf(text), |text|, c)
  {
  }

  method FindUnclosedQuote(s: string) returns (r: Option<(nat, Quote)>)
    ensures r == UnclosedQuote(s)
  {
    var mode := Normal;
    var quoteIndex := 0;
    for index := 0 to |s|
      invariant ScanOf(s[..index]) == Scan(mode, quoteIndex)
    {
      var c := s[index];
      ScanSnoc(s[..index], c);
      assert s[..index + 1] == s[..index] + [c];
      match mode {
        case InDoubleQuote =>
          if c == '"' {
            mode := Normal;
          } else if c == '\\' {
            mode := InEscapeInDoubleQuote;
          }
        case InEscape => mode := Normal;
        case InEscapeInDoubleQuote => mode := InDoubleQuote;
        case Normal =>
          if c == '"' {
            mode := InDoubleQuote;
            quoteIndex := index;
          } else if c == '\\' {
            mode := InEscape;
          } else if c == '\'' {
            mode := InSingleQuote;
            quoteIndex := index;
          }
        case InSingleQuote =>
          if c == '\'' {
            mode := Normal;
          }
      }
    }
    assert s[..|s|] == s;
    if mode == InDoubleQuote || mode == InEscapeInDoubleQuote {
      return Some((quoteIndex, Double));
    } else if mode == InSingleQuote {
      return Some((quoteIndex, Single));
    }
    return None;
  }

  // ---- the backward word finder ----

  /** The search with the first `i` characters still to look at, going backward. */
  function WordStart(line: string, i: nat, start: Option<nat>, esc: Option<char>, isBreakChar: char -> bool)
    : (r: nat)
    requires i <= |line|
    ensures r <= i || Some(r) == start
  {
    if i == 0 then (if start.Some? then start.value else 0)
    else if esc.Some? && start.Some? then
      if esc.value == line[i - 1] then WordStart(line, i - 1, None, esc, isBreakChar) else start.value
    else if isBreakChar(line[i - 1]) then
      if esc.None? then i else WordStart(line, i - 1, Some(i), esc, isBreakChar)
    else WordStart(line, i - 1, start, esc, isBreakChar)
  }

  method ExtractWord(line: string, esc: Option<char>, isBreakChar: char -> bool) returns (start: nat, word: string)
    ensures start == WordStart(line, |line|, None, esc, isBreakChar) <= |line|
    ensures word == line[start..]
  {
    if line == "" {
      return 0, line;
    }
    var found: Option<nat> := None;
    var i := |line|;
    while i > 0
      invariant 0 <= i <= |line|
      invariant esc.None? ==> found.None?
      invariant WordStart(line, i, found, esc, isBreakChar) == WordStart(line, |line|, None, esc, isBreakChar)
    {
      var c := line[i - 1];
      if esc.Some? && found.Some? {
        if esc.value == c {
          found := None;
          i := i - 1;
          continue;
        }
        break;
      }
      if isBreakChar(c) {
        found := Some(i);
        if esc.None? {
          break;
        }
      }
      i := i - 1;
    }
    match found {
      case Some(k) => return k, line[k..];
      case None => return 0, line;
    }
  }

  // ---- which branch a completion takes ----

  /** What is to be completed: where it starts, the path it stands for, and the quote it is in. */
  datatype Target = Target(start: nat, path: string, quote: Quote)

  function TargetOf(line: string): (target: Target)
    ensures target.start <= |line|
  {
    match UnclosedQuote(line)
    case Some((index, quote)) =>
      var raw := line[index + 1..];
      Target(index + 1, if quote == Double then Unescaped(raw, ESCAPE_CHAR) else raw, quote)
    case None =>
      var start := WordStart(line, |line|, None, Some(ESCAPE_CHAR), DefaultBreakChar);
      Target(start, Unescaped(line[start..], ESCAPE_CHAR), Unquoted)
  }

  /** How a completed path is written at such a target. */
  function Inserted(path: string, quote: Quote): string {
    match quote
    case Double => Escaped(path, ESCAPE_CHAR, DoubleQuotesSpecialChar)
    case Single => path
    case Unquoted => Escaped(path, ESCAPE_CHAR, DefaultBreakChar)
  }

  /** The escape character and the special characters that go with a quote. */
  method CompletionTarget(line: string, pos: nat)
    returns (target: Target, esc: Option<char>, isBreakChar: char -> bool)
    requires pos <= |line|
    ensures target == TargetOf(line[..pos])
    ensures esc == (if target.quote == Single then None else Some(ESCAPE_CHAR))
    ensures isBreakChar == if target.quote == Double then DoubleQuotesSpecialChar else DefaultBreakChar
  {
    var unclosed := FindUnclosedQuote(line[..pos]);
    if unclosed.Some? {
      var (index, quote) := unclosed.value;
      var raw := line[index + 1..pos];
      assert line[..pos][index + 1..] == raw;
      if quote == Double {
        var path := Unescape(raw, Some(ESCAPE_CHAR));
        return Target(index + 1, path, quote), Some(ESCAPE_CHAR), DoubleQuotesSpecialChar;
      } else {
        return Target(index + 1, raw, quote), None, DefaultBreakChar;
      }
    }
    var start, word := ExtractWord(line[..pos], Some(ESCAPE_CHAR), DefaultBreakChar);
    var path := Unescape(word, Some(ESCAPE_CHAR));
    return Target(start, path, Unquoted), Some(ESCAPE_CHAR), DefaultBreakChar;
  }

  /** The line up to the cursor after a completion to `path` was put in place of the word. */
  method Complete(line: string, pos: nat, path: string) returns (completed: string, target: Target)
    requires pos <= |line|
    ensures target == TargetOf(line[..pos])
    ensures completed == line[..target.start] + Inserted(path, target.quote)
  {
    var esc, isBreakChar;
    target, esc, isBreakChar := CompletionTarget(line, pos);
    var elected := Escape(path, esc, isBreakChar, target.quote);
    completed := line[..target.start] + elected;
  }

  // ---- double quotes ----

  lemma {:induction false} ScanDoubleQuoted(prefix: string, word: string)
    requires ScanOf(prefix).mode == Normal
    ensures ScanOf(prefix + "\"" + Escaped(word, ESCAPE_CHAR, DoubleQuotesSpecialChar)) == Scan(InDoubleQuote, |prefix|)
    decreases |word|
  {
    var open := prefix + "\"";
    if word == "" {
      ScanSnoc(prefix, '"');
      assert open + "" == open;
    } else {
      var init, c := word[..|word| - 1], word[|word| - 1];
      assert word == init + [c];
      ScanDoubleQuoted(prefix, init);
      EscapedSnoc(init, c, ESCAPE_CHAR, DoubleQuotesSpecialChar);
      ScanEscapedChar(open + Escaped(init, ESCAPE_CHAR, DoubleQuotesSpecialChar), c, DoubleQuotesSpecialChar);
      assert open + Escaped(word, ESCAPE_CHAR, DoubleQuotesSpecialChar)
          == open + Escaped(init, ESCAPE_CHAR, DoubleQuotesSpecialChar)
             + EscapeChar(c, ESCAPE_CHAR, DoubleQuotesSpecialChar);
    }
  }

  /** Scanning one escaped character inside double quotes, or outside quotes, leaves the mode alone. */
  lemma ScanEscapedChar(text: string, c: char, isSpecial: char -> bool)
    requires var s := ScanOf(text);
      || (s.mode == InDoubleQuote && isSpecial == DoubleQuotesSpecialChar)
      || (s.mode == Normal && isSpecial == DefaultBreakChar)
    ensures ScanOf(text + EscapeChar(c, ESCAPE_CHAR, isSpecial)) == ScanOf(text)
  {
    if isSpecial(c) {
      ScanSnoc(text, ESCAPE_CHAR);
      ScanSnoc(text + [ESCAPE_CHAR], c);
      assert text + [ESCAPE_CHAR, c] == text + [ESCAPE_CHAR] + [c];
    } else {
      ScanSnoc(text, c);
    }
  }

  /** A double-quoted word is found again: right after the quote, and with its original text. */
  lemma DoubleQuotedRoundTrip(prefix: string, word: string)
    requires ScanOf(prefix).mode == Normal
    ensures TargetOf(prefix + "\"" + Inserted(word, Double)) == Target(|prefix| + 1, word, Double)
  {
    ScanDoubleQuoted(prefix, word);
    UnescapeEscaped(word, ESCAPE_CHAR, DoubleQuotesSpecialChar);
    var open := prefix + "\"";
    assert (open + Inserted(word, Double))[|open|..] == Inserted(word, Double);
  }

  // ---- single quotes ----

  lemma {:induction false} ScanSingleQuoted(prefix: string, word: string)
    requires ScanOf(prefix).mode == Normal
    ensures var s := ScanOf(prefix + "'" + word);
      if '\'' in word then s.mode == InSingleQuote ==> s.quoteIndex > |prefix|
      else s == Scan(InSingleQuote, |prefix|)
    decreases |word|
  {
    var open := prefix + "'";
    if word == "" {
      ScanSnoc(prefix, '\'');
      assert open + "" == open;
    } else {
      var init, c := word[..|word| - 1], word[|word| - 1];
      assert word == init + [c];
      ScanSingleQuoted(prefix, init);
      ScanSnoc(open + init, c);
      assert '\'' in word <==> '\'' in init || c == '\'';
      assert open + word == open + init + [c];
    }
  }

  lemma SingleQuoteTarget(text: string)
    ensures var s := ScanOf(text);
      if s.mode == InSingleQuote then TargetOf(text) == Target(s.quoteIndex + 1, text[s.quoteIndex + 1..], Single)
      else TargetOf(text).quote != Single
  {
  }

  /** A single-quoted word is found again exactly if it holds no single quote. */
  lemma SingleQuotedRoundTrip(prefix: string, word: string)
    requires ScanOf(prefix).mode == Normal
    ensures TargetOf(prefix + "'" + Inserted(word, Single)) == Target(|prefix| + 1, word, Single)
      <==> '\'' !in word
  {
    var open := prefix + "'";
    ScanSingleQuoted(prefix, word);
    SingleQuoteTarget(open + word);
    assert (open + word)[|open|..] == word;
  }

  // ---- no quotes ----

  lemma {:induction false} ScanUnquoted(prefix: string, word: string)
    requires ScanOf(prefix).mode == Normal
    ensures ScanOf(prefix + Escaped(word, ESCAPE_CHAR, DefaultBreakChar)) == ScanOf(prefix)
    decreases |word|
  {
    if word == "" {
      assert prefix + "" == prefix;
    } else {
      var init, c := word[..|word| - 1], word[|word| - 1];
      assert word == init + [c];
      ScanUnquoted(prefix, init);
      EscapedSnoc(init, c, ESCAPE_CHAR, DefaultBreakChar);
      ScanEscapedChar(prefix + Escaped(init, ESCAPE_CHAR, DefaultBreakChar), c, DefaultBreakChar);
      assert prefix + Escaped(word, ESCAPE_CHAR, DefaultBreakChar)
          == prefix + Escaped(init, ESCAPE_CHAR, DefaultBreakChar) + EscapeChar(c, ESCAPE_CHAR, DefaultBreakChar);
    }
  }

  /** The finder stops at once: at the start of the line, or behind an unescaped break character. */
  predicate Anchored(prefix: string) {
    prefix == "" ||
    (var n := |prefix|;
     DefaultBreakChar(prefix[n - 1]) && (n == 1 || prefix[n - 2] != ESCAPE_CHAR))
  }

  function FindFrom(line: string, i: nat): nat
    requires i <= |line|
  {
    WordStart(line, i, None, Some(ESCAPE_CHAR), DefaultBreakChar)
  }

  /** The finder looks only at what lies before it. */
  lemma {:induction false} WordStartLocal(line: string, i: nat, start: Option<nat>)
    requires i <= |line|
    ensures WordStart(line, i, start, Some(ESCAPE_CHAR), DefaultBreakChar)
         == WordStart(line[..i], i, start, Some(ESCAPE_CHAR), DefaultBreakChar)
    decreases i
  {
    if i > 0 {
      assert line[..i][..i - 1] == line[..i - 1];
      var next: Option<nat> :=
        if start.Some? then None else if DefaultBreakChar(line[i - 1]) then Some(i) else None;
      WordStartLocal(line, i - 1, next);
      WordStartLocal(line[..i], i - 1, next);
    }
  }

  /** Going backward the finder steps over an escaped word. */
  lemma {:induction false} FinderSkipsEscaped(prefix: string, word: string)
    ensures var line := prefix + Escaped(word, ESCAPE_CHAR, DefaultBreakChar);
      FindFrom(line, |line|) == FindFrom(prefix, |prefix|)
    decreases |word|
  {
    if word == "" {
      assert prefix + "" == prefix;
    } else {
      var init, c := word[..|word| - 1], word[|word| - 1];
      assert word == init + [c];
      FinderSkipsEscaped(prefix, init);
      EscapedSnoc(init, c, ESCAPE_CHAR, DefaultBreakChar);
      var shorter := prefix + Escaped(init, ESCAPE_CHAR, DefaultBreakChar);
      assert prefix + Escaped(word, ESCAPE_CHAR, DefaultBreakChar)
          == shorter + EscapeChar(c, ESCAPE_CHAR, DefaultBreakChar);
      FinderSkipsEscapedChar(shorter, c);
    }
  }

  lemma FinderSkipsEscapedChar(shorter: string, c: char)
    ensures var line := shorter + EscapeChar(c, ESCAPE_CHAR, DefaultBreakChar);
      FindFrom(line, |line|) == FindFrom(shorter, |shorter|)
  {
    var line := shorter + EscapeChar(c, ESCAPE_CHAR, DefaultBreakChar);
    assert line[..|shorter|] == shorter;
    WordStartLocal(line, |shorter|, None);
    if DefaultBreakChar(c) {
      FinderStep(line, Some(|line|), |line| - 1);
    }
  }

  lemma FinderStopsIffAnchored(prefix: string)
    ensures FindFrom(prefix, |prefix|) == |prefix| <==> Anchored(prefix)
  {
    var n := |prefix|;
    if n > 1 && DefaultBreakChar(prefix[n - 1]) {
      FinderStep(prefix, Some(n), n - 1);
    } else if n == 1 {
      assert WordStart(prefix, 0, Some(1), Some(ESCAPE_CHAR), DefaultBreakChar) == 1;
    }
  }

  /** With a break character just seen, the character before it decides. */
  lemma FinderStep(line: string, start: Option<nat>, i: nat)
    requires 0 < i <= |line| && start.Some?
    ensures WordStart(line, i, start, Some(ESCAPE_CHAR), DefaultBreakChar)
         == if line[i - 1] == ESCAPE_CHAR then FindFrom(line, i - 1) else start.value
  {
  }

  /** Wherever the finder stops, it stops again when started there. */
  lemma {:induction false} FinderAnchors(line: string, i: nat, start: Option<nat>)
    requires i <= |line|
    requires start.Some? ==> start.value == i + 1 <= |line| && DefaultBreakChar(line[i])
    ensures var r := WordStart(line, i, start, Some(ESCAPE_CHAR), DefaultBreakChar);
      r <= |line| && Anchored(line[..r])
    decreases i
  {
    assert line[..0] == "";
    if i > 0 {
      if start.Some? {
        if line[i - 1] == ESCAPE_CHAR {
          FinderAnchors(line, i - 1, None);
        }
      } else if DefaultBreakChar(line[i - 1]) {
        FinderAnchors(line, i - 1, Some(i));
      } else {
        FinderAnchors(line, i - 1, None);
      }
    }
  }

  /**
   An unquoted word behind text that leaves the scanner outside quotes and escapes: the branch
   and the text come back, and the start does exactly if the finder is anchored there.
   */
  lemma UnquotedRoundTrip(prefix: string, word: string)
    requires ScanOf(prefix).mode == Normal
    ensures var target := TargetOf(prefix + Inserted(word, Unquoted));
      && target.quote == Unquoted
      && (target == Target(|prefix|, word, Unquoted) <==> Anchored(prefix))
  {
    var written := Inserted(word, Unquoted);
    ScanUnquoted(prefix, word);
    UnquotedTarget(prefix + written);
    FinderSkipsEscaped(prefix, word);
    FinderStopsIffAnchored(prefix);
    Behind(prefix, written);
    UnescapeEscaped(word, ESCAPE_CHAR, DefaultBreakChar);
  }

  lemma UnquotedTarget(line: string)
    requires !InQuotes(ScanOf(line).mode)
    ensures TargetOf(line)
         == Target(FindFrom(line, |line|), Unescaped(line[FindFrom(line, |line|)..], ESCAPE_CHAR), Unquoted)
  {
  }

  lemma Behind(prefix: string, text: string)
    ensures (prefix + text)[|prefix|..] == text
  {
  }

  /** After a delimiter, in particular: the word comes back exactly if no backslash precedes the delimiter. */
  lemma DelimitedRoundTrip(prefix: string, delimiter: char, word: string)
    requires ScanOf(prefix).mode == Normal
    requires DefaultBreakChar(delimiter) && delimiter != '"' && delimiter != '\'' && delimiter != ESCAPE_CHAR
    ensures TargetOf(prefix + [delimiter] + Inserted(word, Unquoted)) == Target(|prefix| + 1, word, Unquoted)
      <==> !(prefix != "" && prefix[|prefix| - 1] == ESCAPE_CHAR)
  {
    ScanSnoc(prefix, delimiter);
    AnchoredByDelimiter(prefix, delimiter);
    UnquotedRoundTrip(prefix + [delimiter], word);
  }

  lemma AnchoredByDelimiter(prefix: string, delimiter: char)
    requires DefaultBreakChar(delimiter)
    ensures Anchored(prefix + [delimiter]) <==> !(prefix != "" && prefix[|prefix| - 1] == ESCAPE_CHAR)
  {
    var all := prefix + [delimiter];
    assert all[|all| - 1] == delimiter && (prefix != "" ==> all[|all| - 2] == prefix[|prefix| - 1]);
  }

  // ---- completing at any position of any line ----

  /** An open quote sits where the scanner says, behind text that is outside quotes and escapes. */
  lemma {:induction false} QuoteOpens(text: string)
    ensures var s := ScanOf(text);
      InQuotes(s.mode) ==>
        && ScanOf(text[..s.quoteIndex]).mode == Normal
        && text[s.quoteIndex] == if s.mode == InSingleQuote then '\'' else '"'
    decreases |text|
  {
    if text != "" {
      var init := text[..|text| - 1];
      QuoteOpens(init);
      var s := ScanOf(init);
      if InQuotes(s.mode) {
        assert text[..s.quoteIndex] == init[..s.quoteIndex];
      }
    }
  }

  // ---- behind text that leaves the scanner in the middle of something ----

  function ModeStep(mode: ScanMode, c: char): ScanMode {
    ScanStep(Scan(mode, 0), 0, c).mode
  }

  /** The mode after more text, read forward. */
  function ModeAfter(mode: ScanMode, text: string): ScanMode
    decreases |text|
  {
    if text == "" then mode else ModeAfter(ModeStep(mode, text[0]), text[1..])
  }

  lemma {:induction false} ModeAfterSnoc(mode: ScanMode, text: string, c: char)
    ensures ModeAfter(mode, text + [c]) == ModeStep(ModeAfter(mode, text), c)
    decreases |text|
  {
    if text == "" {
      assert (text + [c])[1..] == "";
    } else {
      assert (text + [c])[1..] == text[1..] + [c];
      ModeAfterSnoc(ModeStep(mode, text[0]), text[1..], c);
    }
  }

  lemma {:induction false} ModeOfConcat(before: string, text: string)
    ensures ScanOf(before + text).mode == ModeAfter(ScanOf(before).mode, text)
    decreases |text|
  {
    if text == "" {
      assert before + text == before;
    } else {
      var init, c := text[..|text| - 1], text[|text| - 1];
      assert text == init + [c] && before + text == before + init + [c];
      ModeOfConcat(before, init);
      ModeAfterSnoc(ScanOf(before).mode, init, c);
      ScanSnoc(before + init, c);
    }
  }

  /**
   Whether an escaped path written where the scanner is in `mode` leaves it outside quotes.  In
   single quotes the first single quote of the path ends them, and from there on the escapes count;
   double quotes swallow the escapes, unless one was pending and the path takes it over; and a
   pending escape is taken by the path's own first escape, which leaves the character behind it bare.
   */
  predicate EndsOutsideQuotes(mode: ScanMode, path: string)
    decreases |path|
  {
    match mode
    case Normal => true
    case InSingleQuote => '\'' in path
    case InDoubleQuote => false
    case InEscapeInDoubleQuote =>
      && path != ""
      && (path[0] == '"' || (path[0] == ESCAPE_CHAR && EndsOutsideQuotes(InEscapeInDoubleQuote, path[1..])))
    case InEscape =>
      path == "" ||
      (match path[0]
       case '"' => false
       case '\'' => '\'' in path[1..]
       case '\\' => EndsOutsideQuotes(InEscape, path[1..])
       case _ => true)
  }

  /** Reading the escaped first character. */
  function ModeAfterChar(mode: ScanMode, c: char): ScanMode {
    if DefaultBreakChar(c) then ModeStep(ModeStep(mode, ESCAPE_CHAR), c) else ModeStep(mode, c)
  }

  lemma ModeAfterEscaped(mode: ScanMode, path: string)
    requires path != ""
    ensures ModeAfter(mode, Inserted(path, Unquoted))
         == ModeAfter(ModeAfterChar(mode, path[0]), Inserted(path[1..], Unquoted))
  {
    var head, rest := EscapeChar(path[0], ESCAPE_CHAR, DefaultBreakChar), Inserted(path[1..], Unquoted);
    assert (head + rest)[1..] == head[1..] + rest;
    if DefaultBreakChar(path[0]) {
      assert (head[1..] + rest)[1..] == rest;
    } else {
      assert head[1..] + rest == rest;
    }
  }

  lemma {:induction false} EscapedPathEnds(mode: ScanMode, path: string)
    ensures !InQuotes(ModeAfter(mode, Inserted(path, Unquoted))) <==> EndsOutsideQuotes(mode, path)
    decreases |path|
  {
    if path != "" {
      ModeAfterEscaped(mode, path);
      EscapedPathEnds(ModeAfterChar(mode, path[0]), path[1..]);
      assert '\'' in path <==> path[0] == '\'' || '\'' in path[1..];
    }
  }

  /** The finder stops again where it stopped, so only an open quote can make a path misread. */
  lemma UnquotedReads(before: string, path: string)
    requires Anchored(before)
    ensures TargetOf(before + Inserted(path, Unquoted)) == Target(|before|, path, Unquoted)
      <==> EndsOutsideQuotes(ScanOf(before).mode, path)
  {
    ModeOfConcat(before, Inserted(path, Unquoted));
    EscapedPathEnds(ScanOf(before).mode, path);
    if EndsOutsideQuotes(ScanOf(before).mode, path) {
      ReadOutsideQuotes(before, path);
    } else {
      ReadAsQuoted(before + Inserted(path, Unquoted));
    }
  }

  lemma ReadOutsideQuotes(before: string, path: string)
    requires Anchored(before) && !InQuotes(ScanOf(before + Inserted(path, Unquoted)).mode)
    ensures TargetOf(before + Inserted(path, Unquoted)) == Target(|before|, path, Unquoted)
  {
    var written := Inserted(path, Unquoted);
    UnquotedTarget(before + written);
    FinderSkipsEscaped(before, path);
    FinderStopsIffAnchored(before);
    Behind(before, written);
    UnescapeEscaped(path, ESCAPE_CHAR, DefaultBreakChar);
  }

  lemma ReadAsQuoted(line: string)
    requires InQuotes(ScanOf(line).mode)
    ensures TargetOf(line).quote != Unquoted
  {
  }

  /** The text before a quoted word: outside quotes and escapes, and then the quote. */
  lemma BeforeQuoted(line: string)
    requires TargetOf(line).quote != Unquoted
    ensures var start := TargetOf(line).start;
      && start > 0 && ScanOf(line[..start - 1]).mode == Normal
      && line[..start] == line[..start - 1] + if TargetOf(line).quote == Single then "'" else "\""
  {
    QuoteOpens(line);
    var start := TargetOf(line).start;
    assert line[..start] == line[..start - 1] + [line[start - 1]];
  }

  lemma ReparsesInDoubleQuotes(line: string, path: string)
    requires TargetOf(line).quote == Double
    ensures var start := TargetOf(line).start;
      TargetOf(line[..start] + Inserted(path, Double)) == Target(start, path, Double)
  {
    BeforeQuoted(line);
    DoubleQuotedRoundTrip(line[..TargetOf(line).start - 1], path);
  }

  lemma ReparsesInSingleQuotes(line: string, path: string)
    requires TargetOf(line).quote == Single
    ensures var start := TargetOf(line).start;
      TargetOf(line[..start] + Inserted(path, Single)) == Target(start, path, Single) <==> '\'' !in path
  {
    BeforeQuoted(line);
    SingleQuotedRoundTrip(line[..TargetOf(line).start - 1], path);
  }

  lemma ReparsesOutsideQuotes(line: string, path: string)
    requires TargetOf(line).quote == Unquoted
    ensures var start := TargetOf(line).start;
      TargetOf(line[..start] + Inserted(path, Unquoted)) == Target(start, path, Unquoted)
      <==> EndsOutsideQuotes(ScanOf(line[..start]).mode, path)
  {
    FinderAnchors(line, |line|, None);
    UnquotedReads(line[..TargetOf(line).start], path);
  }

  /**
   Completing inside double quotes always re-parses to the completed path.  Inside single quotes
   it does exactly if the path holds no single quote.  Outside quotes it does exactly if the path
   ends outside quotes; that is every path where the text before the word is outside quotes and
   escapes.
   */
  lemma CompletionReparses(line: string, path: string)
    ensures var target := TargetOf(line);
      var before := line[..target.start];
      TargetOf(before + Inserted(path, target.quote)) == Target(target.start, path, target.quote)
      <==> match target.quote
           case Double => true
           case Single => '\'' !in path
           case Unquoted => EndsOutsideQuotes(ScanOf(before).mode, path)
  {
    match TargetOf(line).quote {
      case Double => ReparsesInDoubleQuotes(line, path);
      case Single => ReparsesInSingleQuotes(line, path);
      case Unquoted => ReparsesOutsideQuotes(line, path);
    }
  }

  // ---- an inserted path is one word ----

  /** Nothing in the text has the meaning of one of these characters unless a backslash takes it away. */
  predicate OneWord(text: string, meaningful: string) {
    if text == "" then true
    else if text[0] == '\\' then |text| >= 2 && OneWord(text[2..], meaningful)
    else text[0] !in meaningful && OneWord(text[1..], meaningful)
  }

  /** Blanks, quotes, and what expands, redirects, groups or ends a command. */
  const MEANINGFUL := " \t\n\"'`@$><=;|&{(\0"

  /** What still has a meaning in double quotes. */
  const MEANINGFUL_IN_QUOTES := "\"$`"

  lemma {:induction false} EscapedIsOneWord(word: string, isSpecial: char -> bool, meaningful: string)
    requires isSpecial('\\') && forall c :: c in meaningful ==> isSpecial(c)
    ensures OneWord(Escaped(word, '\\', isSpecial), meaningful)
  {
    if word != "" {
      EscapedIsOneWord(word[1..], isSpecial, meaningful);
      var head, rest := EscapeChar(word[0], '\\', isSpecial), Escaped(word[1..], '\\', isSpecial);
      assert (head + rest)[|head|..] == rest;
    }
  }

  /** What is put in for a path reads as one word: no blank ends it and no character in it has a meaning. */
  lemma InsertedIsOneWord(path: string)
    ensures OneWord(Inserted(path, Unquoted), MEANINGFUL)
    ensures OneWord(Inserted(path, Double), MEANINGFUL_IN_QUOTES)
  {
    EscapedIsOneWord(path, DefaultBreakChar, MEANINGFUL);
    EscapedIsOneWord(path, DoubleQuotesSpecialChar, MEANINGFUL_IN_QUOTES);
  }

  /** A path in which nothing has a meaning is put in as it stands. */
  lemma PlainPathStands(path: string)
    requires '\\' !in path
    ensures (forall k :: 0 <= k < |path| ==> path[k] !in MEANINGFUL) ==> Inserted(path, Unquoted) == path
    ensures (forall k :: 0 <= k < |path| ==> path[k] !in MEANINGFUL_IN_QUOTES) ==> Inserted(path, Double) == path
  {
    SpecialMeans();
    if forall k :: 0 <= k < |path| ==> path[k] !in MEANINGFUL {
      NothingToEscape(path, ESCAPE_CHAR, DefaultBreakChar);
    }
    if forall k :: 0 <= k < |path| ==> path[k] !in MEANINGFUL_IN_QUOTES {
      NothingToEscape(path, ESCAPE_CHAR, DoubleQuotesSpecialChar);
    }
  }

  lemma SpecialMeans()
    ensures forall c :: DefaultBreakChar(c) ==> c in MEANINGFUL || c == '\\'
    ensures forall c :: DoubleQuotesSpecialChar(c) ==> c in MEANINGFUL_IN_QUOTES || c == '\\'
  {
    assert MEANINGFUL[0] == ' ' && MEANINGFUL[1] == '\t' && MEANINGFUL[2] == '\n' && MEANINGFUL[3] == '"';
    assert MEANINGFUL[4] == '\'' && MEANINGFUL[5] == '`' && MEANINGFUL[6] == '@' && MEANINGFUL[7] == '$';
    assert MEANINGFUL[8] == '>' && MEANINGFUL[9] == '<' && MEANINGFUL[10] == '=' && MEANINGFUL[11] == ';';
    assert MEANINGFUL[12] == '|' && MEANINGFUL[13] == '&' && MEANINGFUL[14] == '{' && MEANINGFUL[15] == '(';
    assert MEANINGFUL[16] == '\0';
    assert MEANINGFUL_IN_QUOTES[0] == '"' && MEANINGFUL_IN_QUOTES[1] == '$' && MEANINGFUL_IN_QUOTES[2] == '`';
  }

  /** In every other mode some path is misread. */
  lemma SomePathIsMisread(mode: ScanMode) returns (path: string)
    requires mode != Normal
    ensures !EndsOutsideQuotes(mode, path)
  {
    path := if mode == InEscape then "\"" else "";
  }

  lemma ScanTwo(a: char, b: char)
    ensures ScanOf([a]) == ScanStep(Scan(Normal, 0), 0, a)
    ensures ScanOf([a, b]) == ScanStep(ScanOf([a]), 1, b)
  {
    ScanSnoc("", a);
    ScanSnoc([a], b);
    assert "" + [a] == [a] && [a] + [b] == [a, b];
  }

  /** A path in single quotes that is misread: a single quote. */
  lemma MisreadInSingleQuotes()
    ensures TargetOf("'") == Target(1, "", Single)
    ensures TargetOf("'" + Inserted("'", Single)) != Target(1, "'", Single)
  {
    ScanTwo('\'', '\'');
    assert "'" == ['\''] && "'"[1..] == "" && "'" + "'" == ['\'', '\''];
  }

  /** A path outside quotes that is misread: a double quote behind a backslash. */
  lemma MisreadOutsideQuotes()
    ensures TargetOf("\\a").start == 1 && TargetOf("\\a").quote == Unquoted
    ensures ScanOf("\\a"[..1]).mode == InEscape
    ensures TargetOf("\\a"[..1] + Inserted("\"", Unquoted)) != Target(1, "\"", Unquoted)
  {
    var line := "\\a";
    ScanTwo('\\', 'a');
    assert line == ['\\', 'a'] && line[..1] == ['\\'];
    assert FindFrom(line, 2) == FindFrom(line, 1);
    assert FindFrom(line, 1) == WordStart(line, 0, Some(1), Some(ESCAPE_CHAR), DefaultBreakChar) == 1;
    CompletionReparses(line, "\"");
  }
}
