/**
 Reading what a server left on the wire when writes may fail (`wq-dap/src/server.rs`): exactly which
 broken frames a client reads over.
 */
module BrokenFrames {
  import opened Wrappers
  import opened Fields
  import opened DapFraming
  import opened Sequences
  import D = Decimal

  /** The payloads of the whole frames, in order. */
  function Wholes(trails: seq<Trail>): seq<string> {
    if trails == [] then [] else Put(trails[0]) + Wholes(trails[1..])
  }

  function Put(trail: Trail): seq<string> {
    if trail.Whole? then [trail.payload] else []
  }

  lemma {:induction false} WholesAreMessages(first: nat, trails: seq<Trail>)
    ensures Payloads(Messages(first, trails)) == Wholes(trails)
    decreases |trails|
  {
    if trails != [] {
      WholesAreMessages(first + 1, trails[1..]);
      var rest := Messages(first + 1, trails[1..]);
      if trails[0].Whole? {
        var head := Message(first, trails[0].payload);
        assert Payloads([head] + rest) == [head.payload] + Payloads(rest);
      } else {
        assert Messages(first, trails) == rest;
      }
    }
  }

  /** The bytes of a length line before its first digit. */
  const LABEL := LENGTH_HEADER + ": "

  /**
   A frame broken off before its first byte or right behind its length line is read over: the next
   length line replaces it.  One broken off among or behind the digits is read over only if nothing
   at all follows.
   */
  predicate IsReadOver(trail: Trail, last: bool) {
    trail.Cut? ==>
      var line := |LengthLine(|trail.payload|)|;
      trail.taken == 0 || trail.taken == line || (last && |LABEL| < trail.taken < line)
  }

  predicate AllReadOver(trails: seq<Trail>) {
    trails == [] || (IsReadOver(trails[0], Stream(trails[1..]) == "") && AllReadOver(trails[1..]))
  }

  /** Lengths are 64-bit numbers. */
  predicate Fits(trail: Trail) {
    !trail.Unserialized? ==> |trail.payload| < USIZE_LIMIT
  }

  predicate AllFit(trails: seq<Trail>) {
    forall k :: 0 <= k < |trails| ==> Fits(trails[k])
  }

  // ---- what header lines can be ----

  lemma {:induction false} TrimEndKeeps(s: string, j: nat)
    requires j < |s| && !IsSpace(s[j])
    ensures j < |TrimEnd(s)| <= |s| && TrimEnd(s) == s[..|TrimEnd(s)|]
    decreases |s|
  {
    if IsSpace(s[|s| - 1]) {
      TrimEndKeeps(s[..|s| - 1], j);
    } else {
      assert s[..|s|] == s;
    }
  }

  lemma {:induction false} TrimStartKeeps(s: string, c: char)
    requires c in s && !IsSpace(c)
    ensures c in TrimStart(s)
  {
    if IsSpace(s[0]) {
      TrimStartKeeps(s[1..], c);
    }
  }

  lemma NotALength(s: string, c: char)
    requires c in s && !IsSpace(c) && !D.IsDigit(c) && c != '+'
    ensures ParseUsize(TrimStart(TrimEnd(s))).None?
  {
    var j :| 0 <= j < |s| && s[j] == c;
    TrimEndKeeps(s, j);
    TrimStartKeeps(TrimEnd(s), c);
  }

  /** A capital C behind the first character makes a header line bad. */
  lemma CapitalIsBad(line: string, j: nat)
    requires 1 <= j < |line| && line[j] == 'C'
    ensures ReadHeader(line).Bad?
  {
    TrimEndKeeps(line, j);
    var trimmed := TrimEnd(line);
    var colon := IndexOf(trimmed, ':');
    assert trimmed[j] == 'C';
    if j < colon {
      assert trimmed[..colon][j] == 'C';
    } else {
      var value := trimmed[colon + 1..];
      assert value[j - (colon + 1)] == 'C';
      NotALength(value, 'C');
    }
  }

  // ---- what is behind a broken frame ----

  /** Whatever was sent begins with the capital C of a length line. */
  predicate Begins(text: string) {
    text != "" ==> text[0] == 'C'
  }

  lemma FrameBegins(payload: string)
    ensures FrameOf(payload) != "" && FrameOf(payload)[0] == 'C'
    ensures |FrameOf(payload)| == |HeaderOf(|payload|)| + |payload|
  {
  }

  lemma {:induction false} StreamBegins(trails: seq<Trail>)
    ensures Begins(Stream(trails))
  {
    if trails != [] {
      StreamBegins(trails[1..]);
      if !trails[0].Unserialized? {
        FrameBegins(trails[0].payload);
      }
    }
  }

  /** Part of a line with more behind it is a bad header. */
  lemma PartLineFails(part: string, rest: string, n: nat)
    requires part != "" && '\n' !in part && rest != "" && Begins(rest)
    ensures PollFrom(part + rest, n).0.Failed?
  {
    var input := part + rest;
    var end := IndexOf(input, '\n');
    assert input[|part|] == 'C';
    assert forall k :: 0 <= k < |part| ==> input[k] == part[k];
    assert end > |part|;
    var line := input[..LineLength(input)];
    assert line[|part|] == 'C';
    CapitalIsBad(line, |part|);
  }

  /** A length announced before does not matter: what begins with a C begins with a header line of its own. */
  lemma LengthIsReplaced(rest: string, n: nat, m: nat)
    requires Begins(rest)
    ensures PollFrom(rest, n) == PollFrom(rest, m)
  {
    if rest != "" {
      var line := rest[..LineLength(rest)];
      assert line[0] == 'C';
      TrimEndKeeps(line, 0);
    }
  }

  lemma LastLineAlone(part: string, n: nat)
    requires part != "" && '\n' !in part
    ensures PollFrom(part, n) ==
            match ReadHeader(part)
            case Bad(error) => (Failed(error), "")
            case Length(_) => (Eof, "")
            case Blank => ReadContent("", n)
  {
    IndexOfUnique(part, '\n', "");
    assert part[..|part|] == part && part[|part|..] == "";
  }

  /** The length line alone: the next poll goes on behind it. */
  lemma PollBehindLine(length: nat, rest: string, n: nat)
    requires length < USIZE_LIMIT
    ensures PollFrom(LengthLine(length) + rest, n) == PollFrom(rest, length)
  {
    var line := LENGTH_HEADER + ":" + (" " + D.Print(length)) + "\r";
    assert forall c :: c in D.Print(length) ==> D.IsDigit(c);
    assert line + "\n" == LengthLine(length);
    FirstLine(line, rest);
    ReadLengthHeader(length);
    assert line + "\n" == LENGTH_HEADER + ":" + (" " + D.Print(length)) + "\r\n";
  }

  // ---- broken off inside the header ----

  lemma {:induction false} ParsePrefix(s: string, j: nat)
    requires D.AllDigits(s) && j <= |s|
    ensures D.AllDigits(s[..j]) && D.Parse(s[..j]) <= D.Parse(s)
    decreases |s|
  {
    if j < |s| {
      assert s[..|s| - 1][..j] == s[..j];
      ParsePrefix(s[..|s| - 1], j);
    } else {
      assert s[..j] == s;
    }
  }

  lemma ReadValue(digits: string)
    requires digits != "" && D.AllDigits(digits) && D.Parse(digits) < USIZE_LIMIT
    ensures ParseUsize(TrimStart(TrimEnd(" " + digits))) == Some(D.Parse(digits))
  {
    var value := " " + digits;
    assert D.IsDigit(digits[0]) && D.IsDigit(value[|value| - 1]) && value[1..] == digits;
  }

  lemma TrimCr(text: string, tail: string)
    requires text != "" && !IsSpace(text[|text| - 1]) && (tail == "" || tail == "\r")
    ensures TrimEnd(text + tail) == text
  {
    assert text + "" == text && (text + "\r")[..|text|] == text;
  }

  lemma ReadLengthText(line: string, value: string, n: nat)
    requires TrimEnd(line) == LENGTH_HEADER + ":" + value
    requires ParseUsize(TrimStart(TrimEnd(value))) == Some(n)
    ensures ReadHeader(line) == Length(n)
  {
    CutAtColon(LENGTH_HEADER, value);
  }

  /** Some of the digits, with or without the carriage return, still make a length. */
  lemma SomeDigitsAreALength(digits: string, tail: string)
    requires digits != "" && D.AllDigits(digits) && D.Parse(digits) < USIZE_LIMIT
    requires tail == "" || tail == "\r"
    ensures ReadHeader(LENGTH_HEADER + ":" + (" " + digits) + tail) == Length(D.Parse(digits))
  {
    var text := LENGTH_HEADER + ":" + (" " + digits);
    assert D.IsDigit(digits[|digits| - 1]) && text[|text| - 1] == digits[|digits| - 1];
    TrimCr(text, tail);
    ReadValue(digits);
    ReadLengthText(text + tail, " " + digits, D.Parse(digits));
  }

  /** None of the digits do not. */
  lemma NoDigitsAreBad(t: nat)
    requires 1 <= t <= |LABEL|
    ensures ReadHeader(LABEL[..t]).Bad?
  {
    var line := LABEL[..t];
    assert line[0] == 'C';
    TrimEndKeeps(line, 0);
    var trimmed := TrimEnd(line);
    var colon := IndexOf(trimmed, ':');
    if colon < |trimmed| {
      assert LABEL[colon] == ':' && colon == 14;
      var value := trimmed[colon + 1..];
      assert value == "";
    }
  }

  lemma FirstBytesOfLine(front: string, digits: string, t: nat)
    requires t < |front| + |digits| + 2
    ensures (front + digits + "\r\n")[..t] ==
            if t <= |front| then front[..t]
            else front + FirstBytes(digits, t - |front|) + if t > |front| + |digits| then "\r" else ""
  {
  }

  lemma NoLineFeedBefore(front: string, digits: string, t: nat)
    requires t < |front| + |digits| + 2 && '\n' !in front && '\n' !in digits
    ensures '\n' !in (front + digits + "\r\n")[..t]
  {
  }

  /** Some of the label. */
  lemma PartOfLabel(length: nat, t: nat)
    requires 1 <= t <= |LABEL|
    ensures t < |LengthLine(length)| && ReadHeader(LengthLine(length)[..t]).Bad?
  {
    FirstBytesOfLine(LABEL, D.Print(length), t);
    NoDigitsAreBad(t);
  }

  /** The label, digits, perhaps the carriage return. */
  lemma PartOfNumber(length: nat, t: nat)
    requires length < USIZE_LIMIT && |LABEL| < t < |LengthLine(length)|
    ensures ReadHeader(LengthLine(length)[..t]).Length?
  {
    var digits := D.Print(length);
    var some := FirstBytes(digits, t - |LABEL|);
    var tail := if t > |LABEL| + |digits| then "\r" else "";
    FirstBytesOfLine(LABEL, digits, t);
    D.ParsePrint(length);
    ParsePrefix(digits, |some|);
    assert some == digits[..|some|];
    SomeDigitsAreALength(some, tail);
    LabelSplit(some);
  }

  lemma LabelSplit(digits: string)
    ensures LABEL + digits == LENGTH_HEADER + ":" + (" " + digits)
  {
  }

  /** The first bytes of a length line. */
  lemma PartOfLine(length: nat, t: nat)
    requires length < USIZE_LIMIT && 1 <= t < |LengthLine(length)|
    ensures '\n' !in LengthLine(length)[..t]
    ensures if t <= |LABEL| then ReadHeader(LengthLine(length)[..t]).Bad?
            else ReadHeader(LengthLine(length)[..t]).Length?
  {
    assert forall c :: c in D.Print(length) ==> D.IsDigit(c);
    NoLineFeedBefore(LABEL, D.Print(length), t);
    if t <= |LABEL| {
      PartOfLabel(length, t);
    } else {
      PartOfNumber(length, t);
    }
  }

  /** Broken off before the end of the length line. */
  lemma PollBrokenLine(length: nat, t: nat, rest: string)
    requires length < USIZE_LIMIT && 1 <= t < |LengthLine(length)| && Begins(rest)
    ensures var r := PollOnce(LengthLine(length)[..t] + rest);
      if rest == "" && t > |LABEL| then r == (Eof, "") else r.0.Failed?
  {
    var part := LengthLine(length)[..t];
    PartOfLine(length, t);
    if rest == "" {
      assert part + rest == part;
      LastLineAlone(part, 0);
    } else {
      PartLineFails(part, rest, 0);
    }
  }

  /** Broken off before the last byte of the header. */
  lemma PollBrokenBlank(length: nat, rest: string)
    requires length < USIZE_LIMIT && Begins(rest)
    ensures var r := PollOnce(LengthLine(length) + "\r" + rest);
      r.0.Failed? || (r == (Frame(""), "") && rest == "")
  {
    ConcatAssoc(LengthLine(length), "\r", rest);
    PollBehindLine(length, "\r" + rest, 0);
    if rest == "" {
      assert "\r" + rest == "\r";
      LastLineAlone("\r", length);
      assert ReadHeader("\r") == Blank by {
        assert "\r"[..0] == "";
      }
    } else {
      PartLineFails("\r", rest, length);
    }
  }

  /** What a frame broken off inside its header does to what follows. */
  lemma PollAllBrokenHeader(length: nat, t: nat, rest: string)
    requires length < USIZE_LIMIT && 1 <= t < |HeaderOf(length)| && Begins(rest)
    ensures var read := PollAll(HeaderOf(length)[..t] + rest);
      if t == |LengthLine(length)| then read == PollAll(rest)
      else if rest == "" && |LABEL| < t < |LengthLine(length)| then read == ([], Eof)
      else read.1.Failed? || (read.0 == [""] && rest == "")
  {
    var line := LengthLine(length);
    if t < |line| {
      assert HeaderOf(length)[..t] == line[..t];
      PollBrokenLine(length, t, rest);
    } else if t == |line| {
      assert HeaderOf(length)[..t] == line;
      PollBehindLine(length, rest, 0);
      LengthIsReplaced(rest, length, 0);
      SamePoll(line + rest, rest);
    } else {
      assert HeaderOf(length)[..t] == line + "\r";
      PollBrokenBlank(length, rest);
    }
  }

  /** Header lines in front that change nothing for the first poll change nothing at all. */
  lemma SamePoll(longer: string, input: string)
    requires PollOnce(longer) == PollOnce(input) && |input| <= |longer|
    ensures PollAll(longer) == PollAll(input)
  {
    PollConsumes(input, 0);
  }

  lemma {:induction false} PollConsumes(input: string, n: nat)
    ensures PollFrom(input, n).0.Frame? ==> |PollFrom(input, n).1| < |input|
    decreases |input|
  {
    if input != "" {
      var behind := input[LineLength(input)..];
      match ReadHeader(input[..LineLength(input)]) {
        case Length(length) => PollConsumes(behind, length);
        case _ =>
      }
    }
  }

  // ---- runs without a frame broken off behind its header ----

  /** The frame was broken off behind its header. */
  predicate BrokenInPayload(trail: Trail) {
    trail.Cut? && trail.taken >= |HeaderOf(|trail.payload|)|
  }

  predicate NoneBrokenInPayload(trails: seq<Trail>) {
    forall k :: 0 <= k < |trails| ==> !BrokenInPayload(trails[k])
  }

  lemma BrokenInHeader(trail: Trail)
    requires trail.Cut? && !BrokenInPayload(trail)
    ensures trail.Bytes() == HeaderOf(|trail.payload|)[..trail.taken]
  {
    FrameBegins(trail.payload);
  }

  /** Nothing on the wire: nothing sent, and nothing broken. */
  lemma {:induction false} NothingOnTheWire(trails: seq<Trail>)
    requires Stream(trails) == ""
    ensures Wholes(trails) == [] && AllReadOver(trails)
  {
    if trails != [] {
      NothingOnTheWire(trails[1..]);
      if !trails[0].Unserialized? {
        FrameBegins(trails[0].payload);
      }
    }
  }

  /** The client reads exactly the whole frames, and then the input ends. */
  predicate ReadsWholes(trails: seq<Trail>) {
    PollAll(Stream(trails)) == (Wholes(trails), Eof)
  }

  lemma ReadsWholeHead(payload: string, tail: seq<Trail>)
    requires |payload| < USIZE_LIMIT
    ensures PollAll(FrameOf(payload) + Stream(tail)) == ([payload] + Wholes(tail), Eof) <==> ReadsWholes(tail)
  {
    PollAllStep(payload, Stream(tail));
    var read := PollAll(Stream(tail)).0;
    assert ([payload] + read)[1..] == read && ([payload] + Wholes(tail))[1..] == Wholes(tail);
  }

  lemma ReadsBrokenHead(trail: Trail, tail: seq<Trail>)
    requires trail.Cut? && !BrokenInPayload(trail) && Fits(trail) && trail.taken > 0
    ensures PollAll(trail.Bytes() + Stream(tail)) == (Wholes(tail), Eof) <==>
      if trail.taken == |LengthLine(|trail.payload|)| then ReadsWholes(tail)
      else Stream(tail) == "" && |LABEL| < trail.taken < |LengthLine(|trail.payload|)|
  {
    BrokenInHeader(trail);
    StreamBegins(tail);
    PollAllBrokenHeader(|trail.payload|, trail.taken, Stream(tail));
    if Stream(tail) == "" {
      NothingOnTheWire(tail);
    }
  }

  lemma {:induction false} ReadsIffReadOver(trails: seq<Trail>)
    requires AllFit(trails) && NoneBrokenInPayload(trails)
    ensures ReadsWholes(trails) <==> AllReadOver(trails)
    decreases |trails|
  {
    if trails != [] {
      var head, tail := trails[0], trails[1..];
      ReadsIffReadOver(tail);
      if head.Whole? {
        ReadsWholeHead(head.payload, tail);
      } else if head.Cut? && head.taken > 0 {
        NothingPut(head, Wholes(tail));
        ReadsBrokenHead(head, tail);
        if Stream(tail) == "" {
          NothingOnTheWire(tail);
        }
      } else {
        NothingPut(head, Wholes(tail));
        assert head.Bytes() == "" && "" + Stream(tail) == Stream(tail);
      }
    }
  }

  lemma NothingPut(trail: Trail, rest: seq<string>)
    requires !trail.Whole?
    ensures Put(trail) + rest == rest
  {
  }

  // ---- a frame broken off in its payload is never made up for ----

  /** How far into a line feed, carriage return, line feed the text has got: the state of the counter below. */
  function Next(q: nat, c: char): nat {
    if c == '\n' then 1 else if c == '\r' && q == 1 then 2 else 0
  }

  function After(q: nat, text: string): nat
    decreases |text|
  {
    if text == "" then q else After(Next(q, text[0]), text[1..])
  }

  /** How often a line feed, a carriage return and a line feed follow each other. */
  function Gaps(q: nat, text: string): nat
    decreases |text|
  {
    if text == "" then 0 else (if q == 2 && text[0] == '\n' then 1 else 0) + Gaps(Next(q, text[0]), text[1..])
  }

  lemma {:induction false} GapsConcat(q: nat, a: string, b: string)
    ensures Gaps(q, a + b) == Gaps(q, a) + Gaps(After(q, a), b)
    ensures After(q, a + b) == After(After(q, a), b)
    decreases |a|
  {
    if a == "" {
      assert a + b == b;
    } else {
      assert (a + b)[1..] == a[1..] + b;
      GapsConcat(Next(q, a[0]), a[1..], b);
    }
  }

  lemma HeaderGap(q: nat, length: nat)
    ensures Gaps(q, HeaderOf(length)) >= 1 && After(q, HeaderOf(length)) == 1
  {
    var front := LABEL + D.Print(length);
    assert HeaderOf(length) == front + "\r\n\r\n";
    GapsConcat(q, front, "\r\n\r\n");
    FourBytes(After(q, front));
  }

  lemma FourBytes(q: nat)
    ensures Gaps(q, "\r\n\r\n") >= 1 && After(q, "\r\n\r\n") == 1
  {
    assert "\r\n\r\n"[1..] == "\n\r\n" && "\n\r\n"[1..] == "\r\n" && "\r\n"[1..] == "\n" && "\n"[1..] == "";
  }

  /** One for each frame and the gaps inside it. */
  function Weight(payloads: seq<string>): nat {
    if payloads == [] then 0 else 1 + Gaps(1, payloads[0]) + Weight(payloads[1..])
  }

  function BrokenInPayloads(trails: seq<Trail>): nat {
    if trails == [] then 0 else (if BrokenInPayload(trails[0]) then 1 else 0) + BrokenInPayloads(trails[1..])
  }

  lemma TrailGaps(q: nat, trail: Trail)
    ensures Gaps(q, trail.Bytes()) >= Weight(Put(trail)) + if BrokenInPayload(trail) then 1 else 0
  {
    if trail.Whole? {
      HeaderGap(q, |trail.payload|);
      GapsConcat(q, HeaderOf(|trail.payload|), trail.payload);
      assert Put(trail)[1..] == [];
    } else if BrokenInPayload(trail) {
      var kept := Behind(trail.payload, trail.taken);
      HeaderGap(q, |trail.payload|);
      GapsConcat(q, HeaderOf(|trail.payload|), kept);
      BrokenFrame(trail);
    }
  }

  /** What is left of the payload of a frame broken off in it. */
  function Behind(payload: string, taken: nat): string
    requires taken >= |HeaderOf(|payload|)|
  {
    FirstBytes(payload, taken - |HeaderOf(|payload|)|)
  }

  lemma BrokenFrame(trail: Trail)
    requires BrokenInPayload(trail)
    ensures trail.Bytes() == HeaderOf(|trail.payload|) + Behind(trail.payload, trail.taken)
  {
    FrameBegins(trail.payload);
  }

  lemma {:induction false} WeightConcat(a: seq<string>, b: seq<string>)
    ensures Weight(a + b) == Weight(a) + Weight(b)
  {
    if a == [] {
      assert a + b == b;
    } else {
      assert (a + b)[1..] == a[1..] + b;
      WeightConcat(a[1..], b);
    }
  }

  /** What the server left holds a gap for each whole frame and each frame broken off in its payload. */
  lemma {:induction false} StreamGaps(q: nat, trails: seq<Trail>)
    ensures Gaps(q, Stream(trails)) >= Weight(Wholes(trails)) + BrokenInPayloads(trails)
    decreases |trails|
  {
    if trails != [] {
      var bytes := trails[0].Bytes();
      TrailGaps(q, trails[0]);
      GapsConcat(q, bytes, Stream(trails[1..]));
      StreamGaps(After(q, bytes), trails[1..]);
      WeightConcat(Put(trails[0]), Wholes(trails[1..]));
    }
  }

  /** A line holds at most one gap, and only if it is blank. */
  lemma LineGaps(q: nat, line: string)
    requires line != "" && '\n' !in line[..|line| - 1]
    ensures Gaps(q, line) <= 1
    ensures Gaps(q, line) == 1 ==> ReadHeader(line) == Blank
    ensures line[|line| - 1] == '\n' ==> After(q, line) == 1
  {
    var front, last := line[..|line| - 1], line[|line| - 1..];
    assert line == front + last && last[1..] == "";
    GapsConcat(q, front, last);
    NoLineFeedNoGap(q, front);
    if Gaps(q, line) == 1 {
      OnlyCarriageReturn(q, front);
      assert line == "\n" || line == "\r\n";
      BlankLine();
      assert ReadHeader("\n") == Blank by {
        assert "\n"[..0] == "";
      }
    }
  }

  lemma {:induction false} NoLineFeedNoGap(q: nat, text: string)
    requires '\n' !in text
    ensures Gaps(q, text) == 0
    decreases |text|
  {
    if text != "" {
      NoLineFeedNoGap(Next(q, text[0]), text[1..]);
    }
  }

  lemma OnlyCarriageReturn(q: nat, front: string)
    requires '\n' !in front && After(q, front) == 2
    ensures front == "" || front == "\r"
  {
    if |front| > 1 {
      assert front[1..][1..] == front[2..];
      NeverTwo(Next(Next(q, front[0]), front[1]), front[2..]);
    }
  }

  lemma {:induction false} NeverTwo(q: nat, text: string)
    requires '\n' !in text && q == 0
    ensures After(q, text) == 0
    decreases |text|
  {
    if text != "" {
      NeverTwo(Next(q, text[0]), text[1..]);
    }
  }

  /** One poll uses at most one gap besides those in the payload it returns. */
  lemma {:induction false} PollGaps(q: nat, input: string, n: nat) returns (behind: nat)
    ensures match PollFrom(input, n)
            case (Frame(payload), rest) => Gaps(q, input) <= 1 + Gaps(1, payload) + Gaps(behind, rest)
            case (Eof, _) => Gaps(q, input) == 0
            case _ => true
    decreases |input|
  {
    behind := q;
    if input != "" {
      var k := LineLength(input);
      var line, rest := input[..k], input[k..];
      assert input == line + rest;
      GapsConcat(q, line, rest);
      assert '\n' !in line[..k - 1] by {
        assert line[..k - 1] == input[..k - 1];
        assert input[..k - 1] == input[..IndexOf(input, '\n')][..k - 1];
      }
      LineGaps(q, line);
      match ReadHeader(line) {
        case Bad(_) =>
        case Length(length) => behind := PollGaps(After(q, line), rest, length);
        case Blank =>
          if n <= |rest| {
            assert rest == rest[..n] + rest[n..];
            GapsConcat(After(q, line), rest[..n], rest[n..]);
            behind := After(After(q, line), rest[..n]);
          }
      }
    }
  }

  /** Reading to the end of the input uses at most one gap for each frame besides those inside. */
  lemma {:induction false} ReadGaps(q: nat, input: string)
    requires PollAll(input).1 == Eof
    ensures Gaps(q, input) <= Weight(PollAll(input).0)
    decreases |input|
  {
    var behind := PollGaps(q, input, 0);
    var (r, rest) := PollOnce(input);
    if r.Frame? && |rest| < |input| {
      ReadGaps(behind, rest);
      assert PollAll(input).0 == [r.content] + PollAll(rest).0;
      assert PollAll(input).0[1..] == PollAll(rest).0;
    }
  }

  lemma {:induction false} CountBroken(trails: seq<Trail>)
    requires BrokenInPayloads(trails) == 0
    ensures NoneBrokenInPayload(trails)
  {
    if trails != [] {
      CountBroken(trails[1..]);
      assert trails == [trails[0]] + trails[1..];
    }
  }

  lemma ReadingRulesOutBrokenPayloads(trails: seq<Trail>)
    requires ReadsWholes(trails)
    ensures NoneBrokenInPayload(trails)
  {
    StreamGaps(0, trails);
    ReadGaps(0, Stream(trails));
    CountBroken(trails);
  }

  lemma {:induction false} ReadOverMeansInHeader(trails: seq<Trail>)
    requires AllReadOver(trails)
    ensures NoneBrokenInPayload(trails)
  {
    if trails != [] {
      ReadOverMeansInHeader(trails[1..]);
      assert trails == [trails[0]] + trails[1..];
    }
  }

  /** Whatever was left on the wire is read back right exactly if every broken frame is read over. */
  lemma ReadsExactly(trails: seq<Trail>)
    requires AllFit(trails)
    ensures ReadsWholes(trails) <==> AllReadOver(trails)
  {
    if AllReadOver(trails) {
      ReadOverMeansInHeader(trails);
      ReadsIffReadOver(trails);
    } else if ReadsWholes(trails) {
      ReadingRulesOutBrokenPayloads(trails);
      ReadsIffReadOver(trails);
    }
  }

  // ---- a run of sends ----

  /**
   What a server sends, whichever senders take turns and whatever fails: the client reads exactly the
   messages whose whole frame was written, in order and then the end of the input, exactly if every
   broken frame is read over.  Each message carries the payload and the number of its own send.
   */
  lemma SentIsRead<B>(serialize: Serializer<B>, sendings: seq<Sending<B>>)
    requires AllFit(Trails(serialize, 1, sendings))
    ensures var trails := Trails(serialize, 1, sendings);
      PollAll(AfterSends(serialize, Output("", 0), sendings).buffer) == (Payloads(Messages(1, trails)), Eof)
      <==> AllReadOver(trails)
    ensures forall m :: m in Messages(1, Trails(serialize, 1, sendings)) ==> Genuine(serialize, 1, sendings, m)
  {
    var trails := Trails(serialize, 1, sendings);
    FreshOutputHoldsStream(serialize, sendings);
    WholesAreMessages(1, trails);
    ReadsExactly(trails);
    MessagesAreGenuine(serialize, 1, sendings);
  }

  // ---- one frame behind another ----

  /**
   A frame broken off in its payload takes what follows for the rest of it: one poll returns a
   payload nobody sent, or none if too little follows.
   */
  lemma BrokenFrameSwallows(trail: Trail, rest: string)
    requires BrokenInPayload(trail) && Fits(trail)
    ensures var kept := Behind(trail.payload, trail.taken);
      var missing := |trail.payload| - |kept|;
      PollOnce(trail.Bytes() + rest) ==
      if missing <= |rest| then (Frame(kept + rest[..missing]), rest[missing..]) else (Failed(UnexpectedEof), "")
  {
    var kept := Behind(trail.payload, trail.taken);
    BrokenFrame(trail);
    ConcatAssoc(HeaderOf(|trail.payload|), kept, rest);
    PollBehindHeader(|trail.payload|, kept + rest);
    Filled(kept, rest, |trail.payload|);
  }

  lemma Filled(kept: string, rest: string, length: nat)
    requires |kept| <= length
    ensures var missing := length - |kept|;
      missing <= |rest| ==>
        (kept + rest)[..length] == kept + rest[..missing] && (kept + rest)[length..] == rest[missing..]
  {
  }

  lemma PollBehindHeader(length: nat, content: string)
    requires length < USIZE_LIMIT
    ensures PollOnce(HeaderOf(length) + content) == ReadContent(content, length)
  {
    ConcatAssoc(LengthLine(length), "\r\n", content);
    PollBehindLine(length, "\r\n" + content, 0);
    FirstLine("\r", content);
    BlankLine();
    assert "\r" + "\n" == "\r\n";
  }

  /** A whole frame behind a broken one is read right exactly if the broken one is read over. */
  lemma NextIsReadIffReadOver(trail: Trail, payload: string, rest: string)
    requires trail.Cut? && Fits(trail) && |payload| < USIZE_LIMIT && trail.taken < |FrameOf(trail.payload)|
    ensures PollOnce(trail.Bytes() + (FrameOf(payload) + rest)) == (Frame(payload), rest)
      <==> trail.taken == 0 || trail.taken == |LengthLine(|trail.payload|)|
  {
    var behind := FrameOf(payload) + rest;
    PollReadsFrame(payload, rest);
    FrameBegins(payload);
    assert behind[0] == 'C';
    if trail.taken == 0 {
      assert trail.Bytes() + behind == behind;
    } else if BrokenInPayload(trail) {
      BrokenFrameSwallows(trail, behind);
    } else {
      BrokenInHeader(trail);
      PollBrokenHeader(|trail.payload|, trail.taken, behind);
    }
  }

  lemma PollBrokenHeader(length: nat, t: nat, rest: string)
    requires length < USIZE_LIMIT && 1 <= t < |HeaderOf(length)| && rest != "" && Begins(rest)
    ensures var r := PollOnce(HeaderOf(length)[..t] + rest);
      if t == |LengthLine(length)| then r == PollOnce(rest) else r.0.Failed?
  {
    var line := LengthLine(length);
    if t < |line| {
      assert HeaderOf(length)[..t] == line[..t];
      PollBrokenLine(length, t, rest);
    } else if t == |line| {
      assert HeaderOf(length)[..t] == line;
      PollBehindLine(length, rest, 0);
      LengthIsReplaced(rest, length, 0);
    } else {
      assert HeaderOf(length)[..t] == line + "\r";
      PollBrokenBlank(length, rest);
    }
  }

  // ---- runs that show it ----

  /** A body that is its own payload. */
  function Verbatim(number: nat, body: string): Option<string> {
    Some(body)
  }

  function WholeWrite(payload: string): Write {
    Write(|FrameOf(payload)|, true)
  }

  /** Number 1 is lost to a write that fails at once, number 2 is written. */
  const LOST_AND_WRITTEN := [Sending("a", Write(0, true)), Sending("b", WholeWrite("b"))]

  lemma TrailsOfTwo(first: Sending<string>, second: Sending<string>)
    ensures Trails(Verbatim, 1, [first, second]) == [TrailOf(Verbatim, 1, first), TrailOf(Verbatim, 2, second)]
  {
  }

  lemma LostAndWrittenTrails()
    ensures Trails(Verbatim, 1, LOST_AND_WRITTEN) == [Cut("a", 0), Whole("b")]
  {
    TrailsOfTwo(Sending("a", Write(0, true)), Sending("b", WholeWrite("b")));
    FrameBegins("a");
  }

  lemma MessagesOfTwo(broken: Trail, payload: string)
    requires !broken.Whole?
    ensures Messages(1, [broken, Whole(payload)]) == [Message(2, payload)]
    ensures Stream([broken, Whole(payload)]) == broken.Bytes() + FrameOf(payload)
  {
    var trails := [broken, Whole(payload)];
    assert trails[1..] == [Whole(payload)] && [Whole(payload)][1..] == [];
    assert Messages(3, []) == [] && Messages(2, [Whole(payload)]) == [Message(2, payload)];
    assert Stream([Whole(payload)]) == FrameOf(payload) + "" == FrameOf(payload);
  }

  lemma LostAndWrittenIsReadOver()
    ensures var trails := [Cut("a", 0), Whole("b")];
      AllFit(trails) && AllReadOver(trails)
  {
    assert [Cut("a", 0), Whole("b")][1..] == [Whole("b")] && [Whole("b")][1..] == [];
    assert AllReadOver([Whole("b")]);
  }

  /** So the first message on the wire carries number 2. */
  lemma GapAfterFailedWrite()
    ensures PollAll(AfterSends(Verbatim, Output("", 0), LOST_AND_WRITTEN).buffer) == (["b"], Eof)
    ensures Messages(1, Trails(Verbatim, 1, LOST_AND_WRITTEN)) == [Message(2, "b")]
    ensures !Consecutive([Message(2, "b")], 1)
  {
    LostAndWrittenTrails();
    LostAndWrittenIsReadOver();
    MessagesOfTwo(Cut("a", 0), "b");
    SentIsRead(Verbatim, LOST_AND_WRITTEN);
    assert Payloads([Message(2, "b")]) == ["b"];
    assert [Message(2, "b")][0].number == 2;
  }

  /** A write that fails right behind the header of a payload of three bytes, and a whole one. */
  const BROKEN_AND_WRITTEN := [Sending("abc", Write(|HeaderOf(3)|, true)), Sending("b", WholeWrite("b"))]

  lemma BrokenAndWrittenTrails()
    ensures Trails(Verbatim, 1, BROKEN_AND_WRITTEN) == [Cut("abc", |HeaderOf(3)|), Whole("b")]
  {
    TrailsOfTwo(Sending("abc", Write(|HeaderOf(3)|, true)), Sending("b", WholeWrite("b")));
    FrameBegins("abc");
  }

  /** The only message on the wire is "b", and the client reads "Con". */
  lemma ReadsWhatNobodySent()
    ensures Messages(1, Trails(Verbatim, 1, BROKEN_AND_WRITTEN)) == [Message(2, "b")]
    ensures PollOnce(AfterSends(Verbatim, Output("", 0), BROKEN_AND_WRITTEN).buffer).0 == Frame("Con")
  {
    var broken := Cut("abc", |HeaderOf(3)|);
    BrokenAndWrittenTrails();
    MessagesOfTwo(broken, "b");
    FreshOutputHoldsStream(Verbatim, BROKEN_AND_WRITTEN);
    BrokenFrameSwallows(broken, FrameOf("b"));
    assert Behind("abc", |HeaderOf(3)|) == "" && "" + FrameOf("b")[..3] == FrameOf("b")[..3];
    StartOfFrame("b");
  }

  lemma StartOfFrame(payload: string)
    ensures |FrameOf(payload)| >= 3 && FrameOf(payload)[..3] == "Con"
  {
  }
}
