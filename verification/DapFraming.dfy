/**
 Content-Length framing (`wq-dap/src/server.rs`), as in the "Base Protocol" section of the Debug
 Adapter Protocol overview.  A stream is a string whose characters stand for bytes.
 */
module DapFraming {
  import opened Fields
  import opened Sequences
  import opened Wrappers
  import D = Decimal

  const USIZE_LIMIT: nat := 0x1_0000_0000_0000_0000

  datatype ServerError =
    | HeaderParseError(line: string)
    | UnknownHeader(header: string)
    | UnexpectedEof
    | SerializationError
    | IoError

  // ---- text helpers of the reader ----

  /** The ASCII whitespace; a character is a byte here. */
  predicate IsSpace(c: char) {
    '\t' <= c <= '\r' || c == ' '
  }

  function TrimEnd(s: string): string {
    if s != "" && IsSpace(s[|s| - 1]) then TrimEnd(s[..|s| - 1]) else s
  }

  function TrimStart(s: string): string {
    if s != "" && IsSpace(s[0]) then TrimStart(s[1..]) else s
  }

  /** Rust's `usize::from_str`: digits, perhaps behind a plus sign, within 64 bits. */
  function ParseUsize(s: string): Option<nat> {
    var digits := if |s| > 1 && s[0] == '+' then s[1..] else s;
    if digits == "" || !D.AllDigits(digits) || D.Parse(digits) >= USIZE_LIMIT then None else Some(D.Parse(digits))
  }

  /** The length of the first line with its line feed, or of what is left without one. */
  function LineLength(input: string): (n: nat)
    ensures n <= |input| && (input != "" ==> n > 0)
  {
    var n := IndexOf(input, '\n');
    if n < |input| then n + 1 else n
  }

  // ---- reading ----

  /** What a poll comes to: a payload, the end of the input, or an error. */
  datatype Poll = Frame(content: string) | Eof | Failed(error: ServerError)

  /** One header line: blank ends the headers, a length replaces the one seen before. */
  datatype Header = Blank | Length(n: nat) | Bad(error: ServerError)

  const LENGTH_HEADER := "Content-Length"

  function ReadHeader(line: string): Header {
    var trimmed := TrimEnd(line);
    var colon := IndexOf(trimmed, ':');
    if trimmed == "" then Blank
    else if colon == |trimmed| then Bad(HeaderParseError(line))
    else if trimmed[..colon] != LENGTH_HEADER then Bad(UnknownHeader(trimmed[..colon]))
    else
      match ParseUsize(TrimStart(TrimEnd(trimmed[colon + 1..])))
      case Some(n) => Length(n)
      case None => Bad(HeaderParseError(line))
  }

  /** The result of one poll and the input left after it. */
  function PollFrom(input: string, contentLength: nat): (Poll, string)
    decreases |input|
  {
    if input == "" then (Eof, "")
    else
      var n := LineLength(input);
      match ReadHeader(input[..n])
      case Bad(error) => (Failed(error), input[n..])
      case Length(length) => PollFrom(input[n..], length)
      case Blank => ReadContent(input[n..], contentLength)
  }

  function ReadContent(input: string, contentLength: nat): (Poll, string) {
    if |input| < contentLength then (Failed(UnexpectedEof), "")
    else (Frame(input[..contentLength]), input[contentLength..])
  }

  function PollOnce(input: string): (Poll, string) {
    PollFrom(input, 0)
  }

  class Server {
    var input: string

    constructor (input: string)
      ensures this.input == input
    {
      this.input := input;
    }

    method ReadLine() returns (line: string)
      modifies this
      ensures var n := LineLength(old(input)); line == old(input)[..n] && input == old(input)[n..]
    {
      var n := LineLength(input);
      line := input[..n];
      input := input[n..];
    }

    /** The header loop, then exactly the announced number of bytes. */
    method PollRequest() returns (r: Poll)
      modifies this
      ensures (r, input) == PollOnce(old(input))
    {
      var contentLength: nat := 0;
      while true
        invariant PollFrom(input, contentLength) == PollOnce(old(input))
        decreases |input|
      {
        if input == "" {
          return Eof;
        }
        var line := ReadLine();
        var header := ReadHeader(line);
        match header {
          case Bad(error) => return Failed(error);
          case Length(n) => contentLength := n;
          case Blank => break;
        }
      }
      if |input| < contentLength {
        input := "";
        return Failed(UnexpectedEof);
      }
      r := Frame(input[..contentLength]);
      input := input[contentLength..];
    }
  }

  // ---- writing ----

  function LengthLine(length: nat): string {
    LENGTH_HEADER + ": " + D.Print(length) + "\r\n"
  }

  function HeaderOf(length: nat): string {
    LengthLine(length) + "\r\n"
  }

  function FrameOf(payload: string): string {
    HeaderOf(|payload|) + payload
  }

  /** How bodies become payloads; None is a serialization error. */
  type Serializer<!B> = (nat, B) -> Option<string>

  /** What the writer does with one frame: how many bytes it takes before an error, and whether it flushes. */
  datatype Write = Write(taken: nat, flushed: bool)

  datatype Sending<B> = Sending(body: B, write: Write)

  /** What one send leaves on the wire: nothing, the first bytes of a frame, or the whole frame of a payload. */
  datatype Trail = Unserialized | Cut(payload: string, taken: nat) | Whole(payload: string) {
    function Bytes(): string {
      match this
      case Unserialized => ""
      case Cut(payload, taken) => FirstBytes(FrameOf(payload), taken)
      case Whole(payload) => FrameOf(payload)
    }
  }

  function FirstBytes(text: string, n: nat): string {
    if n <= |text| then text[..n] else text
  }

  function TrailOf<B>(serialize: Serializer<B>, number: nat, sending: Sending<B>): Trail {
    match serialize(number, sending.body)
    case None => Unserialized
    case Some(payload) =>
      if sending.write.taken < |FrameOf(payload)| then Cut(payload, sending.write.taken) else Whole(payload)
  }

  /** What a run of sends in lock order leaves, the first of them numbered `first`. */
  function Trails<B>(serialize: Serializer<B>, first: nat, sendings: seq<Sending<B>>): (trails: seq<Trail>)
    ensures |trails| == |sendings|
    ensures forall k :: 0 <= k < |sendings| ==> trails[k] == TrailOf(serialize, first + k, sendings[k])
  {
    seq(|sendings|, k requires 0 <= k < |sendings| => TrailOf(serialize, first + k, sendings[k]))
  }

  function Stream(trails: seq<Trail>): string {
    if trails == [] then "" else trails[0].Bytes() + Stream(trails[1..])
  }

  /** What the writer was given so far, and the last number used. */
  datatype Output = Output(buffer: string, sequenceNumber: nat)

  function AfterSend<B>(serialize: Serializer<B>, output: Output, sending: Sending<B>): Output {
    var number := output.sequenceNumber + 1;
    Output(output.buffer + TrailOf(serialize, number, sending).Bytes(), number)
  }

  /** Any senders taking turns under the lock: their sends in lock order. */
  function AfterSends<B>(serialize: Serializer<B>, output: Output, sendings: seq<Sending<B>>): Output
    decreases |sendings|
  {
    if sendings == [] then output
    else AfterSends(serialize, AfterSend(serialize, output, sendings[0]), sendings[1..])
  }

  class ServerOutput<B> {
    var outputBuffer: string
    var sequenceNumber: nat
    const serialize: Serializer<B>

    function State(): Output
      reads this
    {
      Output(outputBuffer, sequenceNumber)
    }

    constructor (serialize: Serializer<B>)
      ensures State() == Output("", 0) && this.serialize == serialize
    {
      outputBuffer := "";
      sequenceNumber := 0;
      this.serialize := serialize;
    }

    /** The number is used up on every error; a frame whose flush fails is still written. */
    method Send(sending: Sending<B>) returns (r: Result<(), ServerError>)
      modifies this
      ensures State() == AfterSend(serialize, old(State()), sending)
      ensures var trail := TrailOf(serialize, sequenceNumber, sending);
        && (r.Ok? <==> trail.Whole? && sending.write.flushed)
        && (r.Err? ==> r.error == if trail.Unserialized? then SerializationError else IoError)
    {
      sequenceNumber := sequenceNumber + 1;
      var message := serialize(sequenceNumber, sending.body);
      assert outputBuffer + "" == outputBuffer;
      if message.None? {
        return Err(SerializationError);
      }
      var frame := FrameOf(message.value);
      if sending.write.taken < |frame| {
        outputBuffer := outputBuffer + frame[..sending.write.taken];
        return Err(IoError);
      }
      outputBuffer := outputBuffer + frame;
      if !sending.write.flushed {
        return Err(IoError);
      }
      return Ok(());
    }
  }

  lemma TrailsBehind<B>(serialize: Serializer<B>, first: nat, sendings: seq<Sending<B>>)
    requires sendings != []
    ensures Trails(serialize, first, sendings)[1..] == Trails(serialize, first + 1, sendings[1..])
  {
  }

  lemma StreamAfter(buffer: string, trails: seq<Trail>)
    requires trails != []
    ensures buffer + Stream(trails) == (buffer + trails[0].Bytes()) + Stream(trails[1..])
  {
    ConcatAssoc(buffer, trails[0].Bytes(), Stream(trails[1..]));
  }

  /** Every run uses one number for each send and leaves their trails one behind the other. */
  lemma {:induction false} EveryRunLeavesItsTrails<B>(serialize: Serializer<B>, output: Output,
                                                        sendings: seq<Sending<B>>)
    ensures AfterSends(serialize, output, sendings)
         == Output(output.buffer + Stream(Trails(serialize, output.sequenceNumber + 1, sendings)),
                   output.sequenceNumber + |sendings|)
    decreases |sendings|
  {
    if sendings == [] {
      assert output.buffer + "" == output.buffer;
    } else {
      var first := output.sequenceNumber + 1;
      var trails := Trails(serialize, first, sendings);
      var next := AfterSend(serialize, output, sendings[0]);
      EveryRunLeavesItsTrails(serialize, next, sendings[1..]);
      assert next == Output(output.buffer + trails[0].Bytes(), first);
      TrailsBehind(serialize, first, sendings);
      StreamAfter(output.buffer, trails);
    }
  }

  lemma FreshOutputHoldsStream<B>(serialize: Serializer<B>, sendings: seq<Sending<B>>)
    ensures AfterSends(serialize, Output("", 0), sendings).buffer == Stream(Trails(serialize, 1, sendings))
  {
    EveryRunLeavesItsTrails(serialize, Output("", 0), sendings);
    assert "" + Stream(Trails(serialize, 1, sendings)) == Stream(Trails(serialize, 1, sendings));
  }

  // ---- the messages on the wire ----

  datatype Message = Message(number: nat, payload: string)

  /** The messages whose whole frame is on the wire, with the numbers they were serialized under. */
  function Messages(first: nat, trails: seq<Trail>): (messages: seq<Message>)
    ensures forall k :: 0 <= k < |messages| ==> messages[k].number >= first
    decreases |trails|
  {
    if trails == [] then []
    else (if trails[0].Whole? then [Message(first, trails[0].payload)] else []) + Messages(first + 1, trails[1..])
  }

  function Payloads(messages: seq<Message>): (payloads: seq<string>)
    ensures |payloads| == |messages|
  {
    seq(|messages|, k requires 0 <= k < |messages| => messages[k].payload)
  }

  /** Each message carries the payload serialized for its own send, under the number of that send. */
  ghost predicate Genuine<B>(serialize: Serializer<B>, first: nat, sendings: seq<Sending<B>>, m: Message) {
    && first <= m.number < first + |sendings|
    && serialize(m.number, sendings[m.number - first].body) == Some(m.payload)
  }

  lemma GenuineBehind<B>(serialize: Serializer<B>, first: nat, sendings: seq<Sending<B>>, m: Message)
    requires sendings != [] && Genuine(serialize, first + 1, sendings[1..], m)
    ensures Genuine(serialize, first, sendings, m)
  {
    assert sendings[1..][m.number - (first + 1)] == sendings[m.number - first];
  }

  lemma {:induction false} MessageIsGenuine<B>(serialize: Serializer<B>, first: nat, sendings: seq<Sending<B>>,
                                                 m: Message)
    requires m in Messages(first, Trails(serialize, first, sendings))
    ensures Genuine(serialize, first, sendings, m)
    decreases |sendings|
  {
    var trails := Trails(serialize, first, sendings);
    TrailsBehind(serialize, first, sendings);
    if m in Messages(first + 1, trails[1..]) {
      MessageIsGenuine(serialize, first + 1, sendings[1..], m);
      GenuineBehind(serialize, first, sendings, m);
    } else {
      assert m == Message(first, trails[0].payload);
    }
  }

  lemma MessagesAreGenuine<B>(serialize: Serializer<B>, first: nat, sendings: seq<Sending<B>>)
    ensures forall m :: m in Messages(first, Trails(serialize, first, sendings)) ==>
                          Genuine(serialize, first, sendings, m)
  {
    forall m | m in Messages(first, Trails(serialize, first, sendings)) ensures Genuine(serialize, first, sendings, m) {
      MessageIsGenuine(serialize, first, sendings, m);
    }
  }

  // ---- gaps in the numbers ----

  /** A whole frame went out after a send that used up its number for less. */
  ghost predicate SentAfterLoss(trails: seq<Trail>) {
    exists i, j :: 0 <= i < j < |trails| && !trails[i].Whole? && trails[j].Whole?
  }

  ghost predicate SomethingSent(trails: seq<Trail>) {
    exists j :: 0 <= j < |trails| && trails[j].Whole?
  }

  ghost predicate Consecutive(messages: seq<Message>, first: nat) {
    forall k :: 0 <= k < |messages| ==> messages[k].number == first + k
  }

  lemma {:induction false} MessagesIffSent(first: nat, trails: seq<Trail>)
    ensures Messages(first, trails) != [] <==> SomethingSent(trails)
    decreases |trails|
  {
    if trails != [] {
      MessagesIffSent(first + 1, trails[1..]);
      assert trails == [trails[0]] + trails[1..];
    }
  }

  lemma SentAfterLossUnfolds(head: Trail, rest: seq<Trail>)
    ensures SentAfterLoss([head] + rest) <==> SentAfterLoss(rest) || (!head.Whole? && SomethingSent(rest))
  {
    var all := [head] + rest;
    if i, j :| 0 <= i < j < |rest| && !rest[i].Whole? && rest[j].Whole? {
      assert !all[i + 1].Whole? && all[j + 1].Whole?;
    }
    if !head.Whole? && SomethingSent(rest) {
      var j :| 0 <= j < |rest| && rest[j].Whole?;
      assert !all[0].Whole? && all[j + 1].Whole?;
    }
  }

  lemma ConsecutiveBehindFirst(head: Message, rest: seq<Message>)
    ensures Consecutive([head] + rest, head.number) <==> Consecutive(rest, head.number + 1)
  {
    if Consecutive([head] + rest, head.number) {
      forall k | 0 <= k < |rest| ensures rest[k].number == head.number + 1 + k {
        assert ([head] + rest)[k + 1].number == head.number + (k + 1);
      }
    }
  }

  /**
   The numbers of the messages on the wire run without gaps exactly if none was sent after a send
   that lost its own: to a serialization error, or to a write that failed before the frame was out.
   */
  lemma {:induction false} NumbersAreConsecutive(first: nat, trails: seq<Trail>)
    ensures Consecutive(Messages(first, trails), first) <==> !SentAfterLoss(trails)
    decreases |trails|
  {
    if trails != [] {
      var rest := trails[1..];
      assert trails == [trails[0]] + rest;
      SentAfterLossUnfolds(trails[0], rest);
      NumbersAreConsecutive(first + 1, rest);
      MessagesIffSent(first + 1, rest);
      var messages := Messages(first + 1, rest);
      if trails[0].Whole? {
        ConsecutiveBehindFirst(Message(first, trails[0].payload), messages);
      } else {
        assert Messages(first, trails) == messages;
        assert messages != [] ==> messages[0].number >= first + 1;
      }
    }
  }

  // ---- a frame is read back exactly ----

  lemma TrimEndStops(s: string)
    requires s != "" && !IsSpace(s[|s| - 1])
    ensures TrimEnd(s) == s
    ensures TrimEnd(s + "\r\n") == s
  {
    var t := s + "\r\n";
    assert t[..|t| - 1] == s + "\r" && (s + "\r")[..|s|] == s;
  }

  lemma DigitsAreTrimmed(n: nat)
    ensures TrimEnd(" " + D.Print(n)) == " " + D.Print(n)
    ensures TrimStart(" " + D.Print(n)) == D.Print(n)
  {
  }

  lemma ParseUsizeOfPrinted(n: nat)
    requires n < USIZE_LIMIT
    ensures ParseUsize(D.Print(n)) == Some(n)
  {
    assert D.IsDigit(D.Print(n)[0]);
    D.ParsePrint(n);
  }

  /** The reader's cut at the colon. */
  lemma CutAtColon(name: string, value: string)
    requires ':' !in name
    ensures var text := name + ":" + value;
      && IndexOf(text, ':') == |name| < |text|
      && text[..|name|] == name
      && text[|name| + 1..] == value
  {
    IndexOfUnique(name, ':', value);
    assert name + [':'] + value == name + ":" + value;
  }

  /** The written header line means the written length. */
  lemma ReadLengthHeader(n: nat)
    requires n < USIZE_LIMIT
    ensures ReadHeader(LENGTH_HEADER + ":" + (" " + D.Print(n)) + "\r\n") == Length(n)
  {
    var value := " " + D.Print(n);
    var text := LENGTH_HEADER + ":" + value;
    assert D.IsDigit(value[|value| - 1]) && text[|text| - 1] == value[|value| - 1];
    TrimEndStops(text);
    CutAtColon(LENGTH_HEADER, value);
    DigitsAreTrimmed(n);
    ParseUsizeOfPrinted(n);
  }

  lemma BlankLine()
    ensures ReadHeader("\r\n") == Blank
  {
    assert "\r\n"[..1] == "\r" && "\r"[..0] == "";
    assert TrimEnd("\r\n") == TrimEnd("\r") == TrimEnd("");
  }

  lemma FirstLine(line: string, rest: string)
    requires '\n' !in line
    ensures LineLength(line + "\n" + rest) == |line| + 1
    ensures (line + "\n" + rest)[..|line| + 1] == line + "\n"
    ensures (line + "\n" + rest)[|line| + 1..] == rest
  {
    IndexOfUnique(line, '\n', rest);
    assert line + ['\n'] + rest == line + "\n" + rest;
  }

  /**
   Whatever a payload holds and whatever follows its frame, one poll returns the payload and
   leaves exactly what follows.
   */
  lemma PollReadsFrame(payload: string, rest: string)
    requires |payload| < USIZE_LIMIT
    ensures PollOnce(FrameOf(payload) + rest) == (Frame(payload), rest)
  {
    var line := LENGTH_HEADER + ":" + (" " + D.Print(|payload|)) + "\r";
    var behind := "\r" + "\n" + (payload + rest);
    assert FrameOf(payload) + rest == line + "\n" + behind;
    assert forall c :: c in D.Print(|payload|) ==> D.IsDigit(c);
    FirstLine(line, behind);
    ReadLengthHeader(|payload|);
    assert line + "\n" == LENGTH_HEADER + ":" + (" " + D.Print(|payload|)) + "\r\n";
    PollReadsContent(payload, rest);
  }

  lemma PollReadsContent(payload: string, rest: string)
    ensures PollFrom("\r" + "\n" + (payload + rest), |payload|) == (Frame(payload), rest)
  {
    FirstLine("\r", payload + rest);
    BlankLine();
    assert "\r" + "\n" == "\r\n";
    assert (payload + rest)[..|payload|] == payload && (payload + rest)[|payload|..] == rest;
  }

  /** Polling until something other than a frame comes. */
  function PollAll(input: string): (seq<string>, Poll)
    decreases |input|
  {
    var (r, rest) := PollOnce(input);
    if r.Frame? && |rest| < |input| then
      var (more, end) := PollAll(rest);
      ([r.content] + more, end)
    else ([], r)
  }

  /** Payloads read before whatever else is read. */
  function Before(payloads: seq<string>, read: (seq<string>, Poll)): (seq<string>, Poll) {
    (payloads + read.0, read.1)
  }

  lemma PollAllStep(payload: string, rest: string)
    requires |payload| < USIZE_LIMIT
    ensures PollAll(FrameOf(payload) + rest) == Before([payload], PollAll(rest))
  {
    PollReadsFrame(payload, rest);
  }

  // ---- what header lines mean ----

  predicate AllSpace(s: string) {
    forall k :: 0 <= k < |s| ==> IsSpace(s[k])
  }

  lemma {:induction false} TrimEndOfSpace(s: string)
    requires AllSpace(s)
    ensures TrimEnd(s) == ""
    decreases |s|
  {
    if s != "" {
      TrimEndOfSpace(s[..|s| - 1]);
    }
  }

  /** Trimming the end does not go beyond what is no space. */
  lemma {:induction false} TrimEndBehind(front: string, s: string)
    requires front != "" && !IsSpace(front[|front| - 1])
    ensures TrimEnd(front + s) == front + TrimEnd(s)
    decreases |s|
  {
    if s == "" {
      assert front + s == front;
    } else if IsSpace(s[|s| - 1]) {
      assert (front + s)[..|front + s| - 1] == front + s[..|s| - 1];
      TrimEndBehind(front, s[..|s| - 1]);
    }
  }

  lemma {:induction false} TrimStartOfSpace(blanks: string, s: string)
    requires AllSpace(blanks) && s != "" && !IsSpace(s[0])
    ensures TrimStart(blanks + s) == s
  {
    if blanks == "" {
      assert blanks + s == s;
    } else {
      assert (blanks + s)[1..] == blanks[1..] + s;
      TrimStartOfSpace(blanks[1..], s);
    }
  }

  /** A line of nothing but spaces ends the headers. */
  lemma BlankLinesMean(line: string)
    requires AllSpace(line)
    ensures ReadHeader(line) == Blank
  {
    TrimEndOfSpace(line);
  }

  lemma {:induction false} TrimEndIsPrefix(s: string)
    ensures |TrimEnd(s)| <= |s| && TrimEnd(s) == s[..|TrimEnd(s)|]
    ensures TrimEnd(s) == "" ==> AllSpace(s)
    decreases |s|
  {
    if s != "" && IsSpace(s[|s| - 1]) {
      TrimEndIsPrefix(s[..|s| - 1]);
    } else {
      assert s[..|s|] == s;
    }
  }

  /** Any other line without a colon cannot be parsed. */
  lemma LinesWithoutColonFail(line: string)
    requires ':' !in line && !AllSpace(line)
    ensures ReadHeader(line) == Bad(HeaderParseError(line))
  {
    TrimEndIsPrefix(line);
    assert ':' !in TrimEnd(line);
    IndexOfUnique(TrimEnd(line), ':', "");
  }

  lemma ReadNamed(name: string, value: string)
    requires ':' !in name
    ensures ReadHeader(name + ":" + value) ==
            if name != LENGTH_HEADER then Bad(UnknownHeader(name))
            else match ParseUsize(TrimStart(TrimEnd(TrimEnd(value))))
                 case Some(n) => Length(n)
                 case None => Bad(HeaderParseError(name + ":" + value))
  {
    TrimEndBehind(name + ":", value);
    SplitAtColon(name, TrimEnd(value));
  }

  lemma SplitAtColon(name: string, value: string)
    requires ':' !in name
    ensures var trimmed := name + ":" + value;
      IndexOf(trimmed, ':') == |name| && trimmed[..|name|] == name && trimmed[|name| + 1..] == value
  {
    IndexOfUnique(name, ':', value);
    assert name + [':'] + value == name + ":" + value;
  }

  /** A header of any other name is refused, whatever its value. */
  lemma OtherHeadersFail(name: string, value: string)
    requires ':' !in name && name != LENGTH_HEADER
    ensures ReadHeader(name + ":" + value) == Bad(UnknownHeader(name))
  {
    ReadNamed(name, value);
  }

  /** The value of a length: digits, perhaps behind a plus sign, with any space around them. */
  lemma LengthsMean(before: string, plus: string, digits: string, after: string)
    requires AllSpace(before) && AllSpace(after) && (plus == "" || plus == "+") && digits != "" && D.AllDigits(digits)
    ensures var line := LENGTH_HEADER + ":" + (before + (plus + digits) + after);
      ReadHeader(line) == if D.Parse(digits) < USIZE_LIMIT then Length(D.Parse(digits)) else Bad(HeaderParseError(line))
  {
    var number := plus + digits;
    assert D.IsDigit(digits[|digits| - 1]) && number[|number| - 1] == digits[|digits| - 1];
    assert D.IsDigit(digits[0]) && number[0] == if plus == "" then digits[0] else '+';
    ReadNamed(LENGTH_HEADER, before + number + after);
    TrimmedBetween(before, number, after);
    ParseNumber(plus, digits);
  }

  lemma TrimmedBetween(before: string, text: string, after: string)
    requires AllSpace(before) && AllSpace(after) && text != "" && !IsSpace(text[0]) && !IsSpace(text[|text| - 1])
    ensures TrimStart(TrimEnd(TrimEnd(before + text + after))) == text
  {
    var front := before + text;
    TrimEndBehind(front, after);
    TrimEndOfSpace(after);
    assert front + "" == front && TrimEnd(front) == front;
    TrimStartOfSpace(before, text);
  }

  lemma ParseNumber(plus: string, digits: string)
    requires (plus == "" || plus == "+") && digits != "" && D.AllDigits(digits)
    ensures ParseUsize(plus + digits) == if D.Parse(digits) < USIZE_LIMIT then Some(D.Parse(digits)) else None
  {
    assert D.IsDigit(digits[0]);
    if plus == "" {
      assert plus + digits == digits;
    } else {
      assert (plus + digits)[1..] == digits;
    }
  }

  /** Any other value of a length is refused. */
  lemma OtherLengthsFail(value: string)
    requires value == "" || (!IsSpace(value[0]) && !IsSpace(value[|value| - 1]))
    requires var digits := if |value| > 1 && value[0] == '+' then value[1..] else value;
      digits == "" || !D.AllDigits(digits)
    ensures ReadHeader(LENGTH_HEADER + ":" + value) == Bad(HeaderParseError(LENGTH_HEADER + ":" + value))
  {
    ReadNamed(LENGTH_HEADER, value);
  }
}
