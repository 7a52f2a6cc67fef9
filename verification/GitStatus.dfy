/**
 Reading NUL-delimited git status output (`changed_paths` in
 `publish-scripts/release_support.py`).  A character stands for one byte.
 */
module GitStatus {
  import opened Wrappers
  import opened Fields

  const NUL: char := '\0'

  /** A changed path, and for a rename or copy the path it came from. */
  datatype Entry = Entry(code: string, path: string, origin: Option<string>)

  datatype StatusError = MissingTerminator | MalformedEntry | MalformedRename

  predicate HasOrigin(code: string) {
    'R' in code || 'C' in code
  }

  predicate IsEntry(e: Entry) {
    && |e.code| == 2 && NUL !in e.code
    && e.path != "" && NUL !in e.path
    && (e.origin.Some? <==> HasOrigin(e.code))
    && (e.origin.Some? ==> e.origin.value != "" && NUL !in e.origin.value)
  }

  // ---- printing ----

  function RecordsOf(e: Entry): seq<string> {
    [e.code + " " + e.path] + if e.origin.Some? then [e.origin.value] else []
  }

  function Records(entries: seq<Entry>): seq<string> {
    if entries == [] then [] else RecordsOf(entries[0]) + Records(entries[1..])
  }

  /** Every record ends in NUL. */
  function Terminated(records: seq<string>): string {
    if records == [] then "" else records[0] + [NUL] + Terminated(records[1..])
  }

  function Print(entries: seq<Entry>): string {
    Terminated(Records(entries))
  }

  function Paths(entries: seq<Entry>): seq<string> {
    if entries == [] then [] else [entries[0].path] + Paths(entries[1..])
  }

  // ---- parsing ----

  function ParseRecords(records: seq<string>): Result<seq<Entry>, StatusError>
    decreases |records|
  {
    if records == [] then Ok([])
    else
      var r := records[0];
      if |r| < 4 || r[2] != ' ' then Err(MalformedEntry)
      else if HasOrigin(r[..2]) then
        if |records| < 2 || records[1] == "" then Err(MalformedRename)
        else Prepend(Entry(r[..2], r[3..], Some(records[1])), ParseRecords(records[2..]))
      else Prepend(Entry(r[..2], r[3..], None), ParseRecords(records[1..]))
  }

  function Prepend(e: Entry, rest: Result<seq<Entry>, StatusError>): Result<seq<Entry>, StatusError> {
    match rest
    case Ok(entries) => Ok([e] + entries)
    case Err(error) => Err(error)
  }

  function ParseStatus(status: string): Result<seq<Entry>, StatusError> {
    if status == "" then Ok([])
    else if status[|status| - 1] != NUL then Err(MissingTerminator)
    else ParseRecords(Split(status[..|status| - 1], NUL))
  }

  function PathsOf(parsed: Result<seq<Entry>, StatusError>): Result<seq<string>, StatusError> {
    match parsed
    case Ok(entries) => Ok(Paths(entries))
    case Err(error) => Err(error)
  }

  /** The paths read so far in front of those still to be read. */
  function Behind(paths: seq<string>, rest: Result<seq<string>, StatusError>): Result<seq<string>, StatusError> {
    match rest
    case Ok(more) => Ok(paths + more)
    case Err(error) => Err(error)
  }

  method ChangedPaths(status: string) returns (r: Result<seq<string>, StatusError>)
    ensures r == PathsOf(ParseStatus(status))
  {
    if status == "" {
      return Ok([]);
    }
    if status[|status| - 1] != NUL {
      return Err(MissingTerminator);
    }
    var records := Split(status[..|status| - 1], NUL);
    var paths: seq<string> := [];
    var index := 0;
    assert records[0..] == records;
    BehindNothing(PathsOf(ParseRecords(records)));
    while index < |records|
      invariant 0 <= index <= |records|
      invariant Behind(paths, PathsOf(ParseRecords(records[index..]))) == PathsOf(ParseRecords(records))
    {
      ghost var rest := records[index..];
      var record := records[index];
      if |record| < 4 || record[2] != ' ' {
        return Err(MalformedEntry);
      }
      NextEntry(paths, rest);
      var statusCode := record[..2];
      paths := paths + [record[3..]];
      index := index + 1;
      assert rest[1..] == records[index..];
      if 'R' in statusCode || 'C' in statusCode {
        if index >= |records| || records[index] == "" {
          return Err(MalformedRename);
        }
        index := index + 1;
        assert rest[2..] == records[index..];
      }
    }
    assert paths + [] == paths;
    return Ok(paths);
  }

  lemma BehindNothing(rest: Result<seq<string>, StatusError>)
    ensures Behind([], rest) == rest
  {
    if rest.Ok? {
      assert [] + rest.value == rest.value;
    }
  }

  /** One turn of the loop. */
  lemma NextEntry(paths: seq<string>, records: seq<string>)
    requires records != [] && |records[0]| >= 4 && records[0][2] == ' '
    ensures var r := records[0];
      Behind(paths, PathsOf(ParseRecords(records))) ==
      if !HasOrigin(r[..2]) then Behind(paths + [r[3..]], PathsOf(ParseRecords(records[1..])))
      else if |records| < 2 || records[1] == "" then Err(MalformedRename)
      else Behind(paths + [r[3..]], PathsOf(ParseRecords(records[2..])))
  {
    var r := records[0];
    if !HasOrigin(r[..2]) {
      BehindPrepend(paths, Entry(r[..2], r[3..], None), ParseRecords(records[1..]));
    } else if |records| >= 2 && records[1] != "" {
      BehindPrepend(paths, Entry(r[..2], r[3..], Some(records[1])), ParseRecords(records[2..]));
    }
  }

  lemma BehindPrepend(paths: seq<string>, e: Entry, rest: Result<seq<Entry>, StatusError>)
    ensures Behind(paths, PathsOf(Prepend(e, rest))) == Behind(paths + [e.path], PathsOf(rest))
  {
    if rest.Ok? {
      assert ([e] + rest.value)[1..] == rest.value;
      assert (paths + [e.path]) + Paths(rest.value) == paths + ([e.path] + Paths(rest.value));
    }
  }

  // ---- printing and parsing undo each other ----

  ghost predicate AllEntries(entries: seq<Entry>) {
    forall k :: 0 <= k < |entries| ==> IsEntry(entries[k])
  }

  lemma {:induction false} RecordsHoldNoNul(entries: seq<Entry>)
    requires AllEntries(entries)
    ensures forall k :: 0 <= k < |Records(entries)| ==> NUL !in Records(entries)[k]
    ensures entries != [] ==> Records(entries) != []
  {
    if entries != [] {
      RecordsHoldNoNul(entries[1..]);
      assert IsEntry(entries[0]);
      assert forall k :: 0 <= k < |RecordsOf(entries[0])| ==> NUL !in RecordsOf(entries[0])[k];
    }
  }

  lemma {:induction false} TerminatedIsJoined(records: seq<string>)
    requires records != []
    ensures Terminated(records) == Join(records, NUL) + [NUL]
  {
    if |records| == 1 {
      assert records[1..] == [];
      assert records[0] + [NUL] + "" == records[0] + [NUL];
    } else {
      TerminatedIsJoined(records[1..]);
      var first, rest := records[0] + [NUL], Join(records[1..], NUL);
      assert first + (rest + [NUL]) == first + rest + [NUL];
    }
  }

  lemma {:induction false} ParseRecordsOf(entries: seq<Entry>)
    requires AllEntries(entries)
    ensures ParseRecords(Records(entries)) == Ok(entries)
  {
    if entries != [] {
      var e, rest := entries[0], Records(entries[1..]);
      assert IsEntry(e);
      ParseRecordsOf(entries[1..]);
      var r := e.code + " " + e.path;
      assert r[..2] == e.code && r[3..] == e.path && r[2] == ' ';
      var records := Records(entries);
      assert records[0] == r;
      assert if e.origin.Some? then records[1] == e.origin.value && records[2..] == rest else records[1..] == rest;
      assert entries == [e] + entries[1..];
    }
  }

  /** Printing any list of status entries and reading it gives back the entries, so the paths in order. */
  lemma ReadPrinted(entries: seq<Entry>)
    requires AllEntries(entries)
    ensures ParseStatus(Print(entries)) == Ok(entries)
  {
    if entries != [] {
      var records := Records(entries);
      RecordsHoldNoNul(entries);
      TerminatedIsJoined(records);
      assert Print(entries)[..|Print(entries)| - 1] == Join(records, NUL);
      SplitJoin(records, NUL);
      ParseRecordsOf(entries);
    }
  }

  /** The paths are those the entries are about, in order, and never the ones they came from. */
  lemma {:induction false} PathsInOrder(entries: seq<Entry>)
    ensures |Paths(entries)| == |entries|
    ensures forall k :: 0 <= k < |entries| ==> Paths(entries)[k] == entries[k].path
  {
    if entries != [] {
      PathsInOrder(entries[1..]);
    }
  }

  lemma {:induction false} RecordsOfParsed(records: seq<string>)
    requires ParseRecords(records).Ok?
    requires forall k :: 0 <= k < |records| ==> NUL !in records[k]
    ensures AllEntries(ParseRecords(records).value)
    ensures Records(ParseRecords(records).value) == records
    decreases |records|
  {
    if records != [] {
      var r := records[0];
      if HasOrigin(r[..2]) {
        RecordsOfParsed(records[2..]);
        ParsedEntry(r, Some(records[1]));
        RecordsPrepend(Entry(r[..2], r[3..], Some(records[1])), ParseRecords(records[2..]).value);
        assert records == [r] + [records[1]] + records[2..];
      } else {
        RecordsOfParsed(records[1..]);
        ParsedEntry(r, None);
        RecordsPrepend(Entry(r[..2], r[3..], None), ParseRecords(records[1..]).value);
        assert records == [r] + [] + records[1..];
      }
    }
  }

  /** The entry read from a record, and from the one behind it, prints as these records. */
  lemma ParsedEntry(r: string, origin: Option<string>)
    requires |r| >= 4 && r[2] == ' ' && NUL !in r
    requires (origin.Some? <==> HasOrigin(r[..2])) && (origin.Some? ==> origin.value != "" && NUL !in origin.value)
    ensures var e := Entry(r[..2], r[3..], origin);
      IsEntry(e) && RecordsOf(e) == [r] + if origin.Some? then [origin.value] else []
  {
    assert r == r[..2] + " " + r[3..];
  }

  lemma RecordsPrepend(e: Entry, entries: seq<Entry>)
    requires IsEntry(e) && AllEntries(entries)
    ensures Records([e] + entries) == RecordsOf(e) + Records(entries) && AllEntries([e] + entries)
  {
    assert ([e] + entries)[1..] == entries;
  }

  /** Every input the parser accepts is the print of exactly one list of status entries. */
  lemma AcceptedIsPrinted(status: string)
    requires ParseStatus(status).Ok?
    ensures AllEntries(ParseStatus(status).value) && Print(ParseStatus(status).value) == status
    ensures forall entries :: AllEntries(entries) && Print(entries) == status ==> entries == ParseStatus(status).value
  {
    if status != "" {
      var text := status[..|status| - 1];
      var records := Split(text, NUL);
      JoinSplit(text, NUL);
      RecordsOfParsed(records);
      TerminatedIsJoined(records);
      assert status == text + [NUL];
    }
    forall entries | AllEntries(entries) && Print(entries) == status
      ensures entries == ParseStatus(status).value
    {
      ReadPrinted(entries);
    }
  }

  // ---- which entries name two paths ----

  lemma SplitOne(a: string)
    requires NUL !in a
    ensures Split(a, NUL) == [a]
  {
    SplitJoin([a], NUL);
  }

  lemma SplitTwo(a: string, b: string)
    requires NUL !in a && NUL !in b
    ensures Split(a + [NUL] + b, NUL) == [a, b]
  {
    assert [a, b][1..] == [b];
    assert Join([a, b], NUL) == a + [NUL] + Join([b], NUL);
    SplitJoin([a, b], NUL);
  }

  lemma ParseOne(code: string, path: string)
    requires |code| == 2 && path != ""
    ensures ParseRecords([code + " " + path]) == if HasOrigin(code) then Err(MalformedRename)
                                                 else Ok([Entry(code, path, None)])
  {
    var r := code + " " + path;
    assert r[..2] == code && r[3..] == path;
    assert ParseRecords([r][1..]) == Ok([]);
    assert [Entry(code, path, None)] + [] == [Entry(code, path, None)];
  }

  lemma ParseTwo(code: string, path: string, origin: string)
    requires |code| == 2 && path != "" && origin != "" && HasOrigin(code)
    ensures ParseRecords([code + " " + path, origin]) == Ok([Entry(code, path, Some(origin))])
  {
    var r := code + " " + path;
    assert r[..2] == code && r[3..] == path && ParseRecords([r, origin][2..]) == Ok([]);
    assert [Entry(code, path, Some(origin))] + [] == [Entry(code, path, Some(origin))];
  }

  /**
   An entry is followed by the path it came from exactly if either of its status letters says renamed
   or copied, in the index or in the work tree.
   */
  lemma RenamesAndCopiesNameTwoPaths(x: char, y: char, path: string, origin: string)
    requires x != NUL && y != NUL && path != "" && NUL !in path && origin != "" && NUL !in origin
    ensures var entry := [x, y] + " " + path;
      if x == 'R' || x == 'C' || y == 'R' || y == 'C' then
        && ParseStatus(entry + [NUL] + origin + [NUL]) == Ok([Entry([x, y], path, Some(origin))])
        && ParseStatus(entry + [NUL]) == Err(MalformedRename)
      else ParseStatus(entry + [NUL]) == Ok([Entry([x, y], path, None)])
  {
    var code := [x, y];
    var entry := code + " " + path;
    assert code[0] == x && code[1] == y;
    assert HasOrigin(code) <==> x == 'R' || x == 'C' || y == 'R' || y == 'C';
    SplitOne(entry);
    ParseOne(code, path);
    assert (entry + [NUL])[..|entry|] == entry;
    if HasOrigin(code) {
      var both := entry + [NUL] + origin;
      SplitTwo(entry, origin);
      ParseTwo(code, path, origin);
      assert (both + [NUL])[..|both|] == both;
    }
  }

  // ---- what is rejected, and why ----

  /** What is wrong with the first of these records, none of which can be read as an entry. */
  ghost predicate IsWrong(rest: seq<string>, error: StatusError) {
    && rest != []
    && var malformed := |rest[0]| < 4 || rest[0][2] != ' ';
       match error
       case MalformedEntry => malformed
       case MalformedRename => !malformed && HasOrigin(rest[0][..2]) && (|rest| == 1 || rest[1] == "")
       case MissingTerminator => false
  }

  lemma {:induction false} WrongBehindEntries(records: seq<string>) returns (entries: seq<Entry>, rest: seq<string>)
    requires ParseRecords(records).Err?
    requires forall k :: 0 <= k < |records| ==> NUL !in records[k]
    ensures AllEntries(entries) && records == Records(entries) + rest
    ensures IsWrong(rest, ParseRecords(records).error)
    decreases |records|
  {
    var r := records[0];
    entries, rest := [], records;
    if |r| >= 4 && r[2] == ' ' {
      if !HasOrigin(r[..2]) {
        entries, rest := WrongBehindEntries(records[1..]);
        ParsedEntry(r, None);
        OneMoreEntry(records, Entry(r[..2], r[3..], None), entries, rest);
        entries := [Entry(r[..2], r[3..], None)] + entries;
      } else if |records| >= 2 && records[1] != "" {
        entries, rest := WrongBehindEntries(records[2..]);
        ParsedEntry(r, Some(records[1]));
        OneMoreEntry(records, Entry(r[..2], r[3..], Some(records[1])), entries, rest);
        entries := [Entry(r[..2], r[3..], Some(records[1]))] + entries;
      }
    }
  }

  lemma OneMoreEntry(records: seq<string>, e: Entry, entries: seq<Entry>, rest: seq<string>)
    requires IsEntry(e) && AllEntries(entries)
    requires |RecordsOf(e)| <= |records| && RecordsOf(e) == records[..|RecordsOf(e)|]
    requires records[|RecordsOf(e)|..] == Records(entries) + rest
    ensures AllEntries([e] + entries) && records == Records([e] + entries) + rest
  {
    RecordsPrepend(e, entries);
    assert records == RecordsOf(e) + (Records(entries) + rest);
  }

  lemma {:induction false} TerminatedConcat(a: seq<string>, b: seq<string>)
    ensures Terminated(a + b) == Terminated(a) + Terminated(b)
  {
    if a == [] {
      assert a + b == b;
    } else {
      assert (a + b)[1..] == a[1..] + b;
      TerminatedConcat(a[1..], b);
      assert a[0] + [NUL] + (Terminated(a[1..]) + Terminated(b)) == a[0] + [NUL] + Terminated(a[1..]) + Terminated(b);
    }
  }

  /** The records of terminated output. */
  function RecordsIn(status: string): seq<string>
    requires status != "" && status[|status| - 1] == NUL
  {
    Split(status[..|status| - 1], NUL)
  }

  lemma RecordsInOutput(status: string)
    requires status != "" && status[|status| - 1] == NUL
    ensures Terminated(RecordsIn(status)) == status
    ensures forall k :: 0 <= k < |RecordsIn(status)| ==> NUL !in RecordsIn(status)[k]
  {
    var text := status[..|status| - 1];
    JoinSplit(text, NUL);
    TerminatedIsJoined(RecordsIn(status));
    assert status == text + [NUL];
  }

  /**
   Output without a final NUL lacks its terminator; other rejected output is the print of some
   entries and then records the first of which is no entry, or a rename without its second path.
   */
  lemma RejectedMeans(status: string) returns (entries: seq<Entry>, rest: seq<string>)
    requires ParseStatus(status).Err?
    ensures var error := ParseStatus(status).error;
      if status[|status| - 1] != NUL then error == MissingTerminator
      else AllEntries(entries) && status == Print(entries) + Terminated(rest) && IsWrong(rest, error)
  {
    entries, rest := [], [];
    if status[|status| - 1] == NUL {
      RecordsInOutput(status);
      entries, rest := WrongBehindEntries(RecordsIn(status));
      TerminatedConcat(Records(entries), rest);
    }
  }
}
