/**
 Release versions (`publish-scripts/release_support.py`): parsing, precedence as in section 11 of
 Semantic Versioning 2.0.0 with the identifiers of section 9, and the automatic bump.
 */
module Versions {
  import opened Wrappers
  import opened Fields
  import D = Decimal

  datatype Version = Version(major: nat, minor: nat, patch: nat,
                             prerelease: Option<seq<string>>, build: Option<seq<string>>)

  datatype PublishError = InvalidVersion | LeadingZero(identifier: string) | NotNewer

  predicate IsIdentifierChar(c: char) {
    D.IsDigit(c) || 'A' <= c <= 'Z' || 'a' <= c <= 'z' || c == '-'
  }

  predicate IsIdentifier(s: string) {
    s != "" && forall k :: 0 <= k < |s| ==> IsIdentifierChar(s[k])
  }

  predicate AreIdentifiers(ids: seq<string>) {
    ids != [] && forall k :: 0 <= k < |ids| ==> IsIdentifier(ids[k])
  }

  /** Python's `str.isdigit` on an identifier. */
  predicate IsNumeric(s: string) {
    s != "" && D.AllDigits(s)
  }

  predicate HasLeadingZero(s: string) {
    IsNumeric(s) && |s| > 1 && s[0] == '0'
  }

  predicate NoLeadingZeros(ids: seq<string>) {
    forall k :: 0 <= k < |ids| ==> !HasLeadingZero(ids[k])
  }

  // ---- parsing ----

  function FirstLeadingZero(ids: seq<string>): Option<string> {
    if ids == [] then None
    else if HasLeadingZero(ids[0]) then Some(ids[0])
    else FirstLeadingZero(ids[1..])
  }

  /** The text before the first separator, and the text behind it if there is one. */
  function Cut(s: string, sep: char): (string, Option<string>) {
    var n := IndexOf(s, sep);
    (s[..n], if n == |s| then None else Some(s[n + 1..]))
  }

  function ParseIdentifiers(text: Option<string>): Result<Option<seq<string>>, PublishError> {
    match text
    case None => Ok(None)
    case Some(t) => if AreIdentifiers(Split(t, '.')) then Ok(Some(Split(t, '.'))) else Err(InvalidVersion)
  }

  function ParseCore(core: string): Result<(nat, nat, nat), PublishError> {
    var fields := Split(core, '.');
    if |fields| == 3 && D.IsCanonical(fields[0]) && D.IsCanonical(fields[1]) && D.IsCanonical(fields[2])
    then Ok((D.Parse(fields[0]), D.Parse(fields[1]), D.Parse(fields[2])))
    else Err(InvalidVersion)
  }

  function ParseVersion(s: string): Result<Version, PublishError> {
    var (front, buildText) := Cut(s, '+');
    var (core, prereleaseText) := Cut(front, '-');
    match (ParseCore(core), ParseIdentifiers(prereleaseText), ParseIdentifiers(buildText))
    case (Ok((major, minor, patch)), Ok(prerelease), Ok(build)) =>
      (match FirstLeadingZero(if prerelease.Some? then prerelease.value else [])
       case Some(identifier) => Err(LeadingZero(identifier))
       case None => Ok(Version(major, minor, patch, prerelease, build)))
    case _ => Err(InvalidVersion)
  }

  // ---- the printed form ----

  function PrintCore(major: nat, minor: nat, patch: nat): string {
    Join([D.Print(major), D.Print(minor), D.Print(patch)], '.')
  }

  function PrintIdentifiers(mark: char, ids: Option<seq<string>>): string
    requires ids.Some? ==> ids.value != []
  {
    match ids
    case None => ""
    case Some(list) => [mark] + Join(list, '.')
  }

  predicate WellFormed(v: Version) {
    && (v.prerelease.Some? ==> AreIdentifiers(v.prerelease.value) && NoLeadingZeros(v.prerelease.value))
    && (v.build.Some? ==> AreIdentifiers(v.build.value))
  }

  function PrintVersion(v: Version): string
    requires WellFormed(v)
  {
    PrintCore(v.major, v.minor, v.patch) + PrintIdentifiers('-', v.prerelease) + PrintIdentifiers('+', v.build)
  }

  lemma {:induction false} FirstLeadingZeroNone(ids: seq<string>)
    ensures FirstLeadingZero(ids).None? <==> NoLeadingZeros(ids)
  {
    if ids != [] {
      FirstLeadingZeroNone(ids[1..]);
      assert ids == [ids[0]] + ids[1..];
    }
  }

  lemma CutJoined(a: string, sep: char, b: string)
    requires sep !in a
    ensures Cut(a + [sep] + b, sep) == (a, Some(b))
    ensures Cut(a, sep) == (a, None)
  {
    IndexOfUnique(a, sep, b);
    var s := a + [sep] + b;
    assert s[..|a|] == a && s[|a| + 1..] == b && a[..|a|] == a;
  }

  lemma CutMeans(s: string, sep: char)
    ensures var (a, b) := Cut(s, sep);
      && sep !in a
      && s == a + match b case Some(t) => [sep] + t case None => ""
  {
  }

  /** A printed core or identifier list holds no character outside its alphabet. */
  lemma {:induction false} JoinedChars(ids: seq<string>, c: char)
    requires ids != [] && c != '.' && forall k :: 0 <= k < |ids| ==> c !in ids[k]
    ensures c !in Join(ids, '.')
  {
    if |ids| > 1 {
      JoinedChars(ids[1..], c);
    }
  }

  lemma IdentifiersAreSeparable(ids: seq<string>)
    requires AreIdentifiers(ids)
    ensures Separable(ids, '.')
    ensures '+' !in Join(ids, '.')
  {
  }

  lemma ParseIdentifiersOfPrinted(ids: seq<string>)
    requires AreIdentifiers(ids)
    ensures ParseIdentifiers(Some(Join(ids, '.'))) == Ok(Some(ids))
  {
    IdentifiersAreSeparable(ids);
    SplitJoin(ids, '.');
  }

  lemma ParseCoreOfPrinted(major: nat, minor: nat, patch: nat)
    ensures ParseCore(PrintCore(major, minor, patch)) == Ok((major, minor, patch))
  {
    SplitJoin([D.Print(major), D.Print(minor), D.Print(patch)], '.');
    D.ParsePrint(major);
    D.ParsePrint(minor);
    D.ParsePrint(patch);
  }

  lemma PrintedCoreHasNoMark(major: nat, minor: nat, patch: nat, mark: char)
    requires mark == '+' || mark == '-'
    ensures mark !in PrintCore(major, minor, patch)
  {
    JoinedChars([D.Print(major), D.Print(minor), D.Print(patch)], mark);
  }

  lemma CutPrinted(a: string, mark: char, ids: Option<seq<string>>)
    requires mark !in a && (ids.Some? ==> AreIdentifiers(ids.value))
    ensures var (head, text) := Cut(a + PrintIdentifiers(mark, ids), mark);
      head == a && ParseIdentifiers(text) == Ok(ids)
  {
    match ids
    case None =>
      assert a + "" == a;
      CutJoined(a, mark, "");
    case Some(list) =>
      var text := Join(list, '.');
      assert a + PrintIdentifiers(mark, ids) == a + [mark] + text;
      CutJoined(a, mark, text);
      ParseIdentifiersOfPrinted(list);
  }

  /** Every well-formed version parses back from its printed form. */
  lemma ParsePrinted(v: Version)
    requires WellFormed(v)
    ensures ParseVersion(PrintVersion(v)) == Ok(v)
  {
    var core := PrintCore(v.major, v.minor, v.patch);
    var front := core + PrintIdentifiers('-', v.prerelease);
    ParseCoreOfPrinted(v.major, v.minor, v.patch);
    PrintedCoreHasNoMark(v.major, v.minor, v.patch, '-');
    PrintedCoreHasNoMark(v.major, v.minor, v.patch, '+');
    if v.prerelease.Some? {
      IdentifiersAreSeparable(v.prerelease.value);
    }
    CutPrinted(core, '-', v.prerelease);
    CutPrinted(front, '+', v.build);
    FirstLeadingZeroNone(if v.prerelease.Some? then v.prerelease.value else []);
  }

  lemma {:induction false} FirstLeadingZeroIs(ids: seq<string>, k: nat)
    requires k < |ids| && HasLeadingZero(ids[k]) && forall j :: 0 <= j < k ==> !HasLeadingZero(ids[j])
    ensures FirstLeadingZero(ids) == Some(ids[k])
  {
    if k > 0 {
      FirstLeadingZeroIs(ids[1..], k - 1);
    }
  }

  /** What would be a version but for leading zeros is refused for the first identifier that has one. */
  lemma LeadingZerosAreRefused(major: nat, minor: nat, patch: nat, ids: seq<string>, build: Option<seq<string>>, k: nat)
    requires AreIdentifiers(ids) && (build.Some? ==> AreIdentifiers(build.value))
    requires k < |ids| && HasLeadingZero(ids[k]) && forall j :: 0 <= j < k ==> !HasLeadingZero(ids[j])
    ensures var front := PrintCore(major, minor, patch) + PrintIdentifiers('-', Some(ids));
      ParseVersion(front + PrintIdentifiers('+', build)) == Err(LeadingZero(ids[k]))
  {
    var core := PrintCore(major, minor, patch);
    var front := core + PrintIdentifiers('-', Some(ids));
    ParseCoreOfPrinted(major, minor, patch);
    PrintedCoreHasNoMark(major, minor, patch, '-');
    PrintedCoreHasNoMark(major, minor, patch, '+');
    IdentifiersAreSeparable(ids);
    CutPrinted(core, '-', Some(ids));
    CutPrinted(front, '+', build);
    FirstLeadingZeroIs(ids, k);
  }

  lemma PrintParsedIdentifiers(mark: char, text: Option<string>, ids: Option<seq<string>>)
    requires ParseIdentifiers(text) == Ok(ids)
    ensures ids.Some? ==> AreIdentifiers(ids.value)
    ensures PrintIdentifiers(mark, ids) == match text case Some(t) => [mark] + t case None => ""
  {
    if text.Some? {
      JoinSplit(text.value, '.');
    }
  }

  lemma PrintParsedCore(core: string, major: nat, minor: nat, patch: nat)
    requires ParseCore(core) == Ok((major, minor, patch))
    ensures PrintCore(major, minor, patch) == core
  {
    var fields := Split(core, '.');
    D.PrintParse(fields[0]);
    D.PrintParse(fields[1]);
    D.PrintParse(fields[2]);
    assert fields == [fields[0], fields[1], fields[2]];
    JoinSplit(core, '.');
  }

  /** Whatever the parser accepts is the printed form of exactly the version it returns. */
  lemma PrintParsed(s: string)
    requires ParseVersion(s).Ok?
    ensures WellFormed(ParseVersion(s).value)
    ensures PrintVersion(ParseVersion(s).value) == s
  {
    var v := ParseVersion(s).value;
    var (front, buildText) := Cut(s, '+');
    var (core, prereleaseText) := Cut(front, '-');
    CutMeans(s, '+');
    CutMeans(front, '-');
    PrintParsedCore(core, v.major, v.minor, v.patch);
    PrintParsedIdentifiers('-', prereleaseText, v.prerelease);
    PrintParsedIdentifiers('+', buildText, v.build);
    FirstLeadingZeroNone(if v.prerelease.Some? then v.prerelease.value else []);
  }

  /** Every identifier of an accepted version is made of ASCII letters, digits and hyphens, and of at least one. */
  lemma ParsedIdentifiers(s: string, ids: seq<string>, k: nat)
    requires ParseVersion(s).Ok? && k < |ids|
    requires ParseVersion(s).value.prerelease == Some(ids) || ParseVersion(s).value.build == Some(ids)
    ensures ids[k] != ""
    ensures forall c :: c in ids[k] ==> '0' <= c <= '9' || 'A' <= c <= 'Z' || 'a' <= c <= 'z' || c == '-'
  {
    PrintParsed(s);
    assert IsIdentifier(ids[k]);
  }

  // ---- precedence as the script computes it ----

  function CompareInts(a: int, b: int): int {
    if a > b then 1 else if a < b then -1 else 0
  }

  /** Python's `>` on strings: by character code, a longer string above its prefix. */
  predicate StringAbove(a: string, b: string) {
    if b == "" then a != ""
    else a != "" && (a[0] > b[0] || (a[0] == b[0] && StringAbove(a[1..], b[1..])))
  }

  /** The body of the comparison loop for one pair of identifiers; 0 goes on to the next pair. */
  function CompareIdentifiers(left: string, right: string): int {
    if left == right then 0
    else if IsNumeric(left) && IsNumeric(right) then if D.Parse(left) > D.Parse(right) then 1 else -1
    else if IsNumeric(left) != IsNumeric(right) then if IsNumeric(left) then -1 else 1
    else if StringAbove(left, right) then 1 else -1
  }

  function ComparePrereleases(left: seq<string>, right: seq<string>): int
    decreases |left|
  {
    if left == [] || right == [] then CompareInts(|left|, |right|)
    else
      var first := CompareIdentifiers(left[0], right[0]);
      if first != 0 then first else ComparePrereleases(left[1..], right[1..])
  }

  function CompareCores(left: Version, right: Version): int {
    if left.major != right.major then CompareInts(left.major, right.major)
    else if left.minor != right.minor then CompareInts(left.minor, right.minor)
    else CompareInts(left.patch, right.patch)
  }

  function CompareVersions(left: Version, right: Version): int {
    if CompareCores(left, right) != 0 then CompareCores(left, right)
    else if left.prerelease.None? then (if right.prerelease.None? then 0 else 1)
    else if right.prerelease.None? then -1
    else ComparePrereleases(left.prerelease.value, right.prerelease.value)
  }

  // ---- precedence as section 11 states it ----

  /** 11.4.1 to 11.4.3: numbers by value, below all others, and those in ASCII order. */
  ghost predicate IdentifierPrecedes(a: string, b: string) {
    if IsNumeric(a) && IsNumeric(b) then D.Parse(a) < D.Parse(b)
    else if IsNumeric(a) || IsNumeric(b) then IsNumeric(a)
    else D.Less(a, b)
  }

  /** Alike up to `k`, where the lower identifier or, 11.4.4, the end of the shorter list decides. */
  ghost predicate DecidedAt(a: seq<string>, b: seq<string>, k: nat) {
    && k <= |a| && k < |b| && a[..k] == b[..k]
    && (k == |a| || IdentifierPrecedes(a[k], b[k]))
  }

  ghost predicate PrereleasePrecedes(a: seq<string>, b: seq<string>) {
    exists k: nat :: DecidedAt(a, b, k)
  }

  /** 11.2 and 11.3: the core decides first; a prerelease is below the release itself. */
  ghost predicate Precedes(a: Version, b: Version) {
    || a.major < b.major
    || (a.major == b.major && a.minor < b.minor)
    || (a.major == b.major && a.minor == b.minor && a.patch < b.patch)
    || (&& a.major == b.major && a.minor == b.minor && a.patch == b.patch
        && a.prerelease.Some?
        && (b.prerelease.None? || PrereleasePrecedes(a.prerelease.value, b.prerelease.value)))
  }

  predicate SamePrecedence(a: Version, b: Version) {
    a.major == b.major && a.minor == b.minor && a.patch == b.patch && a.prerelease == b.prerelease
  }

  // ---- the two agree ----

  lemma {:induction false} AboveIsLess(a: string, b: string)
    ensures StringAbove(a, b) <==> D.Less(b, a)
  {
    if b == "" {
      assert a != "" ==> D.FirstDifference(b, a, 0);
    } else if a != "" {
      if a[0] == b[0] {
        AboveIsLess(a[1..], b[1..]);
        LessBehindSame(b, a);
      } else if b[0] < a[0] {
        assert D.FirstDifference(b, a, 0);
      } else {
        assert D.FirstDifference(a, b, 0);
        D.LessIsAsymmetric(a, b);
      }
    }
  }

  lemma LessBehindSame(a: string, b: string)
    requires a != "" && b != "" && a[0] == b[0]
    ensures D.Less(a, b) <==> D.Less(a[1..], b[1..])
  {
    if D.Less(a[1..], b[1..]) {
      var k: nat :| D.FirstDifference(a[1..], b[1..], k);
      assert a[..k + 1] == [a[0]] + a[1..][..k] && b[..k + 1] == [b[0]] + b[1..][..k];
      assert D.FirstDifference(a, b, k + 1);
    }
    if D.Less(a, b) {
      var k: nat :| D.FirstDifference(a, b, k);
      assert k > 0 ==> a[1..][..k - 1] == a[..k][1..] && b[1..][..k - 1] == b[..k][1..];
      assert D.FirstDifference(a[1..], b[1..], k - 1);
    }
  }

  /** Different strings are ordered one way or the other. */
  lemma {:induction false} LessIsTotal(a: string, b: string)
    requires a != b
    ensures D.Less(a, b) || D.Less(b, a)
    decreases |a|
  {
    if a == "" {
      assert D.FirstDifference(a, b, 0);
    } else if b == "" {
      assert D.FirstDifference(b, a, 0);
    } else if a[0] == b[0] {
      assert a == [a[0]] + a[1..] && b == [b[0]] + b[1..];
      LessIsTotal(a[1..], b[1..]);
      LessBehindSame(a, b);
      LessBehindSame(b, a);
    } else if a[0] < b[0] {
      assert D.FirstDifference(a, b, 0);
    } else {
      assert D.FirstDifference(b, a, 0);
    }
  }

  lemma SameValueIsSameText(a: string, b: string)
    requires IsNumeric(a) && IsNumeric(b) && !HasLeadingZero(a) && !HasLeadingZero(b)
    requires D.Parse(a) == D.Parse(b)
    ensures a == b
  {
    D.PrintParse(a);
    D.PrintParse(b);
  }

  lemma CompareIdentifiersMeans(a: string, b: string)
    requires !HasLeadingZero(a) && !HasLeadingZero(b)
    ensures CompareIdentifiers(a, b) == -1 <==> IdentifierPrecedes(a, b)
    ensures CompareIdentifiers(a, b) == 1 <==> IdentifierPrecedes(b, a)
    ensures CompareIdentifiers(a, b) == 0 <==> a == b
  {
    AboveIsLess(a, b);
    if a == b {
      if D.Less(a, a) {
        D.LessIsAsymmetric(a, a);
      }
    } else {
      if IsNumeric(a) && IsNumeric(b) && D.Parse(a) == D.Parse(b) {
        SameValueIsSameText(a, b);
      }
      LessIsTotal(a, b);
      if D.Less(a, b) {
        D.LessIsAsymmetric(a, b);
      }
    }
  }

  /** Without the parser's leading-zero rule the comparison is one-sided for exactly these pairs. */
  lemma AntisymmetryNeedsTheParser(a: string, b: string)
    ensures CompareIdentifiers(a, b) == -CompareIdentifiers(b, a)
      <==> !(a != b && IsNumeric(a) && IsNumeric(b) && D.Parse(a) == D.Parse(b))
  {
    if a != b {
      AboveIsLess(a, b);
      AboveIsLess(b, a);
      LessIsTotal(a, b);
      if D.Less(a, b) {
        D.LessIsAsymmetric(a, b);
      }
    }
  }

  /** "01" and "1" show it. */
  lemma LeadingZeroBreaksAntisymmetry()
    ensures CompareIdentifiers("01", "1") == -1 && CompareIdentifiers("1", "01") == -1
    ensures HasLeadingZero("01")
  {
  }

  lemma DecidedBehindSame(a: seq<string>, b: seq<string>)
    requires a != [] && b != [] && a[0] == b[0] && !IdentifierPrecedes(a[0], b[0])
    ensures PrereleasePrecedes(a, b) <==> PrereleasePrecedes(a[1..], b[1..])
  {
    if PrereleasePrecedes(a[1..], b[1..]) {
      var k: nat :| DecidedAt(a[1..], b[1..], k);
      assert a[..k + 1] == [a[0]] + a[1..][..k] && b[..k + 1] == [b[0]] + b[1..][..k];
      assert DecidedAt(a, b, k + 1);
    }
    if PrereleasePrecedes(a, b) {
      var k: nat :| DecidedAt(a, b, k);
      assert k > 0 ==> a[1..][..k - 1] == a[..k][1..] && b[1..][..k - 1] == b[..k][1..];
      assert DecidedAt(a[1..], b[1..], k - 1);
    }
  }

  lemma DecidedAtFirst(a: seq<string>, b: seq<string>)
    requires b != [] && (a == [] || a[0] != b[0])
    ensures PrereleasePrecedes(a, b) <==> a == [] || IdentifierPrecedes(a[0], b[0])
  {
    if a == [] || IdentifierPrecedes(a[0], b[0]) {
      assert DecidedAt(a, b, 0);
    }
    if PrereleasePrecedes(a, b) {
      var k: nat :| DecidedAt(a, b, k);
      assert k > 0 ==> a[..k][0] == b[..k][0];
    }
  }

  lemma {:induction false} ComparePrereleasesMeans(a: seq<string>, b: seq<string>)
    requires NoLeadingZeros(a) && NoLeadingZeros(b)
    ensures ComparePrereleases(a, b) == -1 <==> PrereleasePrecedes(a, b)
    ensures ComparePrereleases(a, b) == 1 <==> PrereleasePrecedes(b, a)
    ensures ComparePrereleases(a, b) == 0 <==> a == b
    ensures ComparePrereleases(a, b) in {-1, 0, 1}
    decreases |a|
  {
    if a == [] || b == [] {
      if b != [] {
        DecidedAtFirst(a, b);
      }
      if a != [] {
        DecidedAtFirst(b, a);
      }
    } else {
      CompareIdentifiersMeans(a[0], b[0]);
      if a[0] == b[0] {
        ComparePrereleasesMeans(a[1..], b[1..]);
        DecidedBehindSame(a, b);
        DecidedBehindSame(b, a);
        assert a == [a[0]] + a[1..] && b == [b[0]] + b[1..];
      } else {
        DecidedAtFirst(a, b);
        DecidedAtFirst(b, a);
      }
    }
  }

  /** On parsed versions the comparison is precedence as section 11 defines it, in all three outcomes. */
  lemma CompareIsSemVerPrecedence(a: Version, b: Version)
    requires WellFormed(a) && WellFormed(b)
    ensures CompareVersions(a, b) == -1 <==> Precedes(a, b)
    ensures CompareVersions(a, b) == 1 <==> Precedes(b, a)
    ensures CompareVersions(a, b) == 0 <==> SamePrecedence(a, b)
    ensures CompareVersions(a, b) in {-1, 0, 1}
  {
    if a.prerelease.Some? && b.prerelease.Some? {
      ComparePrereleasesMeans(a.prerelease.value, b.prerelease.value);
    }
  }

  // ---- a total order up to build metadata ----

  lemma {:induction false} LessIsTransitive(a: string, b: string, c: string)
    requires D.Less(a, b) && D.Less(b, c)
    ensures D.Less(a, c)
  {
    var k: nat :| D.FirstDifference(a, b, k);
    var l: nat :| D.FirstDifference(b, c, l);
    var m := if k <= l then k else l;
    assert a[..m] == a[..k][..m] == b[..k][..m] == b[..m];
    assert b[..m] == b[..l][..m] == c[..l][..m] == c[..m];
    if k < l {
      D.PrefixesAgree(b, c, l, k);
    } else if l < k {
      D.PrefixesAgree(a, b, k, l);
    }
    assert D.FirstDifference(a, c, m);
  }

  lemma IdentifierPrecedesIsTransitive(a: string, b: string, c: string)
    requires IdentifierPrecedes(a, b) && IdentifierPrecedes(b, c)
    ensures IdentifierPrecedes(a, c)
  {
    if !IsNumeric(a) && !IsNumeric(b) && !IsNumeric(c) {
      LessIsTransitive(a, b, c);
    }
  }

  lemma PrereleasePrecedesIsTransitive(a: seq<string>, b: seq<string>, c: seq<string>)
    requires PrereleasePrecedes(a, b) && PrereleasePrecedes(b, c)
    ensures PrereleasePrecedes(a, c)
  {
    var k: nat :| DecidedAt(a, b, k);
    var l: nat :| DecidedAt(b, c, l);
    var m := if k <= l then k else l;
    assert a[..m] == a[..k][..m] == b[..k][..m] == b[..m];
    assert b[..m] == b[..l][..m] == c[..l][..m] == c[..m];
    if k < l {
      assert b[..l][k] == c[..l][k];
    } else if l < k {
      assert a[..k][l] == b[..k][l];
    } else if k < |a| {
      IdentifierPrecedesIsTransitive(a[k], b[k], c[k]);
    }
    assert DecidedAt(a, c, m);
  }

  /** Antisymmetric in sign, transitive, and zero exactly for versions equal up to build metadata. */
  lemma ComparisonIsTotalOrder(a: Version, b: Version, c: Version)
    requires WellFormed(a) && WellFormed(b) && WellFormed(c)
    ensures CompareVersions(a, b) == -CompareVersions(b, a)
    ensures CompareVersions(a, b) <= 0 && CompareVersions(b, c) <= 0 ==> CompareVersions(a, c) <= 0
    ensures CompareVersions(a, b) == 0 <==> SamePrecedence(a, b)
  {
    CompareIsSemVerPrecedence(a, b);
    CompareIsSemVerPrecedence(b, a);
    CompareIsSemVerPrecedence(b, c);
    CompareIsSemVerPrecedence(a, c);
    if Precedes(a, b) && Precedes(b, c) {
      PrecedesIsTransitive(a, b, c);
    }
  }

  lemma PrecedesIsTransitive(a: Version, b: Version, c: Version)
    requires Precedes(a, b) && Precedes(b, c)
    ensures Precedes(a, c)
  {
    if && a.prerelease.Some? && b.prerelease.Some? && c.prerelease.Some?
       && PrereleasePrecedes(a.prerelease.value, b.prerelease.value)
       && PrereleasePrecedes(b.prerelease.value, c.prerelease.value) {
      PrereleasePrecedesIsTransitive(a.prerelease.value, b.prerelease.value, c.prerelease.value);
    }
  }

  // ---- the automatic bump ----

  /** Where the digits at the end of a text begin. */
  function TrailingStart(s: string): (k: nat)
    ensures k <= |s| && forall j :: k <= j < |s| ==> D.IsDigit(s[j])
    ensures k > 0 ==> !D.IsDigit(s[k - 1])
    decreases |s|
  {
    if s == "" || !D.IsDigit(s[|s| - 1]) then |s| else TrailingStart(s[..|s| - 1])
  }

  function CountUp(front: string, digits: string): string
    requires D.AllDigits(digits)
  {
    front + D.Print(D.Parse(digits) + 1)
  }

  /** Count the digits at the end up by one, or start counting. */
  function BumpText(prerelease: string): string {
    var k := TrailingStart(prerelease);
    if k == |prerelease| then prerelease + ".1" else CountUp(prerelease[..k], prerelease[k..])
  }

  function NextVersion(version: string): Result<string, PublishError> {
    match ParseVersion(version)
    case Err(e) => Err(e)
    case Ok(v) =>
      if v.prerelease.None? then Ok(PrintCore(v.major, v.minor, v.patch + 1))
      else if v.prerelease.value == [] then Err(InvalidVersion)
      else Ok(PrintCore(v.major, v.minor, v.patch) + "-" + BumpText(Join(v.prerelease.value, '.')))
  }

  function RequireVersionAdvance(current: string, target: string): Result<(), PublishError> {
    match (ParseVersion(current), ParseVersion(target))
    case (Err(e), _) => Err(e)
    case (_, Err(e)) => Err(e)
    case (Ok(c), Ok(t)) => if CompareVersions(t, c) <= 0 then Err(NotNewer) else Ok(())
  }

  // what the bump does to the version itself

  function BumpIdentifier(id: string): string {
    var k := TrailingStart(id);
    CountUp(id[..k], id[k..])
  }

  predicate EndsInDigit(id: string) {
    id != "" && D.IsDigit(id[|id| - 1])
  }

  function BumpIdentifiers(ids: seq<string>): seq<string>
    requires ids != []
  {
    var last := ids[|ids| - 1];
    if EndsInDigit(last) then ids[..|ids| - 1] + [BumpIdentifier(last)] else ids + ["1"]
  }

  function Next(v: Version): Version
    requires WellFormed(v)
  {
    if v.prerelease.None? then Version(v.major, v.minor, v.patch + 1, None, None)
    else Version(v.major, v.minor, v.patch, Some(BumpIdentifiers(v.prerelease.value)), None)
  }

  lemma {:induction false} TrailingStartBehind(front: string, id: string)
    requires id != "" && (front == "" || !D.IsDigit(front[|front| - 1]))
    ensures TrailingStart(front + id) == |front| + TrailingStart(id)
    decreases |id|
  {
    var s := front + id;
    if D.IsDigit(id[|id| - 1]) {
      assert s[..|s| - 1] == front + id[..|id| - 1];
      if |id| > 1 {
        TrailingStartBehind(front, id[..|id| - 1]);
      } else {
        assert front + "" == front;
      }
    }
  }

  lemma {:induction false} DigitsBegin(digits: string)
    requires D.AllDigits(digits)
    ensures TrailingStart(digits) == 0
    decreases |digits|
  {
    if digits != "" {
      DigitsBegin(digits[..|digits| - 1]);
    }
  }

  /** What counting up digits behind something else gives. */
  lemma BumpOfDigits(head: string, digits: string)
    requires digits != "" && D.AllDigits(digits) && (head == "" || !D.IsDigit(head[|head| - 1]))
    ensures BumpText(head + digits) == CountUp(head, digits)
    ensures BumpIdentifier(head + digits) == CountUp(head, digits)
  {
    DigitsBegin(digits);
    TrailingStartBehind(head, digits);
    assert (head + digits)[..|head|] == head && (head + digits)[|head|..] == digits;
  }

  lemma CountUpBehind(front: string, a: string, digits: string)
    requires D.AllDigits(digits)
    ensures CountUp(front + a, digits) == front + CountUp(a, digits)
  {
  }

  lemma BumpDigitsBehind(front: string, head: string, digits: string)
    requires digits != "" && D.AllDigits(digits)
    requires if head == "" then front == "" || !D.IsDigit(front[|front| - 1]) else !D.IsDigit(head[|head| - 1])
    ensures BumpText(front + (head + digits)) == front + BumpIdentifier(head + digits)
  {
    BumpOfDigits(head, digits);
    BumpOfDigits(front + head, digits);
    CountUpBehind(front, head, digits);
    assert front + head + digits == front + (head + digits);
  }

  lemma SplitBeforeDigits(id: string) returns (head: string, digits: string)
    requires EndsInDigit(id)
    ensures id == head + digits && digits != "" && D.AllDigits(digits)
    ensures head == "" || !D.IsDigit(head[|head| - 1])
  {
    var k := TrailingStart(id);
    head, digits := id[..k], id[k..];
  }

  lemma BumpWithoutDigits(text: string)
    requires text != "" && !EndsInDigit(text)
    ensures BumpText(text) == text + ".1"
  {
  }

  /** Bumping a text bumps what stands behind its last non-digit. */
  lemma BumpTextBehind(front: string, last: string)
    requires last != "" && (front == "" || !D.IsDigit(front[|front| - 1]))
    ensures BumpText(front + last) == if EndsInDigit(last) then front + BumpIdentifier(last) else front + last + ".1"
  {
    if EndsInDigit(last) {
      var head, digits := SplitBeforeDigits(last);
      BumpDigitsBehind(front, head, digits);
    } else {
      BumpWithoutDigits(front + last);
    }
  }

  lemma BumpTextIsBumpIdentifiers(ids: seq<string>)
    requires AreIdentifiers(ids)
    ensures BumpText(Join(ids, '.')) == Join(BumpIdentifiers(ids), '.')
  {
    var init, last := ids[..|ids| - 1], ids[|ids| - 1];
    assert ids == init + [last];
    var front := if init == [] then "" else Join(init, '.') + ['.'];
    JoinSnoc(init, last, '.');
    BumpTextBehind(front, last);
    if EndsInDigit(last) {
      JoinSnoc(init, BumpIdentifier(last), '.');
    } else {
      JoinSnoc(ids, "1", '.');
      assert Join(ids, '.') + ['.'] + "1" == Join(ids, '.') + ".1";
    }
  }

  lemma BumpedIdentifier(id: string)
    requires IsIdentifier(id) && !HasLeadingZero(id) && EndsInDigit(id)
    ensures IsIdentifier(BumpIdentifier(id)) && !HasLeadingZero(BumpIdentifier(id))
    ensures IsNumeric(BumpIdentifier(id)) <==> IsNumeric(id)
  {
    var k := TrailingStart(id);
    D.ParsePrint(D.Parse(id[k..]) + 1);
    if k > 0 {
      assert BumpIdentifier(id)[k - 1] == id[k - 1];
    } else {
      assert id[0..] == id && BumpIdentifier(id) == D.Print(D.Parse(id) + 1);
    }
  }

  lemma NewLastIdentifier(ids: seq<string>, id: string)
    requires AreIdentifiers(ids) && NoLeadingZeros(ids) && IsIdentifier(id) && !HasLeadingZero(id)
    ensures AreIdentifiers(ids + [id]) && NoLeadingZeros(ids + [id])
    ensures AreIdentifiers(ids[..|ids| - 1] + [id]) && NoLeadingZeros(ids[..|ids| - 1] + [id])
  {
  }

  lemma NextIsWellFormed(v: Version)
    requires WellFormed(v)
    ensures WellFormed(Next(v))
  {
    if v.prerelease.Some? {
      var ids := v.prerelease.value;
      var last := ids[|ids| - 1];
      if EndsInDigit(last) {
        BumpedIdentifier(last);
        NewLastIdentifier(ids, BumpIdentifier(last));
      } else {
        NewLastIdentifier(ids, "1");
      }
    }
  }

  /** The printed bump is the printed form of the bumped version; build metadata is dropped. */
  lemma NextVersionPrintsNext(version: string)
    requires ParseVersion(version).Ok?
    ensures WellFormed(ParseVersion(version).value) && WellFormed(Next(ParseVersion(version).value))
    ensures NextVersion(version) == Ok(PrintVersion(Next(ParseVersion(version).value)))
  {
    PrintParsed(version);
    var v := ParseVersion(version).value;
    NextIsWellFormed(v);
    PrintNext(v);
  }

  lemma PrintNext(v: Version)
    requires WellFormed(v) && WellFormed(Next(v))
    ensures PrintVersion(Next(v)) ==
            if v.prerelease.None? then PrintCore(v.major, v.minor, v.patch + 1)
            else PrintCore(v.major, v.minor, v.patch) + "-" + BumpText(Join(v.prerelease.value, '.'))
  {
    match v.prerelease
    case None =>
      var core := PrintCore(v.major, v.minor, v.patch + 1);
      assert core + "" + "" == core;
    case Some(ids) =>
      BumpTextIsBumpIdentifiers(ids);
      var core, text := PrintCore(v.major, v.minor, v.patch), Join(BumpIdentifiers(ids), '.');
      assert core + (['-'] + text) + "" == core + "-" + text;
  }

  /** The last prerelease identifier is not a number and ends in nothing but nines. */
  predicate CountsOver(v: Version) {
    && v.prerelease.Some? && v.prerelease.value != []
    && var last := v.prerelease.value[|v.prerelease.value| - 1];
       !IsNumeric(last) && EndsInDigit(last) && D.AllNines(last[TrailingStart(last)..])
  }

  lemma {:induction false} LessBehind(front: string, a: string, b: string)
    requires D.Less(a, b)
    ensures D.Less(front + a, front + b)
  {
    var k: nat :| D.FirstDifference(a, b, k);
    assert (front + a)[..|front| + k] == front + a[..k] && (front + b)[..|front| + k] == front + b[..k];
    assert D.FirstDifference(front + a, front + b, |front| + k);
  }

  /** A bumped identifier is above the old one, unless it is text counting over, which is below. */
  lemma BumpedIsAbove(id: string)
    requires IsIdentifier(id) && !HasLeadingZero(id) && EndsInDigit(id)
    ensures var over := !IsNumeric(id) && D.AllNines(id[TrailingStart(id)..]);
      if over then IdentifierPrecedes(BumpIdentifier(id), id) else IdentifierPrecedes(id, BumpIdentifier(id))
  {
    BumpedIdentifier(id);
    if IsNumeric(id) {
      BumpedNumber(id);
    } else {
      BumpedText(id);
    }
  }

  lemma BumpedNumber(id: string)
    requires IsNumeric(id)
    ensures IsNumeric(BumpIdentifier(id)) && D.Parse(BumpIdentifier(id)) == D.Parse(id) + 1
  {
    var k := TrailingStart(id);
    assert k == 0 && id[k..] == id && id[..k] == "";
    assert "" + D.Print(D.Parse(id) + 1) == D.Print(D.Parse(id) + 1);
    D.ParsePrint(D.Parse(id) + 1);
  }

  lemma NinesCountOverBehind(front: string, digits: string)
    requires D.AllDigits(digits) && digits != "" && D.AllNines(digits)
    ensures D.Less(CountUp(front, digits), front + digits)
  {
    D.NinesCountOver(digits);
    LessBehind(front, D.Print(D.Parse(digits) + 1), digits);
  }

  lemma OthersCountUpBehind(front: string, digits: string)
    requires D.AllDigits(digits) && digits != "" && !D.AllNines(digits)
    ensures D.Less(front + digits, CountUp(front, digits))
  {
    D.OthersCountUp(digits);
    LessBehind(front, digits, D.Print(D.Parse(digits) + 1));
  }

  lemma BumpedText(id: string)
    requires id != "" && EndsInDigit(id)
    ensures if D.AllNines(id[TrailingStart(id)..]) then D.Less(BumpIdentifier(id), id)
            else D.Less(id, BumpIdentifier(id))
  {
    var k := TrailingStart(id);
    assert id == id[..k] + id[k..];
    if D.AllNines(id[k..]) {
      NinesCountOverBehind(id[..k], id[k..]);
    } else {
      OthersCountUpBehind(id[..k], id[k..]);
    }
  }

  lemma NextPrecedence(v: Version)
    requires WellFormed(v)
    ensures if CountsOver(v) then Precedes(Next(v), v) else Precedes(v, Next(v))
  {
    if v.prerelease.Some? {
      var ids, ids' := v.prerelease.value, BumpIdentifiers(v.prerelease.value);
      var n := |ids| - 1;
      if EndsInDigit(ids[n]) {
        BumpedIsAbove(ids[n]);
        assert ids'[..n] == ids[..n];
        assert if CountsOver(v) then DecidedAt(ids', ids, n) else DecidedAt(ids, ids', n);
      } else {
        assert ids'[..n + 1] == ids == ids[..n + 1];
        assert DecidedAt(ids, ids', n + 1);
      }
    }
  }

  /** The bump of an accepted version is accepted, and passes the advance check unless it counts over. */
  lemma NextVersionAdvances(version: string)
    requires ParseVersion(version).Ok?
    ensures NextVersion(version).Ok? && ParseVersion(NextVersion(version).value).Ok?
    ensures RequireVersionAdvance(version, NextVersion(version).value).Ok?
      <==> !CountsOver(ParseVersion(version).value)
  {
    var v := ParseVersion(version).value;
    NextVersionPrintsNext(version);
    ParsePrinted(Next(v));
    NextPrecedence(v);
    CompareIsSemVerPrecedence(Next(v), v);
  }

  // ---- the advance check ----

  /** Exactly the targets that come after the current version pass; build metadata never makes the difference. */
  lemma AdvanceIsPrecedence(current: string, target: string)
    ensures RequireVersionAdvance(current, target) ==
            match (ParseVersion(current), ParseVersion(target))
            case (Ok(c), Ok(t)) => if Precedes(c, t) then Ok(()) else Err(NotNewer)
            case (Ok(_), Err(e)) => Err(e)
            case (Err(e), _) => Err(e)
  {
    if ParseVersion(current).Ok? && ParseVersion(target).Ok? {
      PrintParsed(current);
      PrintParsed(target);
      CompareIsSemVerPrecedence(ParseVersion(target).value, ParseVersion(current).value);
    }
  }

  /** A release history only goes up: no version follows itself, and what follows a follower follows. */
  lemma AdvanceIsStrictOrder(a: string, b: string, c: string)
    ensures RequireVersionAdvance(a, a).Err?
    ensures RequireVersionAdvance(a, b).Ok? ==> RequireVersionAdvance(b, a) == Err(NotNewer)
    ensures RequireVersionAdvance(a, b).Ok? && RequireVersionAdvance(b, c).Ok? ==> RequireVersionAdvance(a, c).Ok?
  {
    AdvanceIsPrecedence(a, a);
    AdvanceIsPrecedence(a, b);
    AdvanceIsPrecedence(b, a);
    AdvanceIsPrecedence(b, c);
    AdvanceIsPrecedence(a, c);
    if ParseVersion(a).Ok? {
      NeverBoth(a, a);
      if RequireVersionAdvance(a, b).Ok? {
        NeverBoth(a, b);
        if RequireVersionAdvance(b, c).Ok? {
          PrecedesIsTransitive(ParseVersion(a).value, ParseVersion(b).value, ParseVersion(c).value);
        }
      }
    }
  }

  lemma NeverBoth(a: string, b: string)
    requires ParseVersion(a).Ok? && ParseVersion(b).Ok?
    ensures var v, w := ParseVersion(a).value, ParseVersion(b).value;
      !(Precedes(v, w) && Precedes(w, v))
  {
    PrintParsed(a);
    PrintParsed(b);
    CompareIsSemVerPrecedence(ParseVersion(a).value, ParseVersion(b).value);
  }

  /** Two texts of the same precedence, such as those that differ in build metadata only, refuse each other. */
  lemma SamePrecedenceIsRefused(a: string, b: string)
    requires ParseVersion(a).Ok? && ParseVersion(b).Ok?
    ensures SamePrecedence(ParseVersion(a).value, ParseVersion(b).value)
      <==> RequireVersionAdvance(a, b) == Err(NotNewer) && RequireVersionAdvance(b, a) == Err(NotNewer)
  {
    AdvanceIsPrecedence(a, b);
    AdvanceIsPrecedence(b, a);
    PrintParsed(a);
    PrintParsed(b);
    CompareIsSemVerPrecedence(ParseVersion(a).value, ParseVersion(b).value);
  }

  // ---- what the bump counts ----

  /**
   The bump keeps what stands before the digits, and behind it come the digits of the next number,
   without leading zeros whatever the old ones had.
   */
  lemma BumpedDigits(id: string)
    requires EndsInDigit(id)
    ensures var k, bumped := TrailingStart(id), BumpIdentifier(id);
      && k < |id| && k < |bumped| && bumped[..k] == id[..k]
      && D.AllDigits(bumped[k..]) && D.Parse(bumped[k..]) == D.Parse(id[k..]) + 1
      && (bumped[k] == '0' ==> |bumped| == k + 1)
  {
    var k := TrailingStart(id);
    var next := D.Print(D.Parse(id[k..]) + 1);
    D.ParsePrint(D.Parse(id[k..]) + 1);
    assert BumpIdentifier(id) == id[..k] + next;
    assert BumpIdentifier(id)[k..] == next;
  }

  // ---- the bump is the next version, and not a later one ----

  lemma LastDecides(init: seq<string>, x: string, y: string)
    ensures PrereleasePrecedes(init + [x], init + [y]) <==> IdentifierPrecedes(x, y)
  {
    var a, b, n := init + [x], init + [y], |init|;
    assert a[..n] == init == b[..n];
    if IdentifierPrecedes(x, y) {
      assert DecidedAt(a, b, n);
    }
    if PrereleasePrecedes(a, b) {
      var k: nat :| DecidedAt(a, b, k);
      assert k <= n;
    }
  }

  /** Behind a release comes the next patch release: no release is between the two. */
  lemma BumpIsNextRelease(v: Version, w: Version)
    requires WellFormed(v) && v.prerelease.None? && WellFormed(w) && w.prerelease.None?
    ensures Next(v).prerelease.None? && Next(v).build.None? && Precedes(v, Next(v))
    ensures Precedes(v, w) ==> SamePrecedence(Next(v), w) || Precedes(Next(v), w)
  {
  }

  /** A prerelease stays one of the same release, and only its last identifier changes or one is added. */
  lemma BumpStaysPrerelease(v: Version)
    requires WellFormed(v) && v.prerelease.Some?
    ensures var next, ids := Next(v), v.prerelease.value;
      && next.major == v.major && next.minor == v.minor && next.patch == v.patch
      && next.prerelease.Some? && next.build.None?
      && if EndsInDigit(ids[|ids| - 1]) then
           next.prerelease.value == ids[..|ids| - 1] + [BumpIdentifier(ids[|ids| - 1])]
         else next.prerelease.value == ids + ["1"]
  {
  }

  /** Where the last identifier is a number, no other number in its place is between the two versions. */
  lemma BumpIsNextNumber(v: Version, w: Version, number: string)
    requires WellFormed(v) && v.prerelease.Some? && WellFormed(w)
    requires var ids := v.prerelease.value;
      IsNumeric(ids[|ids| - 1]) && w == v.(prerelease := Some(ids[..|ids| - 1] + [number]))
    requires IsNumeric(number) && Precedes(v, w)
    ensures SamePrecedence(Next(v), w) || Precedes(Next(v), w)
  {
    var ids := v.prerelease.value;
    var init, last := ids[..|ids| - 1], ids[|ids| - 1];
    assert ids == init + [last];
    LastDecides(init, last, number);
    BumpedNumber(last);
    LastDecides(init, number, BumpIdentifier(last));
    NextIsWellFormed(v);
    CompareIsSemVerPrecedence(Next(v), w);
  }

  /** 1.0.0-rc9 */
  const RC9 := Version(1, 0, 0, Some(["rc9"]), None)

  lemma Rc9IsWellFormed()
    ensures WellFormed(RC9) && PrintVersion(RC9) == "1.0.0-rc9"
  {
    assert D.Print(1) == "1" && D.Print(0) == "0";
    assert ["1", "0", "0"][1..] == ["0", "0"] && ["0", "0"][1..] == ["0"];
    assert PrintCore(1, 0, 0) == "1.0.0";
  }

  lemma TrailingNine()
    ensures TrailingStart("rc9") == 2
  {
    assert "rc9"[..2] == "rc" && TrailingStart("rc") == 2;
  }

  /** A version that counts over: its bump is refused. */
  lemma Rc9CountsOver()
    ensures WellFormed(RC9) && CountsOver(RC9)
    ensures var text := PrintVersion(RC9);
      NextVersion(text).Ok? && RequireVersionAdvance(text, NextVersion(text).value).Err?
  {
    Rc9IsWellFormed();
    TrailingNine();
    ParsePrinted(RC9);
    NextVersionAdvances(PrintVersion(RC9));
  }
}
