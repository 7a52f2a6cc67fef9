/** Splitting text at a separator and joining it again. */
module Fields {
  function IndexOf(s: string, c: char): (n: nat)
    ensures n <= |s| && c !in s[..n]
    ensures n < |s| ==> s[n] == c
  {
    if s == "" || s[0] == c then 0
    else
      var n := IndexOf(s[1..], c);
      assert s[..n + 1] == [s[0]] + s[1..][..n];
      n + 1
  }

  lemma {:induction false} IndexOfUnique(a: string, c: char, b: string)
    requires c !in a
    ensures IndexOf(a + [c] + b, c) == |a|
    ensures IndexOf(a, c) == |a|
  {
    if a != "" {
      IndexOfUnique(a[1..], c, b);
      assert (a + [c] + b)[1..] == a[1..] + [c] + b;
    }
  }

  /** Python's `str.split` with a one-character separator. */
  function Split(s: string, sep: char): (parts: seq<string>)
    ensures parts != []
    decreases |s|
  {
    var n := IndexOf(s, sep);
    if n == |s| then [s] else [s[..n]] + Split(s[n + 1..], sep)
  }

  function Join(parts: seq<string>, sep: char): string
    requires parts != []
  {
    if |parts| == 1 then parts[0] else parts[0] + [sep] + Join(parts[1..], sep)
  }

  ghost predicate Separable(parts: seq<string>, sep: char) {
    parts != [] && forall k :: 0 <= k < |parts| ==> sep !in parts[k]
  }

  lemma {:induction false} SplitJoin(parts: seq<string>, sep: char)
    requires Separable(parts, sep)
    ensures Split(Join(parts, sep), sep) == parts
  {
    IndexOfUnique(parts[0], sep, "");
    if |parts| == 1 {
      assert parts == [parts[0]];
    } else {
      var rest := Join(parts[1..], sep);
      IndexOfUnique(parts[0], sep, rest);
      SplitJoin(parts[1..], sep);
      var s := parts[0] + [sep] + rest;
      assert s[..|parts[0]|] == parts[0] && s[|parts[0]| + 1..] == rest;
      assert parts == [parts[0]] + parts[1..];
    }
  }

  lemma {:induction false} JoinSplit(s: string, sep: char)
    ensures Join(Split(s, sep), sep) == s
    ensures Separable(Split(s, sep), sep)
    decreases |s|
  {
    var n := IndexOf(s, sep);
    if n == |s| {
      assert s[..n] == s;
    } else {
      JoinSplit(s[n + 1..], sep);
      assert s == s[..n] + [sep] + s[n + 1..];
    }
  }

  /** The last field is what text behind it extends. */
  lemma {:induction false} JoinSnoc(parts: seq<string>, last: string, sep: char)
    ensures Join(parts + [last], sep) == (if parts == [] then "" else Join(parts, sep) + [sep]) + last
  {
    if parts != [] {
      var all := parts + [last];
      if |parts| == 1 {
        assert all[1..] == [last];
      } else {
        assert all[1..] == parts[1..] + [last];
        JoinSnoc(parts[1..], last, sep);
        var rest := Join(parts[1..], sep);
        assert parts[0] + [sep] + (rest + [sep] + last) == parts[0] + [sep] + rest + [sep] + last;
      }
    }
  }
}
