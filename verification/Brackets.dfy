/**
 Two readings of the brackets in a line: the stack validator of `wq-rl/src/validate.rs` and the
 counting search of `wq-rl/src/highlight.rs`.  Brackets are ASCII, so bytes and characters agree.
 */
module Brackets {
  import opened Wrappers

  function MatchingBracket(bracket: char): char {
    match bracket
    case '{' => '}'
    case '}' => '{'
    case '[' => ']'
    case ']' => '['
    case '(' => ')'
    case ')' => '('
    case other => other
  }

  predicate IsOpenBracket(c: char) {
    c == '{' || c == '[' || c == '('
  }

  predicate IsCloseBracket(c: char) {
    c == '}' || c == ']' || c == ')'
  }

  // ---- the nesting grammar ----

  /** Text without stray brackets: every open bracket is closed by its own kind, around nested text. */
  ghost predicate Nested(s: string)
    decreases |s|
  {
    if s == "" then true
    else if IsOpenBracket(s[0]) then exists k: nat :: ClosesAt(s, k)
    else !IsCloseBracket(s[0]) && Nested(s[1..])
  }

  /** The bracket that opens `s` is closed at `k`, with nested text inside and behind. */
  ghost predicate ClosesAt(s: string, k: nat)
    decreases |s|, 0
  {
    && 1 <= k < |s|
    && s[k] == MatchingBracket(s[0])
    && Nested(s[1..k])
    && Nested(s[k + 1..])
  }

  // ---- the validator ----

  datatype Verdict =
    | Valid
    | Incomplete
    | Unclosed(wanted: char)     // a closing bracket of another kind came first
    | Unpaired(bracket: char)    // a closing bracket with nothing open

  predicate IsInvalid(v: Verdict) {
    v.Unclosed? || v.Unpaired?
  }

  /** The open brackets after reading `s` on top of `stack`; None once a bracket does not fit. */
  function StackAfter(stack: string, s: string): Option<string>
    decreases |s|
  {
    if s == "" then Some(stack)
    else if IsOpenBracket(s[0]) then StackAfter(stack + [s[0]], s[1..])
    else if !IsCloseBracket(s[0]) then StackAfter(stack, s[1..])
    else if stack != [] && s[0] == MatchingBracket(stack[|stack| - 1]) then
      StackAfter(stack[..|stack| - 1], s[1..])
    else None
  }

  function VerdictOf(stack: string, s: string): Verdict
    decreases |s|
  {
    if s == "" then (if stack == "" then Valid else Incomplete)
    else if IsOpenBracket(s[0]) then VerdictOf(stack + [s[0]], s[1..])
    else if !IsCloseBracket(s[0]) then VerdictOf(stack, s[1..])
    else if stack == "" then Unpaired(s[0])
    else if s[0] == MatchingBracket(stack[|stack| - 1]) then VerdictOf(stack[..|stack| - 1], s[1..])
    else Unclosed(stack[|stack| - 1])
  }

  lemma {:induction false} VerdictIsStack(stack: string, s: string)
    ensures IsInvalid(VerdictOf(stack, s)) <==> StackAfter(stack, s).None?
    ensures VerdictOf(stack, s) == Valid <==> StackAfter(stack, s) == Some("")
    decreases |s|
  {
    if s != "" {
      if IsOpenBracket(s[0]) {
        VerdictIsStack(stack + [s[0]], s[1..]);
      } else if !IsCloseBracket(s[0]) {
        VerdictIsStack(stack, s[1..]);
      } else if stack != "" {
        VerdictIsStack(stack[..|stack| - 1], s[1..]);
      }
    }
  }

  lemma {:induction false} StackAfterConcat(stack: string, a: string, b: string)
    ensures StackAfter(stack, a + b) ==
            match StackAfter(stack, a) case Some(mid) => StackAfter(mid, b) case None => None
    decreases |a|
  {
    if a == "" {
      assert a + b == b;
    } else {
      assert (a + b)[0] == a[0] && (a + b)[1..] == a[1..] + b;
      if IsOpenBracket(a[0]) {
        StackAfterConcat(stack + [a[0]], a[1..], b);
      } else if !IsCloseBracket(a[0]) {
        StackAfterConcat(stack, a[1..], b);
      } else if stack != "" {
        StackAfterConcat(stack[..|stack| - 1], a[1..], b);
      }
    }
  }

  /** Nested text leaves any stack as it was. */
  lemma {:induction false} NestedKeepsStack(stack: string, s: string)
    requires Nested(s)
    ensures StackAfter(stack, s) == Some(stack)
    decreases |s|
  {
    if s != "" {
      if IsOpenBracket(s[0]) {
        var k: nat :| ClosesAt(s, k);
        var deeper := stack + [s[0]];
        NestedKeepsStack(deeper, s[1..k]);
        NestedKeepsStack(stack, s[k + 1..]);
        StackAfterConcat(deeper, s[1..k], s[k..]);
        assert s[1..] == s[1..k] + s[k..] && s[k..][1..] == s[k + 1..];
        assert deeper[..|deeper| - 1] == stack;
      } else {
        NestedKeepsStack(stack, s[1..]);
      }
    }
  }

  /** Nested text, then at `k` the bracket that closes the top of the stack, then text that empties the rest. */
  ghost predicate EmptiesAt(stack: string, s: string, k: nat)
    requires stack != ""
  {
    && k < |s| && s[k] == MatchingBracket(stack[|stack| - 1])
    && Nested(s[..k])
    && StackAfter(stack[..|stack| - 1], s[k + 1..]) == Some("")
  }

  /** Text that empties the stack is nested, up to the bracket that closes the top of the stack. */
  lemma {:induction false} EmptyingIsNested(stack: string, s: string) returns (k: nat)
    requires StackAfter(stack, s) == Some("")
    ensures if stack == "" then Nested(s) else EmptiesAt(stack, s, k)
    decreases |s|
  {
    k := 0;
    if s != "" {
      if IsOpenBracket(s[0]) {
        var deeper := stack + [s[0]];
        var k1 := EmptyingIsNested(deeper, s[1..]);
        assert deeper[..|deeper| - 1] == stack && s[1..][k1 + 1..] == s[k1 + 2..];
        var k2 := EmptyingIsNested(stack, s[k1 + 2..]);
        k := k1 + 2 + k2;
        EmptiesBehindOpen(stack, s, k1, k2);
      } else if !IsCloseBracket(s[0]) {
        var k1 := EmptyingIsNested(stack, s[1..]);
        if stack != "" {
          k := k1 + 1;
          assert s[1..][k1 + 1..] == s[k + 1..];
          assert s[..k][1..] == s[1..][..k1];
        }
      }
    }
  }

  lemma EmptiesBehindOpen(stack: string, s: string, k1: nat, k2: nat)
    requires s != "" && IsOpenBracket(s[0]) && EmptiesAt(stack + [s[0]], s[1..], k1)
    requires if stack == "" then Nested(s[k1 + 2..]) else EmptiesAt(stack, s[k1 + 2..], k2)
    ensures if stack == "" then Nested(s) else EmptiesAt(stack, s, k1 + 2 + k2)
  {
    if stack == "" {
      assert s[1..k1 + 1] == s[1..][..k1];
      NestedByClosing(s, k1 + 1);
    } else {
      assert s[k1 + 2..][k2 + 1..] == s[k1 + 2 + k2 + 1..];
      NestedUpTo(s, k1, k2);
    }
  }

  /** An open bracket, nested text, its closing bracket, more nested text. */
  lemma NestedUpTo(s: string, k1: nat, k2: nat)
    requires k1 + 2 + k2 <= |s| && IsOpenBracket(s[0]) && s[k1 + 1] == MatchingBracket(s[0])
    requires Nested(s[1..][..k1]) && Nested(s[k1 + 2..][..k2])
    ensures Nested(s[..k1 + 2 + k2])
  {
    var t := s[..k1 + 2 + k2];
    assert t[1..k1 + 1] == s[1..][..k1] && t[k1 + 2..] == s[k1 + 2..][..k2];
    NestedByClosing(t, k1 + 1);
  }

  lemma NestedByClosing(s: string, k: nat)
    requires 1 <= k < |s| && IsOpenBracket(s[0]) && s[k] == MatchingBracket(s[0])
    requires Nested(s[1..k]) && Nested(s[k + 1..])
    ensures Nested(s)
  {
    assert ClosesAt(s, k);
  }

  /** The closing brackets that would empty a stack. */
  function Closers(stack: string): string {
    if stack == "" then "" else [MatchingBracket(stack[|stack| - 1])] + Closers(stack[..|stack| - 1])
  }

  predicate AllOpen(stack: string) {
    forall k :: 0 <= k < |stack| ==> IsOpenBracket(stack[k])
  }

  lemma {:induction false} ClosersEmptyTheStack(stack: string)
    requires AllOpen(stack)
    ensures StackAfter(stack, Closers(stack)) == Some("")
    decreases |stack|
  {
    if stack != "" {
      var rest := Closers(stack[..|stack| - 1]);
      assert IsOpenBracket(stack[|stack| - 1]);
      assert Closers(stack)[1..] == rest;
      ClosersEmptyTheStack(stack[..|stack| - 1]);
    }
  }

  lemma {:induction false} StackHoldsOpenBrackets(stack: string, s: string)
    requires AllOpen(stack) && StackAfter(stack, s).Some?
    ensures AllOpen(StackAfter(stack, s).value)
    decreases |s|
  {
    if s != "" {
      if IsOpenBracket(s[0]) {
        StackHoldsOpenBrackets(stack + [s[0]], s[1..]);
      } else if !IsCloseBracket(s[0]) {
        StackHoldsOpenBrackets(stack, s[1..]);
      } else {
        StackHoldsOpenBrackets(stack[..|stack| - 1], s[1..]);
      }
    }
  }

  /** Valid, incomplete and invalid mean nested, completable and beyond repair. */
  lemma VerdictMeans(input: string)
    ensures VerdictOf("", input) == Valid <==> Nested(input)
    ensures VerdictOf("", input) == Incomplete <==> !Nested(input) && exists suffix :: Nested(input + suffix)
    ensures IsInvalid(VerdictOf("", input)) <==> !exists suffix :: Nested(input + suffix)
  {
    VerdictIsStack("", input);
    if Nested(input) {
      NestedKeepsStack("", input);
      assert input + "" == input;
      assert Nested(input + "");
    }
    match StackAfter("", input) {
      case None =>
        forall suffix ensures !Nested(input + suffix) {
          StackAfterConcat("", input, suffix);
          if Nested(input + suffix) {
            NestedKeepsStack("", input + suffix);
          }
        }
      case Some(stack) =>
        StackHoldsOpenBrackets("", input);
        ClosersEmptyTheStack(stack);
        StackAfterConcat("", input, Closers(stack));
        var _ := EmptyingIsNested("", input + Closers(stack));
        if stack == "" {
          var _ := EmptyingIsNested("", input);
        }
    }
  }

  // ---- which bracket is reported ----

  lemma NestedConcat(a: string, b: string)
    requires Nested(a) && Nested(b)
    ensures Nested(a + b)
  {
    NestedKeepsStack("", a);
    NestedKeepsStack("", b);
    StackAfterConcat("", a, b);
    var _ := EmptyingIsNested("", a + b);
  }

  /** The bracket at `i` is open behind `s`: only nested text follows it. */
  ghost predicate InnermostOpen(s: string, i: nat) {
    i < |s| && IsOpenBracket(s[i]) && StackAfter("", s[..i]).Some? && Nested(s[i + 1..])
  }

  lemma OpenStaysInnermost(s: string, more: string, i: nat)
    requires InnermostOpen(s, i) && Nested(more)
    ensures InnermostOpen(s + more, i)
  {
    assert (s + more)[..i] == s[..i] && (s + more)[i + 1..] == s[i + 1..] + more;
    NestedConcat(s[i + 1..], more);
  }

  /** Behind the top of the stack only nested text follows, and below it is the stack it was pushed on. */
  lemma {:induction false} TopIsInnermostOpen(s: string) returns (i: nat)
    requires StackAfter("", s).Some? && StackAfter("", s).value != ""
    ensures InnermostOpen(s, i)
    ensures StackAfter("", s).value == StackAfter("", s[..i]).value + [s[i]]
    decreases |s|
  {
    var init, c := s[..|s| - 1], s[|s| - 1];
    assert s == init + [c] && [c][1..] == "";
    StackAfterConcat("", init, [c]);
    var before := StackAfter("", init).value;
    if IsOpenBracket(c) {
      i := |init|;
    } else if !IsCloseBracket(c) {
      i := TopIsInnermostOpen(init);
      assert Nested([c]);
      OpenStaysInnermost(init, [c], i);
      assert s[..i] == init[..i];
    } else {
      var p := TopIsInnermostOpen(init);
      assert init[..p] == s[..p];
      i := TopIsInnermostOpen(s[..p]);
      ClosedBehind(init, p, c);
      OpenStaysInnermost(s[..p], s[p..], i);
      assert s == s[..p] + s[p..] && s[..p][..i] == s[..i];
    }
  }

  lemma ClosedBehind(init: string, p: nat, c: char)
    requires InnermostOpen(init, p) && c == MatchingBracket(init[p])
    ensures Nested((init + [c])[p..])
  {
    var t := (init + [c])[p..];
    assert t[1..|t| - 1] == init[p + 1..] && t[|t| - 1 + 1..] == "";
    NestedByClosing(t, |t| - 1);
  }

  ghost predicate Repairable(s: string) {
    exists suffix :: Nested(s + suffix)
  }

  /** The closing bracket at `j` is the first that nothing can repair. */
  ghost predicate FirstMisfit(s: string, j: nat) {
    j < |s| && IsCloseBracket(s[j]) && Repairable(s[..j]) && !Repairable(s[..j + 1])
  }

  lemma {:induction false} MisfitAt(s: string) returns (j: nat)
    requires StackAfter("", s).None?
    ensures j < |s| && StackAfter("", s[..j]).Some? && StackAfter("", s[..j + 1]).None?
    decreases |s|
  {
    var init := s[..|s| - 1];
    assert s == init + [s[|s| - 1]];
    if StackAfter("", init).None? {
      j := MisfitAt(init);
      assert init[..j] == s[..j] && init[..j + 1] == s[..j + 1];
    } else {
      j := |init|;
      assert s[..j] == init && s[..j + 1] == s;
    }
  }

  /** What a verdict says depends on nothing behind the first misfit. */
  lemma {:induction false} VerdictAtMisfit(stack: string, s: string, j: nat)
    requires j < |s| && StackAfter(stack, s[..j]).Some? && StackAfter(stack, s[..j + 1]).None?
    ensures IsCloseBracket(s[j])
    ensures var open := StackAfter(stack, s[..j]).value;
      VerdictOf(stack, s) == if open == "" then Unpaired(s[j]) else Unclosed(open[|open| - 1])
    decreases |s|
  {
    if j == 0 {
      assert s[..0] == "" && s[..1][1..] == "";
    } else {
      assert s[..j][1..] == s[1..][..j - 1] && s[..j + 1][1..] == s[1..][..j];
      if IsOpenBracket(s[0]) {
        VerdictAtMisfit(stack + [s[0]], s[1..], j - 1);
      } else if !IsCloseBracket(s[0]) {
        VerdictAtMisfit(stack, s[1..], j - 1);
      } else {
        VerdictAtMisfit(stack[..|stack| - 1], s[1..], j - 1);
      }
    }
  }

  lemma MisfitIsFirst(s: string, j: nat)
    requires j < |s| && IsCloseBracket(s[j])
    requires StackAfter("", s[..j]).Some? && StackAfter("", s[..j + 1]).None?
    ensures FirstMisfit(s, j)
  {
    VerdictMeans(s[..j]);
    VerdictIsStack("", s[..j]);
    VerdictMeans(s[..j + 1]);
    VerdictIsStack("", s[..j + 1]);
  }

  /**
   The verdict on input beyond repair is about the first closing bracket that does not fit: it is
   named itself if all text before it is nested, and otherwise the innermost bracket still open is.
   */
  lemma InvalidNames(s: string) returns (j: nat, i: nat)
    requires IsInvalid(VerdictOf("", s))
    ensures FirstMisfit(s, j)
    ensures if Nested(s[..j]) then VerdictOf("", s) == Unpaired(s[j])
            else InnermostOpen(s[..j], i) && VerdictOf("", s) == Unclosed(s[i]) && s[j] != MatchingBracket(s[i])
  {
    VerdictIsStack("", s);
    j := MisfitAt(s);
    i := 0;
    VerdictAtMisfit("", s, j);
    MisfitIsFirst(s, j);
    VerdictMeans(s[..j]);
    VerdictIsStack("", s[..j]);
    if !Nested(s[..j]) {
      i := TopIsInnermostOpen(s[..j]);
      StackAfterConcat("", s[..j], [s[j]]);
      assert s[..j + 1] == s[..j] + [s[j]] && [s[j]][1..] == "";
    }
  }

  lemma OneCloses(stack: string, c: char)
    requires |stack| <= 1 && AllOpen(stack)
    ensures VerdictOf(stack, [c]) == Valid <==>
      if stack == "" then !IsOpenBracket(c) && !IsCloseBracket(c) else c == MatchingBracket(stack[0])
  {
    assert [c][1..] == "" && (stack != "" ==> stack[..0] == "");
    assert VerdictOf(stack + [c], "") == Incomplete && VerdictOf("", "") == Valid;
  }

  /** The three kinds of brackets. */
  lemma PairsOfBrackets(open: char, close: char)
    requires IsOpenBracket(open) || IsCloseBracket(close)
    ensures Nested([open, close]) <==>
      (open == '(' && close == ')') || (open == '[' && close == ']') || (open == '{' && close == '}')
  {
    var s := [open, close];
    assert s[1..] == [close] && s[1..1] == "" && s[2..] == "" && [close][1..] == "";
    VerdictMeans(s);
    assert "" + [open] == [open];
    OneCloses(if IsOpenBracket(open) then [open] else "", close);
  }

  method ValidateBrackets(input: string) returns (r: Verdict)
    ensures r == VerdictOf("", input)
    ensures r == Valid <==> Nested(input)
    ensures r == Incomplete <==> !Nested(input) && exists suffix :: Nested(input + suffix)
    ensures IsInvalid(r) <==> !exists suffix :: Nested(input + suffix)
  {
    VerdictMeans(input);
    var stack := "";
    for k := 0 to |input|
      invariant VerdictOf(stack, input[k..]) == VerdictOf("", input)
      invariant AllOpen(stack)
    {
      var c := input[k];
      assert input[k..][1..] == input[k + 1..];
      if IsOpenBracket(c) {
        stack := stack + [c];
      } else if IsCloseBracket(c) {
        if stack == "" {
          return Unpaired(c);
        }
        var top := stack[|stack| - 1];
        stack := stack[..|stack| - 1];
        if !((top == '(' && c == ')') || (top == '[' && c == ']') || (top == '{' && c == '}')) {
          return Unclosed(top);
        }
      }
    }
    return if stack == "" then Valid else Incomplete;
  }

  // ---- the counting search ----

  /** What one character does to the count of unmatched brackets. */
  function Delta(c: char, bracket: char): int {
    if c == MatchingBracket(bracket) then -1 else if c == bracket then 1 else 0
  }

  /** The change of the count over `line[lo..hi]`. */
  function Balance(line: string, bracket: char, lo: nat, hi: nat): int
    requires lo <= hi <= |line|
  {
    if lo == hi then 0 else Balance(line, bracket, lo, hi - 1) + Delta(line[hi - 1], bracket)
  }

  /** The forward search's count once it has read up to `k`. */
  function CountAfter(line: string, bracket: char, pos: nat, k: nat): int
    requires pos < k <= |line|
  {
    1 + Balance(line, bracket, pos + 1, k)
  }

  /** The backward search's count once it has read down to `k`. */
  function CountBefore(line: string, bracket: char, k: nat, pos: nat): int
    requires k <= pos <= |line|
  {
    1 + Balance(line, bracket, k, pos)
  }

  /** The forward search from `pos` ends at `j`: with it the count first reaches zero. */
  ghost predicate ForwardMatch(line: string, pos: nat, bracket: char, j: nat) {
    && pos < j < |line|
    && CountAfter(line, bracket, pos, j + 1) == 0
    && forall k :: pos < k <= j ==> CountAfter(line, bracket, pos, k) > 0
  }

  /** The backward search from `pos` ends at `i`. */
  ghost predicate BackwardMatch(line: string, pos: nat, bracket: char, i: nat) {
    && i < pos <= |line|
    && CountBefore(line, bracket, i, pos) == 0
    && forall k :: i < k <= pos ==> CountBefore(line, bracket, k, pos) > 0
  }

  ghost predicate SearchMatch(line: string, pos: nat, bracket: char, at: nat) {
    if IsOpenBracket(bracket) then ForwardMatch(line, pos, bracket, at) else BackwardMatch(line, pos, bracket, at)
  }

  lemma {:induction false} BalanceSplit(line: string, bracket: char, lo: nat, mid: nat, hi: nat)
    requires lo <= mid <= hi <= |line|
    ensures Balance(line, bracket, lo, hi) == Balance(line, bracket, lo, mid) + Balance(line, bracket, mid, hi)
    decreases hi
  {
    if mid < hi {
      BalanceSplit(line, bracket, lo, mid, hi - 1);
    }
  }

  method FindMatchingBracket(line: string, pos: nat, bracket: char) returns (r: Option<(char, nat)>)
    requires if IsOpenBracket(bracket) then pos < |line| else pos <= |line|
    ensures r.Some? ==>
      && SearchMatch(line, pos, bracket, r.value.1)
      && r.value.0 == MatchingBracket(bracket) == line[r.value.1]
    ensures r.None? ==> forall at: nat :: !SearchMatch(line, pos, bracket, at)
  {
    var matching := MatchingBracket(bracket);
    var unmatched := 1;
    if IsOpenBracket(bracket) {
      var idx := pos + 1;
      while idx < |line|
        invariant pos < idx <= |line|
        invariant unmatched == CountAfter(line, bracket, pos, idx)
        invariant forall k :: pos < k <= idx ==> CountAfter(line, bracket, pos, k) > 0
      {
        if line[idx] == matching {
          unmatched := unmatched - 1;
          if unmatched == 0 {
            return Some((matching, idx));
          }
        } else if line[idx] == bracket {
          unmatched := unmatched + 1;
        }
        idx := idx + 1;
      }
    } else {
      var idx := pos;
      while idx > 0
        invariant 0 <= idx <= pos
        invariant unmatched == CountBefore(line, bracket, idx, pos)
        invariant forall k :: idx <= k <= pos ==> CountBefore(line, bracket, k, pos) > 0
      {
        BalanceFirst(line, bracket, idx - 1, pos);
        if line[idx - 1] == matching {
          unmatched := unmatched - 1;
          if unmatched == 0 {
            return Some((matching, idx - 1));
          }
        } else if line[idx - 1] == bracket {
          unmatched := unmatched + 1;
        }
        idx := idx - 1;
      }
    }
    return None;
  }

  // ---- searching back ----

  lemma {:induction false} BalanceOfPartner(line: string, bracket: char, lo: nat, hi: nat)
    requires lo <= hi <= |line| && bracket != MatchingBracket(bracket)
    ensures Balance(line, MatchingBracket(bracket), lo, hi) == -Balance(line, bracket, lo, hi)
    decreases hi
  {
    if lo < hi {
      BalanceOfPartner(line, bracket, lo, hi - 1);
    }
  }

  lemma BalanceFirst(line: string, bracket: char, lo: nat, hi: nat)
    requires lo < hi <= |line|
    ensures Balance(line, bracket, lo, hi) == Delta(line[lo], bracket) + Balance(line, bracket, lo + 1, hi)
  {
    BalanceSplit(line, bracket, lo, lo + 1, hi);
    assert Balance(line, bracket, lo, lo) == 0;
  }

  /** Read the other way, with the partner as the bracket, the count is the same at every place between. */
  lemma CountsMirror(line: string, lo: nat, hi: nat, k: nat)
    requires lo < k <= hi < |line| && IsOpenBracket(line[lo]) && line[hi] == MatchingBracket(line[lo])
    requires Balance(line, line[lo], lo + 1, hi) == 0
    ensures CountBefore(line, line[hi], k, hi) == CountAfter(line, line[lo], lo, k)
    ensures CountAfter(line, line[lo], lo, hi + 1) == 0 && CountBefore(line, line[hi], lo, hi) == 0
  {
    BalanceSplit(line, line[lo], lo + 1, k, hi);
    BalanceOfPartner(line, line[lo], k, hi);
    BalanceFirst(line, line[lo], lo, hi);
    BalanceOfPartner(line, line[lo], lo, hi);
  }

  lemma ForwardIffBackward(line: string, lo: nat, hi: nat)
    requires lo < hi < |line| && IsOpenBracket(line[lo]) && line[hi] == MatchingBracket(line[lo])
    requires Balance(line, line[lo], lo + 1, hi) == 0
    ensures ForwardMatch(line, lo, line[lo], hi) <==> BackwardMatch(line, hi, line[hi], lo)
  {
    forall k | lo < k <= hi
      ensures CountBefore(line, line[hi], k, hi) == CountAfter(line, line[lo], lo, k)
    {
      CountsMirror(line, lo, hi, k);
    }
    CountsMirror(line, lo, hi, hi);
  }

  /** On any line, a successful search from a bracket leads back to it when repeated from its result. */
  lemma SearchReturns(line: string, pos: nat, at: nat)
    requires pos < |line| && (IsOpenBracket(line[pos]) || IsCloseBracket(line[pos]))
    requires SearchMatch(line, pos, line[pos], at)
    ensures at < |line| && line[at] == MatchingBracket(line[pos])
    ensures SearchMatch(line, at, line[at], pos)
  {
    var b := line[pos];
    if IsOpenBracket(b) {
      assert CountAfter(line, b, pos, at) > 0;
      ForwardIffBackward(line, pos, at);
    } else {
      assert CountBefore(line, b, at + 1, pos) > 0;
      BalanceFirst(line, b, at, pos);
      assert line[at] == MatchingBracket(b);
      BalanceOfPartner(line, b, at + 1, pos);
      ForwardIffBackward(line, at, pos);
    }
  }

  /** A search has at most one result. */
  lemma SearchIsUnique(line: string, pos: nat, bracket: char, a: nat, b: nat)
    requires SearchMatch(line, pos, bracket, a) && SearchMatch(line, pos, bracket, b)
    ensures a == b
  {
  }

  // ---- the two algorithms pair alike ----

  /** The positions of the open brackets on the validator's stack after `n` characters. */
  function OpenPositions(s: string, n: nat): (r: Option<seq<nat>>)
    requires n <= |s|
    ensures r.Some? ==> forall d :: 0 <= d < |r.value| ==> r.value[d] < n && IsOpenBracket(s[r.value[d]])
  {
    if n == 0 then Some([])
    else
      match OpenPositions(s, n - 1)
      case None => None
      case Some(open) =>
        var c := s[n - 1];
        if IsOpenBracket(c) then Some(open + [n - 1])
        else if !IsCloseBracket(c) then Some(open)
        else if open != [] && c == MatchingBracket(s[open[|open| - 1]]) then Some(open[..|open| - 1])
        else None
  }

  /** Processing the closing bracket at `j` pops the open bracket at `i`. */
  ghost predicate Pops(s: string, j: nat, i: nat) {
    && j < |s| && IsCloseBracket(s[j])
    && OpenPositions(s, j).Some?
    && var open := OpenPositions(s, j).value;
       open != [] && open[|open| - 1] == i && s[j] == MatchingBracket(s[i])
  }

  function CharsAt(s: string, positions: seq<nat>): string
    requires forall d :: 0 <= d < |positions| ==> positions[d] < |s|
  {
    seq(|positions|, d requires 0 <= d < |positions| => s[positions[d]])
  }

  /** The validator's stack holds exactly the brackets at those positions. */
  lemma {:induction false} StackIsOpenPositions(s: string, n: nat)
    requires n <= |s|
    ensures StackAfter("", s[..n]) ==
            match OpenPositions(s, n) case Some(open) => Some(CharsAt(s, open)) case None => None
  {
    if n == 0 {
      assert s[..0] == "" && CharsAt(s, []) == "";
    } else {
      StackIsOpenPositions(s, n - 1);
      assert s[..n] == s[..n - 1] + [s[n - 1]];
      StackAfterConcat("", s[..n - 1], [s[n - 1]]);
      if OpenPositions(s, n - 1).Some? {
        StackStep(s, OpenPositions(s, n - 1).value, n - 1);
      }
    }
  }

  lemma StackStep(s: string, open: seq<nat>, n: nat)
    requires n < |s| && forall d :: 0 <= d < |open| ==> open[d] < n
    ensures StackAfter(CharsAt(s, open), [s[n]]) ==
            if IsOpenBracket(s[n]) then Some(CharsAt(s, open + [n]))
            else if !IsCloseBracket(s[n]) then Some(CharsAt(s, open))
            else if open != [] && s[n] == MatchingBracket(s[open[|open| - 1]])
            then Some(CharsAt(s, open[..|open| - 1]))
            else None
  {
    var stack := CharsAt(s, open);
    assert [s[n]][1..] == "";
    assert CharsAt(s, open + [n]) == stack + [s[n]];
    if open != [] {
      assert CharsAt(s, open[..|open| - 1]) == stack[..|stack| - 1];
    }
  }

  /** How many of the given positions hold this bracket. */
  function CountOf(s: string, positions: seq<nat>, bracket: char): nat
    requires forall d :: 0 <= d < |positions| ==> positions[d] < |s|
    decreases |positions|
  {
    if positions == [] then 0
    else
      var last := |positions| - 1;
      CountOf(s, positions[..last], bracket) + if s[positions[last]] == bracket then 1 else 0
  }

  /**
   While a bracket is on the stack, the count of a search started from it is one more than the
   number of brackets of its kind above it.
   */
  lemma {:induction false} CountWhileOpen(s: string, n: nat, d: nat)
    requires n <= |s| && OpenPositions(s, n).Some? && d < |OpenPositions(s, n).value|
    ensures var open := OpenPositions(s, n).value;
      CountAfter(s, s[open[d]], open[d], n) == 1 + CountOf(s, open[d + 1..], s[open[d]])
  {
    var before, open := OpenPositions(s, n - 1).value, OpenPositions(s, n).value;
    if d == |before| {
      assert open[d + 1..] == [];
    } else {
      CountWhileOpen(s, n - 1, d);
      CountStep(s, n, d);
    }
  }

  /** What one character does to the count, by what it does to the stack. */
  lemma DeltaOf(c: char, bracket: char, top: char)
    requires IsOpenBracket(bracket) && IsOpenBracket(top)
    ensures IsOpenBracket(c) ==> Delta(c, bracket) == if c == bracket then 1 else 0
    ensures !IsOpenBracket(c) && !IsCloseBracket(c) ==> Delta(c, bracket) == 0
    ensures c == MatchingBracket(top) ==> Delta(c, bracket) == if top == bracket then -1 else 0
  {
  }

  /** Above a depth, one character changes the brackets of a kind as it changes the count. */
  lemma CountStep(s: string, n: nat, d: nat)
    requires 0 < n <= |s| && OpenPositions(s, n).Some?
    requires d < |OpenPositions(s, n - 1).value| && d < |OpenPositions(s, n).value|
    ensures var before, open := OpenPositions(s, n - 1).value, OpenPositions(s, n).value;
      && open[d] == before[d]
      && CountOf(s, open[d + 1..], s[open[d]]) == CountOf(s, before[d + 1..], s[open[d]]) + Delta(s[n - 1], s[open[d]])
  {
    var before, open := OpenPositions(s, n - 1).value, OpenPositions(s, n).value;
    var top := before[|before| - 1];
    DeltaOf(s[n - 1], s[before[d]], s[top]);
    if IsOpenBracket(s[n - 1]) {
      CountPush(s, before, d, n - 1, s[before[d]]);
    } else if IsCloseBracket(s[n - 1]) {
      CountPop(s, before, d, s[before[d]]);
    }
  }

  lemma CountPush(s: string, open: seq<nat>, d: nat, p: nat, bracket: char)
    requires d < |open| && p < |s| && forall k :: 0 <= k < |open| ==> open[k] < |s|
    ensures CountOf(s, (open + [p])[d + 1..], bracket)
         == CountOf(s, open[d + 1..], bracket) + if s[p] == bracket then 1 else 0
  {
    assert (open + [p])[d + 1..] == open[d + 1..] + [p];
    CountOfSnoc(s, open[d + 1..], p, bracket);
  }

  lemma CountPop(s: string, open: seq<nat>, d: nat, bracket: char)
    requires d < |open| - 1 && forall k :: 0 <= k < |open| ==> open[k] < |s|
    ensures CountOf(s, open[d + 1..], bracket)
         == CountOf(s, open[..|open| - 1][d + 1..], bracket) + if s[open[|open| - 1]] == bracket then 1 else 0
  {
    var top := open[|open| - 1];
    assert open[d + 1..] == open[..|open| - 1][d + 1..] + [top];
    CountOfSnoc(s, open[..|open| - 1][d + 1..], top, bracket);
  }

  lemma CountOfSnoc(s: string, positions: seq<nat>, p: nat, bracket: char)
    requires p < |s| && forall d :: 0 <= d < |positions| ==> positions[d] < |s|
    ensures CountOf(s, positions + [p], bracket) == CountOf(s, positions, bracket) + if s[p] == bracket then 1 else 0
  {
  }

  /** A bracket on the stack has been there since it was read, at the same depth. */
  lemma {:induction false} OpenSinceRead(s: string, k: nat, n: nat, d: nat)
    requires k <= n <= |s| && OpenPositions(s, n).Some? && d < |OpenPositions(s, n).value|
    requires OpenPositions(s, n).value[d] < k
    ensures OpenPositions(s, k).Some? && d < |OpenPositions(s, k).value|
    ensures OpenPositions(s, k).value[d] == OpenPositions(s, n).value[d]
    decreases n
  {
    if k < n {
      OpenSinceRead(s, k, n - 1, d);
    }
  }

  /** The bracket the validator pops is the one the search from either side finds. */
  lemma PoppedIsFound(s: string, j: nat, i: nat)
    requires Pops(s, j, i)
    ensures i < j && ForwardMatch(s, i, s[i], j) && BackwardMatch(s, j, s[j], i)
  {
    var open := OpenPositions(s, j).value;
    var d := |open| - 1;
    CountWhileOpen(s, j, d);
    assert open[d + 1..] == [];
    forall k | i < k <= j
      ensures CountAfter(s, s[i], i, k) > 0
    {
      OpenSinceRead(s, k, j, d);
      CountWhileOpen(s, k, d);
    }
    ForwardIffBackward(s, i, j);
  }

  /** Every open bracket read so far is still open or has been popped. */
  lemma {:induction false} OpenOrPopped(s: string, n: nat, i: nat) returns (j: nat)
    requires i < n <= |s| && IsOpenBracket(s[i]) && OpenPositions(s, n).Some?
    ensures i in OpenPositions(s, n).value || (j < n && Pops(s, j, i))
    decreases n
  {
    j := n - 1;
    var open := OpenPositions(s, n).value;
    if i < n - 1 {
      var j' := OpenOrPopped(s, n - 1, i);
      var before := OpenPositions(s, n - 1).value;
      if i !in before {
        j := j';
      } else if i !in open {
        assert before == open + [before[|before| - 1]];
      }
    } else {
      assert open[|open| - 1] == i;
    }
  }

  /**
   On every input the validator accepts the two algorithms pair alike: each open bracket is
   popped by exactly one closing bracket, and that is the one the search returns.
   */
  lemma PairingsAgree(input: string, i: nat)
    requires Nested(input) && i < |input| && IsOpenBracket(input[i])
    ensures exists j :: Pops(input, j, i)
    ensures forall j :: Pops(input, j, i) <==> SearchMatch(input, i, input[i], j)
  {
    NestedKeepsStack("", input);
    StackIsOpenPositions(input, |input|);
    assert input[..|input|] == input;
    var open := OpenPositions(input, |input|).value;
    assert |CharsAt(input, open)| == |open|;
    var j := OpenOrPopped(input, |input|, i);
    PoppedIsFound(input, j, i);
    forall k | SearchMatch(input, i, input[i], k) ensures k == j {
      SearchIsUnique(input, i, input[i], k, j);
    }
    forall k | Pops(input, k, i) ensures k == j {
      PoppedIsFound(input, k, i);
      SearchIsUnique(input, i, input[i], k, j);
    }
  }
}
