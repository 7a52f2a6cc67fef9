/** Decimal notation of natural numbers, and how adding one changes the digits. */
module Decimal {
  predicate IsDigit(c: char) {
    '0' <= c <= '9'
  }

  predicate AllDigits(s: string) {
    forall k :: 0 <= k < |s| ==> IsDigit(s[k])
  }

  /** Nonempty, digits only, and no leading zero except in "0" itself. */
  predicate IsCanonical(s: string) {
    s != "" && AllDigits(s) && (s[0] == '0' ==> |s| == 1)
  }

  function DigitValue(c: char): (d: nat)
    requires IsDigit(c)
    ensures d < 10
  {
    c as int - '0' as int
  }

  function DigitChar(d: nat): (c: char)
    requires d < 10
    ensures IsDigit(c) && DigitValue(c) == d
  {
    ('0' as int + d) as char
  }

  function Parse(s: string): nat
    requires AllDigits(s)
    decreases |s|
  {
    if s == "" then 0 else 10 * Parse(s[..|s| - 1]) + DigitValue(s[|s| - 1])
  }

  function Print(n: nat): (s: string)
    ensures s != "" && AllDigits(s)
  {
    if n < 10 then [DigitChar(n)] else Print(n / 10) + [DigitChar(n % 10)]
  }

  lemma ParseSnoc(s: string, c: char)
    requires AllDigits(s) && IsDigit(c)
    ensures AllDigits(s + [c]) && Parse(s + [c]) == 10 * Parse(s) + DigitValue(c)
  {
  }

  lemma {:induction false} ParsePrint(n: nat)
    ensures Parse(Print(n)) == n
    ensures IsCanonical(Print(n)) && (n > 0 ==> Print(n)[0] != '0')
  {
    if n >= 10 {
      ParsePrint(n / 10);
      ParseSnoc(Print(n / 10), DigitChar(n % 10));
    } else {
      ParseSnoc("", DigitChar(n));
      assert "" + [DigitChar(n)] == [DigitChar(n)];
    }
  }

  lemma {:induction false} PrintParse(s: string)
    requires IsCanonical(s)
    ensures Print(Parse(s)) == s
    ensures |s| > 1 ==> Parse(s) >= 10
    ensures s[0] != '0' ==> Parse(s) > 0
    decreases |s|
  {
    var init, last := s[..|s| - 1], s[|s| - 1];
    assert s == init + [last];
    if init != "" {
      PrintParse(init);
    }
  }

  predicate AllNines(s: string) {
    forall k :: 0 <= k < |s| ==> s[k] == '9'
  }

  // ---- adding one, digit by digit ----

  /** The digits of the successor, as many as before, where not all of them are nines. */
  function Increment(s: string): (r: string)
    requires AllDigits(s) && !AllNines(s)
    ensures |r| == |s| && AllDigits(r)
    decreases |s|
  {
    var init, last := s[..|s| - 1], s[|s| - 1];
    if last != '9' then init + [DigitChar(DigitValue(last) + 1)]
    else
      assert s == init + [last];
      Increment(init) + ['0']
  }

  lemma LastDigitLess(init: string, c: char, d: char)
    requires c < d
    ensures Less(init + [c], init + [d])
  {
    assert FirstDifference(init + [c], init + [d], |init|);
  }

  lemma {:induction false} IncrementAddsOne(s: string)
    requires AllDigits(s) && !AllNines(s)
    ensures Parse(Increment(s)) == Parse(s) + 1
    ensures Less(s, Increment(s))
    ensures s[0] != '0' ==> Increment(s)[0] != '0'
    decreases |s|
  {
    var init, last := s[..|s| - 1], s[|s| - 1];
    assert s == init + [last];
    if last != '9' {
      var next := DigitChar(DigitValue(last) + 1);
      ParseSnoc(init, next);
      LastDigitLess(init, last, next);
    } else {
      IncrementAddsOne(init);
      ParseSnoc(Increment(init), '0');
      LessExtends(init, Increment(init), ['9'], ['0']);
    }
  }

  function Zeros(n: nat): (s: string)
    ensures |s| == n && AllDigits(s)
  {
    if n == 0 then "" else Zeros(n - 1) + ['0']
  }

  lemma {:induction false} NinesPlusOne(s: string)
    requires AllNines(s)
    ensures AllDigits(s) && Parse("1" + Zeros(|s|)) == Parse(s) + 1
    decreases |s|
  {
    if s == "" {
      assert "1" + Zeros(0) == "" + ['1'];
      ParseSnoc("", '1');
    } else {
      var init := s[..|s| - 1];
      NinesPlusOne(init);
      assert "1" + Zeros(|s|) == ("1" + Zeros(|init|)) + ['0'];
      ParseSnoc("1" + Zeros(|init|), '0');
    }
  }

  // ---- lexicographic order ----

  /** `a` is below `b` at their first difference, or ends there. */
  ghost predicate FirstDifference(a: string, b: string, k: nat) {
    k <= |a| && k < |b| && a[..k] == b[..k] && (k == |a| || a[k] < b[k])
  }

  /** Strictly below in the order of character codes. */
  ghost predicate Less(a: string, b: string) {
    exists k: nat :: FirstDifference(a, b, k)
  }

  lemma PrefixesAgree(a: string, b: string, n: nat, k: nat)
    requires k < n <= |a| && n <= |b| && a[..n] == b[..n]
    ensures a[k] == b[k]
  {
  }

  lemma LessIsAsymmetric(a: string, b: string)
    requires Less(a, b)
    ensures !Less(b, a)
  {
  }

  /** Equal in length and below at some position: whatever follows, still below. */
  lemma LessExtends(a: string, b: string, x: string, y: string)
    requires |a| == |b| && Less(a, b)
    ensures Less(a + x, b + y)
  {
    var k: nat :| FirstDifference(a, b, k);
    assert (a + x)[..k] == a[..k] && (b + y)[..k] == b[..k];
    assert FirstDifference(a + x, b + y, k);
  }

  /** All nines: one more, in canonical digits, is lexicographically less. */
  lemma NinesCountOver(s: string)
    requires AllDigits(s) && s != "" && AllNines(s)
    ensures Less(Print(Parse(s) + 1), s) && !Less(s, Print(Parse(s) + 1))
  {
    NinesPlusOne(s);
    PrintParse("1" + Zeros(|s|));
    assert FirstDifference(Print(Parse(s) + 1), s, 0);
    LessIsAsymmetric(Print(Parse(s) + 1), s);
  }

  /** One more than canonical digits that are not all nines: the digits counted up. */
  lemma NextIsIncrement(s: string)
    requires AllDigits(s) && s != "" && !AllNines(s) && s[0] != '0'
    ensures Print(Parse(s) + 1) == Increment(s)
  {
    IncrementAddsOne(s);
    PrintParse(Increment(s));
  }

  lemma NextHasNoLeadingZero(n: nat)
    ensures Print(n + 1)[0] > '0'
  {
    ParsePrint(n + 1);
    assert IsDigit(Print(n + 1)[0]);
  }

  lemma ZeroIsBelow(s: string, next: string)
    requires s != "" && next != "" && s[0] == '0' && next[0] > '0'
    ensures Less(s, next)
  {
    assert FirstDifference(s, next, 0);
  }

  /** All other digits: one more is lexicographically more, leading zeros or not. */
  lemma OthersCountUp(s: string)
    requires AllDigits(s) && s != "" && !AllNines(s)
    ensures Less(s, Print(Parse(s) + 1))
  {
    if s[0] == '0' {
      NextHasNoLeadingZero(Parse(s));
      ZeroIsBelow(s, Print(Parse(s) + 1));
    } else {
      IncrementAddsOne(s);
      NextIsIncrement(s);
    }
  }
}
