/** The longest common prefix of completion candidates (`wq-rl/src/completion.rs`), on UTF-8 bytes. */
module CommonPrefix {
  import opened Wrappers

  type Byte = b: int | 0 <= b < 256

  predicate IsContinuation(b: Byte) {
    0x80 <= b < 0xC0
  }

  /** The number of bytes of the character a byte starts; 0 for a byte that starts none. */
  function LeadLength(b: Byte): nat {
    if b < 0x80 then 1
    else if 0xC0 <= b < 0xE0 then 2
    else if 0xE0 <= b < 0xF0 then 3
    else if 0xF0 <= b < 0xF8 then 4
    else 0
  }

  /** The byte structure every UTF-8 text has: whole characters, lead byte first. */
  ghost predicate Utf8(s: seq<Byte>)
    decreases |s|
  {
    s == [] ||
    (var k := LeadLength(s[0]);
     && 1 <= k <= |s|
     && (forall j :: 1 <= j < k ==> IsContinuation(s[j]))
     && Utf8(s[k..]))
  }

  /** Rust's `is_char_boundary`. */
  predicate IsCharBoundary(s: seq<Byte>, n: nat) {
    n == 0 || n == |s| || (n < |s| && !IsContinuation(s[n]))
  }

  lemma DropOfTake(s: seq<Byte>, k: nat, n: nat)
    requires k <= n <= |s|
    ensures s[..n][k..] == s[k..][..n - k]
  {
  }

  /** The byte test finds exactly the positions that cut between characters. */
  lemma {:induction false} BoundaryIffWholeCharacters(s: seq<Byte>, n: nat)
    requires Utf8(s) && n <= |s|
    ensures IsCharBoundary(s, n) <==> Utf8(s[..n])
    decreases |s|
  {
    if n > 0 {
      var k := LeadLength(s[0]);
      if n >= k {
        DropOfTake(s, k, n);
        BoundaryIffWholeCharacters(s[k..], n - k);
      }
    }
  }

  ghost predicate IsCommonPrefix(p: seq<Byte>, candidates: seq<seq<Byte>>) {
    forall i :: 0 <= i < |candidates| ==> p <= candidates[i]
  }

  /** A common prefix that ends between characters in every candidate. */
  ghost predicate IsCommonText(p: seq<Byte>, candidates: seq<seq<Byte>>) {
    IsCommonPrefix(p, candidates) && forall i :: 0 <= i < |candidates| ==> IsCharBoundary(candidates[i], |p|)
  }

  /** A cut that is a boundary in one candidate is one in all that share the prefix. */
  lemma BoundaryIsShared(a: seq<Byte>, b: seq<Byte>, n: nat)
    requires Utf8(a) && Utf8(b) && n <= |a| && n <= |b| && a[..n] == b[..n]
    requires IsCharBoundary(a, n)
    ensures IsCharBoundary(b, n)
  {
    BoundaryIffWholeCharacters(a, n);
    BoundaryIffWholeCharacters(b, n);
  }

  /** The common length in bytes, found by comparing neighbours position by position. */
  method CommonLength(candidates: seq<seq<Byte>>) returns (n: nat)
    requires |candidates| >= 2
    ensures n <= |candidates[0]| && IsCommonPrefix(candidates[0][..n], candidates)
    ensures forall q :: IsCommonPrefix(q, candidates) ==> |q| <= n
  {
    n := 0;
    while true
      invariant n <= |candidates[0]| && IsCommonPrefix(candidates[0][..n], candidates)
      decreases |candidates[0]| - n
    {
      for i := 0 to |candidates| - 1
        invariant i > 0 ==> n < |candidates[0]|
        invariant i > 0 ==> forall j :: 0 <= j <= i ==> n < |candidates[j]| && candidates[j][n] == candidates[0][n]
      {
        var b1, b2 := candidates[i], candidates[i + 1];
        if |b1| <= n || |b2| <= n || b1[n] != b2[n] {
          forall q | IsCommonPrefix(q, candidates)
            ensures |q| <= n
          {
            assert q <= b1 && q <= b2;
          }
          return;
        }
      }
      forall j | 0 <= j < |candidates|
        ensures candidates[0][..n + 1] <= candidates[j]
      {
        assert candidates[0][..n] <= candidates[j];
      }
      n := n + 1;
    }
  }

  lemma BoundaryIsSharedByAll(candidates: seq<seq<Byte>>, n: nat)
    requires candidates != [] && forall i :: 0 <= i < |candidates| ==> Utf8(candidates[i])
    requires n <= |candidates[0]| && IsCommonPrefix(candidates[0][..n], candidates)
    requires IsCharBoundary(candidates[0], n)
    ensures IsCommonText(candidates[0][..n], candidates) && Utf8(candidates[0][..n])
  {
    BoundaryIffWholeCharacters(candidates[0], n);
    forall i | 0 <= i < |candidates|
      ensures IsCharBoundary(candidates[i], n)
    {
      assert candidates[0][..n] <= candidates[i];
      BoundaryIsShared(candidates[0], candidates[i], n);
    }
  }

  lemma ShorterIsCommon(candidate: seq<Byte>, candidates: seq<seq<Byte>>, n: nat)
    requires 1 <= n <= |candidate| && IsCommonPrefix(candidate[..n], candidates)
    ensures IsCommonPrefix(candidate[..n - 1], candidates)
  {
  }

  lemma NoTextEndsHere(candidates: seq<seq<Byte>>, n: nat)
    requires candidates != [] && !IsCharBoundary(candidates[0], n)
    requires forall q :: IsCommonText(q, candidates) ==> |q| <= n
    ensures forall q :: IsCommonText(q, candidates) ==> |q| < n
  {
  }

  /** Backing off to a boundary loses no common text. */
  method BackOff(candidates: seq<seq<Byte>>, from: nat) returns (n: nat)
    requires candidates != [] && from <= |candidates[0]|
    requires IsCommonPrefix(candidates[0][..from], candidates)
    requires forall q :: IsCommonPrefix(q, candidates) ==> |q| <= from
    ensures n <= from && IsCommonPrefix(candidates[0][..n], candidates) && IsCharBoundary(candidates[0], n)
    ensures forall q :: IsCommonText(q, candidates) ==> |q| <= n
  {
    n := from;
    while !IsCharBoundary(candidates[0], n)
      invariant n <= from && IsCommonPrefix(candidates[0][..n], candidates)
      invariant forall q :: IsCommonText(q, candidates) ==> |q| <= n
      decreases n
    {
      NoTextEndsHere(candidates, n);
      ShorterIsCommon(candidates[0], candidates, n);
      n := n - 1;
    }
  }

  /** For two or more candidates: the longest common prefix that splits no character; None iff it is empty. */
  method LongestCommonPrefix(candidates: seq<seq<Byte>>) returns (r: Option<seq<Byte>>)
    requires forall i :: 0 <= i < |candidates| ==> Utf8(candidates[i])
    ensures candidates == [] ==> r == None
    ensures |candidates| == 1 ==> r == Some(candidates[0])
    ensures |candidates| >= 2 ==>
      var prefix := if r.Some? then r.value else [];
      && (r.Some? <==> prefix != [])
      && IsCommonText(prefix, candidates)
      && Utf8(prefix)
      && forall q :: IsCommonText(q, candidates) ==> |q| <= |prefix|
  {
    if candidates == [] {
      return None;
    } else if |candidates| == 1 {
      return Some(candidates[0]);
    }
    var length := CommonLength(candidates);
    var n := BackOff(candidates, length);
    BoundaryIsSharedByAll(candidates, n);
    if n == 0 {
      assert candidates[0][..n] == [];
      return None;
    }
    return Some(candidates[0][..n]);
  }
}
