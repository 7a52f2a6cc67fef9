/**
 Aligning two lists of lines (`match_similar_lines` in `hotchoco.py`): an order-preserving
 matching of maximum total similarity.  The ratios of `difflib` are arbitrary functions into the
 reals; floating-point rounding is not modelled.
 */
module LineAlignment {
  const MIN_DIFF_LINE_SIMILARITY: real := 0.5
  const MAX_DIFF_LINE_COMPARISONS: nat := 100_000

  /** A golden line and an actual line, by index. */
  datatype Pair = Pair(golden: nat, actual: nat)

  /** The two line lists and the three similarity ratios a sequence matcher offers for two lines. */
  datatype Problem = Problem(golden: seq<string>, actual: seq<string>,
                             realQuickRatio: (string, string) -> real,
                             quickRatio: (string, string) -> real,
                             ratio: (string, string) -> real) {
    function Ratio(g: nat, a: nat): real
      requires g < |golden| && a < |actual|
    {
      ratio(golden[g], actual[a])
    }

    /** What the table uses: zero unless both cheap ratios pass the threshold. */
    function Similarity(g: nat, a: nat): real
      requires g < |golden| && a < |actual|
    {
      if && realQuickRatio(golden[g], actual[a]) > MIN_DIFF_LINE_SIMILARITY
         && quickRatio(golden[g], actual[a]) > MIN_DIFF_LINE_SIMILARITY
      then ratio(golden[g], actual[a])
      else 0.0
    }

    /** The best total over the first `g` golden and the first `a` actual lines. */
    function Score(g: nat, a: nat): real
      requires g <= |golden| && a <= |actual|
    {
      if g == 0 || a == 0 then 0.0
      else
        var skip := Max(Score(g, a - 1), Score(g - 1, a));
        if Similarity(g - 1, a - 1) > MIN_DIFF_LINE_SIMILARITY
        then Max(skip, Score(g - 1, a - 1) + Similarity(g - 1, a - 1))
        else skip
    }

    // ---- matchings ----

    ghost predicate IsPair(p: Pair) {
      p.golden < |golden| && p.actual < |actual| && Similarity(p.golden, p.actual) > MIN_DIFF_LINE_SIMILARITY
    }

    /** Pairs of similar lines in an order that neither list contradicts. */
    ghost predicate IsMatching(m: seq<Pair>) {
      && (forall k :: 0 <= k < |m| ==> IsPair(m[k]))
      && (forall k, l :: 0 <= k < l < |m| ==> m[k].golden < m[l].golden && m[k].actual < m[l].actual)
    }

    ghost function Total(m: seq<Pair>): real
      requires forall k :: 0 <= k < |m| ==> IsPair(m[k])
    {
      if m == [] then 0.0
      else
        var last := m[|m| - 1];
        assert IsPair(last);
        Total(m[..|m| - 1]) + Similarity(last.golden, last.actual)
    }

    // ---- no matching beats the table ----

    lemma {:induction false} ScoreIsUpperBound(m: seq<Pair>, g: nat, a: nat)
      requires g <= |golden| && a <= |actual|
      requires IsMatching(m)
      requires m != [] ==> m[|m| - 1].golden < g && m[|m| - 1].actual < a
      ensures Total(m) <= Score(g, a)
      decreases g + a
    {
      if m == [] {
        ScoreIsNonnegative(g, a);
      } else {
        var last, init := m[|m| - 1], m[..|m| - 1];
        if last.golden < g - 1 {
          ScoreIsUpperBound(m, g - 1, a);
        } else if last.actual < a - 1 {
          ScoreIsUpperBound(m, g, a - 1);
        } else {
          assert init != [] ==> init[|init| - 1] == m[|m| - 2];
          ScoreIsUpperBound(init, g - 1, a - 1);
        }
      }
    }

    lemma {:induction false} ScoreIsNonnegative(g: nat, a: nat)
      requires g <= |golden| && a <= |actual|
      ensures 0.0 <= Score(g, a)
      decreases g + a
    {
      if g > 0 && a > 0 {
        ScoreIsNonnegative(g - 1, a);
      }
    }

    // ---- the path the directions describe ----

    /** Where a cell's score comes from; ties go to the match, then to skipping the actual line. */
    function Direction(g: nat, a: nat): nat
      requires 1 <= g <= |golden| && 1 <= a <= |actual|
    {
      var similarity := Similarity(g - 1, a - 1);
      var matchScore := Score(g - 1, a - 1) + similarity;
      if && similarity > MIN_DIFF_LINE_SIMILARITY
         && matchScore >= Score(g, a - 1) && matchScore >= Score(g - 1, a) then MATCH
      else if Score(g, a - 1) >= Score(g - 1, a) then SKIP_ACTUAL
      else SKIP_GOLDEN
    }

    /** The pairs on the way from a cell to the edge of the table. */
    function Path(g: nat, a: nat): seq<Pair>
      requires g <= |golden| && a <= |actual|
      decreases g + a
    {
      if g == 0 || a == 0 then []
      else if Direction(g, a) == MATCH then Path(g - 1, a - 1) + [Pair(g - 1, a - 1)]
      else if Direction(g, a) == SKIP_ACTUAL then Path(g, a - 1)
      else Path(g - 1, a)
    }

    lemma DirectionLeadsBack(g: nat, a: nat)
      requires 1 <= g <= |golden| && 1 <= a <= |actual|
      ensures Direction(g, a) == MATCH ==>
        && Similarity(g - 1, a - 1) > MIN_DIFF_LINE_SIMILARITY
        && Score(g, a) == Score(g - 1, a - 1) + Similarity(g - 1, a - 1)
      ensures Direction(g, a) == SKIP_ACTUAL ==> Score(g, a) == Score(g, a - 1)
      ensures Direction(g, a) == SKIP_GOLDEN ==> Score(g, a) == Score(g - 1, a)
    {
    }

    /** All pairs lie below the cell. */
    ghost predicate Below(m: seq<Pair>, g: nat, a: nat) {
      forall k :: 0 <= k < |m| ==> m[k].golden < g && m[k].actual < a
    }

    /** A matching below the cell whose total is the cell's score. */
    ghost predicate Attains(m: seq<Pair>, g: nat, a: nat)
      requires g <= |golden| && a <= |actual|
    {
      IsMatching(m) && Below(m, g, a) && Total(m) == Score(g, a)
    }

    lemma AttainsByMatch(m: seq<Pair>, g: nat, a: nat)
      requires 1 <= g <= |golden| && 1 <= a <= |actual|
      requires Attains(m, g - 1, a - 1) && Direction(g, a) == MATCH
      ensures Attains(m + [Pair(g - 1, a - 1)], g, a)
    {
      DirectionLeadsBack(g, a);
      var m' := m + [Pair(g - 1, a - 1)];
      assert m'[..|m'| - 1] == m && m'[|m'| - 1] == Pair(g - 1, a - 1);
    }

    lemma AttainsBySkip(m: seq<Pair>, g: nat, a: nat)
      requires 1 <= g <= |golden| && 1 <= a <= |actual|
      requires Direction(g, a) == SKIP_ACTUAL ==> Attains(m, g, a - 1)
      requires Direction(g, a) == SKIP_GOLDEN ==> Attains(m, g - 1, a)
      requires Direction(g, a) != MATCH
      ensures Attains(m, g, a)
    {
    }

    /** Following the directions collects a matching whose total is the cell's score. */
    lemma {:induction false} PathAttainsScore(g: nat, a: nat)
      requires g <= |golden| && a <= |actual|
      ensures Attains(Path(g, a), g, a)
      decreases g + a
    {
      if g == 0 || a == 0 {
        assert Path(g, a) == [];
      } else if Direction(g, a) == MATCH {
        PathAttainsScore(g - 1, a - 1);
        AttainsByMatch(Path(g - 1, a - 1), g, a);
      } else if Direction(g, a) == SKIP_ACTUAL {
        PathAttainsScore(g, a - 1);
        AttainsBySkip(Path(g, a - 1), g, a);
      } else {
        PathAttainsScore(g - 1, a);
        AttainsBySkip(Path(g - 1, a), g, a);
      }
    }

    /** No order-preserving matching above the threshold has a larger total. */
    lemma PathIsOptimal(m: seq<Pair>, best: seq<Pair>)
      requires IsMatching(m) && best == Path(|golden|, |actual|)
      ensures IsMatching(best) && Total(m) <= Total(best)
    {
      ScoreIsUpperBound(m, |golden|, |actual|);
      PathAttainsScore(|golden|, |actual|);
    }

    // ---- which of the best matchings it is ----

    ghost predicate EndsIn(m: seq<Pair>, p: Pair) {
      m != [] && m[|m| - 1] == p
    }

    /** A best matching that pairs the last two lines. */
    ghost predicate CanMatchLast(g: nat, a: nat)
      requires 1 <= g <= |golden| && 1 <= a <= |actual|
    {
      exists m :: Attains(m, g, a) && EndsIn(m, Pair(g - 1, a - 1))
    }

    /** A best matching that leaves the last actual line alone. */
    ghost predicate CanSkipActual(g: nat, a: nat)
      requires 1 <= g <= |golden| && 1 <= a <= |actual|
    {
      exists m :: Attains(m, g, a) && Below(m, g, a - 1)
    }

    lemma LastPairIsTaken(m: seq<Pair>, g: nat, a: nat)
      requires 1 <= g <= |golden| && 1 <= a <= |actual|
      requires Attains(m, g, a) && EndsIn(m, Pair(g - 1, a - 1))
      ensures Direction(g, a) == MATCH
    {
      var init := m[..|m| - 1];
      assert init != [] ==> init[|init| - 1] == m[|m| - 2];
      assert IsPair(m[|m| - 1]);
      ScoreIsUpperBound(init, g - 1, a - 1);
    }

    lemma SkippingIsAsGood(m: seq<Pair>, g: nat, a: nat)
      requires 1 <= g <= |golden| && 1 <= a <= |actual|
      requires Attains(m, g, a) && Below(m, g, a - 1)
      ensures Score(g, a - 1) >= Score(g, a) >= Score(g - 1, a)
    {
      ScoreIsUpperBound(m, g, a - 1);
    }

    /**
     Among the best matchings the path is the one that pairs the last two lines if one of them does,
     otherwise leaves the last actual line alone if one of them does, and so on from the end.
     */
    lemma PathPrefersLateMatches(g: nat, a: nat)
      requires 1 <= g <= |golden| && 1 <= a <= |actual|
      ensures Path(g, a) ==
              if CanMatchLast(g, a) then Path(g - 1, a - 1) + [Pair(g - 1, a - 1)]
              else if CanSkipActual(g, a) then Path(g, a - 1)
              else Path(g - 1, a)
    {
      PathAttainsScore(g, a);
      if Direction(g, a) == MATCH {
        assert EndsIn(Path(g, a), Pair(g - 1, a - 1));
      } else if Direction(g, a) == SKIP_ACTUAL {
        PathAttainsScore(g, a - 1);
        assert Attains(Path(g, a), g, a) && Below(Path(g, a), g, a - 1);
      }
      if CanMatchLast(g, a) {
        var m :| Attains(m, g, a) && EndsIn(m, Pair(g - 1, a - 1));
        LastPairIsTaken(m, g, a);
      } else if CanSkipActual(g, a) {
        var m :| Attains(m, g, a) && Below(m, g, a - 1);
        SkippingIsAsGood(m, g, a);
      }
    }

    /** A pair is one that passes the threshold by all three ratios, and counts as much as the exact one. */
    lemma PairsPassAllRatios(g: nat, a: nat)
      requires g < |golden| && a < |actual|
      ensures IsPair(Pair(g, a)) <==>
        && realQuickRatio(golden[g], actual[a]) > 0.5
        && quickRatio(golden[g], actual[a]) > 0.5
        && ratio(golden[g], actual[a]) > 0.5
      ensures IsPair(Pair(g, a)) ==> Total([Pair(g, a)]) == ratio(golden[g], actual[a])
    {
      if IsPair(Pair(g, a)) {
        var m := [Pair(g, a)];
        assert m[..0] == [] && m[|m| - 1] == Pair(g, a);
        assert IsPair(m[0]);
      }
    }

    /**
     The matcher's cheap ratios are upper bounds of the exact one, so pruning with them changes
     no pair above the threshold.
     */
    lemma QuickRatiosOnlyPrune(p: Pair)
      requires p.golden < |golden| && p.actual < |actual|
      requires Ratio(p.golden, p.actual) <= quickRatio(golden[p.golden], actual[p.actual])
      requires Ratio(p.golden, p.actual) <= realQuickRatio(golden[p.golden], actual[p.actual])
      ensures IsPair(p) <==> Ratio(p.golden, p.actual) > MIN_DIFF_LINE_SIMILARITY
      ensures IsPair(p) ==> Similarity(p.golden, p.actual) == Ratio(p.golden, p.actual)
    {
    }
  }

  function Max(x: real, y: real): real {
    if x >= y then x else y
  }

  function Reversed<T>(s: seq<T>): seq<T> {
    if s == [] then [] else [s[|s| - 1]] + Reversed(s[..|s| - 1])
  }

  const MATCH: nat := 1
  const SKIP_ACTUAL: nat := 2
  const SKIP_GOLDEN: nat := 3

  ghost predicate RowHolds(p: Problem, scores: seq<real>, a: nat, upTo: nat)
    requires a <= |p.actual|
  {
    |scores| == upTo <= |p.golden| + 1 && forall g :: 0 <= g < upTo ==> scores[g] == p.Score(g, a)
  }

  ghost predicate DirectionsHold(p: Problem, directions: array2<nat>, rows: nat, cells: nat)
    reads directions
  {
    && directions.Length0 == |p.actual| + 1 && directions.Length1 == |p.golden| + 1
    && forall a, g :: 1 <= a <= |p.actual| && 1 <= g <= |p.golden| && (a <= rows || (a == rows + 1 && g <= cells))
         ==> directions[a, g] == p.Direction(g, a)
  }

  /** One cell: the branch the source takes, its score and its direction. */
  method FillCell(p: Problem, previousScores: seq<real>, currentScores: seq<real>, g: nat, a: nat)
    returns (score: real, direction: nat)
    requires 1 <= g <= |p.golden| && 1 <= a <= |p.actual|
    requires RowHolds(p, previousScores, a - 1, |p.golden| + 1)
    requires RowHolds(p, currentScores, a, g)
    ensures score == p.Score(g, a) && direction == p.Direction(g, a)
  {
    var similarity := p.Similarity(g - 1, a - 1);
    var matchScore := previousScores[g - 1] + similarity;
    var skipActualScore := previousScores[g];
    var skipGoldenScore := currentScores[g - 1];
    if similarity > MIN_DIFF_LINE_SIMILARITY && matchScore >= skipActualScore && matchScore >= skipGoldenScore {
      return matchScore, MATCH;
    } else if skipActualScore >= skipGoldenScore {
      return skipActualScore, SKIP_ACTUAL;
    } else {
      return skipGoldenScore, SKIP_GOLDEN;
    }
  }

  /** One row of scores, appended cell by cell, and the directions beside it. */
  method FillRow(p: Problem, directions: array2<nat>, previousScores: seq<real>, a: nat)
    returns (currentScores: seq<real>)
    requires 1 <= a <= |p.actual|
    requires RowHolds(p, previousScores, a - 1, |p.golden| + 1)
    requires DirectionsHold(p, directions, a - 1, 0)
    modifies directions
    ensures RowHolds(p, currentScores, a, |p.golden| + 1)
    ensures DirectionsHold(p, directions, a, 0)
  {
    currentScores := [0.0];
    for g := 1 to |p.golden| + 1
      invariant RowHolds(p, currentScores, a, g)
      invariant DirectionsHold(p, directions, a - 1, g - 1)
    {
      var score, direction := FillCell(p, previousScores, currentScores, g, a);
      currentScores := currentScores + [score];
      directions[a, g] := direction;
    }
  }

  /** The rolling rows and the direction table. */
  method FillTable(p: Problem) returns (directions: array2<nat>, lastScores: seq<real>)
    ensures fresh(directions)
    ensures DirectionsHold(p, directions, |p.actual|, 0)
    ensures RowHolds(p, lastScores, |p.actual|, |p.golden| + 1)
  {
    directions := new nat[|p.actual| + 1, |p.golden| + 1]((_, _) => 0);
    var previousScores := seq(|p.golden| + 1, _ => 0.0);
    for a := 1 to |p.actual| + 1
      invariant RowHolds(p, previousScores, a - 1, |p.golden| + 1)
      invariant DirectionsHold(p, directions, a - 1, 0)
    {
      previousScores := FillRow(p, directions, previousScores, a);
    }
    lastScores := previousScores;
  }

  method TraceBack(p: Problem, directions: array2<nat>) returns (matches: seq<Pair>)
    requires DirectionsHold(p, directions, |p.actual|, 0)
    ensures matches == p.Path(|p.golden|, |p.actual|)
  {
    matches := [];
    var g: nat, a: nat := |p.golden|, |p.actual|;
    ghost var path := p.Path(g, a);
    assert path + [] == path;
    while g > 0 && a > 0
      invariant g <= |p.golden| && a <= |p.actual|
      invariant p.Path(g, a) + Reversed(matches) == path
      decreases g + a
    {
      var direction := directions[a, g];
      if direction == MATCH {
        PathMatches(p, g, a, matches);
        matches := matches + [Pair(g - 1, a - 1)];
        g := g - 1;
        a := a - 1;
      } else if direction == SKIP_ACTUAL {
        a := a - 1;
      } else {
        g := g - 1;
      }
    }
    PathEnds(p, g, a, matches);
    matches := Reversed(matches);
  }

  lemma PathEnds(p: Problem, g: nat, a: nat, matches: seq<Pair>)
    requires g <= |p.golden| && a <= |p.actual| && (g == 0 || a == 0)
    ensures p.Path(g, a) + Reversed(matches) == Reversed(matches)
  {
  }

  lemma PathMatches(p: Problem, g: nat, a: nat, matches: seq<Pair>)
    requires 1 <= g <= |p.golden| && 1 <= a <= |p.actual| && p.Direction(g, a) == MATCH
    ensures p.Path(g, a) + Reversed(matches) == p.Path(g - 1, a - 1) + Reversed(matches + [Pair(g - 1, a - 1)])
  {
    var before, pair, rest := p.Path(g - 1, a - 1), Pair(g - 1, a - 1), Reversed(matches);
    ReversedSnoc(matches, pair);
    assert (before + [pair]) + rest == before + ([pair] + rest);
  }

  lemma ReversedSnoc<T>(s: seq<T>, x: T)
    ensures Reversed(s + [x]) == [x] + Reversed(s)
  {
    assert (s + [x])[..|s|] == s;
  }

  /**
   Within the comparison limit the result is the path through the table: a matching whose total
   is the final cell, which no order-preserving above-threshold matching exceeds.
   */
  method MatchSimilarLines(p: Problem) returns (matches: seq<Pair>)
    ensures p.IsMatching(matches)
    ensures var within := |p.golden| * |p.actual| <= 100_000;
      if within then
        && matches == p.Path(|p.golden|, |p.actual|)
        && p.Total(matches) == p.Score(|p.golden|, |p.actual|)
        && forall m :: p.IsMatching(m) ==> p.Total(m) <= p.Total(matches)
      else matches == []
  {
    if p.golden == [] || p.actual == [] || |p.golden| * |p.actual| > MAX_DIFF_LINE_COMPARISONS {
      matches := [];
    } else {
      var directions, _ := FillTable(p);
      matches := TraceBack(p, directions);
    }
    if matches == p.Path(|p.golden|, |p.actual|) {
      p.PathAttainsScore(|p.golden|, |p.actual|);
      forall m | p.IsMatching(m)
        ensures p.Total(m) <= p.Total(matches)
      {
        p.PathIsOptimal(m, matches);
      }
    }
  }
}
