/** Scoring behavioural evals: per scenario, and micro-averaged over scenarios. */
module EvalScoring {
  import opened Options

  datatype Recommendation = Recommendation(recommendationType: string, entityId: Option<Id>)

  datatype Expectation = Expectation(
    mustInclude: bool,
    mustExclude: bool,
    recommendationType: string,
    entityMatcher: Option<Recommendation -> bool>)

  predicate Matches(r: Recommendation, e: Expectation) {
    && r.recommendationType == e.recommendationType
    && (e.entityMatcher.Some? ==> e.entityMatcher.value(r))
  }

  predicate Produced(recommendations: seq<Recommendation>, e: Expectation) {
    exists r <- recommendations :: Matches(r, e)
  }

  /** How many of the required (and of the forbidden) expectations there are, and how many were satisfied. */
  datatype Score = Score(includeHits: nat, includeTotal: nat, excludeHits: nat, excludeTotal: nat) {
    function Recall(): real {
      Ratio(includeHits, includeTotal)
    }

    function Precision(): real {
      Ratio(excludeHits, excludeTotal)
    }
  }

  /** Vacuously 1.0 when there is nothing to satisfy. */
  function Ratio(hits: nat, total: nat): real {
    if total == 0 then 1.0 else hits as real / total as real
  }

  function Count(expected: seq<Expectation>, counts: Expectation -> bool): nat {
    if expected == [] then 0
    else (if counts(expected[0]) then 1 else 0) + Count(expected[1..], counts)
  }

  function ScoreScenario(expected: seq<Expectation>, recommendations: seq<Recommendation>): Score {
    Score(
      Count(expected, (e: Expectation) => e.mustInclude && Produced(recommendations, e)),
      Count(expected, (e: Expectation) => e.mustInclude),
      Count(expected, (e: Expectation) => e.mustExclude && !Produced(recommendations, e)),
      Count(expected, (e: Expectation) => e.mustExclude))
  }

  function Sum(scores: seq<Score>, field: Score -> nat): nat {
    if scores == [] then 0 else field(scores[0]) + Sum(scores[1..], field)
  }

  const INCLUDE_HITS := (s: Score) => s.includeHits
  const INCLUDE_TOTAL := (s: Score) => s.includeTotal
  const EXCLUDE_HITS := (s: Score) => s.excludeHits
  const EXCLUDE_TOTAL := (s: Score) => s.excludeTotal

  function Aggregate(scores: seq<Score>): Score {
    Score(Sum(scores, INCLUDE_HITS), Sum(scores, INCLUDE_TOTAL), Sum(scores, EXCLUDE_HITS), Sum(scores, EXCLUDE_TOTAL))
  }

  // ── What is counted ────────────────────────────────────────────────────────

  /** The expectations a predicate picks, by their places in the list. */
  ghost function Picked(expected: seq<Expectation>, counts: Expectation -> bool): set<nat> {
    set i: nat | i < |expected| && counts(expected[i])
  }

  ghost function Shifted(s: set<nat>): set<nat> {
    set i: nat | i in s :: i + 1
  }

  lemma InShifted(s: set<nat>, x: nat)
    ensures x in Shifted(s) <==> x > 0 && x - 1 in s
  {
    if x > 0 && x - 1 in s {
      var i: nat := x - 1;
      assert i in s && i + 1 == x;
    }
  }

  lemma {:induction false} ShiftKeepsSize(s: set<nat>)
    ensures |Shifted(s)| == |s|
  {
    if s == {} {
      assert Shifted(s) == {};
    } else {
      var x :| x in s;
      ShiftKeepsSize(s - {x});
      forall y: nat ensures y in Shifted(s) <==> y in Shifted(s - {x}) + {x + 1} {
        InShifted(s, y);
        InShifted(s - {x}, y);
      }
      InShifted(s - {x}, x + 1);
      assert Shifted(s) == Shifted(s - {x}) + {x + 1};
    }
  }

  lemma {:induction false} CountIsSize(expected: seq<Expectation>, counts: Expectation -> bool)
    ensures Count(expected, counts) == |Picked(expected, counts)|
  {
    if expected == [] {
      assert Picked(expected, counts) == {};
    } else {
      var rest := Picked(expected[1..], counts);
      CountIsSize(expected[1..], counts);
      ShiftKeepsSize(rest);
      InShifted(rest, 0);
      forall i: nat ensures i in Picked(expected, counts) <==> i in Shifted(rest) || (i == 0 && counts(expected[0])) {
        InShifted(rest, i);
      }
      assert Picked(expected, counts) == Shifted(rest) + (if counts(expected[0]) then {0} else {});
    }
  }

  /** Some recommendation has the expected type and passes the matcher, where there is one. */
  ghost predicate Met(recommendations: seq<Recommendation>, e: Expectation) {
    exists i :: 0 <= i < |recommendations|
                && recommendations[i].recommendationType == e.recommendationType
                && (e.entityMatcher == None || e.entityMatcher.value(recommendations[i]))
  }

  /** Totals count what is required or forbidden; hits count what is required and met, or forbidden and not met. */
  lemma ScoreCounts(expected: seq<Expectation>, recommendations: seq<Recommendation>)
    ensures var s := ScoreScenario(expected, recommendations);
            && s.includeTotal == |set i: nat | i < |expected| && expected[i].mustInclude|
            && s.includeHits ==
               |set i: nat | i < |expected| && expected[i].mustInclude && Met(recommendations, expected[i])|
            && s.excludeTotal == |set i: nat | i < |expected| && expected[i].mustExclude|
            && s.excludeHits ==
               |set i: nat | i < |expected| && expected[i].mustExclude && !Met(recommendations, expected[i])|
  {
    forall e ensures Produced(recommendations, e) <==> Met(recommendations, e) { ProducedIffMet(recommendations, e); }
    var hit := (e: Expectation) => e.mustInclude && Produced(recommendations, e);
    var kept := (e: Expectation) => e.mustExclude && !Produced(recommendations, e);
    CountIsSize(expected, hit);
    CountIsSize(expected, (e: Expectation) => e.mustInclude);
    CountIsSize(expected, kept);
    CountIsSize(expected, (e: Expectation) => e.mustExclude);
    assert Picked(expected, hit) ==
           set i: nat | i < |expected| && expected[i].mustInclude && Met(recommendations, expected[i]);
    assert Picked(expected, kept) ==
           set i: nat | i < |expected| && expected[i].mustExclude && !Met(recommendations, expected[i]);
    assert Picked(expected, (e: Expectation) => e.mustInclude) ==
           set i: nat | i < |expected| && expected[i].mustInclude;
    assert Picked(expected, (e: Expectation) => e.mustExclude) ==
           set i: nat | i < |expected| && expected[i].mustExclude;
  }

  lemma ProducedIffMet(recommendations: seq<Recommendation>, e: Expectation)
    ensures Produced(recommendations, e) <==> Met(recommendations, e)
  {
    if Met(recommendations, e) {
      var i :| 0 <= i < |recommendations|
               && recommendations[i].recommendationType == e.recommendationType
               && (e.entityMatcher == None || e.entityMatcher.value(recommendations[i]));
      assert recommendations[i] in recommendations && Matches(recommendations[i], e);
    }
  }

  // ── Additivity and order ───────────────────────────────────────────────────

  lemma {:induction false} SumIsAdditive(a: seq<Score>, b: seq<Score>, field: Score -> nat)
    ensures Sum(a + b, field) == Sum(a, field) + Sum(b, field)
  {
    if a == [] {
      assert a + b == b;
    } else {
      SumIsAdditive(a[1..], b, field);
      assert (a + b)[0] == a[0] && (a + b)[1..] == a[1..] + b;
    }
  }

  lemma RemoveFirst<T>(a: seq<T>, b: seq<T>, i: nat)
    requires a != [] && multiset(a) == multiset(b) && i < |b| && b[i] == a[0]
    ensures multiset(a[1..]) == multiset(b[..i] + b[i + 1..])
    ensures b == b[..i] + ([b[i]] + b[i + 1..])
  {
    assert a == [a[0]] + a[1..] && b == b[..i] + ([b[i]] + b[i + 1..]);
    assert multiset(a) == multiset{a[0]} + multiset(a[1..]);
    assert multiset(b) == multiset(b[..i]) + (multiset{b[i]} + multiset(b[i + 1..]));
    assert multiset(a[1..]) == multiset(a) - multiset{a[0]};
    assert multiset(b[..i] + b[i + 1..]) == multiset(b) - multiset{b[i]};
  }

  lemma {:induction false} SumIgnoresOrder(a: seq<Score>, b: seq<Score>, field: Score -> nat)
    requires multiset(a) == multiset(b)
    ensures Sum(a, field) == Sum(b, field)
    decreases |a|
  {
    if a == [] {
      assert |multiset(b)| == |b| == 0;
    } else {
      assert a[0] in multiset(b);
      var i :| 0 <= i < |b| && b[i] == a[0];
      var front, back := b[..i], b[i + 1..];
      RemoveFirst(a, b, i);
      SumIgnoresOrder(a[1..], front + back, field);
      SumIsAdditive(front, back, field);
      SumIsAdditive(front, [b[i]] + back, field);
      assert ([b[i]] + back)[1..] == back;
    }
  }

  /** Aggregating two batches together adds their four counts. */
  lemma AggregateIsAdditive(a: seq<Score>, b: seq<Score>)
    ensures var whole, p, q := Aggregate(a + b), Aggregate(a), Aggregate(b);
            && whole.includeHits == p.includeHits + q.includeHits
            && whole.includeTotal == p.includeTotal + q.includeTotal
            && whole.excludeHits == p.excludeHits + q.excludeHits
            && whole.excludeTotal == p.excludeTotal + q.excludeTotal
  {
    SumIsAdditive(a, b, INCLUDE_HITS);
    SumIsAdditive(a, b, INCLUDE_TOTAL);
    SumIsAdditive(a, b, EXCLUDE_HITS);
    SumIsAdditive(a, b, EXCLUDE_TOTAL);
  }

  /** Scenarios may be run in any order. */
  lemma AggregateIgnoresOrder(a: seq<Score>, b: seq<Score>)
    requires multiset(a) == multiset(b)
    ensures Aggregate(a) == Aggregate(b)
  {
    SumIgnoresOrder(a, b, INCLUDE_HITS);
    SumIgnoresOrder(a, b, INCLUDE_TOTAL);
    SumIgnoresOrder(a, b, EXCLUDE_HITS);
    SumIgnoresOrder(a, b, EXCLUDE_TOTAL);
  }

  // ── The mediant bound ──────────────────────────────────────────────────────

  /** A ratio lies within bounds exactly when the hits do, scaled by the total. */
  lemma RatioBounds(hits: nat, total: nat, lo: real, hi: real)
    requires total > 0
    ensures lo <= Ratio(hits, total) <= hi <==> Bounded(hits, total, lo, hi)
  {
    var q := Ratio(hits, total);
    assert q * total as real == hits as real;
    if lo <= q <= hi {
      assert lo * total as real <= q * total as real <= hi * total as real;
    }
    if lo * total as real <= hits as real <= hi * total as real {
      assert (q - lo) * total as real >= 0.0 && (hi - q) * total as real >= 0.0;
    }
  }

  /** Hits never exceed totals, so a score without totals has no hits. */
  ghost predicate Sensible(s: Score) {
    s.includeHits <= s.includeTotal && s.excludeHits <= s.excludeTotal
  }

  lemma {:induction false} CountIsMonotone(
    expected: seq<Expectation>, fewer: Expectation -> bool, more: Expectation -> bool)
    requires forall e <- expected :: fewer(e) ==> more(e)
    ensures Count(expected, fewer) <= Count(expected, more)
  {
    if expected == [] {
    } else {
      CountIsMonotone(expected[1..], fewer, more);
    }
  }

  lemma ScenarioScoresAreSensible(expected: seq<Expectation>, recommendations: seq<Recommendation>)
    ensures Sensible(ScoreScenario(expected, recommendations))
  {
    CountIsMonotone(
      expected, (e: Expectation) => e.mustInclude && Produced(recommendations, e), (e: Expectation) => e.mustInclude);
    CountIsMonotone(
      expected, (e: Expectation) => e.mustExclude && !Produced(recommendations, e), (e: Expectation) => e.mustExclude);
  }

  ghost predicate Within(scores: seq<Score>, lo: real, hi: real) {
    forall s <- scores :: s.includeTotal > 0 ==> lo <= s.Recall() <= hi
  }

  /** Hits lie within bounds scaled by the total. */
  predicate Bounded(hits: nat, total: nat, lo: real, hi: real) {
    lo * total as real <= hits as real <= hi * total as real
  }

  lemma BoundsAdd(h: nat, t: nat, h': nat, t': nat, lo: real, hi: real)
    requires Bounded(h, t, lo, hi) && Bounded(h', t', lo, hi)
    ensures Bounded(h + h', t + t', lo, hi)
  {
    assert lo * (t as real + t' as real) == lo * t as real + lo * t' as real;
    assert hi * (t as real + t' as real) == hi * t as real + hi * t' as real;
  }

  lemma ZeroIsBounded(lo: real, hi: real)
    ensures Bounded(0, 0, lo, hi)
  {
    assert lo * 0.0 == 0.0 && hi * 0.0 == 0.0;
  }

  lemma ScoreIsBounded(s: Score, lo: real, hi: real)
    requires Sensible(s) && (s.includeTotal > 0 ==> lo <= s.Recall() <= hi)
    ensures Bounded(s.includeHits, s.includeTotal, lo, hi)
  {
    if s.includeTotal > 0 {
      RatioBounds(s.includeHits, s.includeTotal, lo, hi);
    } else {
      ZeroIsBounded(lo, hi);
    }
  }

  /** What holds of every score's counts and is kept by adding counts holds of the sums. */
  lemma {:induction false} SumsInherit(scores: seq<Score>, ok: (nat, nat) -> bool)
    requires ok(0, 0) && forall h: nat, t: nat, h': nat, t': nat :: ok(h, t) && ok(h', t') ==> ok(h + h', t + t')
    requires forall s <- scores :: ok(s.includeHits, s.includeTotal)
    ensures ok(Sum(scores, INCLUDE_HITS), Sum(scores, INCLUDE_TOTAL))
  {
    if scores == [] {
    } else {
      SumsInherit(scores[1..], ok);
    }
  }

  lemma AggregateHitsAreBounded(scores: seq<Score>, lo: real, hi: real)
    requires Within(scores, lo, hi) && forall s <- scores :: Sensible(s)
    ensures Bounded(Sum(scores, INCLUDE_HITS), Sum(scores, INCLUDE_TOTAL), lo, hi)
  {
    var ok := (h: nat, t: nat) => Bounded(h, t, lo, hi);
    forall h: nat, t: nat, h': nat, t': nat | ok(h, t) && ok(h', t') ensures ok(h + h', t + t') {
      BoundsAdd(h, t, h', t', lo, hi);
    }
    forall s | s in scores ensures ok(s.includeHits, s.includeTotal) {
      ScoreIsBounded(s, lo, hi);
    }
    ZeroIsBounded(lo, hi);
    SumsInherit(scores, ok);
  }

  lemma {:induction false} Extremes(scores: seq<Score>) returns (least: Score, most: Score)
    requires exists s <- scores :: s.includeTotal > 0
    ensures least in scores && least.includeTotal > 0 && most in scores && most.includeTotal > 0
    ensures Within(scores, least.Recall(), most.Recall())
  {
    if exists s <- scores[1..] :: s.includeTotal > 0 {
      least, most := Extremes(scores[1..]);
      if scores[0].includeTotal > 0 {
        if scores[0].Recall() < least.Recall() { least := scores[0]; }
        if scores[0].Recall() > most.Recall() { most := scores[0]; }
      }
    } else {
      least, most := scores[0], scores[0];
    }
  }

  lemma {:induction false} TotalIsPositiveIff(scores: seq<Score>)
    ensures Sum(scores, INCLUDE_TOTAL) > 0 <==> exists s <- scores :: s.includeTotal > 0
  {
    if scores == [] {
    } else {
      TotalIsPositiveIff(scores[1..]);
      assert forall s :: s in scores <==> s == scores[0] || s in scores[1..];
    }
  }

  ghost predicate Between(scores: seq<Score>, least: Score, most: Score) {
    && least in scores && most in scores
    && least.includeTotal > 0 && most.includeTotal > 0
    && Within(scores, least.Recall(), most.Recall())
    && least.Recall() <= Aggregate(scores).Recall() <= most.Recall()
  }

  /** Micro-averaged recall lies between the worst and the best scenario that requires anything at all. */
  lemma RecallIsBetweenExtremes(scores: seq<Score>)
    requires forall s <- scores :: Sensible(s)
    ensures if exists s <- scores :: s.includeTotal > 0
            then exists least, most :: Between(scores, least, most)
            else Aggregate(scores).Recall() == 1.0
  {
    TotalIsPositiveIff(scores);
    if exists s <- scores :: s.includeTotal > 0 {
      var least, most := Extremes(scores);
      AggregateHitsAreBounded(scores, least.Recall(), most.Recall());
      RatioBounds(Sum(scores, INCLUDE_HITS), Sum(scores, INCLUDE_TOTAL), least.Recall(), most.Recall());
      assert Between(scores, least, most);
    }
  }

  /** The score with what is required and what is forbidden exchanged. */
  function Exchanged(s: Score): Score {
    Score(s.excludeHits, s.excludeTotal, s.includeHits, s.includeTotal)
  }

  function ExchangedAll(scores: seq<Score>): seq<Score> {
    seq(|scores|, i requires 0 <= i < |scores| => Exchanged(scores[i]))
  }

  lemma {:induction false} SumOfExchanged(scores: seq<Score>)
    ensures Sum(ExchangedAll(scores), INCLUDE_HITS) == Sum(scores, EXCLUDE_HITS)
    ensures Sum(ExchangedAll(scores), INCLUDE_TOTAL) == Sum(scores, EXCLUDE_TOTAL)
  {
    if scores == [] {
    } else {
      SumOfExchanged(scores[1..]);
      assert ExchangedAll(scores)[1..] == ExchangedAll(scores[1..]);
    }
  }

  ghost predicate PrecisionBetween(scores: seq<Score>, least: Score, most: Score) {
    && least in scores && most in scores
    && least.excludeTotal > 0 && most.excludeTotal > 0
    && (forall s <- scores :: s.excludeTotal > 0 ==> least.Precision() <= s.Precision() <= most.Precision())
    && least.Precision() <= Aggregate(scores).Precision() <= most.Precision()
  }

  /** And so does micro-averaged precision, between the scenarios that forbid anything at all. */
  lemma PrecisionIsBetweenExtremes(scores: seq<Score>)
    requires forall s <- scores :: Sensible(s)
    ensures if exists s <- scores :: s.excludeTotal > 0
            then exists least, most :: PrecisionBetween(scores, least, most)
            else Aggregate(scores).Precision() == 1.0
  {
    var swapped := ExchangedAll(scores);
    ExchangedMembers(scores);
    RecallIsBetweenExtremes(swapped);
    SumOfExchanged(scores);
    if s :| s in scores && s.excludeTotal > 0 {
      assert Exchanged(s) in swapped && Exchanged(s).includeTotal > 0;
      var least, most :| Between(swapped, least, most);
      ExchangedWithin(scores, least.Recall(), most.Recall());
      assert PrecisionBetween(scores, Exchanged(least), Exchanged(most));
    } else {
      assert Aggregate(swapped).Recall() == Aggregate(scores).Precision();
    }
  }

  lemma ExchangedMembers(scores: seq<Score>)
    ensures forall s :: s in ExchangedAll(scores) <==> Exchanged(s) in scores
  {
    forall s ensures s in ExchangedAll(scores) <==> Exchanged(s) in scores {
      if Exchanged(s) in scores {
        var i :| 0 <= i < |scores| && scores[i] == Exchanged(s);
        assert ExchangedAll(scores)[i] == s;
      }
    }
  }

  lemma ExchangedWithin(scores: seq<Score>, lo: real, hi: real)
    requires Within(ExchangedAll(scores), lo, hi)
    ensures forall s <- scores :: s.excludeTotal > 0 ==> lo <= s.Precision() <= hi
  {
    ExchangedMembers(scores);
    forall s | s in scores && s.excludeTotal > 0 ensures lo <= s.Precision() <= hi {
      assert Exchanged(Exchanged(s)) == s;
      assert Exchanged(s) in ExchangedAll(scores) && Exchanged(s).Recall() == s.Precision();
    }
  }

  // ── Monotonicity ───────────────────────────────────────────────────────────

  lemma RatioIsMonotone(a: nat, b: nat, total: nat)
    requires a <= b
    ensures Ratio(a, total) <= Ratio(b, total)
  {
    if total > 0 {
      assert Ratio(a, total) * total as real == a as real;
      assert Ratio(b, total) * total as real == b as real;
    }
  }

  /** Recommending more never lowers recall and never raises precision. */
  lemma MoreRecommendationsTradeOff(expected: seq<Expectation>, fewer: seq<Recommendation>, more: seq<Recommendation>)
    requires forall r <- fewer :: r in more
    ensures ScoreScenario(expected, fewer).Recall() <= ScoreScenario(expected, more).Recall()
    ensures ScoreScenario(expected, fewer).Precision() >= ScoreScenario(expected, more).Precision()
  {
    var f, m := ScoreScenario(expected, fewer), ScoreScenario(expected, more);
    CountIsMonotone(
      expected,
      (e: Expectation) => e.mustInclude && Produced(fewer, e),
      (e: Expectation) => e.mustInclude && Produced(more, e));
    CountIsMonotone(
      expected,
      (e: Expectation) => e.mustExclude && !Produced(more, e),
      (e: Expectation) => e.mustExclude && !Produced(fewer, e));
    RatioIsMonotone(f.includeHits, m.includeHits, f.includeTotal);
    RatioIsMonotone(m.excludeHits, f.excludeHits, f.excludeTotal);
  }
}
