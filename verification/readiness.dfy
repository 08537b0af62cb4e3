/**
 The questionnaire result: the scores of the five answers are summed into a
 readiness score out of 10, which is then put into one of three tiers.
 */
module Readiness {
  import opened Scoring

  /** The number of questions the form asks. */
  const Questions: nat := 5

  /** The sum of the answers' scores, all under the same manual-boost flag. */
  function Total(answers: seq<string>, sentiments: seq<Polarity>, manualBoost: bool): (t: real)
    requires |sentiments| == |answers|
    ensures -2.0 / 3.0 * |answers| as real <= t <= 2.0 * |answers| as real
  {
    if |answers| == 0 then 0.0
    else AnalyzeResponse(answers[0], sentiments[0], manualBoost)
         + Total(answers[1..], sentiments[1..], manualBoost)
  }

  /** The readiness score of five answers: their total, divided by 10 and
      multiplied by 10 again as the program writes it. */
  function FinalScore(answers: seq<string>, sentiments: seq<Polarity>, manualBoost: bool): (f: real)
    requires |answers| == Questions && |sentiments| == Questions
    ensures -10.0 / 3.0 <= f <= 10.0
    ensures f == Total(answers, sentiments, manualBoost)
  {
    (Total(answers, sentiments, manualBoost) / 10.0) * 10.0
  }

  datatype Tier = High | Moderate | Low {
    /** Tiers in increasing order. */
    function Rank(): nat {
      match this
      case Low => 0
      case Moderate => 1
      case High => 2
    }
  }

  /** The tier the program reports for a readiness score. */
  function TierOf(score: real): (t: Tier)
    ensures t == High <==> score >= 8.0
    ensures t == Moderate <==> 5.0 <= score < 8.0
    ensures t == Low <==> score < 5.0
  {
    if score >= 8.0 then High
    else if score >= 5.0 then Moderate
    else Low
  }

  /** A higher score never gets a lower tier. */
  lemma TierMonotone(a: real, b: real)
    requires a <= b
    ensures TierOf(a).Rank() <= TierOf(b).Rank()
  {
  }

  /** Some answer scores below the cap of 2 without the manual boost. */
  ghost predicate SomeBelowCap(answers: seq<string>, sentiments: seq<Polarity>)
    requires |sentiments| == |answers|
  {
    exists i :: 0 <= i < |answers| && AnalyzeResponse(answers[i], sentiments[i], false) < 2.0
  }

  /** The manual boost never lowers the total, and raises it exactly when
      some answer was below the cap without it. */
  lemma {:induction false} BoostRaisesTotal(answers: seq<string>, sentiments: seq<Polarity>)
    requires |sentiments| == |answers|
    ensures Total(answers, sentiments, true) >= Total(answers, sentiments, false)
    ensures Total(answers, sentiments, true) > Total(answers, sentiments, false)
            <==> SomeBelowCap(answers, sentiments)
  {
    if |answers| > 0 {
      var rest, restSentiments := answers[1..], sentiments[1..];
      var on := AnalyzeResponse(answers[0], sentiments[0], true);
      var off := AnalyzeResponse(answers[0], sentiments[0], false);
      assert Total(answers, sentiments, true) == on + Total(rest, restSentiments, true);
      assert Total(answers, sentiments, false) == off + Total(rest, restSentiments, false);
      ManualBoost(answers[0], sentiments[0]);
      BoostRaisesTotal(rest, restSentiments);
      if SomeBelowCap(rest, restSentiments) {
        var i :| 0 <= i < |rest| && AnalyzeResponse(rest[i], restSentiments[i], false) < 2.0;
        assert AnalyzeResponse(answers[i + 1], sentiments[i + 1], false) < 2.0;
      }
      if SomeBelowCap(answers, sentiments) {
        var i :| 0 <= i < |answers| && AnalyzeResponse(answers[i], sentiments[i], false) < 2.0;
        if i > 0 {
          assert AnalyzeResponse(rest[i - 1], restSentiments[i - 1], false) < 2.0;
        }
      }
    }
  }

  /** Ticking the confidence box never moves the result to a lower tier. */
  lemma BoostNeverLowersTier(answers: seq<string>, sentiments: seq<Polarity>)
    requires |answers| == Questions && |sentiments| == Questions
    ensures FinalScore(answers, sentiments, true) >= FinalScore(answers, sentiments, false)
    ensures TierOf(FinalScore(answers, sentiments, false)).Rank()
            <= TierOf(FinalScore(answers, sentiments, true)).Rank()
  {
    BoostRaisesTotal(answers, sentiments);
    TierMonotone(FinalScore(answers, sentiments, false), FinalScore(answers, sentiments, true));
  }

  /** With the manual boost, every answer scores at least 1/3, so the total of
      n answers is at least n/3. */
  lemma {:induction false} BoostedTotalFloor(answers: seq<string>, sentiments: seq<Polarity>)
    requires |sentiments| == |answers|
    ensures Total(answers, sentiments, true) >= |answers| as real / 3.0
  {
    if |answers| > 0 {
      ManualBoost(answers[0], sentiments[0]);
      BoostedTotalFloor(answers[1..], sentiments[1..]);
    }
  }
}
