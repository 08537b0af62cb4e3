/**
 The per-answer readiness heuristic: a keyword term, a confidence-phrase
 boost, a word-count term and a sentiment polarity, combined into one score
 capped at 2. Scores are exact reals; the sentiment polarity, which the
 program obtains from a natural-language library, is a parameter.
 */
module Scoring {
  import opened Text

  /** The motivation keywords, in the program's order. */
  const Keywords: seq<string> := [
    "apply", "build", "curious", "improve", "learn", "master", "solve",
    "real-world", "understand", "design", "hands-on", "explore", "develop", "experiment"
  ]

  /** The confidence phrases, in the program's order. */
  const Phrases: seq<string> := [
    "real-world", "apply", "confident", "ready", "build on", "prior experience"
  ]

  /** A sentiment polarity as the sentiment analyser reports it. */
  type Polarity = x: real | -1.0 <= x <= 1.0 witness 0.0

  function Min(a: real, b: real): (r: real)
    ensures r <= a && r <= b && (r == a || r == b)
  {
    if a <= b then a else b
  }

  predicate Distinct(table: seq<string>) {
    forall i, j :: 0 <= i < j < |table| ==> table[i] != table[j]
  }

  /** Is the entry `w` found, ignoring case, in the lowercased response? */
  predicate Found(lowered: string, w: string) {
    Contains(lowered, Lower(w))
  }

  /** The number of entries of `table` found in `lowered`: the loop counter
      of the keyword and phrase scans. */
  function Hits(table: seq<string>, lowered: string): (n: nat)
    ensures n <= |table|
  {
    if |table| == 0 then 0
    else (if Found(lowered, table[0]) then 1 else 0) + Hits(table[1..], lowered)
  }

  /** The entries of `table` found in `lowered`, each once. */
  function Present(table: seq<string>, lowered: string): set<string> {
    set w | w in table && Found(lowered, w)
  }

  /** The entries found in a table are those found in its tail, plus its head
      when that is found. */
  lemma PresentSplit(table: seq<string>, lowered: string)
    requires |table| > 0
    ensures Present(table, lowered)
            == (if Found(lowered, table[0]) then {table[0]} else {}) + Present(table[1..], lowered)
  {
    forall w ensures w in table <==> w == table[0] || w in table[1..] {
      assert table == [table[0]] + table[1..];
    }
  }

  /** In a table with no repeats the head does not occur in the tail. */
  lemma DistinctHead(table: seq<string>)
    requires |table| > 0 && Distinct(table)
    ensures table[0] !in table[1..] && Distinct(table[1..])
  {
    forall k | 0 <= k < |table| - 1 ensures table[1..][k] != table[0] {
      assert table[1..][k] == table[k + 1];
    }
  }

  /** With no repeated entry in the table, the counter is the number of
      distinct entries found: each entry counts at most once. */
  lemma {:induction false} HitsIsPresentCount(table: seq<string>, lowered: string)
    requires Distinct(table)
    ensures Hits(table, lowered) == |Present(table, lowered)|
  {
    if |table| > 0 {
      var rest := table[1..];
      DistinctHead(table);
      HitsIsPresentCount(rest, lowered);
      PresentSplit(table, lowered);
      var head := if Found(lowered, table[0]) then {table[0]} else {};
      assert head !! Present(rest, lowered);
      assert |head + Present(rest, lowered)| == |head| + |Present(rest, lowered)|;
    }
  }

  /** The counter is zero exactly when no entry of the table is found. */
  lemma {:induction false} HitsZero(table: seq<string>, lowered: string)
    ensures Hits(table, lowered) == 0 <==> forall i :: 0 <= i < |table| ==> !Found(lowered, table[i])
  {
    if |table| > 0 {
      HitsZero(table[1..], lowered);
      assert forall i :: 1 <= i < |table| ==> table[i] == table[1..][i - 1];
    }
  }

  /** Whitespace contains no entry that starts with a non-whitespace character. */
  lemma NothingFoundInBlank(table: seq<string>, lowered: string)
    requires forall i :: 0 <= i < |table| ==> |table[i]| > 0 && !IsSpace(table[i][0])
    requires IsBlank(lowered)
    ensures Hits(table, lowered) == 0
  {
    forall i | 0 <= i < |table| ensures !Found(lowered, table[i]) {
      var p := Lower(table[i]);
      forall k | 0 <= k && k + |p| <= |lowered| ensures !OccursAt(lowered, p, k) {
        assert lowered[k..k + |p|][0] == lowered[k];
      }
      ContainsIff(lowered, p);
    }
    HitsZero(table, lowered);
  }

  /** A response that contains every entry another one contains scores at
      least as many hits; responses containing the same entries score the same. */
  lemma {:induction false} HitsMonotone(table: seq<string>, a: string, b: string)
    requires forall i :: 0 <= i < |table| ==> Found(a, table[i]) ==> Found(b, table[i])
    ensures Hits(table, a) <= Hits(table, b)
    ensures (forall i :: 0 <= i < |table| ==> Found(b, table[i]) ==> Found(a, table[i]))
            ==> Hits(table, a) == Hits(table, b)
  {
    if |table| > 0 {
      HitsMonotone(table[1..], a, b);
    }
  }

  lemma KeywordsDistinct()
    ensures Distinct(Keywords)
  {
  }

  lemma PhrasesDistinct()
    ensures Distinct(Phrases)
  {
  }

  /** `keyword_score`: one fifth per keyword found, capped at 1. */
  function KeywordScore(response: string): (r: real)
    ensures 0.0 <= r <= 1.0
  {
    Min(Hits(Keywords, Lower(response)) as real / 5.0, 1.0)
  }

  /** `confidence_boost`: one tenth per phrase found, capped at one half. */
  function ConfidenceBoost(response: string): (r: real)
    ensures 0.0 <= r <= 0.5
  {
    Min(0.1 * Hits(Phrases, Lower(response)) as real, 0.5)
  }

  /** The length term of `analyze_response`: one twentieth per word, capped at 1. */
  function LengthScore(response: string): (r: real)
    ensures 0.0 <= r <= 1.0
  {
    Min(WordCount(response) as real / 20.0, 1.0)
  }

  /** The total of `analyze_response` before doubling and capping. */
  function Adjusted(response: string, sentiment: Polarity, manualBoost: bool): (r: real)
    ensures -1.0 / 3.0 <= r <= 2.0
  {
    var baseTotal := (sentiment + LengthScore(response) + KeywordScore(response)) / 3.0;
    var adjusted := baseTotal + ConfidenceBoost(response);
    if manualBoost then adjusted + 0.5 else adjusted
  }

  /** `analyze_response`: the adjusted total, doubled and capped at 2. */
  function AnalyzeResponse(response: string, sentiment: Polarity, manualBoost: bool): (r: real)
    ensures -2.0 / 3.0 <= r <= 2.0
    ensures r == 2.0 <==> Adjusted(response, sentiment, manualBoost) >= 1.0
  {
    Min(Adjusted(response, sentiment, manualBoost) * 2.0, 2.0)
  }

  // ---------------------------------------------------------------------------
  // Properties of the terms
  // ---------------------------------------------------------------------------

  /** The keyword term is a fifth of the number of distinct keywords present,
      capped at 1; it is 0 exactly when no keyword is present and 1 as soon as
      five are. */
  lemma KeywordScoreCounts(response: string)
    ensures KeywordScore(response) == Min(|Present(Keywords, Lower(response))| as real / 5.0, 1.0)
    ensures KeywordScore(response) == 0.0 <==> Present(Keywords, Lower(response)) == {}
    ensures |Present(Keywords, Lower(response))| >= 5 ==> KeywordScore(response) == 1.0
  {
    KeywordsDistinct();
    HitsIsPresentCount(Keywords, Lower(response));
  }

  /** The confidence boost is a tenth per distinct phrase present, capped at
      one half; it is 0 exactly when no phrase is present. */
  lemma ConfidenceBoostCounts(response: string)
    ensures ConfidenceBoost(response) == Min(0.1 * |Present(Phrases, Lower(response))| as real, 0.5)
    ensures ConfidenceBoost(response) == 0.0 <==> Present(Phrases, Lower(response)) == {}
    ensures |Present(Phrases, Lower(response))| >= 5 ==> ConfidenceBoost(response) == 0.5
  {
    PhrasesDistinct();
    HitsIsPresentCount(Phrases, Lower(response));
  }

  /** The length term is a twentieth per word start, capped at 1. */
  lemma LengthScoreCounts(response: string)
    ensures LengthScore(response) == Min(WordStarts(response, false) as real / 20.0, 1.0)
  {
    WordCountIsWordStarts(response);
  }

  /** Twenty or more words give a length term of exactly 1. */
  lemma LengthScoreSaturates(response: string)
    requires WordCount(response) >= 20
    ensures LengthScore(response) == 1.0
  {
  }

  /** The length term is 0 exactly for a blank answer. */
  lemma LengthScoreZero(response: string)
    ensures LengthScore(response) == 0.0 <==> IsBlank(response)
  {
    NoWordsIffBlank(response);
  }

  /** Matching ignores case: a response and its lowercased form score the same,
      and so do any two responses that differ only in the case of ASCII letters. */
  lemma CaseInsensitive(a: string, b: string)
    requires Lower(a) == Lower(b)
    ensures KeywordScore(a) == KeywordScore(b)
    ensures ConfidenceBoost(a) == ConfidenceBoost(b)
    ensures KeywordScore(Lower(a)) == KeywordScore(a)
    ensures ConfidenceBoost(Lower(a)) == ConfidenceBoost(a)
  {
    LowerIdempotent(a);
  }

  /** Every keyword and phrase starts with a non-whitespace character. */
  lemma TablesStartWithNonSpace()
    ensures forall i :: 0 <= i < |Keywords| ==> |Keywords[i]| > 0 && !IsSpace(Keywords[i][0])
    ensures forall i :: 0 <= i < |Phrases| ==> |Phrases[i]| > 0 && !IsSpace(Phrases[i][0])
  {
  }

  /** A blank answer (empty, or whitespace only) has no keyword, no phrase
      and no word. */
  lemma BlankTerms(response: string)
    requires IsBlank(response)
    ensures KeywordScore(response) == 0.0
    ensures ConfidenceBoost(response) == 0.0
    ensures LengthScore(response) == 0.0
  {
    NoWordsIffBlank(response);
    LowerBlank(response);
    TablesStartWithNonSpace();
    NothingFoundInBlank(Keywords, Lower(response));
    NothingFoundInBlank(Phrases, Lower(response));
  }

  /** The score of a blank answer is the sentiment term alone, plus the
      manual boost when set. */
  lemma BlankResponse(response: string, sentiment: Polarity, manualBoost: bool)
    requires IsBlank(response)
    ensures AnalyzeResponse(response, sentiment, manualBoost)
            == 2.0 * sentiment / 3.0 + (if manualBoost then 1.0 else 0.0)
  {
    BlankTerms(response);
  }

  /** Appending text to an answer never lowers its keyword term or its
      confidence boost. */
  lemma AppendNeverLowers(response: string, more: string)
    ensures KeywordScore(response) <= KeywordScore(response + more)
    ensures ConfidenceBoost(response) <= ConfidenceBoost(response + more)
  {
    var a, b := Lower(response), Lower(response + more);
    LowerAppend(response, more);
    assert b == [] + a + Lower(more);
    forall w | Found(a, w) ensures Found(b, w) {
      ContainsExtend(a, Lower(w), [], Lower(more));
    }
    HitsMonotone(Keywords, a, b);
    HitsMonotone(Phrases, a, b);
  }

  /** No keyword contains a space. */
  lemma KeywordsHaveNoSpace()
    ensures forall k, j :: 0 <= k < |Keywords| && 0 <= j < |Keywords[k]| ==> Lower(Keywords[k])[j] != ' '
  {
  }

  /** Writing the same answer twice, separated by a space, leaves the keyword
      term unchanged: keywords already present add nothing when repeated.
      Without the space this can fail; see `JoinCanFormKeyword`. */
  lemma RepeatedAnswer(response: string)
    ensures KeywordScore(response + " " + response) == KeywordScore(response)
  {
    var a := Lower(response);
    var b := Lower(response + " " + response);
    LowerAppend(response + " ", response);
    LowerAppend(response, " ");
    assert b == a + " " + a;
    KeywordsHaveNoSpace();
    forall i | 0 <= i < |Keywords| && Found(b, Keywords[i]) ensures Found(a, Keywords[i]) {
      ContainsAcrossSpace(a, a, Lower(Keywords[i]));
    }
    forall i | 0 <= i < |Keywords| && Found(a, Keywords[i]) ensures Found(b, Keywords[i]) {
      ContainsExtend(a, Lower(Keywords[i]), [], " " + a);
      assert [] + a + (" " + a) == b;
    }
    HitsMonotone(Keywords, a, b);
  }

  /** The separating space in `RepeatedAnswer` matters: text joined without a
      separator can form a keyword across the join. Appending "explore" to
      "explore solv" creates the keyword "solve", which neither part contains. */
  lemma JoinCanFormKeyword()
    ensures Keywords[6] == "solve"
    ensures !Found(Lower("explore solv"), "solve")
    ensures !Found(Lower("explore"), "solve")
    ensures Found(Lower("explore solv" + "explore"), "solve")
  {
    SolveAbsent("explore solv");
    SolveAbsent("explore");
    SolveAcrossJoin();
  }

  /** Neither part contains "solve": no `v` stands where its `v` would have to. */
  lemma SolveAbsent(s: string)
    requires s == "explore solv" || s == "explore"
    ensures !Found(Lower(s), "solve")
  {
    LowerAscii(s);
    LowerAscii("solve");
    assert forall i :: 0 <= i < |s| && i < 11 ==> s[i] != 'v';
    MissingAtOffset(s, "solve", 3);
  }

  /** The joined text contains "solve" at index 8. */
  lemma SolveAcrossJoin()
    ensures Found(Lower("explore solv" + "explore"), "solve")
  {
    var joined := "explore solv" + "explore";
    LowerAscii(joined);
    LowerAscii("solve");
    assert joined[8..13] == "solve";
    assert OccursAt(joined, "solve", 8);
    ContainsIff(joined, "solve");
  }

  /** An answer with five distinct keywords and twenty words saturates both
      terms, whatever its sentiment. */
  lemma SaturatedAnswer(response: string)
    ensures |Present(Keywords, Lower(response))| >= 5 && WordCount(response) >= 20
            ==> KeywordScore(response) == 1.0 && LengthScore(response) == 1.0
  {
    KeywordScoreCounts(response);
  }

  /** The manual boost adds one half before doubling, hence one point after,
      subject to the cap: the boosted score is never lower, and it is strictly
      higher exactly when the unboosted score is below the cap. */
  lemma ManualBoost(response: string, sentiment: Polarity)
    ensures Adjusted(response, sentiment, true) == Adjusted(response, sentiment, false) + 0.5
    ensures AnalyzeResponse(response, sentiment, true)
            == Min(AnalyzeResponse(response, sentiment, false) + 1.0, 2.0)
    ensures AnalyzeResponse(response, sentiment, true) >= AnalyzeResponse(response, sentiment, false)
    ensures AnalyzeResponse(response, sentiment, true) > AnalyzeResponse(response, sentiment, false)
            <==> AnalyzeResponse(response, sentiment, false) < 2.0
    ensures AnalyzeResponse(response, sentiment, true) >= 1.0 / 3.0
  {
  }
}
