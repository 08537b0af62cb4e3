# Student Engagement Index: readiness scoring

This project models the scoring heuristic of the student-engagement tool's
"Student Engagement Index" form in Dafny and proves its properties. A student
answers five free-text questions. Each answer gets a score capped at 2, made
of four parts:

- a **keyword term**: one fifth per listed motivation keyword that occurs in
  the answer, ignoring case, capped at 1;
- a **confidence boost**: one tenth per listed confidence phrase that occurs,
  capped at one half;
- a **length term**: one twentieth per whitespace-separated word, capped at 1;
- the answer's **sentiment polarity**, in [-1, 1].

The sentiment, the length term and the keyword term are averaged, and the
confidence boost is added, plus a flat one half
when the student ticks the "confident and ready" box. The result is doubled
and capped at 2. The five scores are summed into a readiness score out of 10,
and the score is reported in one of three tiers: high (8 or more), moderate
(5 or more) or low.

Layout, one module per concern:

- `text.dfy`, module `Text`: the Python string primitives the heuristic uses.
  These are `str.isspace` (the full set of characters Python treats as
  whitespace), lowercasing, the substring test `p in s` as a
  position-by-position scan, and `str.split()` with no argument, which
  returns the maximal runs of non-whitespace.
- `scoring.dfy`, module `Scoring`: the keyword and phrase tables,
  `keyword_score`, `confidence_boost`, the length term and
  `analyze_response`.
- `readiness.dfy`, module `Readiness`: the sum over the five answers, the
  final score and the tier rule, lifted out of the form's handler as pure
  functions.

Scores are exact `real`s. The sentiment polarity comes from an external
natural-language library, so it is a parameter of type `Polarity`, a real in
[-1, 1].

Three operations have an independent reference definition, and a lemma proves
each one equal to its reference:

- the substring scan equals "the pattern occurs at some index"
  (`Text.ContainsIff`);
- `str.split()` has two references. Its item count equals a single-pass count
  of word starts (`Text.WordCountIsWordStarts`), and its joined items equal the
  text's non-whitespace characters (`Text.SplitJoin`);
- the hit counter of the keyword and phrase scans equals the size of the set
  of distinct entries present (`Scoring.HitsIsPresentCount`).

The remaining operations are described by lemmas that relate several calls
instead of a reference definition. These are `Scoring.AnalyzeResponse`
(`Scoring.ManualBoost`, boost on versus off), `Readiness.Total`
(`Readiness.BoostRaisesTotal`) and `Readiness.TierOf`
(`Readiness.TierMonotone`).

It is tempting to read the manual boost as always strictly raising the
aggregate score, but the code does not do that. It caps each answer at 2, so
the boost raises the total only when some answer scores below 2 without it.
`Readiness.BoostRaisesTotal` proves exactly that: the boost never lowers the
total, and it raises it if and only if some answer was below the cap.

## Model

| member | source | states |
|---|---|---|
| `Text.Lower` | smart_score_generator.py:19 | lowercasing keeps the length, leaves no ASCII capital, and changes a character only by turning an ASCII capital into its small letter |
| `Text.LowerIdempotent` | smart_score_generator.py:19 | lowercasing an already lowercased response changes nothing |
| `Text.Contains` | smart_score_generator.py:19-26 | Python's `in`, used by the keyword test at line 19 and the phrase test at line 26; it has no contract of its own, and `Text.ContainsIff` states that it holds exactly when the pattern occurs at some index |
| `Text.ContainsIff` | smart_score_generator.py:19 | the substring test succeeds exactly when the pattern occurs at some index of the text |
| `Text.ContainsAcrossSpace` | smart_score_generator.py:19 | a pattern without spaces that occurs in `a + " " + b` occurs in `a` or in `b` |
| `Text.ContainsExtend` | smart_score_generator.py:19 | a pattern that occurs in a text still occurs after text is added before or after it |
| `Text.IsSpace` | smart_score_generator.py:32 | the separators of `str.split()` with no argument: exactly the characters of Python's `str.isspace()`; it has no contract of its own, and `Text.Split` and `Text.NoWordsIffBlank` state what splitting on it yields |
| `Text.Split` | smart_score_generator.py:32 | every item `str.split()` returns is non-empty and contains no whitespace |
| `Text.WordCount` | smart_score_generator.py:32 | `len(response.split())`; it has no contract of its own, and `Text.WordCountIsWordStarts` states that it equals the number of non-whitespace characters that start a run |
| `Text.WordCountIsWordStarts` | smart_score_generator.py:32 | the number of items `str.split()` returns equals the number of non-whitespace characters that start a run |
| `Text.SplitJoin` | smart_score_generator.py:32 | joining the split items gives back the text's non-whitespace characters in order, so splitting loses only whitespace |
| `Text.NoWordsIffBlank` | smart_score_generator.py:32 | `str.split()` returns nothing if and only if the text is empty or all whitespace |
| `Text.SplitSingleWord` | smart_score_generator.py:32 | text without whitespace splits into itself, or into nothing when empty |
| `Scoring.Keywords` | smart_score_generator.py:6-9 | the fourteen motivation keywords in the program's order; a constant, whose properties `Scoring.KeywordsDistinct`, `Scoring.KeywordsHaveNoSpace` and `Scoring.TablesStartWithNonSpace` state |
| `Scoring.Phrases` | smart_score_generator.py:12-14 | the six confidence phrases in the program's order; a constant, whose properties `Scoring.PhrasesDistinct` and `Scoring.TablesStartWithNonSpace` state |
| `Scoring.Found` | smart_score_generator.py:19-26 | whether a keyword (line 19) or a phrase (line 26), lowercased, occurs in the lowercased response; it has no contract of its own, and `Scoring.CaseInsensitive` and `Text.ContainsIff` state its meaning |
| `Scoring.Hits` | smart_score_generator.py:17-20 | the loop counter never exceeds the number of table entries |
| `Scoring.HitsIsPresentCount` | smart_score_generator.py:17-20 | for a table with no repeats, the counter equals the number of distinct entries present, so each entry counts at most once |
| `Scoring.HitsZero` | smart_score_generator.py:17-20 | the counter is zero if and only if no table entry is present |
| `Scoring.HitsMonotone` | smart_score_generator.py:17-20 | a text that contains every entry another text contains gets at least as many hits, and the same number when both contain the same entries |
| `Scoring.NothingFoundInBlank` | smart_score_generator.py:17-20 | a blank text contains no entry that starts with a non-whitespace character |
| `Scoring.KeywordsDistinct` | smart_score_generator.py:6-9 | the fourteen motivation keywords are pairwise different |
| `Scoring.PhrasesDistinct` | smart_score_generator.py:12-14 | the six confidence phrases are pairwise different |
| `Scoring.KeywordsHaveNoSpace` | smart_score_generator.py:6-9 | no motivation keyword contains a space |
| `Scoring.TablesStartWithNonSpace` | smart_score_generator.py:6-14 | every keyword and every phrase is non-empty and starts with a non-whitespace character |
| `Scoring.KeywordScore` | smart_score_generator.py:16-21 | the keyword term lies in [0, 1] |
| `Scoring.KeywordScoreCounts` | smart_score_generator.py:16-21 | the keyword term is min(k/5, 1), where k is the number of distinct keywords present; it is 0 exactly when no keyword is present and 1 once five are |
| `Scoring.ConfidenceBoost` | smart_score_generator.py:23-28 | the confidence boost lies in [0, 0.5] |
| `Scoring.ConfidenceBoostCounts` | smart_score_generator.py:23-28 | the boost is min(0.1·p, 0.5), where p is the number of distinct phrases present; it is 0 exactly when no phrase is present and 0.5 once five are |
| `Scoring.CaseInsensitive` | smart_score_generator.py:16-28 | responses that are equal after lowercasing get the same keyword term and boost, and lowercasing a response changes neither |
| `Scoring.AppendNeverLowers` | smart_score_generator.py:16-28 | adding text to the end of an answer never lowers its keyword term or its confidence boost |
| `Scoring.RepeatedAnswer` | smart_score_generator.py:18-21 | writing an answer twice, separated by a space, leaves its keyword term unchanged: repeated keywords add nothing |
| `Scoring.JoinCanFormKeyword` | smart_score_generator.py:18-20 | without a separator, joining can create a keyword: "explore solv" and "explore" each lack "solve", but their concatenation contains it |
| `Scoring.LengthScore` | smart_score_generator.py:32 | the length term lies in [0, 1] |
| `Scoring.LengthScoreCounts` | smart_score_generator.py:32 | the length term is min(w/20, 1), where w is the number of word starts |
| `Scoring.LengthScoreSaturates` | smart_score_generator.py:32 | twenty or more words give a length term of exactly 1 |
| `Scoring.LengthScoreZero` | smart_score_generator.py:32 | the length term is 0 if and only if the answer is blank |
| `Scoring.BlankTerms` | smart_score_generator.py:16-32 | a blank answer (empty or whitespace only) scores 0 for keywords, 0 for confidence and 0 for length |
| `Scoring.BlankResponse` | smart_score_generator.py:30-39 | a blank answer scores two thirds of its sentiment, plus 1 when the manual boost is set |
| `Scoring.SaturatedAnswer` | smart_score_generator.py:16-32 | an answer with five distinct keywords and twenty words gets keyword and length terms of exactly 1, whatever its sentiment |
| `Scoring.Adjusted` | smart_score_generator.py:35-38 | the total before doubling lies in [-1/3, 2] for any polarity in [-1, 1] |
| `Scoring.AnalyzeResponse` | smart_score_generator.py:30-39 | an answer's score lies in [-2/3, 2], and it equals the cap of 2 exactly when the undoubled total is at least 1 |
| `Scoring.ManualBoost` | smart_score_generator.py:37-39 | the boost adds exactly 0.5 before doubling. The boosted score is min(unboosted + 1, 2), never lower than the unboosted score, strictly higher exactly when the unboosted score is below 2, and always at least 1/3 |
| `Readiness.Total` | smart_score_generator.py:55-59 | the sum over n answers lies in [-2n/3, 2n] |
| `Readiness.FinalScore` | smart_score_generator.py:59-60 | the readiness score of five answers lies in [-10/3, 10], and dividing by 10 then multiplying by 10 leaves the total unchanged |
| `Readiness.Tier` | smart_score_generator.py:64-69 | the three outcomes of the tier test, ordered by `Rank`; a datatype, whose choice `Readiness.TierOf` states |
| `Readiness.TierOf` | smart_score_generator.py:64-69 | the tier is high exactly when the score is at least 8, moderate exactly when it is in [5, 8), and low exactly when it is below 5 |
| `Readiness.TierMonotone` | smart_score_generator.py:64-69 | a higher score never gets a lower tier |
| `Readiness.BoostRaisesTotal` | smart_score_generator.py:55-59 | the manual boost never lowers the total, and it raises it if and only if some answer scores below 2 without it |
| `Readiness.BoostNeverLowersTier` | smart_score_generator.py:55-69 | ticking the confidence box never lowers the readiness score or moves it to a lower tier |
| `Readiness.BoostedTotalFloor` | smart_score_generator.py:55-59 | with the manual boost, n answers total at least n/3 |

## Left out

- Sentiment analysis (smart_score_generator.py:31): the polarity comes from an external natural-language library, so it is a `Polarity` parameter bounded in [-1, 1] and not a computation.
- The form itself (text areas, the checkbox, the button, the rendered score and the three tier messages, smart_score_generator.py:41-62 and 64-72): these are presentation I/O. The tier decision is modelled as `Readiness.TierOf`; the message texts are not.
- Floating-point accumulation: the repeated `+= 0.1` at smart_score_generator.py:27 adds binary floating-point error. Scores are exact reals, so the model does not reproduce that error.
- Readiness.FinalScore: does not model `round(..., 2)` at smart_score_generator.py:60, which rounds the total to two decimal places before the tier test at lines 64-69 reads it. The model passes the exact total to `Readiness.TierOf`. A total in [7.995, 8) is rounded to 8.00 by the program and reported high, but the model reports it moderate. Likewise a total in [4.995, 5) is moderate in the program and low in the model. Exactly where each interval starts depends on how the float nearest 7.995 or 4.995 rounds. Every total outside these two intervals gets the same tier in both.
- Text.Lower: lowercases ASCII letters only. Python's `str.lower()` also maps non-ASCII characters, but only two of them become ASCII: U+212A (Kelvin sign) becomes `k`, and U+0130 becomes `i` followed by U+0307. No keyword or phrase contains `k` or ends in `i`, so the ASCII-only lowering gives the same hit counts as Python for every answer.
- The fuzzy-logic course advisor (`Fuzzy Logic Course Engagement Advisor.py`) is not part of this model. It depends on `exp` and a floating-point sampling grid.
