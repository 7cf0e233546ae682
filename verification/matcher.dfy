/**
 * `matchPseudocode` of backend/services/pseudocodeMatcher.js: the verdict on
 * a submission against every accepted answer of a question.  Three guard
 * clauses reject unusable input; otherwise the first answer that matches
 * exactly makes the submission correct, and if none does, the first answer
 * with the fewest errors is reported, as partial when its errors are fewer
 * than half the submitted lines and as incorrect otherwise.
 */
module Matcher {
  import opened Wrappers
  import opened JsValues
  import opened LineNormalizer
  import opened Comparator

  datatype Status = Correct | Partial | Incorrect

  /** `{ status, errors }`. */
  datatype MatchResult = MatchResult(status: Status, errors: seq<LineError>)

  const NoCode := "No code submitted"
  const NoAnswers := "No valid answers available for this question"
  const EmptySubmission := "Empty submission"

  /** The single-error `incorrect` result of a guard clause. */
  function GuardFailure(reason: string): MatchResult {
    MatchResult(Incorrect, [LineError(0, [], "", reason)])
  }

  /**
   * `compareWithAnswer(userLines, normalizeLines(answer))`: it reports a
   * match exactly when it reports no error, and an answer that normalises to
   * the user's lines matches.
   */
  function CompareWith(userLines: seq<string>, answer: JsValue): (c: Comparison)
    ensures c.matches <==> c.errors == []
    ensures NormalizeLines(answer) == userLines ==> c.matches
  {
    CompareWithAnswerReflexive(userLines);
    CompareWithAnswer(userLines, NormalizeLines(answer))
  }

  /** How the loop over the answers ends: an early return, or the best match. */
  datatype Search = Perfect | Best(comparison: Comparison)

  /**
   * The `for (const answer of validAnswers)` loop, over the comparisons of
   * the user's lines with each answer in turn (`results[j]` is
   * `compareWithAnswer(userLines, normalizeLines(validAnswers[j]))`; the
   * comparisons are pure, so computing them ahead changes nothing).  `best`
   * is `bestMatch`, with `None` for `null`; `minErrors` is the error count of
   * `best`, and `Infinity` while `best` is `None`, so the first non-matching
   * answer is always taken.  A later one replaces it only with strictly
   * fewer errors.
   */
  function SearchAnswers(results: seq<Comparison>, best: Option<Comparison>): (s: Search)
    requires results != [] || best.Some?
    ensures s.Best? ==> forall j :: 0 <= j < |results| ==> !results[j].matches
    ensures s.Best? ==> forall j :: 0 <= j < |results| ==> |s.comparison.errors| <= |results[j].errors|
    ensures s.Best? && best.Some? ==> |s.comparison.errors| <= |best.value.errors|
    decreases |results|
  {
    if results == [] then Best(best.value)
    else if results[0].matches then Perfect
    else SearchAnswers(results[1..], Track(best, results[0]))
  }

  /**
   * `if (result.errors.length < minErrors) { minErrors = ...; bestMatch = result; }`:
   * the tracked match is one of the two candidates, has no more errors than
   * either, and on a tie stays the earlier one.
   */
  function Track(best: Option<Comparison>, result: Comparison): (b: Option<Comparison>)
    ensures b.Some? && (b == Some(result) || b == best)
    ensures |b.value.errors| <= |result.errors|
    ensures best.Some? ==> |b.value.errors| <= |best.value.errors|
    ensures best.Some? && |best.value.errors| <= |result.errors| ==> b == best
  {
    if best.None? || |result.errors| < |best.value.errors| then Some(result) else best
  }

  /** The status from the error rate `minErrors / userLines.length < 0.5`. */
  function StatusFor(minErrors: nat, lineCount: nat): (status: Status)
    requires lineCount > 0
    ensures status != Correct
    ensures status == Partial <==> 2 * minErrors < lineCount
  {
    if 2 * minErrors < lineCount then Partial else Incorrect
  }

  /** `matchPseudocode(userCode, validAnswers)`. */
  function MatchPseudocode(userCode: JsValue, validAnswers: JsValue): (result: MatchResult)
    ensures result.status == Correct <==> result.errors == []
  {
    if !userCode.JsString? || userCode.s == [] then GuardFailure(NoCode)
    else if !validAnswers.JsArray? || validAnswers.items == [] then GuardFailure(NoAnswers)
    else
      var userLines := ParseUserCode(userCode);
      if userLines == [] then GuardFailure(EmptySubmission)
      else
        var results := Comparisons(userLines, validAnswers.items);
        Verdict(|userLines|, results)
  }

  /** A comparison reports a match exactly when it reports no error. */
  predicate Consistent(c: Comparison) {
    c.matches <==> c.errors == []
  }

  /**
   * The part of `matchPseudocode` after the guards: the loop, then the
   * status from the best match's error rate.
   */
  function Verdict(lineCount: nat, results: seq<Comparison>): (result: MatchResult)
    requires lineCount > 0 && results != []
    requires forall j :: 0 <= j < |results| ==> Consistent(results[j])
    ensures result.status == Correct <==> result.errors == []
  {
    match SearchAnswers(results, None)
    case Perfect => MatchResult(Correct, [])
    case Best(c) =>
      SearchNeverMatches(results, None);
      MatchResult(StatusFor(|c.errors|, lineCount), c.errors)
  }

  // ---------------------------------------------------------------------
  // The reference selection: first answer with the fewest errors
  // ---------------------------------------------------------------------

  /** The comparison against every answer, in order. */
  function Comparisons(userLines: seq<string>, answers: seq<JsValue>): (cs: seq<Comparison>)
    ensures |cs| == |answers|
    ensures forall j :: 0 <= j < |answers| ==> cs[j] == CompareWith(userLines, answers[j])
  {
    Map(answer => CompareWith(userLines, answer), answers)
  }

  /** `xs.map(f)`. */
  function Map<A, B>(f: A -> B, xs: seq<A>): (ys: seq<B>)
    ensures |ys| == |xs|
    ensures forall j :: 0 <= j < |xs| ==> ys[j] == f(xs[j])
    decreases |xs|
  {
    if xs == [] then [] else [f(xs[0])] + Map(f, xs[1..])
  }

  /**
   * The index of the first comparison with the fewest errors, computed from
   * the right: the best of the tail wins only with strictly fewer errors
   * than the head.
   */
  function FewestErrorsIndex(cs: seq<Comparison>): (k: nat)
    requires cs != []
    ensures k < |cs|
    ensures forall j :: 0 <= j < |cs| ==> |cs[k].errors| <= |cs[j].errors|
    ensures forall j :: 0 <= j < k ==> |cs[j].errors| > |cs[k].errors|
    decreases |cs|
  {
    if |cs| == 1 then 0
    else
      var k' := FewestErrorsIndex(cs[1..]);
      if |cs[k' + 1].errors| < |cs[0].errors| then k' + 1 else 0
  }

  /** The first comparison with the fewest errors. */
  function FirstFewest(cs: seq<Comparison>): Comparison
    requires cs != []
  {
    cs[FewestErrorsIndex(cs)]
  }

  /** The two properties of `FewestErrorsIndex` single out one index. */
  lemma FewestErrorsIndexUnique(cs: seq<Comparison>, k: nat)
    requires k < |cs|
    requires forall j :: 0 <= j < |cs| ==> |cs[k].errors| <= |cs[j].errors|
    requires forall j :: 0 <= j < k ==> |cs[j].errors| > |cs[k].errors|
    ensures FewestErrorsIndex(cs) == k
  {
  }

  /** The best match the loop returns, if any, has errors. */
  lemma {:induction false} SearchNeverMatches(results: seq<Comparison>, best: Option<Comparison>)
    requires results != [] || best.Some?
    requires forall j :: 0 <= j < |results| ==> Consistent(results[j])
    requires best.Some? ==> best.value.errors != []
    ensures SearchAnswers(results, best).Best? ==> SearchAnswers(results, best).comparison.errors != []
    decreases |results|
  {
    if results != [] && !results[0].matches {
      assert forall j :: 0 <= j < |results| - 1 ==> results[1..][j] == results[j + 1];
      SearchNeverMatches(results[1..], Track(best, results[0]));
    }
  }

  /** The loop returns early exactly when some comparison matches. */
  lemma {:induction false} SearchPerfectIff(results: seq<Comparison>, best: Option<Comparison>)
    requires results != [] || best.Some?
    ensures SearchAnswers(results, best).Perfect? <==> exists j :: 0 <= j < |results| && results[j].matches
    decreases |results|
  {
    if results != [] && !results[0].matches {
      var rest := results[1..];
      SearchPerfectIff(rest, Track(best, results[0]));
      if exists j :: 0 <= j < |results| && results[j].matches {
        var j :| 0 <= j < |results| && results[j].matches;
        assert rest[j - 1] == results[j];
      }
    }
  }

  function Prior(best: Option<Comparison>): seq<Comparison> {
    if best.Some? then [best.value] else []
  }

  /**
   * One step of the loop keeps the answer to "which candidate is the first
   * with the fewest errors": choosing between `best` and `result` early
   * gives the same winner as choosing among all of them at the end.
   */
  lemma TrackKeepsFirstFewest(best: Option<Comparison>, result: Comparison, tail: seq<Comparison>)
    ensures FirstFewest(Prior(Track(best, result)) + tail) == FirstFewest(Prior(best) + [result] + tail)
  {
    if best.None? {
      assert Prior(Track(best, result)) + tail == Prior(best) + [result] + tail;
    } else if |result.errors| < |best.value.errors| {
      assert Prior(best) + [result] + tail == [best.value] + ([result] + tail);
      assert Prior(Track(best, result)) + tail == [result] + tail;
      NewBestWins(best.value, [result] + tail);
    } else {
      assert Prior(best) + [result] + tail == [best.value, result] + tail;
      assert Prior(Track(best, result)) + tail == [best.value] + tail;
      OldBestStays(best.value, result, tail);
    }
  }

  /** A head with more errors than the next candidate never wins. */
  lemma NewBestWins(prev: Comparison, cs: seq<Comparison>)
    requires cs != [] && |cs[0].errors| < |prev.errors|
    ensures FirstFewest([prev] + cs) == FirstFewest(cs)
  {
    var k := FewestErrorsIndex(cs);
    var all := [prev] + cs;
    assert all[k + 1] == cs[k];
    assert forall j :: 1 <= j < |all| ==> all[j] == cs[j - 1];
    FewestErrorsIndexUnique(all, k + 1);
  }

  /** A candidate with no fewer errors than the head never wins. */
  lemma OldBestStays(prev: Comparison, result: Comparison, tail: seq<Comparison>)
    requires |result.errors| >= |prev.errors|
    ensures FirstFewest([prev, result] + tail) == FirstFewest([prev] + tail)
  {
    var all := [prev, result] + tail;
    var kept := [prev] + tail;
    var k' := FewestErrorsIndex(kept);
    var k := if k' == 0 then 0 else k' + 1;
    assert all[k] == kept[k'];
    assert forall j :: 2 <= j < |all| ==> all[j] == kept[j - 1];
    FewestErrorsIndexUnique(all, k);
  }

  /**
   * When no comparison matches, the loop ends with the first candidate, of
   * `best` and then the comparisons, that has the fewest errors.
   */
  lemma {:induction false} SearchBestIsFirstFewest(results: seq<Comparison>, best: Option<Comparison>)
    requires results != [] || best.Some?
    ensures SearchAnswers(results, best).Best? ==>
              SearchAnswers(results, best) == Best(FirstFewest(Prior(best) + results))
    decreases |results|
  {
    if results == [] {
      assert Prior(best) + results == [best.value];
      FewestErrorsIndexUnique([best.value], 0);
    } else if !results[0].matches {
      var rest := results[1..];
      var next := Track(best, results[0]);
      assert SearchAnswers(results, best) == SearchAnswers(rest, next);
      SearchBestIsFirstFewest(rest, next);
      assert results == [results[0]] + rest;
      assert Prior(best) + results == Prior(best) + [results[0]] + rest;
      TrackKeepsFirstFewest(best, results[0], rest);
    }
  }

  // ---------------------------------------------------------------------
  // The verdict
  // ---------------------------------------------------------------------

  /** The submission is a non-empty string and there is at least one answer. */
  predicate GuardsPass(userCode: JsValue, validAnswers: JsValue) {
    && userCode.JsString? && userCode.s != []
    && validAnswers.JsArray? && validAnswers.items != []
    && ParseUserCode(userCode) != []
  }

  /**
   * The guard clauses, in order, each give `incorrect` with one error on line
   * 0: no non-empty string submitted, then no answers, then a submission
   * without a non-blank line.
   */
  lemma MatchPseudocodeGuards(userCode: JsValue, validAnswers: JsValue)
    ensures !userCode.JsString? || userCode.s == [] ==>
              MatchPseudocode(userCode, validAnswers) == MatchResult(Incorrect, [LineError(0, [], "", NoCode)])
    ensures userCode.JsString? && userCode.s != [] && (!validAnswers.JsArray? || validAnswers.items == []) ==>
              MatchPseudocode(userCode, validAnswers) == MatchResult(Incorrect, [LineError(0, [], "", NoAnswers)])
    ensures userCode.JsString? && userCode.s != [] && validAnswers.JsArray? && validAnswers.items != [] &&
            ParseUserCode(userCode) == [] ==>
              MatchPseudocode(userCode, validAnswers) == MatchResult(Incorrect, [LineError(0, [], "", EmptySubmission)])
    ensures !GuardsPass(userCode, validAnswers) ==>
              |MatchPseudocode(userCode, validAnswers).errors| == 1 &&
              MatchPseudocode(userCode, validAnswers).errors[0].lineNumber == 0
  {
  }

  /** Past the guards, the verdict is the loop's over every answer. */
  lemma PastGuards(userCode: JsValue, validAnswers: JsValue)
    requires GuardsPass(userCode, validAnswers)
    ensures MatchPseudocode(userCode, validAnswers) ==
              Verdict(|ParseUserCode(userCode)|, Comparisons(ParseUserCode(userCode), validAnswers.items))
  {
  }

  /**
   * Past the guards, the submission is correct, with no errors, exactly when
   * some answer normalises to the submission's normalised lines.
   */
  lemma MatchPseudocodeCorrectIff(userCode: JsValue, validAnswers: JsValue)
    requires GuardsPass(userCode, validAnswers)
    ensures MatchPseudocode(userCode, validAnswers).status == Correct <==>
              exists j :: 0 <= j < |validAnswers.items| &&
                NormalizeLines(validAnswers.items[j]) == ParseUserCode(userCode)
    ensures MatchPseudocode(userCode, validAnswers).status == Correct ==>
              MatchPseudocode(userCode, validAnswers).errors == []
  {
    var userLines := ParseUserCode(userCode);
    var answers := validAnswers.items;
    PastGuards(userCode, validAnswers);
    SearchPerfectIff(Comparisons(userLines, answers), None);
    forall j | 0 <= j < |answers|
      ensures CompareWith(userLines, answers[j]).matches <==> NormalizeLines(answers[j]) == userLines
    {
      CompareWithAnswerMatchesIffEqual(userLines, NormalizeLines(answers[j]));
    }
  }

  /**
   * Past the guards and with no answer matching, the errors are those of the
   * first answer with the fewest errors, and the status is `partial` exactly
   * when those errors are fewer than half the submitted lines.
   */
  lemma MatchPseudocodeBestAnswer(userCode: JsValue, validAnswers: JsValue)
    requires GuardsPass(userCode, validAnswers)
    requires forall j :: 0 <= j < |validAnswers.items| ==>
               NormalizeLines(validAnswers.items[j]) != ParseUserCode(userCode)
    ensures MatchPseudocode(userCode, validAnswers).errors ==
              FirstFewest(Comparisons(ParseUserCode(userCode), validAnswers.items)).errors
    ensures MatchPseudocode(userCode, validAnswers).errors != []
    ensures MatchPseudocode(userCode, validAnswers).status == Partial <==>
              2 * |MatchPseudocode(userCode, validAnswers).errors| < |ParseUserCode(userCode)|
    ensures MatchPseudocode(userCode, validAnswers).status == Incorrect <==>
              2 * |MatchPseudocode(userCode, validAnswers).errors| >= |ParseUserCode(userCode)|
  {
    MatchPseudocodeCorrectIff(userCode, validAnswers);
    var userLines := ParseUserCode(userCode);
    var results := Comparisons(userLines, validAnswers.items);
    PastGuards(userCode, validAnswers);
    VerdictOfBest(|userLines|, results);
    var best := FirstFewest(results);
    assert MatchPseudocode(userCode, validAnswers) == MatchResult(StatusFor(|best.errors|, |userLines|), best.errors);
  }

  /** When the loop finds no match, the verdict reports the first fewest-error comparison. */
  lemma VerdictOfBest(lineCount: nat, results: seq<Comparison>)
    requires lineCount > 0 && results != []
    requires forall j :: 0 <= j < |results| ==> Consistent(results[j])
    requires !SearchAnswers(results, None).Perfect?
    ensures Verdict(lineCount, results) ==
              MatchResult(StatusFor(|FirstFewest(results).errors|, lineCount), FirstFewest(results).errors)
  {
    SearchBestIsFirstFewest(results, None);
    assert Prior(None) + results == results;
  }

  /**
   * An example: of two answers with three and one differing lines
   * against a four-line submission, the second is reported, and one error
   * in four lines is a partial answer.
   */
  lemma MatchPseudocodePrefersFewerErrors(userCode: JsValue, a: JsValue, b: JsValue)
    requires GuardsPass(userCode, JsArray([a, b]))
    requires |ParseUserCode(userCode)| == 4
    requires |CompareWith(ParseUserCode(userCode), a).errors| == 3
    requires |CompareWith(ParseUserCode(userCode), b).errors| == 1
    ensures MatchPseudocode(userCode, JsArray([a, b])) ==
              MatchResult(Partial, CompareWith(ParseUserCode(userCode), b).errors)
  {
    var userLines := ParseUserCode(userCode);
    var first, second := CompareWith(userLines, a), CompareWith(userLines, b);
    PastGuards(userCode, JsArray([a, b]));
    ComparisonsOfTwo(userLines, a, b);
    SecondAnswerWins(4, first, second);
  }

  lemma ComparisonsOfTwo(userLines: seq<string>, a: JsValue, b: JsValue)
    ensures Comparisons(userLines, [a, b]) == [CompareWith(userLines, a), CompareWith(userLines, b)]
  {
    assert [a, b][1..] == [b];
    assert [b][1..] == [];
  }

  /** Of two non-matching comparisons, one with strictly fewer errors wins. */
  lemma SecondAnswerWins(lineCount: nat, first: Comparison, second: Comparison)
    requires lineCount > 0 && Consistent(first) && Consistent(second)
    requires first.errors != [] && second.errors != []
    requires |second.errors| < |first.errors|
    ensures Verdict(lineCount, [first, second]) == MatchResult(StatusFor(|second.errors|, lineCount), second.errors)
  {
    assert [first, second][1..] == [second];
    assert SearchAnswers([first, second], None) == SearchAnswers([second], Some(first));
    assert SearchAnswers([second], Some(first)) == SearchAnswers([], Some(second));
  }
}
