/**
 * `compareWithAnswer` of backend/services/pseudocodeMatcher.js: a rigid
 * positional diff of the user's lines against one answer's lines.  Index `i`
 * of both sequences is compared, for every `i` below the longer length, and
 * each difference becomes one error record with the 1-based line number
 * `i + 1`.  An inserted or deleted line therefore shifts every later
 * comparison; that is how the source behaves and how it is modelled.
 */
module Comparator {
  import opened Wrappers
  import opened Classifier

  const ExtraLine := "Extra line - this line should not be present"
  const MissingLine := "Missing line - expected step not found"

  /** One error record: `{ lineNumber, expected, received, reason }`. */
  datatype LineError = LineError(lineNumber: nat, expected: seq<string>, received: string, reason: string)

  /** `{ matches, errors }`. */
  datatype Comparison = Comparison(matches: bool, errors: seq<LineError>)

  function Max(a: nat, b: nat): nat {
    if a < b then b else a
  }

  /**
   * `lines[i] || null`: an index past the end and an empty string are both
   * absent, because "" is falsy.
   */
  function Slot(lines: seq<string>, i: nat): (r: Option<string>)
    ensures r.Some? <==> i < |lines| && lines[i] != []
    ensures r.Some? ==> r.value == lines[i]
  {
    if i < |lines| && lines[i] != [] then Some(lines[i]) else None
  }

  /** The error, if any, that one iteration of the loop pushes for index `i`. */
  function ErrorAt(userLines: seq<string>, answerLines: seq<string>, i: nat): (r: Option<LineError>)
    ensures r.Some? ==> r.value.lineNumber == i + 1
  {
    match (Slot(userLines, i), Slot(answerLines, i))
    case (Some(u), None) => Some(LineError(i + 1, [], u, ExtraLine))
    case (None, Some(e)) => Some(LineError(i + 1, [e], "", MissingLine))
    case (Some(u), Some(e)) =>
      if u != e then Some(LineError(i + 1, [e], u, DetectErrorReason(u, e))) else None
    case (None, None) => None
  }

  /**
   * The errors pushed by the iterations `from .. max - 1`: at most one per
   * index, with line numbers that lie in `from + 1 .. max` and increase.
   */
  function ErrorsFrom(userLines: seq<string>, answerLines: seq<string>, from: nat): (errors: seq<LineError>)
    ensures from >= Max(|userLines|, |answerLines|) ==> errors == []
    ensures from <= Max(|userLines|, |answerLines|) ==> |errors| <= Max(|userLines|, |answerLines|) - from
    ensures forall k :: 0 <= k < |errors| ==> from < errors[k].lineNumber <= Max(|userLines|, |answerLines|)
    ensures forall k, l :: 0 <= k < l < |errors| ==> errors[k].lineNumber < errors[l].lineNumber
    decreases Max(|userLines|, |answerLines|) - from
  {
    if from >= Max(|userLines|, |answerLines|) then []
    else
      var here := match ErrorAt(userLines, answerLines, from)
        case Some(err) => [err]
        case None => [];
      here + ErrorsFrom(userLines, answerLines, from + 1)
  }

  /** `compareWithAnswer(userLines, answerLines)`. */
  function CompareWithAnswer(userLines: seq<string>, answerLines: seq<string>): (c: Comparison)
    ensures c.matches <==> c.errors == []
    ensures |c.errors| <= Max(|userLines|, |answerLines|)
    ensures forall k :: 0 <= k < |c.errors| ==> 1 <= c.errors[k].lineNumber <= Max(|userLines|, |answerLines|)
    ensures forall k, l :: 0 <= k < l < |c.errors| ==> c.errors[k].lineNumber < c.errors[l].lineNumber
  {
    var errors := ErrorsFrom(userLines, answerLines, 0);
    Comparison(|errors| == 0, errors)
  }

  /** No line of the sequence is the empty string. */
  predicate NoEmptyLines(lines: seq<string>) {
    forall i :: 0 <= i < |lines| ==> lines[i] != []
  }

  // ---------------------------------------------------------------------
  // Which errors appear
  // ---------------------------------------------------------------------

  /** The `k`-th error of the suffix from `from` is the error of its own index. */
  lemma {:induction false} ErrorsFromSound(userLines: seq<string>, answerLines: seq<string>, from: nat, k: nat)
    requires k < |ErrorsFrom(userLines, answerLines, from)|
    ensures ErrorAt(userLines, answerLines, ErrorsFrom(userLines, answerLines, from)[k].lineNumber - 1) ==
              Some(ErrorsFrom(userLines, answerLines, from)[k])
    decreases Max(|userLines|, |answerLines|) - from
  {
    ErrorsFromStep(userLines, answerLines, from);
    var here := ErrorAt(userLines, answerLines, from);
    if here.Some? && k == 0 {
      assert here.value.lineNumber == from + 1;
    } else {
      var j := if here.Some? then k - 1 else k;
      assert ErrorsFrom(userLines, answerLines, from)[k] == ErrorsFrom(userLines, answerLines, from + 1)[j];
      ErrorsFromSound(userLines, answerLines, from + 1, j);
    }
  }

  /** The suffix from `from` is the error of index `from`, if any, then the suffix after it. */
  lemma ErrorsFromStep(userLines: seq<string>, answerLines: seq<string>, from: nat)
    requires from < Max(|userLines|, |answerLines|)
    ensures ErrorsFrom(userLines, answerLines, from) ==
              (if ErrorAt(userLines, answerLines, from).Some? then [ErrorAt(userLines, answerLines, from).value] else []) +
              ErrorsFrom(userLines, answerLines, from + 1)
  {
  }

  /** The error of every index from `from` on appears in the suffix. */
  lemma {:induction false} ErrorsFromComplete(userLines: seq<string>, answerLines: seq<string>, from: nat, i: nat)
    requires from <= i < Max(|userLines|, |answerLines|)
    requires ErrorAt(userLines, answerLines, i).Some?
    ensures ErrorAt(userLines, answerLines, i).value in ErrorsFrom(userLines, answerLines, from)
    decreases i - from
  {
    if from < i {
      ErrorsFromComplete(userLines, answerLines, from + 1, i);
    }
  }

  /**
   * Every index below the longer length that has an error contributes it to
   * the comparison's errors.
   */
  lemma CompareWithAnswerErrorsComplete(userLines: seq<string>, answerLines: seq<string>)
    ensures forall i :: 0 <= i < Max(|userLines|, |answerLines|) && ErrorAt(userLines, answerLines, i).Some? ==>
              ErrorAt(userLines, answerLines, i).value in CompareWithAnswer(userLines, answerLines).errors
  {
    forall i | 0 <= i < Max(|userLines|, |answerLines|) && ErrorAt(userLines, answerLines, i).Some?
      ensures ErrorAt(userLines, answerLines, i).value in CompareWithAnswer(userLines, answerLines).errors
    {
      ErrorsFromComplete(userLines, answerLines, 0, i);
    }
  }

  /**
   * Every reported error is the error of index `lineNumber - 1`.  With the
   * increasing line numbers of the contract and the lemma above, this fixes
   * the whole list.
   */
  lemma CompareWithAnswerErrorsSound(userLines: seq<string>, answerLines: seq<string>)
    ensures forall k :: 0 <= k < |CompareWithAnswer(userLines, answerLines).errors| ==>
              ErrorAt(userLines, answerLines, CompareWithAnswer(userLines, answerLines).errors[k].lineNumber - 1) ==
                Some(CompareWithAnswer(userLines, answerLines).errors[k])
  {
    var errors := CompareWithAnswer(userLines, answerLines).errors;
    assert errors == ErrorsFrom(userLines, answerLines, 0);
    forall k | 0 <= k < |errors|
      ensures ErrorAt(userLines, answerLines, errors[k].lineNumber - 1) == Some(errors[k])
    {
      ErrorsFromSound(userLines, answerLines, 0, k);
    }
  }

  /**
   * The three kinds of error, per index, for lines without empty strings:
   * a user line past the answer's end is an extra line, an answer line past
   * the user's end is a missing line, two different lines at the same index
   * are classified, and two equal lines give no error at that line number.
   */
  lemma CompareWithAnswerErrorKinds(userLines: seq<string>, answerLines: seq<string>)
    requires NoEmptyLines(userLines) && NoEmptyLines(answerLines)
    ensures forall i :: |answerLines| <= i < |userLines| ==>
              LineError(i + 1, [], userLines[i], ExtraLine) in CompareWithAnswer(userLines, answerLines).errors
    ensures forall i :: |userLines| <= i < |answerLines| ==>
              LineError(i + 1, [answerLines[i]], "", MissingLine) in CompareWithAnswer(userLines, answerLines).errors
    ensures forall i :: 0 <= i < |userLines| && i < |answerLines| && userLines[i] != answerLines[i] ==>
              LineError(i + 1, [answerLines[i]], userLines[i], DetectErrorReason(userLines[i], answerLines[i]))
                in CompareWithAnswer(userLines, answerLines).errors
    ensures forall i, k ::
              (&& 0 <= i < |userLines| && i < |answerLines| && userLines[i] == answerLines[i]
               && 0 <= k < |CompareWithAnswer(userLines, answerLines).errors|) ==>
              CompareWithAnswer(userLines, answerLines).errors[k].lineNumber != i + 1
  {
    var errors := CompareWithAnswer(userLines, answerLines).errors;
    CompareWithAnswerErrorsComplete(userLines, answerLines);
    CompareWithAnswerErrorsSound(userLines, answerLines);
    forall i | |answerLines| <= i < |userLines|
      ensures LineError(i + 1, [], userLines[i], ExtraLine) in errors
    {
      assert ErrorAt(userLines, answerLines, i) == Some(LineError(i + 1, [], userLines[i], ExtraLine));
    }
    forall i | |userLines| <= i < |answerLines|
      ensures LineError(i + 1, [answerLines[i]], "", MissingLine) in errors
    {
      assert ErrorAt(userLines, answerLines, i) == Some(LineError(i + 1, [answerLines[i]], "", MissingLine));
    }
    forall i | 0 <= i < |userLines| && i < |answerLines| && userLines[i] != answerLines[i]
      ensures LineError(i + 1, [answerLines[i]], userLines[i], DetectErrorReason(userLines[i], answerLines[i])) in errors
    {
      assert ErrorAt(userLines, answerLines, i) ==
        Some(LineError(i + 1, [answerLines[i]], userLines[i], DetectErrorReason(userLines[i], answerLines[i])));
    }
  }

  // ---------------------------------------------------------------------
  // When the comparison matches
  // ---------------------------------------------------------------------

  /** Equal line sequences match with no errors. */
  lemma {:induction false} CompareWithAnswerReflexive(lines: seq<string>)
    ensures CompareWithAnswer(lines, lines) == Comparison(true, [])
  {
    NoErrorsWhereSlotsAgree(lines, lines, 0, |lines|);
  }

  /** Indices `from .. upto - 1` where both sides agree contribute no errors. */
  lemma {:induction false} NoErrorsWhereSlotsAgree(userLines: seq<string>, answerLines: seq<string>, from: nat, upto: nat)
    requires from <= upto
    requires forall i :: from <= i < upto ==> Slot(userLines, i) == Slot(answerLines, i)
    ensures ErrorsFrom(userLines, answerLines, from) == ErrorsFrom(userLines, answerLines, upto)
    decreases upto - from
  {
    if from < upto {
      NoErrorsWhereSlotsAgree(userLines, answerLines, from + 1, upto);
    }
  }

  /**
   * For lines without empty strings, the comparison matches exactly when the
   * two sequences are equal.
   */
  lemma CompareWithAnswerMatchesIffEqual(userLines: seq<string>, answerLines: seq<string>)
    requires NoEmptyLines(userLines) && NoEmptyLines(answerLines)
    ensures CompareWithAnswer(userLines, answerLines).matches <==> userLines == answerLines
  {
    if userLines == answerLines {
      CompareWithAnswerReflexive(userLines);
    } else {
      var i := FirstDifference(userLines, answerLines);
      CompareWithAnswerErrorsComplete(userLines, answerLines);
      assert ErrorAt(userLines, answerLines, i).Some?;
    }
  }

  /** An index below the longer length where the two sequences differ. */
  lemma FirstDifference(userLines: seq<string>, answerLines: seq<string>) returns (i: nat)
    requires userLines != answerLines
    ensures i < Max(|userLines|, |answerLines|)
    ensures i >= |userLines| || i >= |answerLines| || userLines[i] != answerLines[i]
  {
    if |userLines| != |answerLines| {
      i := if |userLines| < |answerLines| then |userLines| else |answerLines|;
    } else {
      i :| 0 <= i < |userLines| && userLines[i] != answerLines[i];
    }
  }

  // ---------------------------------------------------------------------
  // How many errors
  // ---------------------------------------------------------------------

  /**
   * Past the shorter sequence every index is an extra or a missing line, so
   * the suffix from `from` has at least one error per such index.
   */
  lemma {:induction false} ErrorsFromLowerBound(userLines: seq<string>, answerLines: seq<string>, from: nat)
    requires NoEmptyLines(userLines) && NoEmptyLines(answerLines)
    ensures |ErrorsFrom(userLines, answerLines, from)| >=
              Max(|userLines|, |answerLines|) - Max(from, Min(|userLines|, |answerLines|))
    decreases Max(|userLines|, |answerLines|) - from
  {
    if from < Max(|userLines|, |answerLines|) {
      ErrorsFromLowerBound(userLines, answerLines, from + 1);
      if from >= Min(|userLines|, |answerLines|) {
        assert ErrorAt(userLines, answerLines, from).Some?;
      }
    }
  }

  function Min(a: nat, b: nat): nat {
    if a < b then a else b
  }

  /**
   * For lines without empty strings, the number of errors lies between the
   * difference of the lengths and the longer length.
   */
  lemma CompareWithAnswerErrorCount(userLines: seq<string>, answerLines: seq<string>)
    requires NoEmptyLines(userLines) && NoEmptyLines(answerLines)
    ensures |userLines| - |answerLines| <= |CompareWithAnswer(userLines, answerLines).errors|
    ensures |answerLines| - |userLines| <= |CompareWithAnswer(userLines, answerLines).errors|
    ensures |CompareWithAnswer(userLines, answerLines).errors| <= Max(|userLines|, |answerLines|)
  {
    ErrorsFromLowerBound(userLines, answerLines, 0);
  }

  // ---------------------------------------------------------------------
  // One line added or removed at the end
  // ---------------------------------------------------------------------

  /** One extra non-empty line at the end gives exactly one extra-line error. */
  lemma CompareWithAnswerAppendedLine(lines: seq<string>, extra: string)
    requires extra != []
    ensures CompareWithAnswer(lines + [extra], lines) ==
              Comparison(false, [LineError(|lines| + 1, [], extra, ExtraLine)])
  {
    var user := lines + [extra];
    NoErrorsWhereSlotsAgree(user, lines, 0, |lines|);
    assert ErrorAt(user, lines, |lines|) == Some(LineError(|lines| + 1, [], extra, ExtraLine));
    assert ErrorsFrom(user, lines, |lines| + 1) == [];
  }

  /** One missing non-empty line at the end gives exactly one missing-line error. */
  lemma CompareWithAnswerMissingLastLine(lines: seq<string>, last: string)
    requires last != []
    ensures CompareWithAnswer(lines, lines + [last]) ==
              Comparison(false, [LineError(|lines| + 1, [last], "", MissingLine)])
  {
    var answer := lines + [last];
    NoErrorsWhereSlotsAgree(lines, answer, 0, |lines|);
    assert ErrorAt(lines, answer, |lines|) == Some(LineError(|lines| + 1, [last], "", MissingLine));
    assert ErrorsFrom(lines, answer, |lines| + 1) == [];
  }
}
