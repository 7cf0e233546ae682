/**
 * `detectErrorReason` of backend/services/pseudocodeMatcher.js: the reason
 * reported for a user line that differs from the expected line, found by
 * plain substring tests (not whole-word tests, so "format" contains "for").
 */
module Classifier {
  import opened Text

  const LoopBounds := "Incorrect loop bounds"
  const WrongLoop := "Wrong loop logic"
  const Condition := "Missing or incorrect condition"
  const Assignment := "Incorrect variable assignment"
  const Termination := "Incorrect termination statement"
  const Order := "Incorrect order - this should be at the beginning"
  const Generic := "Incorrect statement or syntax"

  /** Every reason `detectErrorReason` can give. */
  const Reasons: set<string> := {LoopBounds, WrongLoop, Condition, Assignment, Termination, Order, Generic}

  /** The line contains an assignment marker, `set` or `=`. */
  predicate HasAssignment(line: string) {
    Contains(line, "set") || Contains(line, "=")
  }

  /** `detectErrorReason(userLine, expectedLine)`, test for test. */
  function DetectErrorReason(userLine: string, expectedLine: string): (reason: string)
    ensures reason in Reasons
  {
    if Contains(expectedLine, "for") && Contains(userLine, "for") then
      if Contains(expectedLine, "to") && Contains(userLine, "to") then LoopBounds
      else WrongLoop
    else if Contains(expectedLine, "if") && Contains(userLine, "if") then Condition
    else if HasAssignment(expectedLine) && HasAssignment(userLine) then Assignment
    else if Contains(expectedLine, "end") || Contains(expectedLine, "stop") then Termination
    else if Contains(expectedLine, "start") || Contains(expectedLine, "begin") then Order
    else Generic
  }

  /** `t` occurs in `s` at `i`, so `s.includes(t)`. */
  lemma ContainsAt(s: string, t: string, i: nat)
    requires i + |t| <= |s| && s[i..i + |t|] == t
    ensures Contains(s, t)
  {
    assert OccursAt(s, t, i);
    ContainsIffOccurs(s, t);
  }

  /** Two lines that both mention `for` and `to` get the loop-bounds reason. */
  lemma LoopBoundsExample()
    ensures DetectErrorReason("for i = 1 to 5", "for i = 1 to n") == LoopBounds
  {
    ContainsAt("for i = 1 to n", "for", 0);
    ContainsAt("for i = 1 to 5", "for", 0);
    ContainsAt("for i = 1 to n", "to", 10);
    ContainsAt("for i = 1 to 5", "to", 10);
  }

  /**
   * The tests are on substrings, not words: a line about a `format` and one
   * about something `before` both count as loops.
   */
  lemma SubstringNotWordExample()
    ensures DetectErrorReason("format x", "before y") == WrongLoop
  {
    ContainsAt("format x", "for", 0);
    ContainsAt("before y", "for", 2);
    LacksFirstChar("before y", "to");
  }

  /** A string without the first character of `t` does not contain `t`. */
  lemma {:induction false} LacksFirstChar(s: string, t: string)
    requires t != [] && forall i :: 0 <= i < |s| ==> s[i] != t[0]
    ensures !Contains(s, t)
    decreases |s|
  {
    if |s| >= |t| {
      assert s[..|t|][0] == s[0];
      LacksFirstChar(s[1..], t);
    }
  }
}

