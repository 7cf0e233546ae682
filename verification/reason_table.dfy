/**
 * A reference definition of `detectErrorReason`: an ordered table of rules,
 * each naming only its own markers, applied first-match-wins.  The lemma at
 * the end shows that the nested conditionals of the source compute exactly
 * this.
 */
module ReasonTable {
  import opened Text
  import opened Classifier

  /** What a rule looks for in a (user line, expected line) pair. */
  datatype Test =
    | InBoth(marker: string)               // both lines contain the marker
    | AnyInBoth(markers: seq<string>)      // each line contains one of the markers
    | AnyInExpected(markers: seq<string>)  // the expected line contains one of the markers
    | AllOf(first: Test, second: Test)     // both tests pass

  /** The line contains at least one of the markers. */
  predicate ContainsAny(line: string, markers: seq<string>)
    decreases |markers|
  {
    markers != [] && (Contains(line, markers[0]) || ContainsAny(line, markers[1..]))
  }

  predicate Fires(test: Test, userLine: string, expectedLine: string)
    decreases test
  {
    match test
    case InBoth(m) => Contains(expectedLine, m) && Contains(userLine, m)
    case AnyInBoth(ms) => ContainsAny(expectedLine, ms) && ContainsAny(userLine, ms)
    case AnyInExpected(ms) => ContainsAny(expectedLine, ms)
    case AllOf(a, b) => Fires(a, userLine, expectedLine) && Fires(b, userLine, expectedLine)
  }

  /** A rule: when its test fires, report its reason. */
  datatype Rule = Rule(test: Test, reason: string)

  /** The reason of the first rule that fires, or `fallback` when none does. */
  function FirstFiring(rules: seq<Rule>, userLine: string, expectedLine: string, fallback: string): string
    decreases |rules|
  {
    if rules == [] then fallback
    else if Fires(rules[0].test, userLine, expectedLine) then rules[0].reason
    else FirstFiring(rules[1..], userLine, expectedLine, fallback)
  }

  /**
   * The table gives the reason of rule `k` when rule `k` fires and no
   * earlier rule does.
   */
  lemma {:induction false} FirstFiringPicksFirst(rules: seq<Rule>, userLine: string, expectedLine: string, fallback: string, k: nat)
    requires k < |rules| && Fires(rules[k].test, userLine, expectedLine)
    requires forall j :: 0 <= j < k ==> !Fires(rules[j].test, userLine, expectedLine)
    ensures FirstFiring(rules, userLine, expectedLine, fallback) == rules[k].reason
    decreases k
  {
    if k > 0 {
      assert !Fires(rules[0].test, userLine, expectedLine);
      FirstFiringPicksFirst(rules[1..], userLine, expectedLine, fallback, k - 1);
    }
  }

  /** When no rule fires, the table gives the fallback. */
  lemma {:induction false} FirstFiringFallback(rules: seq<Rule>, userLine: string, expectedLine: string, fallback: string)
    requires forall j :: 0 <= j < |rules| ==> !Fires(rules[j].test, userLine, expectedLine)
    ensures FirstFiring(rules, userLine, expectedLine, fallback) == fallback
    decreases |rules|
  {
    if rules != [] {
      FirstFiringFallback(rules[1..], userLine, expectedLine, fallback);
    }
  }

  /**
   * The rules in order of precedence: loop bounds, loop logic, condition,
   * assignment, termination, order.  Each rule names only its own markers;
   * the precedence between overlapping rules comes from the order alone.
   */
  const ReasonRules: seq<Rule> := [
    Rule(AllOf(InBoth("for"), InBoth("to")), LoopBounds),
    Rule(InBoth("for"), WrongLoop),
    Rule(InBoth("if"), Condition),
    Rule(AnyInBoth(["set", "="]), Assignment),
    Rule(AnyInExpected(["end", "stop"]), Termination),
    Rule(AnyInExpected(["start", "begin"]), Order)
  ]

  /**
   * `detectErrorReason` is the first-firing-rule classifier over the
   * precedence table, with the generic reason as fallback.
   */
  lemma DetectErrorReasonFollowsRuleOrder(userLine: string, expectedLine: string)
    ensures DetectErrorReason(userLine, expectedLine) == FirstFiring(ReasonRules, userLine, expectedLine, Generic)
  {
    var rules := ReasonRules;
    var u, e := userLine, expectedLine;
    ReasonRulesFire(u, e);
    if Fires(rules[0].test, u, e) {
      FirstFiringPicksFirst(rules, u, e, Generic, 0);
    } else if Fires(rules[1].test, u, e) {
      FirstFiringPicksFirst(rules, u, e, Generic, 1);
    } else if Fires(rules[2].test, u, e) {
      FirstFiringPicksFirst(rules, u, e, Generic, 2);
    } else if Fires(rules[3].test, u, e) {
      FirstFiringPicksFirst(rules, u, e, Generic, 3);
    } else if Fires(rules[4].test, u, e) {
      FirstFiringPicksFirst(rules, u, e, Generic, 4);
    } else if Fires(rules[5].test, u, e) {
      FirstFiringPicksFirst(rules, u, e, Generic, 5);
    } else {
      FirstFiringFallback(rules, u, e, Generic);
    }
  }

  /** What each rule of the table tests, spelled out. */
  lemma ReasonRulesFire(u: string, e: string)
    ensures |ReasonRules| == 6
    ensures Fires(ReasonRules[0].test, u, e) <==>
              Contains(e, "for") && Contains(u, "for") && Contains(e, "to") && Contains(u, "to")
    ensures Fires(ReasonRules[1].test, u, e) <==> Contains(e, "for") && Contains(u, "for")
    ensures Fires(ReasonRules[2].test, u, e) <==> Contains(e, "if") && Contains(u, "if")
    ensures Fires(ReasonRules[3].test, u, e) <==> HasAssignment(e) && HasAssignment(u)
    ensures Fires(ReasonRules[4].test, u, e) <==> Contains(e, "end") || Contains(e, "stop")
    ensures Fires(ReasonRules[5].test, u, e) <==> Contains(e, "start") || Contains(e, "begin")
    ensures ReasonRules[0].reason == LoopBounds && ReasonRules[1].reason == WrongLoop
    ensures ReasonRules[2].reason == Condition && ReasonRules[3].reason == Assignment
    ensures ReasonRules[4].reason == Termination && ReasonRules[5].reason == Order
  {
    assert ["set", "="][1..] == ["="];
    assert ["end", "stop"][1..] == ["stop"];
    assert ["start", "begin"][1..] == ["begin"];
  }

}
