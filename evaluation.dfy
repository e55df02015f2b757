/**
 * One run of the action as a value: the four rules evaluated in a fixed
 * order, each failing rule contributing one report, and a thrown
 * exception ending the run with a single report of its own.
 */
module Evaluation {
  import opened Wrappers
  import opened Config
  import opened Rules

  /** What the pull-request event carries: no pull request at all, or one whose label list may be missing. */
  datatype Payload = NoPullRequest | PullRequest(labels: Option<seq<string>>)

  /**
   * One reported failure. A violation names its rule and message; a crash
   * stands for the exception's message, which the host's runtime words, and
   * records where it was thrown (None: reading the payload; Some(rule):
   * inside that rule's check).
   */
  datatype Report = Violation(rule: Rule, message: string) | Crash(site: Option<Rule>)

  /** The outcome of one rule in a run. */
  datatype Step = Pass | Fail(message: string) | Throw

  /** The order in which the run evaluates the rules (`Position` and `EvaluationOrderOrdered` state its properties). */
  function EvaluationOrder(): seq<Rule>
  {
    [RequiredAny, RequiredAll, Banned, RequiredSingle]
  }

  function Position(rule: Rule): (k: nat)
    ensures k < |EvaluationOrder()| && EvaluationOrder()[k] == rule
  {
    match rule
    case RequiredAny => 0
    case RequiredAll => 1
    case Banned => 2
    case RequiredSingle => 3
  }

  /** One rule's outcome: with no label list, a rule that dereferences it throws. */
  function RuleStep(rule: Rule, inputs: Inputs, labels: Option<seq<string>>): (r: Step)
    ensures r.Throw? <==> labels.None? && TouchesLabels(rule, inputs)
    ensures r.Fail? <==> labels.Some? && Check(rule, labels.value, inputs).Some?
    ensures r.Fail? ==> r.message == Check(rule, labels.value, inputs).value
  {
    match labels
    case None => if TouchesLabels(rule, inputs) then Throw else Pass
    case Some(names) =>
      match Check(rule, names, inputs)
      case None => Pass
      case Some(message) => Fail(message)
  }

  /** The reports a rule's step appends. */
  function StepReports(rule: Rule, step: Step): seq<Report>
  {
    if step.Fail? then [Violation(rule, step.message)] else []
  }

  /** `rule` throws, and no rule listed before it does. */
  ghost predicate FirstThrower(rules: seq<Rule>, step: Rule -> Step, rule: Rule)
  {
    exists i :: 0 <= i < |rules| && rules[i] == rule && step(rule).Throw? && forall j :: 0 <= j < i ==> !step(rules[j]).Throw?
  }

  /** The reports of evaluating `rules` in order with outcomes `step`, at most one per rule; a throw ends the run with one crash report. */
  function EvaluateRules(rules: seq<Rule>, step: Rule -> Step): (r: seq<Report>)
    ensures |r| <= |rules|
  {
    if rules == [] then []
    else if step(rules[0]).Throw? then [Crash(Some(rules[0]))]
    else StepReports(rules[0], step(rules[0])) + EvaluateRules(rules[1..], step)
  }

  /** The outcomes of the rules in a run with this configuration and label list. */
  function Steps(inputs: Inputs, labels: Option<seq<string>>): Rule -> Step
  {
    rule => RuleStep(rule, inputs, labels)
  }

  /** Every report of a run, in the order the host receives them. */
  function Evaluate(inputs: Inputs, payload: Payload): (r: seq<Report>)
    ensures |r| <= |EvaluationOrder()|
  {
    match payload
    case NoPullRequest => [Crash(None)]
    case PullRequest(labels) => EvaluateRules(EvaluationOrder(), Steps(inputs, labels))
  }

  /** `rules` lists each rule at most once, in evaluation order. */
  ghost predicate Ordered(rules: seq<Rule>)
  {
    forall i, j :: 0 <= i < j < |rules| ==> Position(rules[i]) < Position(rules[j])
  }

  /** No rule of `rules` throws. */
  ghost predicate NoThrow(rules: seq<Rule>, step: Rule -> Step)
  {
    forall k :: 0 <= k < |rules| ==> !step(rules[k]).Throw?
  }

  lemma OrderedTail(rules: seq<Rule>)
    requires rules != [] && Ordered(rules)
    ensures Ordered(rules[1..])
    ensures forall rule :: rule in rules[1..] ==> Position(rules[0]) < Position(rule)
  {
    var tail := rules[1..];
    forall i, j | 0 <= i < j < |tail| ensures Position(tail[i]) < Position(tail[j]) {
      assert tail[i] == rules[i + 1] && tail[j] == rules[j + 1];
    }
    forall rule | rule in tail ensures Position(rules[0]) < Position(rule) {
      var m :| 0 <= m < |tail| && tail[m] == rule;
      assert tail[m] == rules[m + 1];
    }
  }

  /** Every report is a violation of one of `rules`, carrying the failure message of that rule's step. */
  ghost predicate OnlyViolations(r: seq<Report>, rules: seq<Rule>, step: Rule -> Step)
  {
    forall k :: 0 <= k < |r| ==> r[k].Violation? && r[k].rule in rules && step(r[k].rule) == Fail(r[k].message)
  }

  /** Every rule of `rules` whose step fails has its violation among the reports. */
  ghost predicate AllFailuresReported(r: seq<Report>, rules: seq<Rule>, step: Rule -> Step)
  {
    forall rule :: rule in rules && step(rule).Fail? ==> Violation(rule, step(rule).message) in r
  }

  /** The reports are violations of rules in strictly increasing evaluation position. */
  ghost predicate InEvaluationOrder(r: seq<Report>)
  {
    forall i, j :: 0 <= i < j < |r| ==> r[i].Violation? && r[j].Violation? && Position(r[i].rule) < Position(r[j].rule)
  }

  lemma NoThrowTail(rules: seq<Rule>, step: Rule -> Step)
    requires rules != [] && NoThrow(rules, step)
    ensures NoThrow(rules[1..], step) && !step(rules[0]).Throw?
  {
    var tail := rules[1..];
    forall k | 0 <= k < |tail| ensures !step(tail[k]).Throw? { assert tail[k] == rules[k + 1]; }
  }

  /** Only the last report can be a crash, and the run ends in a crash whenever some rule throws. */
  lemma {:induction false} CrashComesLast(rules: seq<Rule>, step: Rule -> Step)
    ensures forall k :: 0 <= k < |EvaluateRules(rules, step)| - 1 ==> EvaluateRules(rules, step)[k].Violation?
    ensures (exists k :: 0 <= k < |rules| && step(rules[k]).Throw?) ==>
      EvaluateRules(rules, step) != [] && EvaluateRules(rules, step)[|EvaluateRules(rules, step)| - 1].Crash?
  {
    if rules != [] && !step(rules[0]).Throw? {
      var tail := rules[1..];
      CrashComesLast(tail, step);
      var head := StepReports(rules[0], step(rules[0]));
      var rest := EvaluateRules(tail, step);
      var r := EvaluateRules(rules, step);
      assert r == head + rest;
      forall k | 0 <= k < |r| - 1 ensures r[k].Violation? {
        if k >= |head| {
          assert r[k] == rest[k - |head|];
        }
      }
      if exists k :: 0 <= k < |rules| && step(rules[k]).Throw? {
        var k :| 0 <= k < |rules| && step(rules[k]).Throw?;
        assert k > 0 && tail[k - 1] == rules[k];
      }
    }
  }

  /** A crash that ends the run names the first rule that throws. */
  lemma {:induction false} CrashNamesFirstThrower(rules: seq<Rule>, step: Rule -> Step)
    ensures EvaluateRules(rules, step) != [] && EvaluateRules(rules, step)[|EvaluateRules(rules, step)| - 1].Crash? ==>
      EvaluateRules(rules, step)[|EvaluateRules(rules, step)| - 1].site.Some? &&
      FirstThrower(rules, step, EvaluateRules(rules, step)[|EvaluateRules(rules, step)| - 1].site.value)
  {
    if rules != [] {
      var r := EvaluateRules(rules, step);
      if step(rules[0]).Throw? {
        assert r == [Crash(Some(rules[0]))];
      } else {
        var tail := rules[1..];
        CrashNamesFirstThrower(tail, step);
        var rest := EvaluateRules(tail, step);
        assert r == StepReports(rules[0], step(rules[0])) + rest;
        if r != [] && r[|r| - 1].Crash? {
          assert rest != [] && r[|r| - 1] == rest[|rest| - 1];
          var rule := rest[|rest| - 1].site.value;
          var i :| 0 <= i < |tail| && tail[i] == rule && step(rule).Throw? && forall j :: 0 <= j < i ==> !step(tail[j]).Throw?;
          assert rules[i + 1] == rule;
          forall j | 0 <= j < i + 1 ensures !step(rules[j]).Throw? {
            if j > 0 { assert rules[j] == tail[j - 1]; }
          }
        }
      }
    }
  }

  /** When no rule throws, every report is a violation of a listed rule, carrying that rule's failure message. */
  lemma {:induction false} ReportsAreViolations(rules: seq<Rule>, step: Rule -> Step)
    requires NoThrow(rules, step)
    ensures OnlyViolations(EvaluateRules(rules, step), rules, step)
  {
    if rules != [] {
      var tail := rules[1..];
      NoThrowTail(rules, step);
      ReportsAreViolations(tail, step);
      var head := StepReports(rules[0], step(rules[0]));
      var rest := EvaluateRules(tail, step);
      var r := EvaluateRules(rules, step);
      assert r == head + rest;
      forall k | 0 <= k < |r| ensures r[k].Violation? && r[k].rule in rules && step(r[k].rule) == Fail(r[k].message) {
        if k >= |head| {
          assert r[k] == rest[k - |head|];
        }
      }
    }
  }

  /** When no rule throws, every listed rule that fails is reported: a failure does not stop the later rules. */
  lemma {:induction false} FailuresAreReported(rules: seq<Rule>, step: Rule -> Step)
    requires NoThrow(rules, step)
    ensures AllFailuresReported(EvaluateRules(rules, step), rules, step)
  {
    if rules != [] {
      var tail := rules[1..];
      NoThrowTail(rules, step);
      FailuresAreReported(tail, step);
      assert EvaluateRules(rules, step) == StepReports(rules[0], step(rules[0])) + EvaluateRules(tail, step);
    }
  }

  /** When no rule throws, the reports follow the order of the rules. */
  lemma {:induction false} ReportsInRuleOrder(rules: seq<Rule>, step: Rule -> Step)
    requires Ordered(rules) && NoThrow(rules, step)
    ensures InEvaluationOrder(EvaluateRules(rules, step))
  {
    if rules != [] {
      var tail := rules[1..];
      NoThrowTail(rules, step);
      OrderedTail(rules);
      ReportsInRuleOrder(tail, step);
      ReportsAreViolations(tail, step);
      var head := StepReports(rules[0], step(rules[0]));
      var rest := EvaluateRules(tail, step);
      var r := EvaluateRules(rules, step);
      assert r == head + rest;
      forall i, j | 0 <= i < j < |r|
        ensures r[i].Violation? && r[j].Violation? && Position(r[i].rule) < Position(r[j].rule)
      {
        assert r[j] == rest[j - |head|];
        if i >= |head| {
          assert r[i] == rest[i - |head|];
        }
      }
    }
  }

  /** When no rule fails and some rule throws, the run reports exactly one failure: the crash of the first rule that throws. */
  lemma {:induction false} ThrowEndsRun(rules: seq<Rule>, step: Rule -> Step, thrower: Rule)
    requires thrower in rules && step(thrower).Throw?
    requires forall k :: 0 <= k < |rules| ==> !step(rules[k]).Fail?
    ensures |EvaluateRules(rules, step)| == 1
    ensures EvaluateRules(rules, step)[0].Crash? && EvaluateRules(rules, step)[0].site.Some?
    ensures FirstThrower(rules, step, EvaluateRules(rules, step)[0].site.value)
  {
    CrashNamesFirstThrower(rules, step);
    if !step(rules[0]).Throw? {
      var tail := rules[1..];
      assert thrower in tail;
      forall k | 0 <= k < |tail| ensures !step(tail[k]).Fail? { assert tail[k] == rules[k + 1]; }
      ThrowEndsRun(tail, step, thrower);
    }
  }

  /** With a label list present a rule never throws, and it fails exactly when its check reports a message. */
  lemma StepWithLabels(rule: Rule, inputs: Inputs, labels: seq<string>)
    ensures !Steps(inputs, Some(labels))(rule).Throw?
    ensures Steps(inputs, Some(labels))(rule).Fail? <==> Check(rule, labels, inputs).Some?
    ensures Steps(inputs, Some(labels))(rule).Fail? ==> Steps(inputs, Some(labels))(rule).message == Check(rule, labels, inputs).value
  {
  }

  /** The outcomes of the rules in a run on a pull request with labels: none throws, and each fails exactly when its check reports. */
  lemma StepsWithLabels(inputs: Inputs, labels: seq<string>)
    ensures forall rule :: !Steps(inputs, Some(labels))(rule).Throw?
    ensures forall rule :: Steps(inputs, Some(labels))(rule).Fail? <==> Check(rule, labels, inputs).Some?
    ensures forall rule :: Steps(inputs, Some(labels))(rule).Fail? ==>
      Steps(inputs, Some(labels))(rule).message == Check(rule, labels, inputs).value
  {
    forall rule ensures !Steps(inputs, Some(labels))(rule).Throw?
      && (Steps(inputs, Some(labels))(rule).Fail? <==> Check(rule, labels, inputs).Some?)
      && (Steps(inputs, Some(labels))(rule).Fail? ==> Steps(inputs, Some(labels))(rule).message == Check(rule, labels, inputs).value)
    {
      StepWithLabels(rule, inputs, labels);
    }
  }

  /** On a pull request with labels, every report is the violation of a rule whose check fails, with that check's message. */
  lemma ReportsAreFailedChecks(inputs: Inputs, labels: seq<string>)
    ensures forall k :: 0 <= k < |Evaluate(inputs, PullRequest(Some(labels)))| ==>
      Evaluate(inputs, PullRequest(Some(labels)))[k].Violation? &&
      Check(Evaluate(inputs, PullRequest(Some(labels)))[k].rule, labels, inputs) == Some(Evaluate(inputs, PullRequest(Some(labels)))[k].message)
  {
    NoThrowWithLabels(inputs, labels);
    StepsWithLabels(inputs, labels);
    ReportsAreViolations(EvaluationOrder(), Steps(inputs, Some(labels)));
  }

  /** On a pull request with labels, every rule whose check fails is reported, whatever the other rules do. */
  lemma FailedChecksAreReported(inputs: Inputs, labels: seq<string>)
    ensures forall rule :: Check(rule, labels, inputs).Some? ==>
      Violation(rule, Check(rule, labels, inputs).value) in Evaluate(inputs, PullRequest(Some(labels)))
  {
    NoThrowWithLabels(inputs, labels);
    StepsWithLabels(inputs, labels);
    FailuresAreReported(EvaluationOrder(), Steps(inputs, Some(labels)));
    forall rule ensures rule in EvaluationOrder() { assert EvaluationOrder()[Position(rule)] == rule; }
  }

  lemma NoThrowWithLabels(inputs: Inputs, labels: seq<string>)
    ensures NoThrow(EvaluationOrder(), Steps(inputs, Some(labels)))
  {
    forall k | 0 <= k < |EvaluationOrder()| ensures !Steps(inputs, Some(labels))(EvaluationOrder()[k]).Throw? {
      StepWithLabels(EvaluationOrder()[k], inputs, labels);
    }
  }

  lemma EvaluationOrderOrdered()
    ensures Ordered(EvaluationOrder())
  {
    forall i, j | 0 <= i < j < |EvaluationOrder()| ensures Position(EvaluationOrder()[i]) < Position(EvaluationOrder()[j]) {
      assert Position(EvaluationOrder()[i]) == i && Position(EvaluationOrder()[j]) == j;
    }
  }

  /** On a pull request with labels, the reports follow the order any, all, banned, single. */
  lemma ReportsFollowEvaluationOrder(inputs: Inputs, labels: seq<string>)
    ensures InEvaluationOrder(Evaluate(inputs, PullRequest(Some(labels))))
  {
    var step := Steps(inputs, Some(labels));
    NoThrowWithLabels(inputs, labels);
    EvaluationOrderOrdered();
    ReportsInRuleOrder(EvaluationOrder(), step);
  }

  /**
   * With the label list missing no rule can fail; the banned rule always
   * touches the list, so the run reports exactly one failure, a crash inside
   * a rule, and no violation.
   */
  lemma MissingLabelsFailOnce(inputs: Inputs)
    ensures |Evaluate(inputs, PullRequest(None))| == 1
    ensures Evaluate(inputs, PullRequest(None))[0].Crash? && Evaluate(inputs, PullRequest(None))[0].site.Some?
  {
    var step := Steps(inputs, None);
    assert step(Banned).Throw?;
    assert EvaluationOrder()[2] == Banned;
    ThrowEndsRun(EvaluationOrder(), step, Banned);
  }

  /** A run whose payload lacks the pull request reports exactly one failure, a crash, and evaluates no rule. */
  lemma MissingPullRequestFailsOnce(inputs: Inputs)
    ensures Evaluate(inputs, NoPullRequest) == [Crash(None)]
  {
  }

  /** Evaluating rules never reports a crash outside every rule. */
  lemma {:induction false} CrashesAreInsideRules(rules: seq<Rule>, step: Rule -> Step)
    ensures Crash(None) !in EvaluateRules(rules, step)
  {
    if rules != [] && !step(rules[0]).Throw? {
      CrashesAreInsideRules(rules[1..], step);
      assert EvaluateRules(rules, step) == StepReports(rules[0], step(rules[0])) + EvaluateRules(rules[1..], step);
    }
  }

  /** A crash outside every rule happens exactly when the payload has no pull request. */
  lemma PayloadCrash(inputs: Inputs, payload: Payload)
    ensures Crash(None) in Evaluate(inputs, payload) <==> payload.NoPullRequest?
  {
    if payload.PullRequest? {
      CrashesAreInsideRules(EvaluationOrder(), Steps(inputs, payload.labels));
    }
  }

  /** A run with every list input unset and labels present reports nothing: the run passes. */
  lemma UnconfiguredRunPasses(inputs: Inputs, labels: seq<string>)
    requires forall rule :: GetInput(inputs, ListInput(rule)) == ""
    ensures Evaluate(inputs, PullRequest(Some(labels))) == []
  {
    assert forall rule :: Check(rule, labels, inputs) == None;
    ReportsAreFailedChecks(inputs, labels);
  }
}
