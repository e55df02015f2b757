/**
 * The action as it runs: each rule check reads its inputs, and a failing
 * rule calls the host's failure reporter, which here appends to the
 * run's list of reports. A check that dereferences a missing label list
 * throws; the run catches the exception and reports it once.
 */
module Action {
  import opened Wrappers
  import opened Config
  import opened Rules
  import opened Evaluation

  /**
   * EvaluateRules over the evaluation order, case by case, appended to the
   * reports `before` the way a run accumulates them: the reports of the
   * rules that ran, then the crash of the one that threw.
   */
  lemma EvaluateInOrder(before: seq<Report>, step: Rule -> Step)
    ensures step(RequiredAny).Throw? ==>
      before + [Crash(Some(RequiredAny))] == before + EvaluateRules(EvaluationOrder(), step)
    ensures !step(RequiredAny).Throw? && step(RequiredAll).Throw? ==>
      before + StepReports(RequiredAny, step(RequiredAny)) + [Crash(Some(RequiredAll))]
        == before + EvaluateRules(EvaluationOrder(), step)
    ensures !step(RequiredAny).Throw? && !step(RequiredAll).Throw? && step(Banned).Throw? ==>
      before + StepReports(RequiredAny, step(RequiredAny)) + StepReports(RequiredAll, step(RequiredAll))
        + [Crash(Some(Banned))]
        == before + EvaluateRules(EvaluationOrder(), step)
    ensures !step(RequiredAny).Throw? && !step(RequiredAll).Throw? && !step(Banned).Throw? && !step(RequiredSingle).Throw? ==>
      before + StepReports(RequiredAny, step(RequiredAny)) + StepReports(RequiredAll, step(RequiredAll))
        + StepReports(Banned, step(Banned)) + StepReports(RequiredSingle, step(RequiredSingle))
        == before + EvaluateRules(EvaluationOrder(), step)
  {
    var any := StepReports(RequiredAny, step(RequiredAny));
    var all := StepReports(RequiredAll, step(RequiredAll));
    var banned := StepReports(Banned, step(Banned));
    var single := StepReports(RequiredSingle, step(RequiredSingle));
    if !step(RequiredAny).Throw? {
      assert EvaluationOrder()[1..] == [RequiredAll, Banned, RequiredSingle];
      assert EvaluateRules(EvaluationOrder(), step) == any + EvaluateRules([RequiredAll, Banned, RequiredSingle], step);
      if step(RequiredAll).Throw? {
        assert before + any + [Crash(Some(RequiredAll))] == before + (any + [Crash(Some(RequiredAll))]);
      } else {
        assert [RequiredAll, Banned, RequiredSingle][1..] == [Banned, RequiredSingle];
        assert EvaluateRules([RequiredAll, Banned, RequiredSingle], step) == all + EvaluateRules([Banned, RequiredSingle], step);
        if step(Banned).Throw? {
          assert before + any + all + [Crash(Some(Banned))] == before + (any + (all + [Crash(Some(Banned))]));
        } else if !step(RequiredSingle).Throw? {
          assert [Banned, RequiredSingle][1..] == [RequiredSingle];
          assert EvaluateRules([Banned, RequiredSingle], step) == banned + (single + EvaluateRules([], step));
          assert before + any + all + banned + single == before + (any + (all + (banned + (single + []))));
        }
      }
    }
  }

  /** The banned check always searches the labels, so once it has not thrown the labels are present and the exactly-one check cannot throw. */
  lemma BannedGuardsSingle(inputs: Inputs, labels: Option<seq<string>>)
    ensures !RuleStep(Banned, inputs, labels).Throw? ==> labels.Some? && !RuleStep(RequiredSingle, inputs, labels).Throw?
  {
    if labels.Some? {
      StepWithLabels(RequiredSingle, inputs, labels.value);
    }
  }

  class ActionRun {
    /** The inputs the host supplies for this run. */
    const inputs: Inputs
    /** Every failure reported so far, in order. */
    var failures: seq<Report>

    constructor (inputs: Inputs)
      ensures this.inputs == inputs && failures == []
    {
      this.inputs := inputs;
      failures := [];
    }

    /** The host's failure reporter: marks the run failed with this report. */
    method SetFailed(report: Report)
      modifies this
      ensures failures == old(failures) + [report]
    {
      failures := failures + [report];
    }

    method EnforceAnyLabels(labels: Option<seq<string>>) returns (threw: bool)
      modifies this
      ensures threw <==> RuleStep(RequiredAny, inputs, labels).Throw?
      ensures failures == old(failures) + StepReports(RequiredAny, RuleStep(RequiredAny, inputs, labels))
    {
      var requiredLabelsAny := GetInputArray(inputs, ListInput(RequiredAny));
      if |requiredLabelsAny| > 0 && labels.None? {
        return true;
      }
      if labels.Some? && AnyOfViolated(labels.value, requiredLabelsAny) {
        var description := GetInputString(inputs, DescriptionInput(RequiredAny), AnyOfDefault(requiredLabelsAny));
        SetFailed(Violation(RequiredAny, description));
      }
      return false;
    }

    method EnforceAllLabels(labels: Option<seq<string>>) returns (threw: bool)
      modifies this
      ensures threw <==> RuleStep(RequiredAll, inputs, labels).Throw?
      ensures failures == old(failures) + StepReports(RequiredAll, RuleStep(RequiredAll, inputs, labels))
    {
      var requiredLabelsAll := GetInputArray(inputs, ListInput(RequiredAll));
      if |requiredLabelsAll| > 0 && labels.None? {
        return true;
      }
      if labels.Some? && AllOfViolated(labels.value, requiredLabelsAll) {
        var description := GetInputString(inputs, DescriptionInput(RequiredAll), AllOfDefault(requiredLabelsAll));
        SetFailed(Violation(RequiredAll, description));
      }
      return false;
    }

    method EnforceBannedLabels(labels: Option<seq<string>>) returns (threw: bool)
      modifies this
      ensures threw <==> RuleStep(Banned, inputs, labels).Throw?
      ensures failures == old(failures) + StepReports(Banned, RuleStep(Banned, inputs, labels))
    {
      var bannedLabels := GetInputArray(inputs, ListInput(Banned));
      // the guard tests an array, which is truthy even when empty, so the labels are always searched
      if labels.None? {
        return true;
      }
      var bannedLabel := FirstBanned(labels.value, bannedLabels);
      if bannedLabel.Some? {
        var description := GetInputString(inputs, DescriptionInput(Banned), BannedDefault(bannedLabel.value));
        SetFailed(Violation(Banned, description));
      }
      return false;
    }

    method EnforceSingleRequiredLabel(labels: Option<seq<string>>) returns (threw: bool)
      modifies this
      ensures threw <==> RuleStep(RequiredSingle, inputs, labels).Throw?
      ensures failures == old(failures) + StepReports(RequiredSingle, RuleStep(RequiredSingle, inputs, labels))
    {
      var requiredLabel := GetInputArray(inputs, ListInput(RequiredSingle));
      if |requiredLabel| > 0 && labels.None? {
        return true;
      }
      if labels.Some? && SingleViolated(labels.value, requiredLabel) {
        var description := GetInputString(inputs, DescriptionInput(RequiredSingle), SingleDefault(requiredLabel));
        SetFailed(Violation(RequiredSingle, description));
      }
      return false;
    }

    /** One run: the four checks in order; an exception from any of them is caught and reported once. */
    method Run(payload: Payload)
      modifies this
      ensures failures == old(failures) + Evaluate(inputs, payload)
    {
      if payload.NoPullRequest? {
        SetFailed(Crash(None));
        return;
      }
      var labels := payload.labels;
      ghost var step := Steps(inputs, labels);
      EvaluateInOrder(failures, step);
      BannedGuardsSingle(inputs, labels);
      var threw := EnforceAnyLabels(labels);
      if threw {
        SetFailed(Crash(Some(RequiredAny)));
        return;
      }
      threw := EnforceAllLabels(labels);
      if threw {
        SetFailed(Crash(Some(RequiredAll)));
        return;
      }
      threw := EnforceBannedLabels(labels);
      if threw {
        SetFailed(Crash(Some(Banned)));
        return;
      }
      // the banned check has searched the labels without throwing, so this one cannot throw
      threw := EnforceSingleRequiredLabel(labels);
    }
  }
}
