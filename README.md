# Pull-request label policy, modelled in Dafny

This project models the GitHub Action `enforce-label-action`. On each run the action:

- reads the label names attached to a pull request;
- checks them against four optional rules, configured through action inputs:
  - `REQUIRED_LABELS_ANY`: at least one of the listed labels must be present;
  - `REQUIRED_LABELS_ALL`: every listed label must be present;
  - `BANNED_LABELS`: none of the listed labels may be present;
  - `REQUIRED_SINGLE_LABEL`: exactly one label from the list must be present;
- marks the run failed once for every rule that is violated.

Each rule has a `..._DESCRIPTION` input. When that input is non-empty, its text replaces the rule's default failure message.

The model is organised as follows:

- `wrappers.dfy`: the `Option` type.
- `js_array.dfy` (`JsArray`): the JavaScript array built-ins the rules are written with (`some`, `every`, `find`, `filter`). Each one's contract states what it means in terms of membership. `includes` is sequence membership itself, written as the predicate `Rules.InList` in `rules.dfy`.
- `strings.dfy` (`Strings`): `split` on a one-character separator, and `join`. A template literal `${xs}` is `xs.join(",")`. The file proves that splitting and joining are inverses.
- `config.dfy` (`Config`): the input readers `getInputArray` and `getInputString` over a map of inputs.
- `rules.dfy`:
  - `Rules`: the four rule conditions, their default messages, and `Check`, giving what one rule reports for a label list.
  - `RuleFacts`: each rule's behaviour stated directly in terms of the raw inputs.
- `evaluation.dfy` (`Evaluation`): one run as a value. The four rules are evaluated in the source's order. Each failing rule adds one report. An exception thrown inside a rule ends the run with a single crash report. The file proves the run-level properties: nothing but failed checks is reported, every failed check is reported, reports come in rule order, and every way the payload can be missing fails exactly once.
- `action.dfy` (`Action`): the action as imperative code. The class `ActionRun` has:
  - a `failures` list, appended to by `SetFailed`, which stands for the host's `core.setFailed`;
  - one method for each `enforce*` function;
  - `Run`, which calls the four methods in order and catches the exception.

  `Run` is proved to produce exactly the reports of `Evaluation.Evaluate`.
- `scenarios.dfy` (`Scenarios`): concrete configurations and their outcomes.

The model follows the code in three places where its behaviour is easy to overlook:

- **A pull request without a label list.** When the payload has a pull request but its `labels` field is missing, the code has no separate check.
  - Each rule throws when it first dereferences the missing list. For the any-of, all-of and exactly-one rules, that happens only when their list input is non-empty.
  - The banned rule always dereferences it, because its guard tests an array, and an array is truthy even when empty.
  - So the run still ends in exactly one failure, a crash (`Evaluation.MissingLabelsFailOnce`). But the rules before the one that throws have run, and reported nothing.
  - Only a payload with no pull request at all fails before any rule is entered.
- **An empty banned list** does not switch the banned rule off. It only makes the rule unable to match.
- **Label names are not assumed distinct.** The exactly-one rule counts matching label positions (`filter(...).length`). `RuleFacts.SingleRule` states this for any label list. `RuleFacts.SingleRuleDistinct` states the set-based reading, which holds when names are distinct.

## Model

| member | source | states |
|---|---|---|
| JsArray.SomeOf | src/main.ts:20 | `some` is true iff some element satisfies the predicate |
| JsArray.EveryOf | src/main.ts:28 | `every` is true iff all elements satisfy the predicate, so it is true on an empty array |
| JsArray.Find | src/main.ts:37 | `find` gives nothing iff no element matches; otherwise it gives the element at the first matching position |
| JsArray.Filter | src/main.ts:45 | `filter` keeps only matching elements, keeps every matching element, and is no longer than its input |
| JsArray.FilterLengthOne | src/main.ts:45 | the filtered array has length exactly 1 iff exactly one position matches |
| JsArray.FilterLengthDistinct | src/main.ts:45 | on an array without repeats, the filtered length is the number of distinct matching values |
| Strings.Join | src/main.ts:21 | `join`, and an array's string form in a template literal: no parts give "", one part is returned as is, and otherwise the result begins with the first part (also used with ", " at src/main.ts:46) |
| Strings.JoinSnoc | src/main.ts:21 | a join of two or more parts is the join of all but the last, the separator, then the last part: the parts appear in order, separated once each (also at src/main.ts:46) |
| Strings.Split | src/main.ts:53 | `split` gives at least one piece, and no piece contains the separator |
| Strings.JoinSplit | src/main.ts:53 | joining the pieces of a split with the same separator restores the string |
| Strings.SplitJoin | src/main.ts:53 | splitting a join of separator-free pieces restores the pieces |
| Config.GetInput | src/main.ts:52 | `core.getInput` with `required: false`: the supplied value, or "" for an input that was not supplied (also at src/main.ts:57) |
| Config.GetInputArray | src/main.ts:51-54 | the list is empty iff the input is empty; otherwise its pieces are comma-free and join back to the raw input with "," |
| Config.GetInputArrayUnique | src/main.ts:51-54 | those three properties determine the list: any list meeting them is the one `getInputArray` returns |
| Config.GetInputString | src/main.ts:56-59 | a non-empty input is returned as is; an empty or missing input gives the default |
| Rules.ListInput | src/main.ts:19 | the input name of each rule's list: `REQUIRED_LABELS_ANY`, `REQUIRED_LABELS_ALL` (src/main.ts:27), `BANNED_LABELS` (src/main.ts:35), `REQUIRED_SINGLE_LABEL` (src/main.ts:44) |
| Rules.DescriptionInput | src/main.ts:21 | the input name of each rule's override message: the list input's name followed by `_DESCRIPTION` (also at src/main.ts:29, 38, 46) |
| Rules.InList | src/main.ts:37 | `names.includes(name)`: the predicate holds exactly for the names in the list (also at src/main.ts:45) |
| Rules.HasLabel | src/main.ts:20 | `labels.find(l => l.name === name)` finds something iff the name is among the labels |
| Rules.AnyOfViolated | src/main.ts:20 | any-of is violated iff the list is non-empty and none of its names is a label |
| Rules.AllOfViolated | src/main.ts:28 | all-of is violated iff some listed name is not a label; an empty list is never violated |
| Rules.FirstBanned | src/main.ts:37 | no result iff no label is banned; otherwise the first label, in label order, that is in the banned list |
| Rules.SingleViolated | src/main.ts:45 | exactly-one is violated iff the list is non-empty and it is not true that exactly one label position holds a listed name |
| Rules.AnyOfDefault | src/main.ts:21 | the any-of default message: the fixed text followed by the list joined with "," |
| Rules.AllOfDefault | src/main.ts:29 | the all-of default message: the fixed text followed by the list joined with "," |
| Rules.BannedDefault | src/main.ts:38 | the banned default message: the label name followed by " label is banned" |
| Rules.SingleDefault | src/main.ts:46 | the exactly-one default message: the list joined with ", " inside the fixed text |
| Rules.Check | src/main.ts:18-49 | what one `enforce*` function reports for a label list: a rule whose list input is empty never fails, and a non-empty description input is exactly the message of a failing rule (all four rules) |
| Rules.TouchesLabels | src/main.ts:20 | whether a rule dereferences the label list: always for banned (src/main.ts:37), and otherwise exactly when the parsed list is non-empty (src/main.ts:28, src/main.ts:45) |
| RuleFacts.AnyOfRule | src/main.ts:18-24 | any-of fails iff the input is set and no listed name is a label; the message is the override, or the default ending in the raw input |
| RuleFacts.AllOfRule | src/main.ts:26-32 | all-of fails iff some listed name is missing from the labels; the message is the override, or the default ending in the raw input |
| RuleFacts.BannedRule | src/main.ts:34-41 | banned fails iff some label is in the banned list; the default message names the first such label |
| RuleFacts.SingleRuleDistinct | src/main.ts:43-49 | with distinct label names, exactly-one fails iff the input is set and the number of labels in the list is not 1 |
| RuleFacts.SingleRule | src/main.ts:43-49 | exactly-one fails iff the list is non-empty and not exactly one label position matches; the default message joins the list with ", " |
| Evaluation.RuleStep | src/main.ts:18-49 | one rule's outcome in a run: it throws iff the labels are missing and the rule dereferences them, and it fails iff the labels are present and its check reports, with that message |
| Evaluation.EvaluateRules | src/main.ts:5-15 | the rules evaluated in order inside the `try`, a throw caught once: at most one report per rule |
| Evaluation.Evaluate | src/main.ts:4-16 | one whole run: at most one report per rule |
| Evaluation.CrashComesLast | src/main.ts:5-15 | only the last report can be a crash, and the run ends in a crash whenever some rule throws |
| Evaluation.CrashNamesFirstThrower | src/main.ts:5-15 | a crash that ends the run names the first rule, in evaluation order, that throws |
| Evaluation.CrashesAreInsideRules | src/main.ts:8-11 | evaluating the rules never reports a crash outside every rule |
| Evaluation.PayloadCrash | src/main.ts:6 | a crash outside every rule is reported exactly when the payload has no pull request |
| Evaluation.EvaluationOrder | src/main.ts:8-11 | the order of the four calls: any, all, banned, single. `Evaluation.Position` states that every rule has a place in it, and `Evaluation.EvaluationOrderOrdered` that each rule appears once, in this order |
| Evaluation.StepReports | src/main.ts:22 | a failing rule calls `core.setFailed` once, with its message, and adds one report; a passing rule adds none (also at src/main.ts:30, 39, 47) |
| Evaluation.Position | src/main.ts:8-11 | every rule has a position in the evaluation order |
| Evaluation.ReportsAreViolations | src/main.ts:8-11 | when no rule throws, every report is a violation of an evaluated rule, with that rule's failure message |
| Evaluation.FailuresAreReported | src/main.ts:8-11 | when no rule throws, every failing rule is reported: a failure does not stop later rules |
| Evaluation.ReportsInRuleOrder | src/main.ts:8-11 | when no rule throws, the reports follow the order of the rules |
| Evaluation.ThrowEndsRun | src/main.ts:5-15 | when some rule throws and none fails, the run reports exactly one failure, the crash of the first rule that throws |
| Evaluation.StepWithLabels | src/main.ts:6-11 | with a label list present, a rule never throws, and it fails exactly when its check reports, with that message |
| Evaluation.StepsWithLabels | src/main.ts:6-11 | the same for all four rules at once: none throws, and each fails exactly when its check reports, with that message |
| Evaluation.NoThrowWithLabels | src/main.ts:6-11 | with a label list present, no rule in the evaluation order throws |
| Evaluation.EvaluationOrderOrdered | src/main.ts:8-11 | the evaluation order lists each rule once: any, all, banned, single |
| Evaluation.ReportsAreFailedChecks | src/main.ts:4-16 | on a pull request with labels, every report is the violation of a rule whose check fails, with that check's message |
| Evaluation.FailedChecksAreReported | src/main.ts:4-16 | on a pull request with labels, every failing check is reported |
| Evaluation.ReportsFollowEvaluationOrder | src/main.ts:8-11 | on a pull request with labels, the reports come in the order any, all, banned, single |
| Evaluation.MissingLabelsFailOnce | src/main.ts:6-14 | a pull request without a label list fails exactly once, with a crash inside a rule |
| Evaluation.MissingPullRequestFailsOnce | src/main.ts:6-14 | a payload without a pull request fails exactly once, with a crash, before any rule |
| Evaluation.UnconfiguredRunPasses | src/main.ts:4-16 | with every list input empty and labels present, the run reports nothing |
| Action.EvaluateInOrder | src/main.ts:8-14 | a run's reports appended to earlier ones, case by case as the run accumulates them: the reports of the rules that finished, then the crash of the rule that threw |
| Action.BannedGuardsSingle | src/main.ts:10-11 | once the banned check has not thrown, the labels are present and the exactly-one check cannot throw |
| Action.ActionRun.constructor | src/main.ts:4 | a run starts with the given inputs and no failures |
| Action.ActionRun.SetFailed | src/main.ts:14 | a reported failure is appended to the run's failures |
| Action.ActionRun.EnforceAnyLabels | src/main.ts:18-24 | throws iff the list is non-empty and the labels are missing; otherwise appends the any-of report of `Check`, if any |
| Action.ActionRun.EnforceAllLabels | src/main.ts:26-32 | throws iff the list is non-empty and the labels are missing; otherwise appends the all-of report, if any |
| Action.ActionRun.EnforceBannedLabels | src/main.ts:34-41 | throws iff the labels are missing, even for an empty banned list; otherwise appends the banned report, if any |
| Action.ActionRun.EnforceSingleRequiredLabel | src/main.ts:43-49 | throws iff the list is non-empty and the labels are missing; otherwise appends the exactly-one report, if any |
| Action.ActionRun.Run | src/main.ts:4-16 | the run appends exactly the reports of `Evaluation.Evaluate`: the four rules in order, with a thrown exception caught and reported once |
| Scenarios.AnyOfNoLabels | src/main.ts:20-21 | no labels, any-of "bug": fails with the default message naming "bug" |
| Scenarios.AllOfSatisfied | src/main.ts:28 | labels "bug" and "urgent", all-of "bug,urgent": passes |
| Scenarios.BannedWontfix | src/main.ts:37-38 | label "wontfix", banned "wontfix,duplicate": fails with "wontfix label is banned" |
| Scenarios.VersionList | src/main.ts:51-54 | the input "major,minor,patch" reads as the list of its three names |
| Scenarios.SingleTwoMatches | src/main.ts:45-46 | labels "major" and "minor", exactly-one "major,minor,patch": fails, and the default message lists the names joined by ", " |
| Scenarios.SingleOneMatch | src/main.ts:45 | label "patch", exactly-one "major,minor,patch": passes |
| Scenarios.TrailingComma | src/main.ts:53 | the input "a," reads as ["a", ""]: pieces are neither trimmed nor dropped |
| Scenarios.UnconfiguredEmptyRun | src/main.ts:4-16 | no configuration and no labels: the run passes |

## Left out

- `core.getInput` is host I/O. The input map holds the value it returns, after the host's trimming. The map is fixed for the run.
- `core.setFailed` is modelled as appending a report. The model does not describe how the host turns reports into the run's final status.
- `Report` carries a rule identifier that the host never sees. The model adds it so that reports can be attributed to rules.
- `github.context` and how the event payload is delivered are not modelled. The payload is a parameter: no pull request, or a pull request whose label list may be missing.
- Labels are reduced to their names. Labels whose `name` is missing, and other label fields, are not modelled.
- An exception's message text comes from the JavaScript runtime. The model records only where the exception was thrown (`Crash(site)`). Exceptions other than dereferencing a missing value are not modelled.
- The topmost `run()` call is a single call and is not modelled separately. The asynchronous `run` has no suspension points, so it is modelled as a sequential method.
- An array's string conversion inside a template literal is modelled as `Strings.Join` with ",". The elements are strings, so no other conversion applies.
