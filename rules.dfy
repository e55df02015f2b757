/**
 * The four label rules. Each condition is written the way the action
 * writes it, with the array built-ins, and its contract states the
 * condition as plain membership over the pull request's label names.
 */
module Rules {
  import opened Wrappers
  import opened JsArray
  import opened Strings
  import opened Config

  datatype Rule = RequiredAny | RequiredAll | Banned | RequiredSingle

  /** The input holding a rule's comma-separated label list. */
  function ListInput(rule: Rule): string
  {
    match rule
    case RequiredAny => "REQUIRED_LABELS_ANY"
    case RequiredAll => "REQUIRED_LABELS_ALL"
    case Banned => "BANNED_LABELS"
    case RequiredSingle => "REQUIRED_SINGLE_LABEL"
  }

  /** The input holding a rule's override message. */
  function DescriptionInput(rule: Rule): string
  {
    match rule
    case RequiredAny => "REQUIRED_LABELS_ANY_DESCRIPTION"
    case RequiredAll => "REQUIRED_LABELS_ALL_DESCRIPTION"
    case Banned => "BANNED_LABELS_DESCRIPTION"
    case RequiredSingle => "REQUIRED_SINGLE_LABEL_DESCRIPTION"
  }

  /** `labels.find(l => l.name === name)` is truthy: a label object is never falsy. */
  predicate HasLabel(labels: seq<string>, name: string)
    ensures HasLabel(labels, name) <==> name in labels
  {
    Find(labels, l => l == name).Some?
  }

  /** The membership test `names.includes(name)`, as a predicate value. */
  function InList(names: seq<string>): string -> bool
  {
    name => name in names
  }

  /** Any-of: a non-empty list none of whose names is on the pull request. */
  predicate AnyOfViolated(labels: seq<string>, required: seq<string>)
    ensures AnyOfViolated(labels, required) <==>
      |required| > 0 && forall n :: n in required ==> n !in labels
  {
    assert SomeOf(required, n => HasLabel(labels, n)) <==> exists n :: n in required && n in labels by {
      if exists n :: n in required && n in labels {
        var n :| n in required && n in labels;
        var i :| 0 <= i < |required| && required[i] == n;
        assert HasLabel(labels, required[i]);
      }
    }
    |required| > 0 && !SomeOf(required, n => HasLabel(labels, n))
  }

  /** All-of: some listed name is not on the pull request; an empty list never fails, as `every` of nothing holds. */
  predicate AllOfViolated(labels: seq<string>, required: seq<string>)
    ensures AllOfViolated(labels, required) <==> exists n :: n in required && n !in labels
  {
    assert EveryOf(required, n => HasLabel(labels, n)) <==> forall n :: n in required ==> n in labels by {
      if !forall n :: n in required ==> n in labels {
        var n :| n in required && n !in labels;
        var i :| 0 <= i < |required| && required[i] == n;
        assert !HasLabel(labels, required[i]);
      }
    }
    !EveryOf(required, n => HasLabel(labels, n))
  }

  /** Banned: the first label, in the pull request's order, whose name is in the banned list. */
  function FirstBanned(labels: seq<string>, banned: seq<string>): (r: Option<string>)
    ensures r.None? <==> forall l :: l in labels ==> l !in banned
    ensures r.Some? ==>
      exists i :: 0 <= i < |labels| && labels[i] == r.value && r.value in banned
        && forall j :: 0 <= j < i ==> labels[j] !in banned
  {
    Find(labels, InList(banned))
  }

  /** Exactly one position of the label list holds a name from `required`. */
  ghost predicate ExactlyOneFrom(labels: seq<string>, required: seq<string>)
  {
    exists i :: 0 <= i < |labels| && labels[i] in required
      && forall j :: 0 <= j < |labels| && j != i ==> labels[j] !in required
  }

  /** Exactly-one: a non-empty list and a number of matching labels other than one (none, or two or more). */
  predicate SingleViolated(labels: seq<string>, required: seq<string>)
    ensures SingleViolated(labels, required) <==> |required| > 0 && !ExactlyOneFrom(labels, required)
  {
    FilterLengthOne(labels, InList(required));
    |required| > 0 && |Filter(labels, InList(required))| != 1
  }

  function AnyOfDefault(required: seq<string>): string
  {
    "Please select one of the required labels for this PR: " + Join(required, ",")
  }

  function AllOfDefault(required: seq<string>): string
  {
    "All labels are required for this PR: " + Join(required, ",")
  }

  function BannedDefault(name: string): string
  {
    name + " label is banned"
  }

  function SingleDefault(required: seq<string>): string
  {
    "Exactly one label from " + Join(required, ", ") + " is required for this PR"
  }

  /**
   * What one rule reports for a label list: None when it passes, otherwise
   * the failure message, the override input when it is set and the rule's
   * default message otherwise.
   */
  function Check(rule: Rule, labels: seq<string>, inputs: Inputs): (r: Option<string>)
    ensures GetInput(inputs, ListInput(rule)) == "" ==> r.None?
    ensures r.Some? && GetInput(inputs, DescriptionInput(rule)) != "" ==> r.value == GetInput(inputs, DescriptionInput(rule))
  {
    var list := GetInputArray(inputs, ListInput(rule));
    var description := DescriptionInput(rule);
    match rule
    case RequiredAny =>
      if AnyOfViolated(labels, list) then Some(GetInputString(inputs, description, AnyOfDefault(list))) else None
    case RequiredAll =>
      if AllOfViolated(labels, list) then Some(GetInputString(inputs, description, AllOfDefault(list))) else None
    case Banned =>
      (match FirstBanned(labels, list)
       case Some(name) => Some(GetInputString(inputs, description, BannedDefault(name)))
       case None => None)
    case RequiredSingle =>
      if SingleViolated(labels, list) then Some(GetInputString(inputs, description, SingleDefault(list))) else None
  }

  /**
   * Whether evaluating the rule dereferences the label list. The any-of,
   * all-of and exactly-one conditions touch it only for a non-empty list;
   * the banned condition always does, because its guard tests an array,
   * which is truthy even when empty.
   */
  predicate TouchesLabels(rule: Rule, inputs: Inputs)
    ensures TouchesLabels(rule, inputs) <==> rule == Banned || |GetInputArray(inputs, ListInput(rule))| > 0
  {
    rule == Banned || GetInput(inputs, ListInput(rule)) != ""
  }
}

/** What each rule reports, stated directly in terms of the raw inputs. */
module RuleFacts {
  import opened Wrappers
  import opened JsArray
  import opened Strings
  import opened Config
  import opened Rules

  /**
   * Any-of: fails iff the list input is set and no listed name is on the
   * pull request; the default message ends with the list input as written.
   */
  lemma AnyOfRule(labels: seq<string>, inputs: Inputs)
    ensures
      var raw := GetInput(inputs, "REQUIRED_LABELS_ANY");
      var description := GetInput(inputs, "REQUIRED_LABELS_ANY_DESCRIPTION");
      Check(RequiredAny, labels, inputs) ==
        if raw != "" && forall n :: n in GetInputArray(inputs, "REQUIRED_LABELS_ANY") ==> n !in labels then
          Some(if description != "" then description else "Please select one of the required labels for this PR: " + raw)
        else None
  {
  }

  /**
   * All-of: fails iff some listed name is not on the pull request, so an
   * unset list passes; the default message ends with the list input as written.
   */
  lemma AllOfRule(labels: seq<string>, inputs: Inputs)
    ensures
      var raw := GetInput(inputs, "REQUIRED_LABELS_ALL");
      var description := GetInput(inputs, "REQUIRED_LABELS_ALL_DESCRIPTION");
      Check(RequiredAll, labels, inputs) ==
        if exists n :: n in GetInputArray(inputs, "REQUIRED_LABELS_ALL") && n !in labels then
          Some(if description != "" then description else "All labels are required for this PR: " + raw)
        else None
  {
  }

  /**
   * Banned: fails iff some label on the pull request is in the banned list;
   * the default message names the first such label in label order.
   */
  lemma BannedRule(labels: seq<string>, inputs: Inputs)
    ensures
      var banned := GetInputArray(inputs, "BANNED_LABELS");
      Check(Banned, labels, inputs).Some? <==> exists l :: l in labels && l in banned
    ensures
      var banned := GetInputArray(inputs, "BANNED_LABELS");
      var description := GetInput(inputs, "BANNED_LABELS_DESCRIPTION");
      Check(Banned, labels, inputs).Some? && description == "" ==>
        exists i :: 0 <= i < |labels| && labels[i] in banned && (forall j :: 0 <= j < i ==> labels[j] !in banned)
          && Check(Banned, labels, inputs).value == labels[i] + " label is banned"
  {
    var banned := GetInputArray(inputs, "BANNED_LABELS");
    var first := FirstBanned(labels, banned);
    if first.None? {
      assert forall l :: l in labels ==> l !in banned;
    }
  }

  /**
   * Exactly-one, on a pull request whose label names are distinct: fails iff
   * the list input is set and the number of label names in the list is not 1.
   */
  lemma SingleRuleDistinct(labels: seq<string>, inputs: Inputs)
    requires Distinct(labels)
    ensures
      var required := GetInputArray(inputs, "REQUIRED_SINGLE_LABEL");
      Check(RequiredSingle, labels, inputs).Some? <==>
        GetInput(inputs, "REQUIRED_SINGLE_LABEL") != "" && |set l | l in labels && l in required| != 1
  {
    var required := GetInputArray(inputs, "REQUIRED_SINGLE_LABEL");
    FilterLengthDistinct(labels, InList(required));
    assert Matching(labels, InList(required)) == set l | l in labels && l in required;
    assert Check(RequiredSingle, labels, inputs).Some? <==> SingleViolated(labels, required);
    assert SingleViolated(labels, required) <==> |required| > 0 && |Filter(labels, InList(required))| != 1;
    assert |required| > 0 <==> GetInput(inputs, "REQUIRED_SINGLE_LABEL") != "";
    assert |Filter(labels, InList(required))| == |set l | l in labels && l in required|;
  }

  /** Exactly-one: both no match and two or more matches fail; the default joins the list with ", ". */
  lemma SingleRule(labels: seq<string>, inputs: Inputs)
    ensures
      var required := GetInputArray(inputs, "REQUIRED_SINGLE_LABEL");
      var description := GetInput(inputs, "REQUIRED_SINGLE_LABEL_DESCRIPTION");
      Check(RequiredSingle, labels, inputs) ==
        if |required| > 0 && !ExactlyOneFrom(labels, required) then
          Some(if description != "" then description else "Exactly one label from " + Join(required, ", ") + " is required for this PR")
        else None
  {
  }
}
