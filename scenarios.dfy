/** Concrete runs of the rules on small configurations. */
module Scenarios {
  import opened Wrappers
  import opened Strings
  import opened Config
  import opened Rules
  import opened RuleFacts
  import opened Evaluation

  /** No labels and an any-of list of "bug": the any-of rule fails with a default message naming "bug". */
  lemma AnyOfNoLabels()
    ensures Check(RequiredAny, [], map["REQUIRED_LABELS_ANY" := "bug"])
      == Some("Please select one of the required labels for this PR: " + "bug")
  {
    var inputs := map["REQUIRED_LABELS_ANY" := "bug"];
    assert GetInput(inputs, "REQUIRED_LABELS_ANY") == "bug";
    assert GetInput(inputs, "REQUIRED_LABELS_ANY_DESCRIPTION") == "";
    AnyOfRule([], inputs);
  }

  /** Labels "bug" and "urgent" with both required: the all-of rule passes. */
  lemma AllOfSatisfied()
    ensures Check(RequiredAll, ["bug", "urgent"], map["REQUIRED_LABELS_ALL" := "bug,urgent"]) == None
  {
    var inputs := map["REQUIRED_LABELS_ALL" := "bug,urgent"];
    assert Join(["bug", "urgent"], ",") == "bug,urgent";
    GetInputArrayUnique(inputs, "REQUIRED_LABELS_ALL", ["bug", "urgent"]);
    AllOfRule(["bug", "urgent"], inputs);
  }

  /** Label "wontfix" with "wontfix,duplicate" banned: the banned rule fails naming "wontfix". */
  lemma BannedWontfix()
    ensures Check(Banned, ["wontfix"], map["BANNED_LABELS" := "wontfix,duplicate"]) == Some("wontfix" + " label is banned")
  {
    var inputs := map["BANNED_LABELS" := "wontfix,duplicate"];
    var banned := ["wontfix", "duplicate"];
    assert Join(banned, ",") == "wontfix,duplicate";
    GetInputArrayUnique(inputs, "BANNED_LABELS", banned);
    assert GetInput(inputs, "BANNED_LABELS_DESCRIPTION") == "";
    var labels := ["wontfix"];
    assert FirstBanned(labels, banned) == Some("wontfix");
  }

  /** The exactly-one list "major,minor,patch" reads as its three names. */
  lemma VersionList()
    ensures GetInputArray(map["REQUIRED_SINGLE_LABEL" := "major,minor,patch"], "REQUIRED_SINGLE_LABEL")
      == ["major", "minor", "patch"]
    ensures GetInput(map["REQUIRED_SINGLE_LABEL" := "major,minor,patch"], "REQUIRED_SINGLE_LABEL_DESCRIPTION") == ""
  {
    var required := ["major", "minor", "patch"];
    assert Join(required, ",") == "major,minor,patch";
    GetInputArrayUnique(map["REQUIRED_SINGLE_LABEL" := "major,minor,patch"], "REQUIRED_SINGLE_LABEL", required);
  }

  /** Labels "major" and "minor" against "major,minor,patch": two matches, so the exactly-one rule fails. */
  lemma SingleTwoMatches()
    ensures Check(RequiredSingle, ["major", "minor"], map["REQUIRED_SINGLE_LABEL" := "major,minor,patch"])
      == Some("Exactly one label from " + ("major" + ", " + ("minor" + ", " + "patch")) + " is required for this PR")
  {
    var inputs := map["REQUIRED_SINGLE_LABEL" := "major,minor,patch"];
    var required := ["major", "minor", "patch"];
    VersionList();
    var labels := ["major", "minor"];
    assert !ExactlyOneFrom(labels, required) by {
      forall i | 0 <= i < |labels| && labels[i] in required
        ensures exists j :: 0 <= j < |labels| && j != i && labels[j] in required
      {
        assert labels[1 - i] in required;
      }
    }
    assert Join(required, ", ") == "major" + ", " + ("minor" + ", " + "patch") by {
      assert required[1..] == ["minor", "patch"];
      assert Join(["minor", "patch"], ", ") == "minor" + ", " + "patch";
    }
    SingleRule(labels, inputs);
  }

  /** Label "patch" against "major,minor,patch": one match, so the exactly-one rule passes. */
  lemma SingleOneMatch()
    ensures Check(RequiredSingle, ["patch"], map["REQUIRED_SINGLE_LABEL" := "major,minor,patch"]) == None
  {
    var inputs := map["REQUIRED_SINGLE_LABEL" := "major,minor,patch"];
    var required := ["major", "minor", "patch"];
    VersionList();
    var labels := ["patch"];
    assert ExactlyOneFrom(labels, required) by {
      assert labels[0] in required;
    }
    SingleRule(labels, inputs);
  }

  /** A trailing comma is kept as an empty last piece: there is no trimming and no dropping of empty pieces. */
  lemma TrailingComma()
    ensures GetInputArray(map["BANNED_LABELS" := "a,"], "BANNED_LABELS") == ["a", ""]
  {
    assert Join(["a", ""], ",") == "a" + "," + "";
    GetInputArrayUnique(map["BANNED_LABELS" := "a,"], "BANNED_LABELS", ["a", ""]);
  }

  /** No configuration and no labels: the run reports nothing. */
  lemma UnconfiguredEmptyRun()
    ensures Evaluate(map[], PullRequest(Some([]))) == []
  {
    UnconfiguredRunPasses(map[], []);
  }
}
