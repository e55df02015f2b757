/**
 * Reading the action's configuration. The host passes inputs by name; an
 * input that was not supplied reads as the empty string.
 */
module Config {
  import opened Strings

  /** The action's inputs, by name, as the host's input reader returns them. */
  type Inputs = map<string, string>

  /** The raw value of an input: "" when it was not supplied. */
  function GetInput(inputs: Inputs, name: string): string
  {
    if name in inputs then inputs[name] else ""
  }

  /**
   * getInputArray: an empty input is the empty list; otherwise the input
   * split at every comma, with no trimming and no dropping of empty pieces.
   */
  function GetInputArray(inputs: Inputs, name: string): (list: seq<string>)
    ensures list == [] <==> GetInput(inputs, name) == ""
    ensures forall i :: 0 <= i < |list| ==> ',' !in list[i]
    ensures Join(list, ",") == GetInput(inputs, name)
  {
    var raw := GetInput(inputs, name);
    JoinSplit(raw, ',');
    if raw != "" then Split(raw, ',') else []
  }

  /** The contract of GetInputArray determines its result: no other list of comma-free pieces joins to the input. */
  lemma GetInputArrayUnique(inputs: Inputs, name: string, list: seq<string>)
    requires list == [] <==> GetInput(inputs, name) == ""
    requires forall i :: 0 <= i < |list| ==> ',' !in list[i]
    requires Join(list, ",") == GetInput(inputs, name)
    ensures list == GetInputArray(inputs, name)
  {
    if list != [] {
      SplitJoin(list, ',');
    }
  }

  /** getInputString: the raw input when it is non-empty, the supplied default otherwise. */
  function GetInputString(inputs: Inputs, name: string, default: string): (r: string)
    ensures name in inputs && inputs[name] != "" ==> r == inputs[name]
    ensures name !in inputs || inputs[name] == "" ==> r == default
  {
    var raw := GetInput(inputs, name);
    if raw != "" then raw else default
  }
}
