/**
 * Column kinds. `create`, `insert` and `update` reject any kind outside
 * {INT, TEXT, DOUBLE, DATE} with `invalid_argument("Invalid column type: "
 * + kind)`, naming the first offending kind, before anything is sent.
 */
module Kinds {
  import opened Wrappers

  predicate ValidKind(k: string)
  {
    k == "INT" || k == "TEXT" || k == "DOUBLE" || k == "DATE"
  }

  /** The kind that makes validation throw: the first one that is not valid. */
  function FirstInvalid(kinds: seq<string>): (r: Option<string>)
    ensures r.None? <==> forall i | 0 <= i < |kinds| :: ValidKind(kinds[i])
    ensures r.Some? ==> exists i | 0 <= i < |kinds| ::
      kinds[i] == r.value && !ValidKind(kinds[i]) && forall j | 0 <= j < i :: ValidKind(kinds[j])
  {
    if |kinds| == 0 then None
    else if !ValidKind(kinds[0]) then Some(kinds[0])
    else
      var r := FirstInvalid(kinds[1..]);
      assert r.Some? ==> exists i | 0 <= i < |kinds[1..]| ::
        kinds[1..][i] == r.value && !ValidKind(kinds[1..][i]) && forall j | 0 <= j < i :: ValidKind(kinds[1..][j]);
      assert forall i | 1 <= i < |kinds| :: kinds[i] == kinds[1..][i - 1];
      r
  }

  /** The message of the `invalid_argument` exception. */
  function InvalidKindMessage(kind: string): string
  {
    "Invalid column type: " + kind
  }
}
