/**
  An already-parsed JSON value, as `json.load` hands it to the scripts:
  objects keep their members in document order.
 */
module Json {
  import opened Wrappers
  import opened Search

  datatype Json =
    | JNull
    | JBool(b: bool)
    | JNum(n: int)
    | JStr(s: string)
    | JArr(items: seq<Json>)
    | JObj(members: seq<(string, Json)>)

  /** The object has a member named `key`. */
  predicate HasKey(j: Json, key: string) {
    j.JObj? && exists k :: 0 <= k < |j.members| && j.members[k].0 == key
  }

  /**
    `d.get(key)` on a parsed object (`None` on anything that is not an
    object); with a repeated name the last binding wins, as in `json.loads`.
   */
  function Get(j: Json, key: string): (r: Option<Json>)
    ensures r.Some? <==> HasKey(j, key)
    ensures r.Some? ==> exists k :: 0 <= k < |j.members| && j.members[k] == (key, r.value)
                                    && forall k' :: k < k' < |j.members| ==> j.members[k'].0 != key
  {
    if j.JObj? then
      match LastWhere(j.members, (m: (string, Json)) => m.0 == key)
      case None => None
      case Some(k) => Some(j.members[k].1)
    else None
  }

  /** The names of an object's members, in order. */
  function Keys(j: Json): seq<string>
    requires j.JObj?
  {
    seq(|j.members|, i requires 0 <= i < |j.members| => j.members[i].0)
  }

  /** An object whose members carry distinct names gives back each member's value. */
  lemma GetDistinct(j: Json, k: nat)
    requires j.JObj? && k < |j.members|
    requires forall a, b :: 0 <= a < b < |j.members| ==> j.members[a].0 != j.members[b].0
    ensures Get(j, j.members[k].0) == Some(j.members[k].1)
  {
    LastWhereIs(j.members, (m: (string, Json)) => m.0 == j.members[k].0, k);
  }
}
