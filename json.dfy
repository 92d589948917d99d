/** The JSON values the handlers put in their responses. An object keeps its
    members in the order the handler builds its dict; the encoder that sends
    it sorts keys, which this model does not capture. */
module Json {
  import opened Wrappers

  datatype Json =
    | JNull
    | JInt(n: int)
    | JStr(s: string)
    | JArr(items: seq<Json>)
    | JObj(members: seq<(string, Json)>)

  /** The member names of an object, in order; nothing for any other value. */
  function Keys(j: Json): seq<string>
  {
    if j.JObj? then seq(|j.members|, i requires 0 <= i < |j.members| => j.members[i].0) else []
  }

  /** The value of the first member named `key`, if `j` is an object that has one. */
  function Get(j: Json, key: string): Option<Json>
  {
    if j.JObj? then Lookup(j.members, key) else None
  }

  function Lookup(members: seq<(string, Json)>, key: string): Option<Json>
  {
    if members == [] then None
    else if members[0].0 == key then Some(members[0].1)
    else Lookup(members[1..], key)
  }

  /** Member names are pairwise distinct. */
  predicate DistinctKeys(members: seq<(string, Json)>)
  {
    forall i, j :: 0 <= i < j < |members| ==> members[i].0 != members[j].0
  }

  /** In an object whose member names are distinct, looking a name up finds its member. */
  lemma {:induction false} LookupDistinct(members: seq<(string, Json)>)
    requires DistinctKeys(members)
    ensures forall i :: 0 <= i < |members| ==> Lookup(members, members[i].0) == Some(members[i].1)
  {
    if members != [] {
      LookupDistinct(members[1..]);
      forall i | 0 < i < |members|
        ensures Lookup(members, members[i].0) == Some(members[i].1)
      {
        assert members[1..][i - 1] == members[i];
      }
    }
  }

  /** The integer under "id", the field every stored row is serialized with. */
  function IdOf(j: Json): Option<int>
  {
    match Get(j, "id")
    case Some(JInt(n)) => Some(n)
    case _ => None
  }

  /** A nullable text column: SQL NULL becomes JSON null. */
  function Nullable(s: Option<string>): Json
  {
    match s
    case None => JNull
    case Some(t) => JStr(t)
  }

  predicate IsScalar(j: Json)
  {
    j.JNull? || j.JInt? || j.JStr?
  }

  /** An object none of whose members is itself an object or an array:
      a serialized row that embeds no other row. */
  predicate IsFlatObject(j: Json)
  {
    j.JObj? && forall i :: 0 <= i < |j.members| ==> IsScalar(j.members[i].1)
  }
}
