/** Canonical JSON (crates/elu-manifest/src/canonical.rs). */
module Canonical {
  import opened Texts

  /** Members in the order the map yields them; WellFormed says no key occurs twice. */
  datatype Json =
    | Null
    | Bool(b: bool)
    | Number(n: int)
    | Str(s: string)
    | Array(items: seq<Json>)
    | Object(members: seq<Member>)

  datatype Member = Member(key: string, value: Json)

  predicate IsEmptyCollection(v: Json) {
    v == Array([]) || v == Object([])
  }

  /** Members sorted by key: the loop over sorted keys that inserts into a fresh map. */
  function InsertMember(m: Member, ms: seq<Member>): (r: seq<Member>)
    ensures |r| == 1 + |ms|
    ensures forall x :: x in r <==> x == m || x in ms
  {
    if ms == [] || StrLess(m.key, ms[0].key) then [m] + ms else [ms[0]] + InsertMember(m, ms[1..])
  }

  function Normalize(v: Json): Json {
    match v
    case Object(members) => Object(NormalizeMembers(members))
    case Array(items) => Array(NormalizeItems(items))
    case _ => v
  }

  function NormalizeItems(items: seq<Json>): (r: seq<Json>)
    ensures |r| == |items|
  {
    if items == [] then [] else [Normalize(items[0])] + NormalizeItems(items[1..])
  }

  function NormalizeMembers(ms: seq<Member>): seq<Member> {
    if ms == [] then []
    else
      var rest, v := NormalizeMembers(ms[1..]), Normalize(ms[0].value);
      if IsEmptyCollection(v) then rest else InsertMember(Member(ms[0].key, v), rest)
  }
}
