/**
 The value a tree of nodes denotes. Arrays and objects keep order and duplicate keys.
 */
module JsonValue {
  import opened CText
  import opened Numbers

  datatype Json =
    | Null
    | False
    | True
    | Number(num: real)
    | String(text: string)
    | Array(items: seq<Json>)
    | Object(members: seq<Member>)

  datatype Member = Member(key: string, value: Json)

  // CJSON_NESTING_LIMIT: any positive number.
  type Positive = n: int | n > 0 witness 1
  const NESTING_LIMIT: Positive

  function Max(a: nat, b: nat): nat {
    if a >= b then a else b
  }

  // How deep arrays and objects are nested.
  function Nesting(v: Json): nat {
    match v
    case Array(items) => 1 + ItemsNesting(items)
    case Object(members) => 1 + MembersNesting(members)
    case _ => 0
  }

  function ItemsNesting(items: seq<Json>): nat {
    if items == [] then 0 else Max(Nesting(items[0]), ItemsNesting(items[1..]))
  }

  function MembersNesting(members: seq<Member>): nat {
    if members == [] then 0 else Max(Nesting(members[0].value), MembersNesting(members[1..]))
  }

  // All strings are C strings.
  predicate CStrings(v: Json) {
    match v
    case String(text) => NUL !in text
    case Array(items) => forall i | 0 <= i < |items| :: CStrings(items[i])
    case Object(members) => forall i | 0 <= i < |members| :: NUL !in members[i].key && CStrings(members[i].value)
    case _ => true
  }

  // All numbers read back what they print.
  predicate NumbersReadBack(v: Json) {
    match v
    case Number(num) => ReadsBack(num)
    case Array(items) => forall i | 0 <= i < |items| :: NumbersReadBack(items[i])
    case Object(members) => forall i | 0 <= i < |members| :: NumbersReadBack(members[i].value)
    case _ => true
  }

  // All numbers are ints.
  predicate Ints(v: Json) {
    match v
    case Number(num) => IsInt(num)
    case Array(items) => forall i | 0 <= i < |items| :: Ints(items[i])
    case Object(members) => forall i | 0 <= i < |members| :: Ints(members[i].value)
    case _ => true
  }

  lemma {:induction false} IntTreesReadBack(v: Json)
    requires Ints(v)
    ensures NumbersReadBack(v)
  {
    hide ReadsBack;
    match v
    case Number(num) =>
      IntsReadBack(num);
    case Array(items) =>
      forall i | 0 <= i < |items|
        ensures NumbersReadBack(items[i])
      {
        IntTreesReadBack(items[i]);
      }
    case Object(members) =>
      forall i | 0 <= i < |members|
        ensures NumbersReadBack(members[i].value)
      {
        IntTreesReadBack(members[i].value);
      }
    case _ =>
  }
}
