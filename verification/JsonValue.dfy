/**
 The JSON values that a cJSON tree stands for. A number is an exact real: the
 rounding of `double` is not modelled.
 */
module JsonValue {
  import opened Bytes

  datatype Json =
    | Null
    | False
    | True
    | Number(value: real)
    | String(text: seq<byte>)
    | Array(items: seq<Json>)
    | Object(members: seq<Member>)

  datatype Member = Member(key: seq<byte>, value: Json)

  /** How deeply arrays and objects nest. */
  function Height(t: Json): nat
    decreases t, 1
  {
    match t
    case Array(items) => 1 + ItemsHeight(items)
    case Object(members) => 1 + MembersHeight(members)
    case _ => 0
  }

  function ItemsHeight(items: seq<Json>): nat
    decreases items, 0
  {
    if items == [] then 0 else Max(Height(items[0]), ItemsHeight(items[1..]))
  }

  function MembersHeight(members: seq<Member>): nat
    decreases members, 0
  {
    if members == [] then 0 else Max(Height(members[0].value), MembersHeight(members[1..]))
  }

  function Max(a: nat, b: nat): nat {
    if a < b then b else a
  }

  function Magnitude(v: real): real {
    if v < 0.0 then -v else v
  }

  /** Whole numbers that `%1.15g` prints as plain decimal digits. */
  const DECIMAL_LIMIT: int := 1_000_000_000_000_000

  predicate PlainInteger(v: real) {
    v == v.Floor as real && -DECIMAL_LIMIT < v.Floor < DECIMAL_LIMIT
  }

  /** Trees whose numbers are plain integers and whose strings are C strings. */
  predicate Printable(t: Json)
    decreases t, 1
  {
    match t
    case Number(v) => PlainInteger(v)
    case String(s) => NulFree(s)
    case Array(items) => PrintableItems(items)
    case Object(members) => PrintableMembers(members)
    case _ => true
  }

  predicate PrintableItems(items: seq<Json>)
    decreases items, 0
  {
    items == [] || (Printable(items[0]) && PrintableItems(items[1..]))
  }

  predicate PrintableMembers(members: seq<Member>)
    decreases members, 0
  {
    members == [] ||
    (NulFree(members[0].key) && Printable(members[0].value) && PrintableMembers(members[1..]))
  }
}
