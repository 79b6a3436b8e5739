/** The value a JSON text denotes, as cJSON's tree holds it: members keep their order
    and keys may repeat. */
module JsonTree {
  import opened Bytes

  /** CJSON_NESTING_LIMIT: containers the parser will nest. */
  const NESTING_LIMIT: nat := 1000
  /** CJSON_CIRCULAR_LIMIT: levels Duplicate will descend. */
  const CIRCULAR_LIMIT: nat := 10000

  const INT_MAX: int := 0x7fff_ffff
  const INT_MIN: int := -0x8000_0000

  datatype Json =
    | Null
    | False
    | True
    | Number(d: real)
    | String(s: CStr)
    | Array(items: seq<Json>)
    | Object(members: seq<Member>)

  datatype Member = Member(key: CStr, value: Json)

  /** How many containers are nested along the deepest path. */
  function Depth(t: Json): nat
    decreases t, 1
  {
    match t
    case Array(items) => 1 + ItemsDepth(items)
    case Object(members) => 1 + MembersDepth(members)
    case _ => 0
  }

  function ItemsDepth(ts: seq<Json>): nat
    decreases ts, 0
  {
    if ts == [] then 0 else
      var d, r := Depth(ts[0]), ItemsDepth(ts[1..]);
      if d < r then r else d
  }

  function MembersDepth(ms: seq<Member>): nat
    decreases ms, 0
  {
    if ms == [] then 0 else
      var d, r := Depth(ms[0].value), MembersDepth(ms[1..]);
      if d < r then r else d
  }

  /** The number is a C int, the case that cJSON prints with %d. */
  predicate IsInt(d: real) {
    d == d.Floor as real && INT_MIN <= d.Floor <= INT_MAX
  }

  predicate IntNumbers(t: Json)
    decreases t, 1
  {
    match t
    case Number(d) => IsInt(d)
    case Array(items) => ItemsIntNumbers(items)
    case Object(members) => MembersIntNumbers(members)
    case _ => true
  }

  predicate ItemsIntNumbers(ts: seq<Json>)
    decreases ts, 0
  {
    ts == [] || (IntNumbers(ts[0]) && ItemsIntNumbers(ts[1..]))
  }

  predicate MembersIntNumbers(ms: seq<Member>)
    decreases ms, 0
  {
    ms == [] || (IntNumbers(ms[0].value) && MembersIntNumbers(ms[1..]))
  }
}
