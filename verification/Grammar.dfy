/** What cJSON's parse functions accept, provided every allocation succeeds. */
module Grammar {
  import opened Bytes
  import opened JsonTree
  import opened Rendering
  import JsonStrings
  import Numbers

  // Each function gives the value it builds and the offset it leaves, or where it gives up.

  /** The value and the offset behind it, or the offset at which the parser gave up. */
  datatype Result<+T> = Ok(value: T, next: nat) | Err(at: nat)

  function SkipBlanks(c: seq<byte>, o: nat): (p: nat)
    requires o <= |c|
    ensures o <= p <= |c|
    ensures p < |c| ==> c[p] > 32
    ensures forall k :: o <= k < p ==> c[k] <= 32
    decreases |c| - o
  {
    if o < |c| && c[o] <= 32 then SkipBlanks(c, o + 1) else o
  }

  /** buffer_skip_whitespace: the offset steps back onto the last byte if the text runs out,
      and an offset already at the end stays there. */
  function SkipWs(c: seq<byte>, o: nat): (p: nat)
    requires o <= |c|
    ensures o <= p <= |c|
    ensures o < |c| ==> p < |c|
  {
    if o == |c| then o else
      var p := SkipBlanks(c, o);
      if p == |c| then p - 1 else p
  }

  function ParseString(c: seq<byte>, o: nat): (r: Result<CStr>)
    requires o < |c|
    ensures r.Ok? ==> o < r.next <= |c|
    ensures r.Err? ==> o <= r.at <= |c|
  {
    if c[o] != QUOTE then Err(o + 1) else
      match JsonStrings.ScanEnd(c, o + 1)
      case None => Err(o + 1)
      case Some(end) =>
        var d := JsonStrings.Decode(c, o + 1, end);
        match d.bad
        case Some(at) => Err(at)
        case None => Ok(Visible(d.bytes), end + 1)
  }

  function ParseNumber(c: seq<byte>, o: nat): (r: Result<real>)
    requires o <= |c|
    ensures r.Ok? ==> o < r.next <= |c|
    ensures r.Err? ==> r.at == o
  {
    var (n, v) := Numbers.Strtod(c[o..o + Numbers.WindowLen(c, o, 0)]);
    if n == 0 then Err(o) else Ok(v, o + n)
  }

  predicate StartsNumber(c: seq<byte>, o: nat) {
    o < |c| && (c[o] == MINUS || Numbers.IsDigit(c[o]))
  }

  predicate IsByte(c: seq<byte>, o: nat, b: byte) {
    o < |c| && c[o] == b
  }

  /** parse_value at offset o, with d containers open. */
  function ParseValue(c: seq<byte>, o: nat, d: nat): (r: Result<Json>)
    requires o <= |c|
    ensures r.Ok? ==> o < r.next <= |c|
    ensures r.Err? ==> o <= r.at <= |c|
    decreases |c| - o, 4
  {
    if At(c, o, TEXT_NULL) then Ok(Null, o + 4)
    else if At(c, o, TEXT_FALSE) then Ok(False, o + 5)
    else if At(c, o, TEXT_TRUE) then Ok(True, o + 4)
    else if IsByte(c, o, QUOTE) then
      match ParseString(c, o)
      case Ok(s, next) => Ok(String(s), next)
      case Err(at) => Err(at)
    else if StartsNumber(c, o) then
      match ParseNumber(c, o)
      case Ok(v, next) => Ok(Number(v), next)
      case Err(at) => Err(at)
    else if IsByte(c, o, LBRACKET) then ParseArray(c, o, d)
    else if IsByte(c, o, LBRACE) then ParseObject(c, o, d)
    else Err(o)
  }

  function ParseArray(c: seq<byte>, o: nat, d: nat): (r: Result<Json>)
    requires o < |c| && c[o] == LBRACKET
    ensures r.Ok? ==> o < r.next <= |c|
    ensures r.Err? ==> o <= r.at <= |c|
    decreases |c| - o, 3
  {
    if d >= NESTING_LIMIT then Err(o) else
      var p := SkipWs(c, o + 1);
      if IsByte(c, p, RBRACKET) then Ok(Array([]), p + 1)
      else if p == |c| then Err(p - 1)
      else
        match ParseItems(c, p - 1, d + 1)
        case Ok(items, close) => Ok(Array(items), close + 1)
        case Err(at) => Err(at)
  }

  /** The elements from the one whose '[' or ',' (or blank before it) is at o, up to the ']'. */
  function ParseItems(c: seq<byte>, o: nat, d: nat): (r: Result<seq<Json>>)
    requires o < |c|
    ensures r.Ok? ==> o < r.next < |c| && |r.value| > 0
    ensures r.Err? ==> o <= r.at <= |c|
    decreases |c| - o, 2
  {
    match ParseValue(c, SkipWs(c, o + 1), d)
    case Err(at) => Err(at)
    case Ok(t, next) =>
      var p := SkipWs(c, next);
      if IsByte(c, p, COMMA) then PrependItem(t, ParseItems(c, p, d))
      else if IsByte(c, p, RBRACKET) then Ok([t], p)
      else Err(p)
  }

  function PrependItem(t: Json, r: Result<seq<Json>>): Result<seq<Json>> {
    match r
    case Ok(ts, next) => Ok([t] + ts, next)
    case Err(at) => Err(at)
  }

  function ParseObject(c: seq<byte>, o: nat, d: nat): (r: Result<Json>)
    requires o < |c| && c[o] == LBRACE
    ensures r.Ok? ==> o < r.next <= |c|
    ensures r.Err? ==> o <= r.at <= |c|
    decreases |c| - o, 3
  {
    if d >= NESTING_LIMIT then Err(o) else
      var p := SkipWs(c, o + 1);
      if IsByte(c, p, RBRACE) then Ok(Object([]), p + 1)
      else if p == |c| then Err(p - 1)
      else
        match ParseMembers(c, p - 1, d + 1)
        case Ok(members, close) => Ok(Object(members), close + 1)
        case Err(at) => Err(at)
  }

  /** The key behind the '{' or ',' at o, its colon, and the offset of its value. */
  function ParseKey(c: seq<byte>, o: nat): (r: Result<CStr>)
    requires o < |c|
    ensures r.Ok? ==> o < r.next <= |c|
    ensures r.Err? ==> o <= r.at <= |c|
  {
    if o + 1 >= |c| then Err(o) else
      match ParseString(c, SkipWs(c, o + 1))
      case Err(at) => Err(at)
      case Ok(key, next) =>
        var p := SkipWs(c, next);
        if IsByte(c, p, COLON) then Ok(key, SkipWs(c, p + 1)) else Err(p)
  }

  function ParseMember(c: seq<byte>, o: nat, d: nat): (r: Result<Member>)
    requires o < |c|
    ensures r.Ok? ==> o < r.next <= |c|
    ensures r.Err? ==> o <= r.at <= |c|
    decreases |c| - o, 1
  {
    match ParseKey(c, o)
    case Err(at) => Err(at)
    case Ok(key, start) =>
      match ParseValue(c, start, d)
      case Err(at) => Err(at)
      case Ok(t, after) => Ok(Member(key, t), after)
  }

  function ParseMembers(c: seq<byte>, o: nat, d: nat): (r: Result<seq<Member>>)
    requires o < |c|
    ensures r.Ok? ==> o < r.next < |c| && |r.value| > 0
    ensures r.Err? ==> o <= r.at <= |c|
    decreases |c| - o, 2
  {
    match ParseMember(c, o, d)
    case Err(at) => Err(at)
    case Ok(m, next) =>
      var p := SkipWs(c, next);
      if IsByte(c, p, COMMA) then PrependMember(m, ParseMembers(c, p, d))
      else if IsByte(c, p, RBRACE) then Ok([m], p)
      else Err(p)
  }

  function PrependMember(m: Member, r: Result<seq<Member>>): Result<seq<Member>> {
    match r
    case Ok(ms, next) => Ok([m] + ms, next)
    case Err(at) => Err(at)
  }

  // ---- the whole text ----

  const BOM: seq<byte> := [0xEF, 0xBB, 0xBF]

  /** skip_utf8_bom: a mark is skipped only if at least two bytes follow it. */
  function SkipBom(c: seq<byte>): (o: nat)
    ensures o <= |c|
  {
    if |c| > 4 && At(c, 0, BOM) then 3 else 0
  }

  /** cJSON_ParseWithLengthOpts on a non-empty buffer. */
  function ParseText(c: seq<byte>, requireNul: bool): (r: Result<Json>)
    requires c != []
    ensures r.Ok? ==> r.next <= |c|
    ensures r.Err? ==> r.at <= |c|
  {
    match ParseValue(c, SkipWs(c, SkipBom(c)), 0)
    case Err(at) => Err(at)
    case Ok(t, next) =>
      if !requireNul then Ok(t, next) else
        var p := SkipWs(c, next);
        if IsByte(c, p, NUL) then Ok(t, p) else Err(p)
  }

  /** The position cJSON_GetErrorPtr reports for a parse that stopped at `at`. */
  function ErrorPosition(c: seq<byte>, at: nat): (p: nat)
    requires c != []
    ensures p < |c|
  {
    if at < |c| then at else |c| - 1
  }

  // ---- nesting ----

  /** No accepted text nests containers deeper than the limit. */
  lemma {:induction false} NestingBounded(c: seq<byte>, o: nat, d: nat)
    requires o <= |c| && d <= NESTING_LIMIT
    ensures var r := ParseValue(c, o, d); r.Ok? ==> d + Depth(r.value) <= NESTING_LIMIT
    decreases |c| - o, 4
  {
    hide ParseArray, ParseObject, ParseString, ParseNumber;
    if IsByte(c, o, LBRACKET) {
      ArrayNestingBounded(c, o, d);
    }
    if IsByte(c, o, LBRACE) {
      ObjectNestingBounded(c, o, d);
    }
  }

  lemma {:induction false} ArrayNestingBounded(c: seq<byte>, o: nat, d: nat)
    requires IsByte(c, o, LBRACKET) && d <= NESTING_LIMIT
    ensures var r := ParseArray(c, o, d); r.Ok? ==> d + Depth(r.value) <= NESTING_LIMIT
    decreases |c| - o, 3
  {
    hide ParseItems, SkipWs;
    var p := SkipWs(c, o + 1);
    if d < NESTING_LIMIT && p < |c| && c[p] != RBRACKET {
      ItemsNestingBounded(c, p - 1, d + 1);
    }
  }

  lemma {:induction false} ObjectNestingBounded(c: seq<byte>, o: nat, d: nat)
    requires IsByte(c, o, LBRACE) && d <= NESTING_LIMIT
    ensures var r := ParseObject(c, o, d); r.Ok? ==> d + Depth(r.value) <= NESTING_LIMIT
    decreases |c| - o, 3
  {
    hide ParseMembers, SkipWs;
    var p := SkipWs(c, o + 1);
    if d < NESTING_LIMIT && p < |c| && c[p] != RBRACE {
      MembersNestingBounded(c, p - 1, d + 1);
    }
  }

  lemma {:induction false} ItemsNestingBounded(c: seq<byte>, o: nat, d: nat)
    requires o < |c| && d <= NESTING_LIMIT
    ensures var r := ParseItems(c, o, d); r.Ok? ==> d + ItemsDepth(r.value) <= NESTING_LIMIT
    decreases |c| - o, 2
  {
    var q := SkipWs(c, o + 1);
    NestingBounded(c, q, d);
    var v := ParseValue(c, q, d);
    if v.Ok? {
      var p := SkipWs(c, v.next);
      if IsByte(c, p, COMMA) {
        ItemsNestingBounded(c, p, d);
        var r := ParseItems(c, p, d);
        if r.Ok? {
          assert ([v.value] + r.value)[1..] == r.value;
        }
      }
    }
  }

  lemma {:induction false} MembersNestingBounded(c: seq<byte>, o: nat, d: nat)
    requires o < |c| && d <= NESTING_LIMIT
    ensures var r := ParseMembers(c, o, d); r.Ok? ==> d + MembersDepth(r.value) <= NESTING_LIMIT
    decreases |c| - o, 2
  {
    var m := ParseMember(c, o, d);
    if m.Ok? {
      MemberNestingBounded(c, o, d);
      var p := SkipWs(c, m.next);
      if IsByte(c, p, COMMA) {
        MembersNestingBounded(c, p, d);
        var r := ParseMembers(c, p, d);
        if r.Ok? {
          assert ([m.value] + r.value)[1..] == r.value;
        }
      }
    }
  }

  lemma {:induction false} MemberNestingBounded(c: seq<byte>, o: nat, d: nat)
    requires o < |c| && d <= NESTING_LIMIT
    ensures var r := ParseMember(c, o, d); r.Ok? ==> d + Depth(r.value.value) <= NESTING_LIMIT
    decreases |c| - o, 1
  {
    var key := ParseKey(c, o);
    if key.Ok? {
      NestingBounded(c, key.next, d);
    }
  }
}
