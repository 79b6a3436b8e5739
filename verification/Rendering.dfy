/** The text of a tree, formatted or not, as a pure function. */
module Rendering {
  import opened Bytes
  import opened JsonTree
  import JsonStrings
  import Numbers

  const TEXT_NULL: seq<byte> := [110, 117, 108, 108]
  const TEXT_FALSE: seq<byte> := [102, 97, 108, 115, 101]
  const TEXT_TRUE: seq<byte> := [116, 114, 117, 101]

  function Tabs(n: nat): (s: seq<byte>)
    ensures |s| == n && forall k :: 0 <= k < n ==> s[k] == TAB
  {
    seq(n, _ => TAB)
  }

  /** The text of `t` printed at nesting depth `d`. */
  function Render(t: Json, fmt: bool, d: nat): (s: seq<byte>)
    requires IntNumbers(t)
    decreases t, 1
  {
    match t
    case Null => TEXT_NULL
    case False => TEXT_FALSE
    case True => TEXT_TRUE
    case Number(v) => Numbers.PrintInt(v.Floor)
    case String(s) => JsonStrings.Quoted(s)
    case Array(items) => [LBRACKET] + RenderItems(items, fmt, d + 1) + [RBRACKET]
    case Object(members) =>
      Open(fmt) + RenderMembers(members, fmt, d + 1) + Close(fmt, d)
  }

  function Open(fmt: bool): seq<byte> {
    if fmt then [LBRACE, NEWLINE] else [LBRACE]
  }

  function Close(fmt: bool, d: nat): seq<byte> {
    (if fmt then Tabs(d) else []) + [RBRACE]
  }

  function ItemSeparator(fmt: bool): seq<byte> {
    if fmt then [COMMA, SPACE] else [COMMA]
  }

  function RenderItems(ts: seq<Json>, fmt: bool, d: nat): (s: seq<byte>)
    requires ItemsIntNumbers(ts)
    decreases ts, 0
  {
    if ts == [] then [] else
      Render(ts[0], fmt, d)
      + (if |ts| == 1 then [] else ItemSeparator(fmt) + RenderItems(ts[1..], fmt, d))
  }

  function Indent(fmt: bool, d: nat): seq<byte> {
    if fmt then Tabs(d) else []
  }

  function KeySeparator(fmt: bool): seq<byte> {
    if fmt then [COLON, TAB] else [COLON]
  }

  function KeyText(key: CStr, fmt: bool): seq<byte> {
    JsonStrings.Quoted(key) + KeySeparator(fmt)
  }

  function MemberEnd(fmt: bool, last: bool): seq<byte> {
    (if last then [] else [COMMA]) + (if fmt then [NEWLINE] else [])
  }

  function RenderMembers(ms: seq<Member>, fmt: bool, d: nat): (s: seq<byte>)
    requires MembersIntNumbers(ms)
    decreases ms, 0
  {
    if ms == [] then [] else
      Indent(fmt, d) + (KeyText(ms[0].key, fmt) + (Render(ms[0].value, fmt, d)
      + (MemberEnd(fmt, |ms| == 1) + RenderMembers(ms[1..], fmt, d))))
  }

  // ---- the text is a C string ----

  lemma {:induction false} QuotedHasNoNul(s: CStr)
    ensures NUL !in JsonStrings.Escaped(s) && NUL !in JsonStrings.Quoted(s)
  {
    if s != [] {
      assert s[0] in s;
      var rest: CStr := s[1..];
      QuotedHasNoNul(rest);
    }
  }

  lemma {:induction false} RenderHasNoNul(t: Json, fmt: bool, d: nat)
    requires IntNumbers(t)
    ensures NUL !in Render(t, fmt, d) && |Render(t, fmt, d)| > 0
    decreases t, 1
  {
    match t
    case Number(v) => Numbers.PrintIntChars(v.Floor); NumberTextHasNoNul(Numbers.PrintInt(v.Floor));
    case String(s) => QuotedHasNoNul(s);
    case Array(items) => ItemsHaveNoNul(items, fmt, d + 1);
    case Object(members) => MembersHaveNoNul(members, fmt, d + 1);
    case _ =>
  }

  lemma NumberTextHasNoNul(s: seq<byte>)
    requires forall k :: 0 <= k < |s| ==> Numbers.NumberChar(s[k])
    ensures NUL !in s
  {
  }

  lemma {:induction false} ItemsHaveNoNul(ts: seq<Json>, fmt: bool, d: nat)
    requires ItemsIntNumbers(ts)
    ensures NUL !in RenderItems(ts, fmt, d)
    decreases ts, 0
  {
    if ts != [] {
      RenderHasNoNul(ts[0], fmt, d);
      ItemsHaveNoNul(ts[1..], fmt, d);
    }
  }

  lemma {:induction false} MembersHaveNoNul(ms: seq<Member>, fmt: bool, d: nat)
    requires MembersIntNumbers(ms)
    ensures NUL !in RenderMembers(ms, fmt, d)
    decreases ms, 0
  {
    if ms != [] {
      QuotedHasNoNul(ms[0].key);
      RenderHasNoNul(ms[0].value, fmt, d);
      MembersHaveNoNul(ms[1..], fmt, d);
    }
  }
}
