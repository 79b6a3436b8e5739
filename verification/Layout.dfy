/** What formatting adds to a text. */
module Layout {
  import opened Bytes
  import opened JsonTree
  import opened Rendering
  import JsonStrings
  import Numbers
  import RoundTrip
  import Syntax

  /** A new line for something k containers deep. */
  function NewLine(k: nat): (s: seq<byte>)
    ensures |s| == k + 1
  {
    [NEWLINE] + seq(k, _ => TAB)
  }

  /** Formats a text without blanks from left to right. `open` lists the open containers, innermost last,
      true for an object; string literals are left alone. */
  function Formatted(s: seq<byte>, open: seq<bool>, inString: bool): seq<byte> {
    if s == [] then []
    else if inString then
      if s[0] == BACKSLASH && |s| > 1 then s[..2] + Formatted(s[2..], open, true)
      else [s[0]] + Formatted(s[1..], open, s[0] != QUOTE)
    else
      Spaced(s, open) + Formatted(s[1..], OpenBehind(s[0], open), s[0] == QUOTE)
  }

  /** The first byte, with what is put before and behind it: a member, and the brace that closes an object,
      are on a line of their own, a tab follows the colon, and a space the comma in an array. */
  function Spaced(s: seq<byte>, open: seq<bool>): seq<byte>
    requires s != []
  {
    var k := |open|;
    if s[0] == LBRACE then [LBRACE] + (if |s| > 1 && s[1] == RBRACE then [] else NewLine(k + 1))
    else if s[0] == RBRACE then NewLine(if k == 0 then 0 else k - 1) + [RBRACE]
    else if s[0] == COLON then [COLON, TAB]
    else if s[0] == COMMA then [COMMA] + (if k > 0 && open[k - 1] then NewLine(k) else [SPACE])
    else [s[0]]
  }

  function OpenBehind(b: byte, open: seq<bool>): seq<bool> {
    if b == LBRACE then open + [true]
    else if b == LBRACKET then open + [false]
    else if (b == RBRACE || b == RBRACKET) && open != [] then open[..|open| - 1]
    else open
  }

  /** Whatever follows, p is formatted as q, and leaves so many containers open. */
  ghost predicate Lays(p: seq<byte>, q: seq<byte>, open: seq<bool>, behind: seq<bool>) {
    forall rest :: Formatted(p + rest, open, false) == q + Formatted(rest, behind, false)
  }

  lemma LaysBoth(p: seq<byte>, q: seq<byte>, p': seq<byte>, q': seq<byte>, a: seq<bool>, b: seq<bool>, c: seq<bool>)
    requires Lays(p, q, a, b) && Lays(p', q', b, c)
    ensures Lays(p + p', q + q', a, c)
  {
    hide Formatted;
    forall rest ensures Formatted(p + p' + rest, a, false) == q + q' + Formatted(rest, c, false) {
      Assoc(p, p', rest);
      Assoc(q, q', Formatted(rest, c, false));
    }
  }

  lemma Outside(s: seq<byte>, open: seq<bool>)
    requires s != []
    ensures Formatted(s, open, false) == Spaced(s, open) + Formatted(s[1..], OpenBehind(s[0], open), s[0] == QUOTE)
  {
    hide Spaced, OpenBehind;
  }

  lemma Inside(s: seq<byte>, open: seq<bool>)
    requires s != []
    ensures Formatted(s, open, true) == if s[0] == BACKSLASH && |s| > 1 then s[..2] + Formatted(s[2..], open, true)
                                        else [s[0]] + Formatted(s[1..], open, s[0] != QUOTE)
  {
    hide Spaced, OpenBehind;
  }

  lemma LaysByte(b: byte, q: seq<byte>, open: seq<bool>)
    requires b != QUOTE && b != LBRACE && q == Spaced([b], open)
    ensures Lays([b], q, open, OpenBehind(b, open))
  {
    hide Formatted;
    forall rest ensures Formatted([b] + rest, open, false) == q + Formatted(rest, OpenBehind(b, open), false) {
      Outside([b] + rest, open);
      assert ([b] + rest)[1..] == rest;
    }
  }

  lemma {:induction false} LaysPlain(p: seq<byte>, open: seq<bool>)
    requires forall k :: 0 <= k < |p| ==> Spaced([p[k]], open) == [p[k]] && OpenBehind(p[k], open) == open
    requires forall k :: 0 <= k < |p| ==> p[k] != QUOTE && p[k] != LBRACE
    ensures Lays(p, p, open, open)
  {
    hide Spaced, OpenBehind;
    if p == [] {
      forall rest ensures Formatted([] + rest, open, false) == [] + Formatted(rest, open, false) {
        assert [] + rest == rest;
      }
    } else {
      LaysByte(p[0], [p[0]], open);
      LaysPlain(p[1..], open);
      LaysBoth([p[0]], [p[0]], p[1..], p[1..], open, open, open);
      assert p == [p[0]] + p[1..];
    }
  }

  lemma {:induction false} BodyIsKept(body: seq<byte>, open: seq<bool>, rest: seq<byte>)
    requires Syntax.Closed(body)
    ensures Formatted(body + ([QUOTE] + rest), open, true) == body + ([QUOTE] + Formatted(rest, open, false))
    decreases |body|
  {
    hide Formatted;
    var s := body + ([QUOTE] + rest);
    Inside(s, open);
    if body == [] {
      assert s[1..] == rest;
    } else {
      var n := if body[0] == BACKSLASH then 2 else 1;
      assert s[n..] == body[n..] + ([QUOTE] + rest) && s[..n] == body[..n] && body == body[..n] + body[n..];
      BodyIsKept(body[n..], open, rest);
      assert n == 1 ==> body[..n] == [body[0]];
      Assoc(body[..n], body[n..], [QUOTE] + Formatted(rest, open, false));
    }
  }

  lemma LaysQuoted(s: CStr, open: seq<bool>)
    ensures Lays(JsonStrings.Quoted(s), JsonStrings.Quoted(s), open, open)
  {
    hide Syntax.Closed, Formatted;
    RoundTrip.UnitsOfString(s);
    var body := JsonStrings.Escaped(s);
    forall rest
      ensures Formatted(JsonStrings.Quoted(s) + rest, open, false)
           == JsonStrings.Quoted(s) + Formatted(rest, open, false)
    {
      BodyIsKept(body, open, rest);
      Quotes(body, open, rest);
    }
  }

  lemma Quotes(body: seq<byte>, open: seq<bool>, rest: seq<byte>)
    requires Formatted(body + ([QUOTE] + rest), open, true) == body + ([QUOTE] + Formatted(rest, open, false))
    ensures Formatted([QUOTE] + body + [QUOTE] + rest, open, false)
         == [QUOTE] + body + [QUOTE] + Formatted(rest, open, false)
  {
    hide Formatted;
    var s := [QUOTE] + body + [QUOTE] + rest;
    Outside(s, open);
    assert s[1..] == body + ([QUOTE] + rest);
    assert Spaced(s, open) == [QUOTE] && OpenBehind(QUOTE, open) == open;
  }

  lemma LaysWord(w: seq<byte>, open: seq<bool>)
    requires w == TEXT_NULL || w == TEXT_FALSE || w == TEXT_TRUE
    ensures Lays(w, w, open, open)
  {
    hide Formatted;
    LaysPlain(w, open);
  }

  lemma LaysNumber(n: int, open: seq<bool>)
    ensures Lays(Numbers.PrintInt(n), Numbers.PrintInt(n), open, open)
  {
    hide Formatted, Numbers.PrintInt;
    Numbers.PrintIntChars(n);
    LaysPlain(Numbers.PrintInt(n), open);
  }

  lemma LaysLeaf(t: Json, open: seq<bool>)
    requires IntNumbers(t) && !t.Array? && !t.Object?
    ensures Lays(Render(t, false, |open|), Render(t, true, |open|), open, open)
  {
    hide Lays;
    if t.String? {
      LaysQuoted(t.s, open);
    } else if t.Number? {
      LaysNumber(t.d.Floor, open);
    } else {
      LaysWord(Render(t, false, |open|), open);
    }
  }

  lemma {:induction false} LaysValue(t: Json, open: seq<bool>)
    requires IntNumbers(t)
    ensures Lays(Render(t, false, |open|), Render(t, true, |open|), open, open)
    decreases t, 2
  {
    match t
    case Array(ts) => LaysArray(ts, open);
    case Object(ms) => LaysObject(ms, open);
    case _ => LaysLeaf(t, open);
  }

  lemma {:induction false} LaysArray(ts: seq<Json>, open: seq<bool>)
    requires ItemsIntNumbers(ts)
    ensures Lays(Render(Array(ts), false, |open|), Render(Array(ts), true, |open|), open, open)
    decreases ts, 1
  {
    hide Lays, RenderItems;
    var inner := open + [false];
    LaysByte(LBRACKET, [LBRACKET], open);
    LaysItems(ts, inner);
    LaysByte(RBRACKET, [RBRACKET], inner);
    assert inner[..|inner| - 1] == open;
    var p, q := RenderItems(ts, false, |inner|), RenderItems(ts, true, |inner|);
    LaysBoth([LBRACKET], [LBRACKET], p, q, open, inner, inner);
    LaysBoth([LBRACKET] + p, [LBRACKET] + q, [RBRACKET], [RBRACKET], open, inner, open);
  }

  lemma {:induction false} LaysItems(ts: seq<Json>, open: seq<bool>)
    requires ItemsIntNumbers(ts) && open != [] && !open[|open| - 1]
    ensures Lays(RenderItems(ts, false, |open|), RenderItems(ts, true, |open|), open, open)
    decreases ts, 0
  {
    hide Lays, Render;
    var k := |open|;
    if ts == [] {
      LaysPlain([], open);
    } else {
      LaysValue(ts[0], open);
      if |ts| > 1 {
        var p, q := RenderItems(ts[1..], false, k), RenderItems(ts[1..], true, k);
        LaysItems(ts[1..], open);
        LaysByte(COMMA, [COMMA, SPACE], open);
        LaysBoth([COMMA], [COMMA, SPACE], p, q, open, open, open);
        LaysBoth(Render(ts[0], false, k), Render(ts[0], true, k), [COMMA] + p, [COMMA, SPACE] + q, open, open, open);
      } else {
        LaysLast(Render(ts[0], false, k), Render(ts[0], true, k));
      }
    }
  }

  lemma LaysLast(p: seq<byte>, q: seq<byte>)
    ensures p + [] == p && q + [] == q
  {
  }

  lemma {:induction false} LaysObject(ms: seq<Member>, open: seq<bool>)
    requires MembersIntNumbers(ms)
    ensures Lays(Render(Object(ms), false, |open|), Render(Object(ms), true, |open|), open, open)
    decreases ms, 1
  {
    hide Lays, RenderMembers, Formatted;
    var k, inner := |open|, open + [true];
    var p, q := [], [];
    LaysPlain([], inner);
    if ms != [] {
      q := LaysMembers(ms, inner);
      p := RenderMembers(ms, false, k + 1);
      MembersStart(ms, k + 1);
    } else {
      NoMembers(k + 1);
    }
    var close := NewLine(k) + [RBRACE];
    LaysByte(RBRACE, close, inner);
    assert inner[..|inner| - 1] == open;
    LaysBoth(p, q, [RBRACE], close, inner, inner, open);
    LaysOpen(p + [RBRACE], q + close, open, open);
    ObjectText(p, q, k, ms == []);
  }

  lemma NoMembers(k: nat)
    ensures RenderMembers([], false, k) == [] && RenderMembers([], true, k) == []
  {
  }

  lemma MembersStart(ms: seq<Member>, k: nat)
    requires ms != [] && MembersIntNumbers(ms)
    ensures RenderMembers(ms, false, k) != [] && RenderMembers(ms, false, k)[0] == QUOTE
  {
    hide Render, JsonStrings.Escaped;
  }

  /** An opening brace and what is behind it. */
  lemma LaysOpen(p: seq<byte>, q: seq<byte>, open: seq<bool>, behind: seq<bool>)
    requires p != [] && Lays(p, q, open + [true], behind)
    ensures Lays([LBRACE] + p, [LBRACE] + (if p[0] == RBRACE then [] else NewLine(|open| + 1)) + q, open, behind)
  {
    hide Formatted;
    var gap := if p[0] == RBRACE then [] else NewLine(|open| + 1);
    forall rest
      ensures Formatted([LBRACE] + p + rest, open, false) == [LBRACE] + gap + q + Formatted(rest, behind, false)
    {
      OpenStep(p, rest, open);
      Assoc([LBRACE] + gap, q, Formatted(rest, behind, false));
    }
  }

  lemma OpenStep(p: seq<byte>, rest: seq<byte>, open: seq<bool>)
    requires p != []
    ensures Formatted([LBRACE] + p + rest, open, false)
         == [LBRACE] + (if p[0] == RBRACE then [] else NewLine(|open| + 1)) + Formatted(p + rest, open + [true], false)
  {
    hide Formatted;
    var s := [LBRACE] + p + rest;
    Outside(s, open);
    assert s[1..] == p + rest && s[0] == LBRACE && s[1] == p[0];
  }

  /** The braces around the members, as they are printed. */
  lemma ObjectText(p: seq<byte>, q: seq<byte>, k: nat, empty: bool)
    requires empty ==> p == q == []
    ensures [LBRACE] + (p + [RBRACE]) == Open(false) + p + Close(false, k)
    ensures empty ==> [LBRACE] + [] + (q + (NewLine(k) + [RBRACE])) == Open(true) + [] + Close(true, k)
    ensures !empty ==> [LBRACE] + NewLine(k + 1) + (q + (NewLine(k) + [RBRACE]))
                       == Open(true) + (Tabs(k + 1) + (q + [NEWLINE])) + Close(true, k)
  {
    NewLineIs(k);
    NewLineIs(k + 1);
  }

  lemma NewLineIs(k: nat)
    ensures NewLine(k) == [NEWLINE] + Tabs(k)
  {
  }

  /** The members without the tabs before the first and the line break behind the last. */
  lemma {:induction false} LaysMembers(ms: seq<Member>, open: seq<bool>) returns (q: seq<byte>)
    requires ms != [] && MembersIntNumbers(ms) && open != [] && open[|open| - 1]
    ensures Lays(RenderMembers(ms, false, |open|), q, open, open)
    ensures RenderMembers(ms, true, |open|) == Tabs(|open|) + (q + [NEWLINE])
    decreases ms, 0
  {
    hide Lays, Render, RenderMembers, JsonStrings.Quoted, Formatted;
    var k, m := |open|, ms[0];
    var key, p, v := JsonStrings.Quoted(m.key), Render(m.value, false, k), Render(m.value, true, k);
    LaysQuoted(m.key, open);
    LaysByte(COLON, [COLON, TAB], open);
    LaysValue(m.value, open);
    LaysBoth(key, key, [COLON], [COLON, TAB], open, open, open);
    LaysBoth(key + [COLON], key + [COLON, TAB], p, v, open, open, open);
    q := key + [COLON, TAB] + v;
    var more, rest := [], [];
    NoMembers(k);
    if |ms| > 1 {
      rest := LaysMembers(ms[1..], open);
      more := RenderMembers(ms[1..], false, k);
      LaysByte(COMMA, [COMMA] + NewLine(k), open);
      LaysBoth([COMMA], [COMMA] + NewLine(k), more, rest, open, open, open);
      LaysBoth(key + [COLON] + p, q, [COMMA] + more, [COMMA] + NewLine(k) + rest, open, open, open);
      q := q + ([COMMA] + NewLine(k) + rest);
    }
    assert |ms| == 1 ==> ms[1..] == [];
    RoundTrip.MembersParts(ms, false, k, []);
    RoundTrip.MembersParts(ms, true, k, []);
    MemberText(key, p, v, k, |ms| == 1, more, rest);
    LaysLast(RenderMembers(ms, false, k), RenderMembers(ms, true, k));
    LaysLast(RenderMembers(ms[1..], false, k), RenderMembers(ms[1..], true, k));
  }

  lemma MemberText(key: seq<byte>, p: seq<byte>, v: seq<byte>, k: nat, last: bool, more: seq<byte>, rest: seq<byte>)
    requires last ==> more == rest == []
    ensures Indent(false, k) + (key + KeySeparator(false) + (p + (MemberEnd(false, last) + more)))
         == if last then key + [COLON] + p else key + [COLON] + p + ([COMMA] + more)
    ensures last ==> Indent(true, k) + (key + KeySeparator(true) + (v + (MemberEnd(true, true) + [])))
                     == Tabs(k) + ((key + [COLON, TAB] + v) + [NEWLINE])
    ensures !last ==>
              Indent(true, k) + (key + KeySeparator(true) + (v +
                                               (MemberEnd(true, false) + (Tabs(k) + (rest + [NEWLINE])))))
              == Tabs(k) + ((key + [COLON, TAB] + v + ([COMMA] + NewLine(k) + rest)) + [NEWLINE])
  {
    NewLineIs(k);
  }

  /** Formatting the unformatted text is printing formatted. */
  lemma FormattedPrint(t: Json)
    requires IntNumbers(t)
    ensures Render(t, true, 0) == Formatted(Render(t, false, 0), [], false)
  {
    hide Render;
    LaysValue(t, []);
    LaysLast(Render(t, false, 0), Render(t, true, 0));
    assert Formatted([], [], false) == [];
  }
}
