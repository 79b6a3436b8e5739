/** Minifying a formatted print gives the unformatted print, exactly when no closing quote that
    matters is hidden behind a backslash. */
module MinifyPrint {
  import opened Bytes
  import opened JsonTree
  import opened Rendering
  import opened JsonStrings
  import opened Minifier
  import opened MinifyLaws
  import Numbers
  import RoundTrip

  // ---- which trees come through ----

  predicate EndsInBackslash(s: CStr) {
    s != [] && s[|s| - 1] == BACKSLASH
  }

  /** No string and no key of t ends in a backslash. */
  predicate Clean(t: Json)
    decreases t, 1
  {
    match t
    case String(s) => !EndsInBackslash(s)
    case Array(items) => ItemsClean(items)
    case Object(members) => MembersClean(members)
    case _ => true
  }

  predicate ItemsClean(ts: seq<Json>)
    decreases ts, 0
  {
    ts == [] || (Clean(ts[0]) && ItemsClean(ts[1..]))
  }

  predicate MembersClean(ms: seq<Member>)
    decreases ms, 0
  {
    ms == [] || (!EndsInBackslash(ms[0].key) && Clean(ms[0].value) && MembersClean(ms[1..]))
  }

  /** As Clean, but the very last string may end in a backslash if only arrays enclose it:
      the text behind it then holds nothing but closing brackets. */
  predicate Harmless(t: Json)
    decreases t, 1
  {
    match t
    case String(_) => true
    case Array(items) => ItemsHarmless(items)
    case _ => Clean(t)
  }

  predicate ItemsHarmless(ts: seq<Json>)
    decreases ts, 0
  {
    ts == [] || (if |ts| == 1 then Harmless(ts[0]) else Clean(ts[0]) && ItemsHarmless(ts[1..]))
  }

  // ---- what minifying makes of a piece of text, whatever follows it ----

  datatype Outcome =
    | Closed    // reads on outside strings
    | LeftOpen  // reads on as if inside a string
    | Broken    // has already gone wrong

  predicate Differ(a: seq<byte>, b: seq<byte>) {
    exists k :: 0 <= k < |a| && k < |b| && a[k] != b[k]
  }

  /** Minifying the piece a gives the piece p. */
  ghost predicate Yields(a: seq<byte>, p: seq<byte>, o: Outcome) {
    match o
    case Closed => forall x :: M(a + x) == p + M(x)
    case LeftOpen => forall x :: M(a + x) == p + InString(x)
    case Broken => forall x, y :: Differ(M(a + x), p + y)
  }

  lemma DifferBehind(p: seq<byte>, a: seq<byte>, b: seq<byte>)
    requires Differ(a, b)
    ensures Differ(p + a, p + b)
  {
    var k :| 0 <= k < |a| && k < |b| && a[k] != b[k];
    assert (p + a)[|p| + k] != (p + b)[|p| + k];
  }

  /** A piece that comes through, then another. */
  lemma Sequel(a: seq<byte>, p: seq<byte>, b: seq<byte>, q: seq<byte>, o: Outcome)
    requires Yields(a, p, Closed) && Yields(b, q, o)
    ensures Yields(a + b, p + q, o)
  {
    hide M, InString, Differ;
    match o
    case Closed =>
      forall x ensures M((a + b) + x) == (p + q) + M(x) {
        Through(a, p, b, x);
        Assoc(p, q, M(x));
      }
    case LeftOpen =>
      forall x ensures M((a + b) + x) == (p + q) + InString(x) {
        Through(a, p, b, x);
        Assoc(p, q, InString(x));
      }
    case Broken =>
      forall x, y ensures Differ(M((a + b) + x), (p + q) + y) {
        Through(a, p, b, x);
        Assoc(p, q, y);
        assert Differ(M(b + x), q + y);
        DifferBehind(p, M(b + x), q + y);
      }
  }

  lemma Through(a: seq<byte>, p: seq<byte>, b: seq<byte>, x: seq<byte>)
    requires Yields(a, p, Closed)
    ensures M((a + b) + x) == p + M(b + x)
  {
    hide M;
    Assoc(a, b, x);
  }

  lemma StaysBroken(a: seq<byte>, p: seq<byte>, b: seq<byte>, q: seq<byte>)
    requires Yields(a, p, Broken)
    ensures Yields(a + b, p + q, Broken)
  {
    hide M, Differ;
    forall x, y ensures Differ(M((a + b) + x), (p + q) + y) {
      Assoc(a, b, x);
      Assoc(p, q, y);
      assert Differ(M(a + (b + x)), p + (q + y));
    }
  }

  lemma Inert(b: byte)
    requires Plain(b)
    ensures Yields([b], [b], Closed)
  {
    forall x ensures M([b] + x) == [b] + M(x) {
      PlainByte(b, x);
    }
  }

  lemma Vanishes(b: byte)
    requires IsBlank(b)
    ensures Yields([b], [], Closed)
  {
    forall x ensures M([b] + x) == [] + M(x) {
      Blank(b, x);
    }
  }

  lemma Nothing()
    ensures Yields([], [], Closed)
  {
    hide M;
    forall x: seq<byte> ensures M([] + x) == [] + M(x) {
      assert [] + x == x;
    }
  }

  lemma {:induction false} PlainText(s: seq<byte>)
    requires forall k :: 0 <= k < |s| ==> Plain(s[k])
    ensures Yields(s, s, Closed)
  {
    hide Yields;
    if s == [] {
      Nothing();
    } else {
      Inert(s[0]);
      PlainText(s[1..]);
      Sequel([s[0]], [s[0]], s[1..], s[1..], Closed);
      assert s == [s[0]] + s[1..];
    }
  }

  lemma {:induction false} BlankText(s: seq<byte>)
    requires forall k :: 0 <= k < |s| ==> IsBlank(s[k])
    ensures Yields(s, [], Closed)
  {
    hide Yields;
    if s == [] {
      Nothing();
    } else {
      Vanishes(s[0]);
      BlankText(s[1..]);
      var none: seq<byte> := [];
      Sequel([s[0]], none, s[1..], none, Closed);
      assert none + none == none;
      assert s == [s[0]] + s[1..];
    }
  }

  /** Behind an open string a byte that is neither quote nor backslash stays, ... */
  lemma OpenKeeps(a: seq<byte>, p: seq<byte>, b: byte)
    requires Yields(a, p, LeftOpen) && b != QUOTE && b != BACKSLASH
    ensures Yields(a + [b], p + [b], LeftOpen)
  {
    hide M, InString;
    forall x ensures M((a + [b]) + x) == (p + [b]) + InString(x) {
      Assoc(a, [b], x);
      assert M(a + ([b] + x)) == p + InString([b] + x);
      InStringByte(b, x);
      Assoc(p, [b], InString(x));
    }
  }

  /** ... so a blank that was to vanish shows. */
  lemma OpenShows(a: seq<byte>, p: seq<byte>, b: byte, c: byte)
    requires Yields(a, p, LeftOpen) && IsBlank(b) && !IsBlank(c)
    ensures Yields(a + [b], p + [c], Broken)
  {
    OpenKeeps(a, p, b);
    hide M, InString;
    forall x, y ensures Differ(M((a + [b]) + x), (p + [c]) + y) {
      var u, v := (p + [b]) + InString(x), (p + [c]) + y;
      assert M((a + [b]) + x) == u;
      assert u[|p|] == b && v[|p|] == c;
    }
  }

  // ---- strings ----

  lemma InEscapeByte(b: byte, y: seq<byte>)
    requires y != [] && (b == BACKSLASH ==> y[0] != QUOTE)
    ensures InString(EscapeByte(b) + y) == EscapeByte(b) + InString(y)
  {
    hide InString;
    var e := EscapeByte(b);
    if |e| == 1 {
      InStringByte(b, y);
    } else if b == QUOTE {
      InStringHidden(y);
    } else if |e| == 2 {
      InStringByte(e[1], y);
      assert e + y == [e[0]] + ([e[1]] + y);
      InStringByte(e[0], [e[1]] + y);
    } else {
      InUnicodeEscape(e, y);
    }
  }

  lemma InUnicodeEscape(e: seq<byte>, y: seq<byte>)
    requires |e| == 6 && e[0] == BACKSLASH && forall k :: 1 <= k < 6 ==> e[k] != BACKSLASH && e[k] != QUOTE
    ensures InString(e + y) == e + InString(y)
  {
    hide InString;
    InStringRun(e[1..], y);
    assert e + y == [e[0]] + (e[1..] + y);
    InStringByte(e[0], e[1..] + y);
    assert e == [e[0]] + e[1..];
    Assoc([e[0]], e[1..], InString(y));
  }

  lemma {:induction false} InStringRun(s: seq<byte>, y: seq<byte>)
    requires forall k :: 0 <= k < |s| ==> s[k] != BACKSLASH && s[k] != QUOTE
    ensures InString(s + y) == s + InString(y)
  {
    hide InString;
    if s == [] {
      assert s + y == y;
    } else {
      InStringRun(s[1..], y);
      assert s == [s[0]] + s[1..];
      Assoc([s[0]], s[1..], y);
      InStringByte(s[0], s[1..] + y);
      Assoc([s[0]], s[1..], InString(y));
    }
  }

  lemma {:induction false} InEscaped(s: CStr, x: seq<byte>)
    ensures InString(Escaped(s) + ([QUOTE] + x)) ==
              Escaped(s) + ([QUOTE] + if EndsInBackslash(s) then InString(x) else M(x))
  {
    hide InString, M;
    if s == [] {
      InStringQuote(x);
      assert Escaped(s) + ([QUOTE] + x) == [QUOTE] + x;
    } else if s == [BACKSLASH] {
      assert Escaped(s) == [BACKSLASH, BACKSLASH];
      InStringHidden(x);
      InStringByte(BACKSLASH, [BACKSLASH, QUOTE] + x);
      assert Escaped(s) + ([QUOTE] + x) == [BACKSLASH] + ([BACKSLASH, QUOTE] + x);
    } else {
      var e := EscapeByte(s[0]);
      var rest: CStr := s[1..];
      var y := Escaped(rest) + ([QUOTE] + x);
      assert rest != [] ==> Escaped(rest) == EscapeByte(rest[0]) + Escaped(rest[1..]);
      InEscaped(rest, x);
      InEscapeByte(s[0], y);
      Assoc(e, Escaped(rest), [QUOTE] + x);
      Assoc(e, Escaped(rest), [QUOTE] + if EndsInBackslash(s) then InString(x) else M(x));
    }
  }

  lemma QuotedYields(s: CStr)
    ensures Yields(Quoted(s), Quoted(s), if EndsInBackslash(s) then LeftOpen else Closed)
  {
    hide InString, M;
    forall x ensures M(Quoted(s) + x) == Quoted(s) + if EndsInBackslash(s) then InString(x) else M(x) {
      var y := if EndsInBackslash(s) then InString(x) else M(x);
      InEscaped(s, x);
      OpenQuote(Escaped(s) + ([QUOTE] + x));
      assert Quoted(s) + x == [QUOTE] + (Escaped(s) + ([QUOTE] + x));
      assert Quoted(s) + y == [QUOTE] + (Escaped(s) + ([QUOTE] + y));
    }
  }

  // ---- trees ----

  function OutcomeOf(clean: bool, harmless: bool): Outcome {
    if clean then Closed else if harmless then LeftOpen else Broken
  }

  lemma {:induction false} CleanIsHarmless(t: Json)
    requires Clean(t)
    ensures Harmless(t)
    decreases t, 1
  {
    if t.Array? {
      ItemsCleanAreHarmless(t.items);
    }
  }

  lemma {:induction false} ItemsCleanAreHarmless(ts: seq<Json>)
    requires ItemsClean(ts)
    ensures ItemsHarmless(ts)
    decreases ts, 0
  {
    if ts != [] {
      CleanIsHarmless(ts[0]);
      ItemsCleanAreHarmless(ts[1..]);
    }
  }

  lemma {:induction false} TreeYields(t: Json, d: nat)
    requires IntNumbers(t)
    ensures Yields(Render(t, true, d), Render(t, false, d), OutcomeOf(Clean(t), Harmless(t)))
    decreases t, 1
  {
    hide Yields;
    match t
    case Number(v) =>
      Numbers.PrintIntChars(v.Floor);
      PlainText(Numbers.PrintInt(v.Floor));
    case String(s) => QuotedYields(s);
    case Array(items) => ArrayYields(items, d);
    case Object(members) => ObjectYields(members, d);
    case Null => PlainText(TEXT_NULL);
    case True => PlainText(TEXT_TRUE);
    case False => PlainText(TEXT_FALSE);
  }

  lemma {:induction false} ArrayYields(items: seq<Json>, d: nat)
    requires ItemsIntNumbers(items)
    ensures Yields(Render(Array(items), true, d), Render(Array(items), false, d),
                   OutcomeOf(ItemsClean(items), ItemsHarmless(items)))
    decreases items, 1
  {
    hide Yields;
    var o := OutcomeOf(ItemsClean(items), ItemsHarmless(items));
    var a, p := RenderItems(items, true, d + 1), RenderItems(items, false, d + 1);
    ItemsYield(items, d + 1);
    Inert(LBRACKET);
    Sequel([LBRACKET], [LBRACKET], a, p, o);
    Followed([LBRACKET] + a, [LBRACKET] + p, o, RBRACKET);
  }

  lemma {:induction false} ItemsYield(ts: seq<Json>, d: nat)
    requires ItemsIntNumbers(ts)
    ensures Yields(RenderItems(ts, true, d), RenderItems(ts, false, d), OutcomeOf(ItemsClean(ts), ItemsHarmless(ts)))
    decreases ts, 0
  {
    hide Yields, Render;
    if ts == [] {
      Nothing();
    } else {
      TreeYields(ts[0], d);
      var a, p := Render(ts[0], true, d), Render(ts[0], false, d);
      if |ts| == 1 {
        assert a + [] == a && p + [] == p;
      } else {
        var b, q := RenderItems(ts[1..], true, d), RenderItems(ts[1..], false, d);
        ItemsYield(ts[1..], d);
        RoundTrip.RenderStart(ts[1], false, d);
        assert q[0] == Render(ts[1], false, d)[0];
        Separated(a, p, OutcomeOf(Clean(ts[0]), Harmless(ts[0])), COMMA, SPACE, b, q,
                  OutcomeOf(ItemsClean(ts[1..]), ItemsHarmless(ts[1..])));
        assert ItemSeparator(true) == [COMMA, SPACE] && ItemSeparator(false) == [COMMA];
      }
    }
  }

  lemma Followed(a: seq<byte>, p: seq<byte>, o: Outcome, b: byte)
    requires Yields(a, p, o) && Plain(b) && b != BACKSLASH
    ensures Yields(a + [b], p + [b], o)
  {
    match o
    case Closed => Inert(b); Sequel(a, p, [b], [b], Closed);
    case LeftOpen => OpenKeeps(a, p, b);
    case Broken => StaysBroken(a, p, [b], [b]);
  }

  /** Two pieces that formatting parts with a blank. */
  lemma Parted(a: seq<byte>, p: seq<byte>, o: Outcome, blank: byte, b: seq<byte>, q: seq<byte>, next: Outcome)
    requires Yields(a, p, o) && Yields(b, q, next)
    requires IsBlank(blank) && q != [] && !IsBlank(q[0])
    ensures Yields((a + [blank]) + b, p + q, if o == Closed then next else Broken)
  {
    hide Yields;
    match o
    case Closed =>
      Vanishes(blank);
      Sequel(a, p, [blank], [], Closed);
      assert p + [] == p;
      Sequel(a + [blank], p, b, q, next);
    case LeftOpen =>
      OpenShows(a, p, blank, q[0]);
      StaysBroken(a + [blank], p + [q[0]], b, q[1..]);
      assert p + q == (p + [q[0]]) + q[1..];
    case Broken =>
      StaysBroken(a, p, [blank] + b, q);
      Assoc(a, [blank], b);
  }

  lemma Separated(a: seq<byte>, p: seq<byte>, o: Outcome, sep: byte, blank: byte,
                  b: seq<byte>, q: seq<byte>, next: Outcome)
    requires Yields(a, p, o) && Yields(b, q, next)
    requires Plain(sep) && sep != BACKSLASH && IsBlank(blank) && q != [] && !IsBlank(q[0])
    ensures Yields(a + ([sep, blank] + b), p + ([sep] + q), if o == Closed then next else Broken)
  {
    hide Yields;
    Followed(a, p, o, sep);
    Parted(a + [sep], p + [sep], o, blank, b, q, next);
    assert a + ([sep, blank] + b) == ((a + [sep]) + [blank]) + b;
    Assoc(p, [sep], q);
  }

  lemma {:induction false} ObjectYields(members: seq<Member>, d: nat)
    requires MembersIntNumbers(members)
    ensures Yields(Render(Object(members), true, d), Render(Object(members), false, d),
                   OutcomeOf(MembersClean(members), MembersClean(members)))
    decreases members, 1
  {
    hide Yields;
    var o := OutcomeOf(MembersClean(members), MembersClean(members));
    var a, p := RenderMembers(members, true, d + 1), RenderMembers(members, false, d + 1);
    Inert(LBRACE);
    Vanishes(NEWLINE);
    Sequel([LBRACE], [LBRACE], [NEWLINE], [], Closed);
    assert [LBRACE] + [NEWLINE] == Open(true) && [LBRACE] + [] == Open(false);
    BlankText(Tabs(d));
    Inert(RBRACE);
    Sequel(Tabs(d), [], [RBRACE], [RBRACE], Closed);
    assert [] + [RBRACE] == [RBRACE] == Close(false, d);
    MembersYield(members, d + 1, Close(true, d));
    Sequel(Open(true), Open(false), a + Close(true, d), p + [RBRACE], o);
    Assoc(Open(true), a, Close(true, d));
    Assoc(Open(false), p, [RBRACE]);
  }

  lemma {:induction false} MembersYield(ms: seq<Member>, d: nat, close: seq<byte>)
    requires MembersIntNumbers(ms) && Yields(close, [RBRACE], Closed)
    ensures Yields(RenderMembers(ms, true, d) + close, RenderMembers(ms, false, d) + [RBRACE],
                   OutcomeOf(MembersClean(ms), MembersClean(ms)))
    decreases ms, 0
  {
    hide Yields, Render;
    if ms == [] {
      assert RenderMembers(ms, true, d) + close == close && RenderMembers(ms, false, d) + [RBRACE] == [RBRACE];
    } else {
      var m, last := ms[0], |ms| == 1;
      var a, p := Render(m.value, true, d), Render(m.value, false, d);
      var b, q := RenderMembers(ms[1..], true, d) + close, RenderMembers(ms[1..], false, d) + [RBRACE];
      MembersYield(ms[1..], d, close);
      TreeYields(m.value, d);
      MembersStart(ms[1..], d);
      var o := OutcomeOf(Clean(m.value), Harmless(m.value));
      var next := OutcomeOf(MembersClean(ms[1..]), MembersClean(ms[1..]));
      ValueAndEnd(a, p, o, last, b, q, next);
      var rest, plain := a + (MemberEnd(true, last) + b), p + (MemberEnd(false, last) + q);
      RoundTrip.RenderStart(m.value, false, d);
      assert plain[0] == p[0];
      WholeMember(m.key, rest, plain, if o == Closed then next else Broken, d);
      RoundTrip.MembersParts(ms, true, d, close);
      RoundTrip.MembersParts(ms, false, d, [RBRACE]);
    }
  }

  lemma MembersStart(ms: seq<Member>, d: nat)
    requires MembersIntNumbers(ms)
    ensures var q := RenderMembers(ms, false, d) + [RBRACE]; !IsBlank(q[0])
  {
    hide Render;
    if ms != [] {
      assert RenderMembers(ms, false, d)[0] == QUOTE;
    }
  }

  lemma ValueAndEnd(a: seq<byte>, p: seq<byte>, o: Outcome, last: bool, b: seq<byte>, q: seq<byte>, next: Outcome)
    requires Yields(a, p, o) && Yields(b, q, next) && q != [] && !IsBlank(q[0])
    ensures Yields(a + (MemberEnd(true, last) + b), p + (MemberEnd(false, last) + q),
                   if o == Closed then next else Broken)
  {
    hide Yields;
    if last {
      Parted(a, p, o, NEWLINE, b, q, next);
      assert MemberEnd(true, last) == [NEWLINE] && MemberEnd(false, last) + q == q;
      Assoc(a, [NEWLINE], b);
    } else {
      Separated(a, p, o, COMMA, NEWLINE, b, q, next);
      assert MemberEnd(true, last) == [COMMA, NEWLINE] && MemberEnd(false, last) == [COMMA];
    }
  }

  lemma WholeMember(key: CStr, b: seq<byte>, q: seq<byte>, next: Outcome, d: nat)
    requires Yields(b, q, next) && q != [] && !IsBlank(q[0])
    ensures Yields(Indent(true, d) + (KeyText(key, true) + b), Indent(false, d) + (KeyText(key, false) + q),
                   if EndsInBackslash(key) then Broken else next)
  {
    hide Yields, Quoted;
    var k, o := Quoted(key), if EndsInBackslash(key) then LeftOpen else Closed;
    QuotedYields(key);
    Separated(k, k, o, COLON, TAB, b, q, next);
    Assoc(k, [COLON, TAB], b);
    Assoc(k, [COLON], q);
    BlankText(Tabs(d));
    Sequel(Tabs(d), [], KeyText(key, true) + b, KeyText(key, false) + q, if EndsInBackslash(key) then Broken else next);
  }

  // ---- the theorem ----

  /** Minify undoes formatting exactly on the harmless trees. */
  lemma MinifyUndoesFormatting(t: Json)
    requires IntNumbers(t)
    ensures NUL !in Render(t, true, 0)
    ensures Minify(Render(t, true, 0)) == Render(t, false, 0) <==> Harmless(t)
  {
    hide Render, InString;
    var a, p := Render(t, true, 0), Render(t, false, 0);
    RenderHasNoNul(t, true, 0);
    TreeYields(t, 0);
    if Clean(t) {
      CleanIsHarmless(t);
    }
    var x: seq<byte> := [];
    assert a + x == a && p + x == p;
    assert M(x) == [];
    assert InString(x) == [] by { InStringOfNothing(); }
    assert Differ(M(a + x), p + x) ==> M(a) != p;
  }

  /** The unformatted print of such a tree is a fixed point. */
  lemma MinifyKeepsUnformatted(t: Json)
    requires IntNumbers(t) && Harmless(t)
    ensures NUL !in Render(t, false, 0)
    ensures Minify(Render(t, false, 0)) == Render(t, false, 0)
  {
    MinifyUndoesFormatting(t);
    MinifyIdempotent(Render(t, true, 0));
  }

  lemma InStringOfNothing()
    ensures InString([]) == []
  {
  }

  /** The smallest failure: a value of one backslash hides the end of its own literal. */
  lemma BackslashSpoilsMinify()
    ensures var t := Object([Member([97], String([BACKSLASH]))]);
            IntNumbers(t) && NUL !in Render(t, true, 0) && Minify(Render(t, true, 0)) != Render(t, false, 0)
  {
    var m := Member([97], String([BACKSLASH]));
    assert [m][1..] == [] && IntNumbers(m.value) && MembersIntNumbers([m][1..]) && MembersIntNumbers([m]);
    assert EndsInBackslash([BACKSLASH]) && !Clean(m.value) && !MembersClean([m]);
    MinifyUndoesFormatting(Object([m]));
  }
}
