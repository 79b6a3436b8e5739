/** What is printed is a spelling of the tree, so parsing gives the tree back. */
module RoundTrip {
  import opened Bytes
  import opened JsonTree
  import opened Rendering
  import opened Grammar
  import opened Syntax
  import opened Reading
  import opened Acceptance
  import JsonStrings
  import NumberReading
  import Numbers
  import StringReading
  import Utf

  lemma RenderStart(t: Json, fmt: bool, k: nat)
    requires IntNumbers(t)
    ensures |Render(t, fmt, k)| > 0 && StartByte(Render(t, fmt, k)[0])
  {
    if t.Number? {
      Numbers.PrintIntChars(t.d.Floor);
    }
  }

  lemma MembersParts(ms: seq<Member>, fmt: bool, k: nat, close: seq<byte>)
    requires ms != [] && MembersIntNumbers(ms)
    ensures RenderMembers(ms, fmt, k) + close
         == Indent(fmt, k) + (KeyText(ms[0].key, fmt) + (Render(ms[0].value, fmt, k)
            + (MemberEnd(fmt, |ms| == 1) + (RenderMembers(ms[1..], fmt, k) + close))))
  {
    hide KeyText, Render, MemberEnd, Indent;
    var indent, key, value := Indent(fmt, k), KeyText(ms[0].key, fmt), Render(ms[0].value, fmt, k);
    var end, rest := MemberEnd(fmt, |ms| == 1), RenderMembers(ms[1..], fmt, k);
    Assoc(indent, key + (value + (end + rest)), close);
    Assoc(key, value + (end + rest), close);
    Assoc(value, end + rest, close);
    Assoc(end, rest, close);
  }

  // ---- a printed string, unit by unit ----

  const LOWER: seq<bool> := [false, false, false, false]

  function UnitOf(b: byte): Unit {
    match JsonStrings.ShortEscape(b)
    case Some(letter) => Short(letter)
    case None => if b < 32 then Code(b, LOWER) else Raw(b)
  }

  lemma UnitOfByte(b: byte)
    ensures var u := UnitOf(b);
            ProperUnit(u) && StringReading.Strict(u) && UnitText(u) == JsonStrings.EscapeByte(b) && UnitBytes(u) == [b]
  {
    hide Utf.Written;
    if UnitOf(b).Code? {
      ControlText(b);
    }
  }

  lemma ControlText(b: byte)
    requires b < 32
    ensures Utf.HexText(b, LOWER) ==
              [ZERO, ZERO, JsonStrings.HexLower(b as int / 16), JsonStrings.HexLower(b as int % 16)]
  {
  }

  function UnitsOf(s: seq<byte>): (us: seq<Unit>) {
    if s == [] then [] else [UnitOf(s[0])] + UnitsOf(s[1..])
  }

  lemma {:induction false} UnitsOfString(s: seq<byte>)
    ensures var us := UnitsOf(s);
            ProperString(us) && UnitsText(us) == JsonStrings.Escaped(s) && UnitsBytes(us) == s
  {
    hide UnitText, UnitBytes, ProperUnit, UnitOf, JsonStrings.EscapeByte, Closed, StringReading.Strict;
    StringReading.NothingClosed();
    if s != [] {
      UnitsOfString(s[1..]);
      UnitOfByte(s[0]);
      StringReading.NotLeftover(UnitOf(s[0]));
      StringReading.ConsIsProper(UnitOf(s[0]), UnitsOf(s[1..]));
      StringReading.ClosedBehind(UnitOf(s[0]), UnitsText(UnitsOf(s[1..])));
      assert s == [s[0]] + s[1..];
    }
  }

  // ---- ... and there is no shorter way to write it ----

  lemma {:induction false} EscapedJoin(s: seq<byte>, t: seq<byte>)
    ensures JsonStrings.Escaped(s + t) == JsonStrings.Escaped(s) + JsonStrings.Escaped(t)
  {
    hide JsonStrings.EscapeByte;
    if s == [] {
      assert s + t == t;
    } else {
      EscapedJoin(s[1..], t);
      assert (s + t)[1..] == s[1..] + t;
    }
  }

  lemma {:induction false} HighBytes(s: seq<byte>)
    requires forall k :: 0 <= k < |s| ==> s[k] >= 128
    ensures |JsonStrings.Escaped(s)| == |s|
  {
    if s != [] {
      HighBytes(s[1..]);
    }
  }

  /** As the standard has it: no bare control characters or quotes. */
  ghost predicate Standard(u: Unit) {
    ProperUnit(u) && StringReading.Strict(u) && (u.Raw? ==> u.b >= 32)
  }

  lemma UnitIsNoShorter(u: Unit)
    requires Standard(u)
    ensures |JsonStrings.Escaped(UnitBytes(u))| <= |UnitText(u)|
  {
    hide Utf.Written;
    match u
    case Raw(b) => OneEscaped(b);
    case Short(letter) => OneEscaped(SHORT_FORMS[letter]);
    case Code(n, _) => CodeIsNoShorter(n);
    case Pair(high, low, _, _) => CodeIsNoShorter(0x10000 + 0x400 * (high - 0xD800) + (low - 0xDC00));
  }

  lemma OneEscaped(b: byte)
    ensures JsonStrings.Escaped([b]) == JsonStrings.EscapeByte(b)
  {
    assert JsonStrings.Escaped([]) == [];
  }

  lemma CodeIsNoShorter(point: nat)
    requires point <= 0x10FFFF
    ensures |JsonStrings.Escaped(Utf.Utf8(point))| <= 6
  {
    if point < 0x80 {
      OneEscaped(point);
    } else {
      HighBytes(Utf.Utf8(point));
    }
  }

  /** Of all literals the standard allows for s, the printed one is the shortest. */
  lemma {:induction false} PrintedIsShortest(us: seq<Unit>)
    requires forall k :: 0 <= k < |us| ==> Standard(us[k])
    ensures ProperUnits(us) && |JsonStrings.Escaped(UnitsBytes(us))| <= |UnitsText(us)|
  {
    hide ProperUnit, UnitText, UnitBytes, JsonStrings.Escaped, StringReading.Strict;
    if us == [] {
      assert JsonStrings.Escaped([]) == [] by { HighBytes([]); }
    } else {
      assert Standard(us[0]);
      forall k | 0 <= k < |us[1..]| ensures Standard(us[1..][k]) {
        assert us[1..][k] == us[k + 1];
      }
      PrintedIsShortest(us[1..]);
      UnitIsNoShorter(us[0]);
      StringReading.NotLeftover(us[0]);
      StringReading.ConsIsProper(us[0], us[1..]);
      assert [us[0]] + us[1..] == us;
      EscapedJoin(UnitBytes(us[0]), UnitsBytes(us[1..]));
    }
  }

  lemma QuotedText(s: CStr)
    ensures var us := UnitsOf(s);
            ProperString(us) && StringText(us) == JsonStrings.Quoted(s) && StringMeaning(us) == s
  {
    hide UnitsText, UnitsBytes, ProperUnits, Closed;
    UnitsOfString(s);
    VisibleOfCStr(s);
    Assoc([QUOTE], JsonStrings.Escaped(s), [QUOTE]);
  }

  // ---- a printed number ----

  lemma IntText(n: int)
    requires INT_MIN <= n <= INT_MAX
    ensures Numbers.PrintInt(n) != []
    ensures var m := NumberReading.NumeralOf(Numbers.PrintInt(n));
            ProperNumeral(m) && NumeralText(m) == Numbers.PrintInt(n) && NumeralValue(m) == n as real
  {
    hide NumberReading.NumeralOf, NumeralText, NumeralValue, Numbers.Strtod, ProperNumeral;
    var s := Numbers.PrintInt(n);
    Numbers.PrintIntChars(n);
    Numbers.IntLength(n);
    Numbers.StrtodOfPrintInt(n);
    NumberReading.NumeralIsThere(s);
    assert s[..|s|] == s;
  }

  // ---- a printed tree ----

  function Break(fmt: bool, k: nat): seq<byte> {
    if fmt then [NEWLINE] + Tabs(k) else []
  }

  /** The tree with the blanks the printer puts in. */
  function Laid(t: Json, fmt: bool, k: nat): Spelling
    requires IntNumbers(t)
    decreases t, 1
  {
    match t
    case Number(v) => Numbers.PrintIntChars(v.Floor); Numeric(NumberReading.NumeralOf(Numbers.PrintInt(v.Floor)))
    case String(s) => Quoted(UnitsOf(s))
    case Array(ts) => if ts == [] then EmptyArray([]) else Elements(LaidItems(ts, fmt, k + 1, true))
    case Object(ms) => if ms == [] then EmptyObject(Break(fmt, k)) else Entries(LaidEntries(ms, fmt, k + 1))
    case _ => Word(t)
  }

  function LaidItems(ts: seq<Json>, fmt: bool, k: nat, first: bool): seq<Item>
    requires ItemsIntNumbers(ts)
    decreases ts, 0
  {
    if ts == [] then [] else
      [Item(if fmt && !first then [SPACE] else [], Laid(ts[0], fmt, k), [])] + LaidItems(ts[1..], fmt, k, false)
  }

  function LaidEntries(ms: seq<Member>, fmt: bool, k: nat): seq<Entry>
    requires k > 0 && MembersIntNumbers(ms)
    decreases ms, 0
  {
    if ms == [] then [] else
      [Entry(Break(fmt, k), UnitsOf(ms[0].key), [], if fmt then [TAB] else [],
             Laid(ms[0].value, fmt, k), if |ms| == 1 then Break(fmt, k - 1) else [])]
      + LaidEntries(ms[1..], fmt, k)
  }

  /** The printed text spells the tree. */
  lemma {:induction false} PrintSpells(t: Json, fmt: bool, k: nat)
    requires IntNumbers(t)
    ensures Proper(Laid(t, fmt, k)) && Text(Laid(t, fmt, k)) == Render(t, fmt, k) && Meaning(Laid(t, fmt, k)) == t
    decreases t, 2
  {
    match t
    case Array(ts) => ArraySpells(ts, fmt, k);
    case Object(ms) => ObjectSpells(ms, fmt, k);
    case _ => LeafSpells(t, fmt, k);
  }

  lemma LeafSpells(t: Json, fmt: bool, k: nat)
    requires IntNumbers(t) && !t.Array? && !t.Object?
    ensures Proper(Laid(t, fmt, k)) && Text(Laid(t, fmt, k)) == Render(t, fmt, k) && Meaning(Laid(t, fmt, k)) == t
  {
    hide NumeralText, NumeralValue, ProperNumeral, ProperString, StringText, StringMeaning, WordText;
    WordsAre();
    match t
    case Number(v) => IntText(v.Floor);
    case String(s) => QuotedText(s);
    case _ =>
  }

  lemma {:induction false} ArraySpells(ts: seq<Json>, fmt: bool, k: nat)
    requires ItemsIntNumbers(ts)
    ensures var w := Laid(Array(ts), fmt, k);
            Proper(w) && Text(w) == Render(Array(ts), fmt, k) && Meaning(w) == Array(ts)
    decreases ts, 1
  {
    hide ItemsText, ItemsMeaning, RenderItems, ProperItems, LaidItems;
    if ts != [] {
      ItemsSpell(ts, fmt, k + 1, true);
      Assoc([LBRACKET], RenderItems(ts, fmt, k + 1), [RBRACKET]);
    } else {
      NothingSpelled(fmt, k);
    }
  }

  lemma {:induction false} ObjectSpells(ms: seq<Member>, fmt: bool, k: nat)
    requires MembersIntNumbers(ms)
    ensures var w := Laid(Object(ms), fmt, k);
            Proper(w) && Text(w) == Render(Object(ms), fmt, k) && Meaning(w) == Object(ms)
    decreases ms, 1
  {
    hide EntriesText, EntriesMeaning, RenderMembers, ProperEntries, LaidEntries;
    if ms != [] {
      EntriesSpell(ms, fmt, k + 1);
      ObjectSpelled(RenderMembers(ms, fmt, k + 1), fmt, k);
    } else {
      NothingSpelled(fmt, k);
    }
  }

  lemma NothingSpelled(fmt: bool, k: nat)
    ensures RenderItems([], fmt, k + 1) == [] && RenderMembers([], fmt, k + 1) == []
    ensures Blank(Break(fmt, k)) && Blank([])
    ensures Open(fmt) + [] + Close(fmt, k) == [LBRACE] + (Break(fmt, k) + [RBRACE])
  {
  }

  lemma ObjectSpelled(members: seq<byte>, fmt: bool, k: nat)
    ensures Open(fmt) + members + Close(fmt, k)
         == [LBRACE] + ((Break(fmt, 0) + members + Indent(fmt, k)) + [RBRACE])
  {
  }

  lemma {:induction false} ItemsSpell(ts: seq<Json>, fmt: bool, k: nat, first: bool)
    requires ItemsIntNumbers(ts) && ts != []
    ensures var xs := LaidItems(ts, fmt, k, first);
            xs != [] && ProperItems(xs) && ItemsMeaning(xs) == ts
            && ItemsText(xs) == (if fmt && !first then [SPACE] else []) + RenderItems(ts, fmt, k)
    decreases ts, 0
  {
    hide Text, Meaning, Proper, Render, Laid, RenderItems, LaidItems;
    var xs := LaidItems(ts, fmt, k, first);
    var before, more := if fmt && !first then [SPACE] else [], LaidItems(ts[1..], fmt, k, false);
    PrintSpells(ts[0], fmt, k);
    OneItem(ts, fmt, k, first);
    if |ts| > 1 {
      ItemsSpell(ts[1..], fmt, k, false);
    }
    ConsItem(Item(before, Laid(ts[0], fmt, k), []), more);
    assert ts == [ts[0]] + ts[1..];
    ItemText(before, Render(ts[0], fmt, k), fmt, |ts| == 1, RenderItems(ts[1..], fmt, k));
  }

  lemma OneItem(ts: seq<Json>, fmt: bool, k: nat, first: bool)
    requires ItemsIntNumbers(ts) && ts != []
    ensures LaidItems(ts, fmt, k, first)
         == [Item(if fmt && !first then [SPACE] else [], Laid(ts[0], fmt, k), [])] + LaidItems(ts[1..], fmt, k, false)
    ensures |ts| == 1 ==> LaidItems(ts[1..], fmt, k, false) == [] && ts[1..] == []
    ensures RenderItems(ts, fmt, k) == Render(ts[0], fmt, k)
                                       + (if |ts| == 1 then [] else ItemSeparator(fmt) + RenderItems(ts[1..], fmt, k))
    ensures Blank([]) && Blank([SPACE]) && ProperItems([]) && MoreItems([]) == [] && ItemsMeaning([]) == []
  {
    hide Render, Laid;
  }

  lemma ItemText(before: seq<byte>, value: seq<byte>, fmt: bool, last: bool, rest: seq<byte>)
    ensures before + (value + ([] + (if last then [] else [COMMA] + ((if fmt then [SPACE] else []) + rest))))
         == before + (value + (if last then [] else ItemSeparator(fmt) + rest))
  {
    assert [COMMA] + ((if fmt then [SPACE] else []) + rest) == ItemSeparator(fmt) + rest;
  }

  lemma {:induction false} EntriesSpell(ms: seq<Member>, fmt: bool, k: nat)
    requires MembersIntNumbers(ms) && ms != [] && k > 0
    ensures var xs := LaidEntries(ms, fmt, k);
            xs != [] && ProperEntries(xs) && EntriesMeaning(xs) == ms
            && EntriesText(xs) == Break(fmt, 0) + RenderMembers(ms, fmt, k) + Indent(fmt, k - 1)
    decreases ms, 0
  {
    hide Text, Meaning, Proper, Render, Laid, RenderMembers, LaidEntries, KeyPart, KeyText, StringMeaning, ProperString;
    hide EntriesText, EntriesMeaning, ProperEntries, MoreEntries, Break, Indent, MemberEnd, Blank, UnitsOf, IntNumbers;
    var m, last := ms[0], |ms| == 1;
    var x := Entry(Break(fmt, k), UnitsOf(m.key), [], if fmt then [TAB] else [], Laid(m.value, fmt, k),
                   if last then Break(fmt, k - 1) else []);
    var more := LaidEntries(ms[1..], fmt, k);
    PrintSpells(m.value, fmt, k);
    OneEntry(ms, fmt, k);
    KeySpells(x, m.key, fmt);
    if !last {
      EntriesSpell(ms[1..], fmt, k);
    }
    assert Blank(x.before) && Blank(x.after) by {
      EntryText([], [], fmt, k, true, []);
    }
    ConsEntry(x, more);
    assert ms == [m] + ms[1..];
    EntryText(KeyText(m.key, fmt), Render(m.value, fmt, k), fmt, k, last, RenderMembers(ms[1..], fmt, k));
    MembersParts(ms, fmt, k, Indent(fmt, k - 1));
  }

  lemma OneEntry(ms: seq<Member>, fmt: bool, k: nat)
    requires MembersIntNumbers(ms) && ms != [] && k > 0
    ensures LaidEntries(ms, fmt, k)
         == [Entry(Break(fmt, k), UnitsOf(ms[0].key), [], if fmt then [TAB] else [],
                   Laid(ms[0].value, fmt, k), if |ms| == 1 then Break(fmt, k - 1) else [])]
            + LaidEntries(ms[1..], fmt, k)
    ensures |ms| == 1 ==> LaidEntries(ms[1..], fmt, k) == [] && RenderMembers(ms[1..], fmt, k) == [] && ms[1..] == []
    ensures ProperEntries([]) && MoreEntries([]) == [] && EntriesMeaning([]) == []
    ensures |ms| > 1 && LaidEntries(ms[1..], fmt, k) != [] && ProperEntries(LaidEntries(ms[1..], fmt, k)) ==>
              MoreEntries(LaidEntries(ms[1..], fmt, k)) == [COMMA] + EntriesText(LaidEntries(ms[1..], fmt, k))
  {
    hide Render, Laid, EntriesText, KeyText;
  }

  lemma KeySpells(x: Entry, key: CStr, fmt: bool)
    requires x.key == UnitsOf(key) && x.beforeColon == [] && x.afterColon == if fmt then [TAB] else []
    ensures Blank(x.before) ==> ProperKey(x)
    ensures ProperString(x.key) && KeyPart(x) == KeyText(key, fmt) && StringMeaning(x.key) == key
  {
    hide JsonStrings.Quoted, StringText, StringMeaning, ProperString;
    QuotedText(key);
    assert [] + ([COLON] + x.afterColon) == KeySeparator(fmt);
  }

  lemma EntryText(key: seq<byte>, value: seq<byte>, fmt: bool, k: nat, last: bool, rest: seq<byte>)
    requires k > 0 && (last ==> rest == [])
    ensures Blank(Break(fmt, k)) && Blank(Break(fmt, k - 1)) && Blank([])
    ensures Break(fmt, k) + (key + (value + ((if last then Break(fmt, k - 1) else [])
              + (if last then [] else [COMMA] + (Break(fmt, 0) + rest + Indent(fmt, k - 1))))))
         == Break(fmt, 0) + (Indent(fmt, k) + (key + (value + (MemberEnd(fmt, last) + (rest + Indent(fmt, k - 1))))))
  {
    BreakIs(fmt, k);
    BreakIs(fmt, k - 1);
    var end := MemberEnd(fmt, last) + (rest + Indent(fmt, k - 1));
    if last {
      assert Break(fmt, k - 1) + [] == end;
    } else {
      assert [COMMA] + Break(fmt, 0) == MemberEnd(fmt, false);
      Assoc(Break(fmt, 0), rest, Indent(fmt, k - 1));
      Assoc([COMMA], Break(fmt, 0), rest + Indent(fmt, k - 1));
      assert [] + end == end;
    }
    Assoc(Break(fmt, 0), Indent(fmt, k), key + (value + end));
  }

  lemma BreakIs(fmt: bool, k: nat)
    ensures Break(fmt, k) == Break(fmt, 0) + Indent(fmt, k) && Blank(Break(fmt, k))
  {
  }

  /** Every tree of C strings and C ints within the nesting limit survives printing and parsing:
      the same tree, members in order and repeated keys kept, and the whole text consumed. This
      holds of the text alone (cJSON_ParseWithLength) and of the text with its NUL (cJSON_Parse,
      with or without the demand that nothing follow). */
  lemma ParsePrint(t: Json, fmt: bool, requireNul: bool)
    requires IntNumbers(t) && Depth(t) <= NESTING_LIMIT
    ensures var s := Render(t, fmt, 0);
            s != [] && ParseText(s, false) == Ok(t, |s|) && ParseText(s + [NUL], requireNul) == Ok(t, |s|)
  {
    hide Render, ParseText, IntNumbers, Depth, Text, Meaning, Proper, Laid;
    var s, w := Render(t, fmt, 0), Laid(t, fmt, 0);
    PrintSpells(t, fmt, 0);
    assert s == Mark(false) + ([] + (s + [])) && s + [NUL] == Mark(false) + ([] + (s + [NUL]));
    TextIsRead(s, false, [], w, []);
    TextIsRead(s + [NUL], false, [], w, [NUL]);
  }
}
