/** Every value that is spelled as Syntax says is read as what it means, wherever it stands, and whatever is
    read is spelled like that. */
module Reading {
  import opened Bytes
  import opened JsonTree
  import opened Rendering
  import opened Grammar
  import opened Syntax
  import StringReading
  import NumberReading
  import Numbers

  /** The byte behind a value cannot prolong a number. */
  predicate Delimited(c: seq<byte>, e: nat) {
    e >= |c| || !Numbers.NumberChar(c[e])
  }

  predicate StartByte(b: byte) {
    b > 32 && b != RBRACKET && b != RBRACE
  }

  lemma {:induction false} BlanksEnd(c: seq<byte>, o: nat, p: nat)
    requires o <= p < |c| && c[p] > 32
    requires forall i :: o <= i < p ==> c[i] <= 32
    ensures SkipBlanks(c, o) == p && SkipWs(c, o) == p
    decreases p - o
  {
    if o < p {
      BlanksEnd(c, o + 1, p);
    }
  }

  /** Blanks and what is behind them. */
  lemma BlanksAt(c: seq<byte>, o: nat, blank: seq<byte>, rest: seq<byte>)
    requires At(c, o, blank + rest) && Blank(blank) && rest != [] && rest[0] > 32
    ensures var p := o + |blank|;
            p < |c| && c[p] == rest[0] && At(c, p, rest) && SkipWs(c, o) == p
    ensures c[o] <= 32 || c[o] == rest[0]
  {
    hide At, SkipWs, SkipBlanks;
    AtSplit(c, o, blank, rest);
    AtByte(c, o + |blank|, rest, 0);
    forall i | o <= i < o + |blank| ensures c[i] <= 32 {
      AtByte(c, o, blank, i - o);
    }
    BlanksEnd(c, o, o + |blank|);
  }

  lemma TextStart(w: Spelling)
    requires Proper(w)
    ensures |Text(w)| > 0 && StartByte(Text(w)[0]) && Text(w)[0] < 128
    ensures Text(w)[0] == LBRACKET <==> w.EmptyArray? || w.Elements?
    ensures Text(w)[0] == LBRACE <==> w.EmptyObject? || w.Entries?
    ensures Text(w)[0] == QUOTE <==> w.Quoted?
    ensures (Text(w)[0] == MINUS || Numbers.IsDigit(Text(w)[0])) <==> w.Numeric?
  {
    hide ItemsText, EntriesText, UnitsText, NumeralText, ProperNumeral, WordText;
    WordsAre();
    if w.Numeric? {
      NumberReading.FirstDigit(w.numeral);
    }
  }

  lemma WordIsRead(c: seq<byte>, o: nat, w: Spelling, d: nat)
    requires Proper(w) && w.Word? && At(c, o, Text(w))
    ensures ParseValue(c, o, d) == Ok(w.word, o + |Text(w)|)
  {
    hide WordText;
    WordsAre();
    var text := Text(w);
    AtByte(c, o, text, 0);
    assert At(c, o, TEXT_NULL) ==> c[o] == TEXT_NULL[0];
    assert At(c, o, TEXT_FALSE) ==> c[o] == TEXT_FALSE[0];
  }

  /** A first byte that no word has. */
  lemma NoWord(c: seq<byte>, o: nat, b: byte)
    requires o < |c| && c[o] == b && b != 110 && b != 102 && b != 116
    ensures !At(c, o, TEXT_NULL) && !At(c, o, TEXT_FALSE) && !At(c, o, TEXT_TRUE)
  {
    if At(c, o, TEXT_NULL) {
      AtByte(c, o, TEXT_NULL, 0);
    }
    if At(c, o, TEXT_FALSE) {
      AtByte(c, o, TEXT_FALSE, 0);
    }
    if At(c, o, TEXT_TRUE) {
      AtByte(c, o, TEXT_TRUE, 0);
    }
  }

  /** Every value that is well spelled is read as what it means. */
  lemma {:induction false} ValueIsRead(c: seq<byte>, o: nat, w: Spelling, d: nat)
    requires Proper(w) && d + Depth(Meaning(w)) <= NESTING_LIMIT
    requires At(c, o, Text(w)) && (w.Numeric? ==> Delimited(c, o + |Text(w)|))
    ensures ParseValue(c, o, d) == Ok(Meaning(w), o + |Text(w)|)
    decreases w, 2
  {
    hide ParseArray, ParseObject, ParseString, ParseNumber, ItemsText, EntriesText, ItemsMeaning, EntriesMeaning;
    hide At, NumeralText, ProperNumeral, ProperString, StringText, NumeralValue, ProperItems, ProperEntries;
    TextStart(w);
    AtByte(c, o, Text(w), 0);
    if w.Word? {
      WordIsRead(c, o, w, d);
    } else {
      NoWord(c, o, Text(w)[0]);
      match w
      case Numeric(n) => NumberReading.NumberIsRead(c, o, n);
      case Quoted(us) => StringReading.StringIsRead(c, o, us);
      case EmptyArray(_) => EmptyIsRead(c, o, w, d);
      case EmptyObject(_) => EmptyIsRead(c, o, w, d);
      case Elements(_) => ElementsAreRead(c, o, w, d);
      case Entries(_) => EntriesAreRead(c, o, w, d);
    }
  }

  lemma EmptyIsRead(c: seq<byte>, o: nat, w: Spelling, d: nat)
    requires Proper(w) && (w.EmptyArray? || w.EmptyObject?) && d < NESTING_LIMIT && At(c, o, Text(w))
    ensures w.EmptyArray? ==> IsByte(c, o, LBRACKET) && ParseArray(c, o, d) == Ok(Array([]), o + |Text(w)|)
    ensures w.EmptyObject? ==> IsByte(c, o, LBRACE) && ParseObject(c, o, d) == Ok(Object([]), o + |Text(w)|)
  {
    hide At, SkipWs, ParseItems, ParseMembers;
    var open, close := Text(w)[0], if w.EmptyArray? then RBRACKET else RBRACE;
    AtSplit(c, o, [open], w.blank + [close]);
    AtByte(c, o, [open], 0);
    BlanksAt(c, o + 1, w.blank, [close]);
  }

  lemma {:induction false} ElementsAreRead(c: seq<byte>, o: nat, w: Spelling, d: nat)
    requires Proper(w) && w.Elements? && d + Depth(Meaning(w)) <= NESTING_LIMIT && At(c, o, Text(w))
    ensures IsByte(c, o, LBRACKET) && ParseArray(c, o, d) == Ok(Meaning(w), o + |Text(w)|)
    decreases w, 1
  {
    hide At, SkipWs, ParseItems, ItemsText, ItemsMeaning, MoreItems, Text, Meaning, Proper;
    var xs := w.items;
    ElementsParts(w);
    AtSplit(c, o, [LBRACKET], ItemsText(xs) + [RBRACKET]);
    AtByte(c, o, [LBRACKET], 0);
    ItemsParts(xs, RBRACKET);
    TextStart(xs[0].value);
    BlanksAt(c, o + 1, xs[0].before, FromValue(xs, RBRACKET));
    var p := o + 1 + |xs[0].before|;
    BlanksEnd(c, p, p);
    ItemsAreRead(c, p - 1, p, xs, d + 1);
  }

  lemma ElementsParts(w: Spelling)
    requires Proper(w) && w.Elements?
    ensures Text(w) == [LBRACKET] + (ItemsText(w.items) + [RBRACKET]) && Meaning(w) == Array(ItemsMeaning(w.items))
    ensures w.items != [] && ProperItems(w.items) && Proper(w.items[0].value)
  {
  }

  /** The items from the first value on, and the closing bracket. */
  ghost function FromValue(xs: seq<Item>, close: byte): seq<byte>
    requires xs != [] && ProperItems(xs)
  {
    Text(xs[0].value) + (xs[0].after + (MoreItems(xs[1..]) + [close]))
  }

  lemma ItemsParts(xs: seq<Item>, close: byte)
    requires xs != [] && ProperItems(xs)
    ensures ItemsText(xs) + [close] == xs[0].before + FromValue(xs, close)
    ensures |ItemsText(xs)| == |xs[0].before| + |Text(xs[0].value)| + |xs[0].after| + |MoreItems(xs[1..])|
    ensures Proper(xs[0].value) && |Text(xs[0].value)| > 0 && FromValue(xs, close)[0] == Text(xs[0].value)[0]
    ensures StartByte(FromValue(xs, close)[0]) && Blank(xs[0].before) && Blank(xs[0].after)
  {
    hide Text, MoreItems;
    var x, more := xs[0], MoreItems(xs[1..]);
    Assoc(x.before, Text(x.value) + (x.after + more), [close]);
    Assoc(Text(x.value), x.after + more, [close]);
    Assoc(x.after, more, [close]);
    TextStart(x.value);
  }

  lemma FirstItem(xs: seq<Item>, close: byte)
    requires xs != [] && ProperItems(xs)
    ensures var x, rest := xs[0], xs[1..];
            && Proper(x.value) && Blank(x.after) && ProperItems(rest)
            && ItemsMeaning(xs) == [Meaning(x.value)] + ItemsMeaning(rest)
            && ItemsDepth(ItemsMeaning(xs)) >= Depth(Meaning(x.value))
            && ItemsDepth(ItemsMeaning(xs)) >= ItemsDepth(ItemsMeaning(rest))
            && FromValue(xs, close) == Text(x.value) + (x.after + (MoreItems(rest) + [close]))
            && |FromValue(xs, close)| == |Text(x.value)| + |x.after| + |MoreItems(rest)| + 1
            && (rest == [] ==> ItemsMeaning(rest) == [])
  {
    hide Text, Meaning, MoreItems, Depth;
    assert ([Meaning(xs[0].value)] + ItemsMeaning(xs[1..]))[1..] == ItemsMeaning(xs[1..]);
  }

  /** The first element, up to the comma or bracket behind it. */
  lemma {:induction false} ItemIsRead(c: seq<byte>, o: nat, p: nat, x: Item, d: nat, behind: seq<byte>)
    requires Proper(x.value) && Blank(x.after) && d + Depth(Meaning(x.value)) <= NESTING_LIMIT
    requires o < |c| && SkipWs(c, o + 1) == p && At(c, p, Text(x.value) + (x.after + behind))
    requires behind != [] && (behind[0] == COMMA || behind[0] == RBRACKET)
    ensures var q := p + |Text(x.value)| + |x.after|;
            q < |c| && At(c, q, behind)
            && ParseItems(c, o, d) == if behind[0] == COMMA then PrependItem(Meaning(x.value), ParseItems(c, q, d))
                                      else Ok([Meaning(x.value)], q)
    decreases x, 3
  {
    hide At, SkipWs, ParseItems, ParseValue, Text, Meaning, Depth, Proper, Blank, Delimited;
    AtSplit(c, p, Text(x.value), x.after + behind);
    var e := p + |Text(x.value)|;
    BlanksAt(c, e, x.after, behind);
    BlankDelimits(c, e, behind[0]);
    ValueIsRead(c, p, x.value, d);
    if behind[0] == COMMA {
      MoreItemsRead(c, o, d, Meaning(x.value), e);
    } else {
      LastItem(c, o, d, Meaning(x.value), e);
    }
  }

  lemma {:induction false} ItemsAreRead(c: seq<byte>, o: nat, p: nat, xs: seq<Item>, d: nat)
    requires xs != [] && ProperItems(xs) && d + ItemsDepth(ItemsMeaning(xs)) <= NESTING_LIMIT
    requires o < |c| && SkipWs(c, o + 1) == p && At(c, p, FromValue(xs, RBRACKET))
    ensures ParseItems(c, o, d) == Ok(ItemsMeaning(xs), p + |FromValue(xs, RBRACKET)| - 1)
    decreases xs, 0
  {
    hide At, SkipWs, ParseItems, ItemsText, MoreItems, Text, Meaning;
    hide FromValue, ItemsMeaning, ItemsDepth, Depth, ProperItems, Proper, Blank;
    FirstItem(xs, RBRACKET);
    var x, rest := xs[0], xs[1..];
    MoreStarts(rest, RBRACKET);
    ItemIsRead(c, o, p, x, d, MoreItems(rest) + [RBRACKET]);
    if rest == [] {
      assert ItemsMeaning(xs) == [Meaning(x.value)];
    } else {
      var q := p + |Text(x.value)| + |x.after|;
      NextItemAt(c, q, rest);
      ItemsAreRead(c, q, q + 1 + |rest[0].before|, rest, d);
    }
  }

  lemma NextItemAt(c: seq<byte>, q: nat, xs: seq<Item>)
    requires xs != [] && ProperItems(xs) && At(c, q, MoreItems(xs) + [RBRACKET])
    ensures var p := q + 1 + |xs[0].before|;
            q < |c| && SkipWs(c, q + 1) == p && At(c, p, FromValue(xs, RBRACKET))
    ensures |MoreItems(xs)| == |xs[0].before| + |FromValue(xs, RBRACKET)|
  {
    hide At, SkipWs, ItemsText, Text, FromValue;
    MoreStarts(xs, RBRACKET);
    ItemsParts(xs, RBRACKET);
    AtSplit(c, q, [COMMA], ItemsText(xs) + [RBRACKET]);
    AtByte(c, q, [COMMA], 0);
    BlanksAt(c, q + 1, xs[0].before, FromValue(xs, RBRACKET));
  }

  lemma MoreStarts(rest: seq<Item>, close: byte)
    requires ProperItems(rest)
    ensures MoreItems(rest) + [close] == if rest == [] then [close] else [COMMA] + (ItemsText(rest) + [close])
    ensures rest == [] ==> MoreItems(rest) == []
  {
    hide ItemsText;
  }

  lemma BlankDelimits(c: seq<byte>, e: nat, b: byte)
    requires e < |c| && (c[e] <= 32 || c[e] == b) && (b == COMMA || b == RBRACKET || b == RBRACE)
    ensures Delimited(c, e)
  {
  }

  lemma LastItem(c: seq<byte>, o: nat, d: nat, t: Json, e: nat)
    requires o < |c| && ParseValue(c, SkipWs(c, o + 1), d) == Ok(t, e)
    requires IsByte(c, SkipWs(c, e), RBRACKET)
    ensures ParseItems(c, o, d) == Ok([t], SkipWs(c, e))
  {
  }

  lemma MoreItemsRead(c: seq<byte>, o: nat, d: nat, t: Json, e: nat)
    requires o < |c| && ParseValue(c, SkipWs(c, o + 1), d) == Ok(t, e)
    requires IsByte(c, SkipWs(c, e), COMMA)
    ensures ParseItems(c, o, d) == PrependItem(t, ParseItems(c, SkipWs(c, e), d))
  {
  }

  // ---- objects, likewise ----

  lemma KeyIsRead(c: seq<byte>, o: nat, p: nat, x: Entry, rest: seq<byte>)
    requires ProperKey(x) && o + 1 < |c| && SkipWs(c, o + 1) == p
    requires At(c, p, KeyPart(x) + rest) && rest != [] && rest[0] > 32
    ensures ParseKey(c, o) == Ok(StringMeaning(x.key), p + |KeyPart(x)|)
  {
    hide At, SkipWs, ParseString, StringText, StringMeaning, ProperString, Blank;
    var text := StringText(x.key);
    NoBlank();
    var colon := [COLON] + x.afterColon;
    Assoc(text, x.beforeColon + colon, rest);
    Assoc(x.beforeColon, colon, rest);
    Assoc([COLON], x.afterColon, rest);
    AtSplit(c, p, text, x.beforeColon + (colon + rest));
    StringReading.StringIsRead(c, p, x.key);
    var q := p + |text|;
    BlanksAt(c, q, x.beforeColon, colon + rest);
    AtSplit(c, q + |x.beforeColon|, [COLON], x.afterColon + rest);
    BlanksAt(c, q + |x.beforeColon| + 1, x.afterColon, rest);
  }

  lemma NoBlank()
    ensures Blank([])
  {
  }

  /** The members from the first key on, and the closing brace. */
  ghost function FromKey(xs: seq<Entry>): seq<byte>
    requires xs != [] && ProperEntries(xs)
  {
    KeyPart(xs[0]) + BehindKey(xs)
  }

  ghost function BehindKey(xs: seq<Entry>): seq<byte>
    requires xs != [] && ProperEntries(xs)
  {
    Text(xs[0].value) + (xs[0].after + (MoreEntries(xs[1..]) + [RBRACE]))
  }

  lemma EntriesParts(xs: seq<Entry>)
    requires xs != [] && ProperEntries(xs)
    ensures EntriesText(xs) + [RBRACE] == xs[0].before + FromKey(xs)
    ensures |EntriesText(xs)| == |xs[0].before| + |FromKey(xs)| - 1
    ensures FromKey(xs) != [] && FromKey(xs)[0] == QUOTE && Blank(xs[0].before)
  {
    hide Text, MoreEntries, StringText, ProperString;
    var x, more := xs[0], MoreEntries(xs[1..]);
    Assoc(x.before, KeyPart(x) + (Text(x.value) + (x.after + more)), [RBRACE]);
    Assoc(KeyPart(x), Text(x.value) + (x.after + more), [RBRACE]);
    Assoc(Text(x.value), x.after + more, [RBRACE]);
    Assoc(x.after, more, [RBRACE]);
    KeyStarts(x);
  }

  lemma KeyStarts(x: Entry)
    requires ProperString(x.key)
    ensures |KeyPart(x)| > 0 && KeyPart(x)[0] == QUOTE
  {
    hide UnitsText, ProperString;
  }

  lemma FirstEntry(xs: seq<Entry>)
    requires xs != [] && ProperEntries(xs)
    ensures var x, rest := xs[0], xs[1..];
            && ProperKey(x) && Proper(x.value) && Blank(x.after) && ProperEntries(rest)
            && EntriesMeaning(xs) == [Member(StringMeaning(x.key), Meaning(x.value))] + EntriesMeaning(rest)
            && MembersDepth(EntriesMeaning(xs)) >= Depth(Meaning(x.value))
            && MembersDepth(EntriesMeaning(xs)) >= MembersDepth(EntriesMeaning(rest))
            && FromKey(xs) == KeyPart(x) + BehindKey(xs)
            && BehindKey(xs) == Text(x.value) + (x.after + (MoreEntries(rest) + [RBRACE]))
            && |FromKey(xs)| == |KeyPart(x)| + |Text(x.value)| + |x.after| + |MoreEntries(rest)| + 1
            && BehindKey(xs) != [] && BehindKey(xs)[0] > 32
            && (rest == [] ==> EntriesMeaning(rest) == [])
  {
    hide Text, Meaning, MoreEntries, Depth, KeyPart, ProperString, StringMeaning;
    var m := Member(StringMeaning(xs[0].key), Meaning(xs[0].value));
    assert ([m] + EntriesMeaning(xs[1..]))[1..] == EntriesMeaning(xs[1..]);
    TextStart(xs[0].value);
  }

  lemma {:induction false} EntriesAreRead(c: seq<byte>, o: nat, w: Spelling, d: nat)
    requires Proper(w) && w.Entries? && d + Depth(Meaning(w)) <= NESTING_LIMIT && At(c, o, Text(w))
    ensures IsByte(c, o, LBRACE) && ParseObject(c, o, d) == Ok(Meaning(w), o + |Text(w)|)
    decreases w, 1
  {
    hide At, SkipWs, ParseMembers, EntriesText, EntriesMeaning, Text, Meaning, Proper, FromKey;
    var xs := w.entries;
    ObjectParts(w);
    AtSplit(c, o, [LBRACE], EntriesText(xs) + [RBRACE]);
    AtByte(c, o, [LBRACE], 0);
    EntriesParts(xs);
    BlanksAt(c, o + 1, xs[0].before, FromKey(xs));
    var p := o + 1 + |xs[0].before|;
    BlanksEnd(c, p, p);
    MembersAreRead(c, p - 1, p, xs, d + 1);
  }

  lemma ObjectParts(w: Spelling)
    requires Proper(w) && w.Entries?
    ensures Text(w) == [LBRACE] + (EntriesText(w.entries) + [RBRACE])
    ensures Meaning(w) == Object(EntriesMeaning(w.entries))
    ensures w.entries != [] && ProperEntries(w.entries)
  {
  }

  /** The first member, up to the comma or brace behind it. */
  lemma {:induction false} EntryIsRead(c: seq<byte>, o: nat, p: nat, x: Entry, d: nat, behind: seq<byte>)
    requires ProperKey(x) && Proper(x.value) && Blank(x.after) && d + Depth(Meaning(x.value)) <= NESTING_LIMIT
    requires o + 1 < |c| && SkipWs(c, o + 1) == p
    requires At(c, p, KeyPart(x) + (Text(x.value) + (x.after + behind)))
    requires behind != [] && (behind[0] == COMMA || behind[0] == RBRACE)
    ensures var m := Member(StringMeaning(x.key), Meaning(x.value));
            var q := p + |KeyPart(x)| + |Text(x.value)| + |x.after|;
            q < |c| && At(c, q, behind)
            && ParseMembers(c, o, d) == if behind[0] == COMMA then PrependMember(m, ParseMembers(c, q, d))
                                        else Ok([m], q)
    decreases x, 3
  {
    hide At, SkipWs, ParseMembers, ParseMember, ParseValue, ParseKey, Text, Meaning, KeyPart, Depth, Proper, Blank;
    hide StringMeaning, Delimited, ProperString;
    TextStart(x.value);
    KeyIsRead(c, o, p, x, Text(x.value) + (x.after + behind));
    var v := p + |KeyPart(x)|;
    AtSplit(c, p, KeyPart(x), Text(x.value) + (x.after + behind));
    AtSplit(c, v, Text(x.value), x.after + behind);
    var e := v + |Text(x.value)|;
    BlanksAt(c, e, x.after, behind);
    BlankDelimits(c, e, behind[0]);
    ValueIsRead(c, v, x.value, d);
    var m := Member(StringMeaning(x.key), Meaning(x.value));
    OneMember(c, o, d, m, v, e);
    if behind[0] == COMMA {
      MoreMembers(c, o, d, m, e);
    } else {
      LastMember(c, o, d, m, e);
    }
  }

  lemma {:induction false} MembersAreRead(c: seq<byte>, o: nat, p: nat, xs: seq<Entry>, d: nat)
    requires xs != [] && ProperEntries(xs) && d + MembersDepth(EntriesMeaning(xs)) <= NESTING_LIMIT
    requires o + 1 < |c| && SkipWs(c, o + 1) == p && At(c, p, FromKey(xs))
    ensures ParseMembers(c, o, d) == Ok(EntriesMeaning(xs), p + |FromKey(xs)| - 1)
    decreases xs, 0
  {
    hide At, SkipWs, ParseMembers, EntriesText, MoreEntries, Text, Meaning, KeyPart, ProperString;
    hide FromKey, EntriesMeaning, MembersDepth, Depth, ProperEntries, Proper, Blank, StringMeaning;
    FirstEntry(xs);
    var x, rest := xs[0], xs[1..];
    MoreEntriesStart(rest);
    EntryIsRead(c, o, p, x, d, MoreEntries(rest) + [RBRACE]);
    if rest == [] {
      assert EntriesMeaning(xs) == [Member(StringMeaning(x.key), Meaning(x.value))];
    } else {
      var q := p + |KeyPart(x)| + |Text(x.value)| + |x.after|;
      NextEntryAt(c, q, rest);
      MembersAreRead(c, q, q + 1 + |rest[0].before|, rest, d);
    }
  }

  lemma NextEntryAt(c: seq<byte>, q: nat, xs: seq<Entry>)
    requires xs != [] && ProperEntries(xs) && At(c, q, MoreEntries(xs) + [RBRACE])
    ensures var p := q + 1 + |xs[0].before|;
            q + 1 < |c| && SkipWs(c, q + 1) == p && At(c, p, FromKey(xs))
    ensures |MoreEntries(xs)| == |xs[0].before| + |FromKey(xs)|
  {
    hide At, SkipWs, EntriesText, Text, FromKey;
    MoreEntriesStart(xs);
    EntriesParts(xs);
    AtSplit(c, q, [COMMA], EntriesText(xs) + [RBRACE]);
    AtByte(c, q, [COMMA], 0);
    BlanksAt(c, q + 1, xs[0].before, FromKey(xs));
  }

  lemma MoreEntriesStart(rest: seq<Entry>)
    requires ProperEntries(rest)
    ensures MoreEntries(rest) + [RBRACE] == if rest == [] then [RBRACE] else [COMMA] + (EntriesText(rest) + [RBRACE])
    ensures rest == [] ==> MoreEntries(rest) == []
  {
    hide EntriesText;
  }

  lemma OneMember(c: seq<byte>, o: nat, d: nat, m: Member, v: nat, e: nat)
    requires o < |c| && ParseKey(c, o) == Ok(m.key, v) && ParseValue(c, v, d) == Ok(m.value, e)
    ensures ParseMember(c, o, d) == Ok(m, e)
  {
  }

  lemma LastMember(c: seq<byte>, o: nat, d: nat, m: Member, e: nat)
    requires o < |c| && ParseMember(c, o, d) == Ok(m, e) && IsByte(c, SkipWs(c, e), RBRACE)
    ensures ParseMembers(c, o, d) == Ok([m], SkipWs(c, e))
  {
  }

  lemma MoreMembers(c: seq<byte>, o: nat, d: nat, m: Member, e: nat)
    requires o < |c| && ParseMember(c, o, d) == Ok(m, e) && IsByte(c, SkipWs(c, e), COMMA)
    ensures ParseMembers(c, o, d) == PrependMember(m, ParseMembers(c, SkipWs(c, e), d))
  {
  }

  // ---- whatever is read is spelled like that ----

  lemma SkippedAt(c: seq<byte>, o: nat)
    requires o <= |c|
    ensures var p := SkipWs(c, o); At(c, o, c[o..p]) && Blank(c[o..p]) && |c[o..p]| == p - o
  {
  }

  lemma WordIsThere(c: seq<byte>, o: nat, d: nat) returns (w: Spelling)
    requires At(c, o, TEXT_NULL) || At(c, o, TEXT_FALSE) || At(c, o, TEXT_TRUE)
    ensures Proper(w) && At(c, o, Text(w)) && ParseValue(c, o, d) == Ok(Meaning(w), o + |Text(w)|)
  {
    hide WordText;
    WordsAre();
    w := Word(if At(c, o, TEXT_NULL) then Null else if At(c, o, TEXT_FALSE) then False else True);
  }

  /** Every value that is accepted is the spelling of something that means it. */
  lemma {:induction false} ValueIsThere(c: seq<byte>, o: nat, d: nat) returns (w: Spelling)
    requires o <= |c| && ParseValue(c, o, d).Ok?
    ensures Proper(w) && At(c, o, Text(w)) && ParseValue(c, o, d) == Ok(Meaning(w), o + |Text(w)|)
    decreases |c| - o, 4
  {
    hide ParseArray, ParseObject, ParseString, ParseNumber, At, NumeralText, StringText, ProperNumeral, ProperString;
    if At(c, o, TEXT_NULL) || At(c, o, TEXT_FALSE) || At(c, o, TEXT_TRUE) {
      w := WordIsThere(c, o, d);
    } else if IsByte(c, o, QUOTE) {
      var us := StringReading.StringIsThere(c, o);
      w := Quoted(us);
    } else if StartsNumber(c, o) {
      var n := NumberReading.NumberIsThere(c, o);
      w := Numeric(n);
    } else if IsByte(c, o, LBRACKET) {
      w := ArrayIsThere(c, o, d);
    } else {
      w := ObjectIsThere(c, o, d);
    }
  }

  lemma {:induction false} ArrayIsThere(c: seq<byte>, o: nat, d: nat) returns (w: Spelling)
    requires IsByte(c, o, LBRACKET) && ParseArray(c, o, d).Ok?
    ensures Proper(w) && At(c, o, Text(w)) && ParseArray(c, o, d) == Ok(Meaning(w), o + |Text(w)|)
    decreases |c| - o, 3
  {
    hide At, SkipWs, ParseItems, ItemsText, ItemsMeaning, ProperItems, Blank, MoreItems, Text, Meaning, Proper;
    var p := SkipWs(c, o + 1);
    SkippedAt(c, o + 1);
    if c[p] == RBRACKET {
      w := EmptyArrayIsThere(c, o, p);
    } else {
      var xs := ItemsAreThere(c, p - 1, d + 1);
      var wide := Widened(xs, c[o + 1..p]);
      w := Elements(wide);
      ElementsText(wide);
      ContainerAt(c, o, p, ItemsText(xs), RBRACKET);
    }
  }

  lemma EmptyArrayIsThere(c: seq<byte>, o: nat, p: nat) returns (w: Spelling)
    requires o < p < |c| && c[o] == LBRACKET && c[p] == RBRACKET && Blank(c[o + 1..p])
    ensures Proper(w) && At(c, o, Text(w)) && Meaning(w) == Array([]) && o + |Text(w)| == p + 1
  {
    w := EmptyArray(c[o + 1..p]);
    assert c[o..p + 1] == [c[o]] + (c[o + 1..p] + [c[p]]);
  }

  lemma ElementsText(xs: seq<Item>)
    requires xs != [] && ProperItems(xs)
    ensures Proper(Elements(xs)) && Text(Elements(xs)) == [LBRACKET] + (ItemsText(xs) + [RBRACKET])
    ensures Meaning(Elements(xs)) == Array(ItemsMeaning(xs))
  {
  }

  /** A bracket, blanks, what is inside, and the closing bracket. */
  lemma ContainerAt(c: seq<byte>, o: nat, p: nat, inside: seq<byte>, close: byte)
    requires o < p <= |c| && At(c, p, inside + [close])
    ensures At(c, o, [c[o]] + ((c[o + 1..p] + inside) + [close]))
  {
    hide At;
    StringReading.OneByteAt(c, o);
    PartAt(c, o + 1, p);
    Assoc(c[o + 1..p], inside, [close]);
    AtSplit(c, o + 1, c[o + 1..p], inside + [close]);
    AtSplit(c, o, [c[o]], (c[o + 1..p] + inside) + [close]);
  }

  /** More blanks before the first. */
  lemma Widened(xs: seq<Item>, blank: seq<byte>) returns (wide: seq<Item>)
    requires xs != [] && ProperItems(xs) && Blank(blank)
    ensures wide != [] && ProperItems(wide)
    ensures ItemsText(wide) == blank + ItemsText(xs) && ItemsMeaning(wide) == ItemsMeaning(xs)
  {
    hide Text, Meaning, Proper, MoreItems;
    var x := xs[0].(before := blank + xs[0].before);
    wide := [x] + xs[1..];
    assert wide[1..] == xs[1..];
    Assoc(blank, xs[0].before, Text(x.value) + (x.after + MoreItems(xs[1..])));
  }

  lemma ConsItem(x: Item, xs: seq<Item>)
    requires Blank(x.before) && Proper(x.value) && Blank(x.after) && ProperItems(xs)
    ensures ProperItems([x] + xs) && ItemsMeaning([x] + xs) == [Meaning(x.value)] + ItemsMeaning(xs)
    ensures ItemsText([x] + xs) == x.before + (Text(x.value) + (x.after + MoreItems(xs)))
  {
    hide Text, Meaning, Proper, MoreItems, Blank;
    assert ([x] + xs)[1..] == xs;
  }

  lemma {:induction false} ItemsAreThere(c: seq<byte>, o: nat, d: nat) returns (xs: seq<Item>)
    requires o < |c| && ParseItems(c, o, d).Ok?
    ensures xs != [] && ProperItems(xs) && At(c, o + 1, ItemsText(xs) + [RBRACKET])
    ensures ParseItems(c, o, d) == Ok(ItemsMeaning(xs), o + 1 + |ItemsText(xs)|)
    decreases |c| - o, 2
  {
    hide At, SkipWs, ParseItems, ParseValue, ItemsText, MoreItems, Text, Meaning, ProperItems,
         Proper, Blank, ItemsMeaning;
    FirstItemRead(c, o, d);
    var p := SkipWs(c, o + 1);
    var w := ValueIsThere(c, p, d);
    var e := p + |Text(w)|;
    var q := SkipWs(c, e);
    SkippedAt(c, o + 1);
    SkippedAt(c, e);
    StringReading.OneByteAt(c, q);
    var x, rest := Item(c[o + 1..p], w, c[e..q]), [];
    NoMore();
    if c[q] == COMMA {
      rest := ItemsAreThere(c, q, d);
      AtSplit(c, q, [COMMA], ItemsText(rest) + [RBRACKET]);
    }
    assert [Meaning(w)] + [] == [Meaning(w)];
    MoreStarts(rest, RBRACKET);
    ConsItem(x, rest);
    xs := [x] + rest;
    ItemPlaces(c, o + 1, p, e, q, Text(w), MoreItems(rest), RBRACKET);
    MoreItemsLength(rest);
  }

  lemma MoreItemsLength(rest: seq<Item>)
    requires ProperItems(rest)
    ensures |MoreItems(rest)| == if rest == [] then 0 else 1 + |ItemsText(rest)|
  {
    hide ItemsText;
  }

  lemma NoMore()
    ensures ProperItems([]) && ItemsMeaning([]) == [] && ProperEntries([]) && EntriesMeaning([]) == []
  {
  }

  /** What ParseItems does with its first value. */
  lemma FirstItemRead(c: seq<byte>, o: nat, d: nat)
    requires o < |c| && ParseItems(c, o, d).Ok?
    ensures var v := ParseValue(c, SkipWs(c, o + 1), d);
            v.Ok? && v.next <= |c|
            && var q := SkipWs(c, v.next);
               (IsByte(c, q, COMMA) && ParseItems(c, q, d).Ok? && q > o
                && ParseItems(c, o, d) == PrependItem(v.value, ParseItems(c, q, d)))
               || (IsByte(c, q, RBRACKET) && ParseItems(c, o, d) == Ok([v.value], q))
  {
    hide SkipWs;
  }

  lemma ItemPlaces(c: seq<byte>, o: nat, p: nat, e: nat, q: nat, text: seq<byte>, more: seq<byte>, close: byte)
    requires o <= p <= e <= q <= |c| && e == p + |text| && At(c, p, text) && At(c, q, more + [close])
    ensures At(c, o, (c[o..p] + (text + (c[e..q] + more))) + [close])
    ensures |c[o..p] + (text + (c[e..q] + more))| == q - o + |more|
  {
    hide At;
    PartAt(c, o, p);
    PartAt(c, e, q);
    Assoc(c[o..p], text + (c[e..q] + more), [close]);
    Assoc(text, c[e..q] + more, [close]);
    Assoc(c[e..q], more, [close]);
    AtSplit(c, e, c[e..q], more + [close]);
    AtSplit(c, p, text, c[e..q] + (more + [close]));
    AtSplit(c, o, c[o..p], text + (c[e..q] + (more + [close])));
  }

  lemma PartAt(c: seq<byte>, o: nat, p: nat)
    requires o <= p <= |c|
    ensures At(c, o, c[o..p])
  {
  }

  lemma {:induction false} ObjectIsThere(c: seq<byte>, o: nat, d: nat) returns (w: Spelling)
    requires IsByte(c, o, LBRACE) && ParseObject(c, o, d).Ok?
    ensures Proper(w) && At(c, o, Text(w)) && ParseObject(c, o, d) == Ok(Meaning(w), o + |Text(w)|)
    decreases |c| - o, 3
  {
    hide At, SkipWs, ParseMembers, EntriesText, EntriesMeaning, ProperEntries, Blank,
         MoreEntries, Text, Meaning, Proper;
    var p := SkipWs(c, o + 1);
    SkippedAt(c, o + 1);
    if c[p] == RBRACE {
      w := EmptyObjectIsThere(c, o, p);
    } else {
      var xs := MembersAreThere(c, p - 1, d + 1);
      var wide := WidenedEntries(xs, c[o + 1..p]);
      w := Entries(wide);
      EntriesAsText(wide);
      ContainerAt(c, o, p, EntriesText(xs), RBRACE);
    }
  }

  lemma EmptyObjectIsThere(c: seq<byte>, o: nat, p: nat) returns (w: Spelling)
    requires o < p < |c| && c[o] == LBRACE && c[p] == RBRACE && Blank(c[o + 1..p])
    ensures Proper(w) && At(c, o, Text(w)) && Meaning(w) == Object([]) && o + |Text(w)| == p + 1
  {
    w := EmptyObject(c[o + 1..p]);
    assert c[o..p + 1] == [c[o]] + (c[o + 1..p] + [c[p]]);
  }

  lemma EntriesAsText(xs: seq<Entry>)
    requires xs != [] && ProperEntries(xs)
    ensures Proper(Entries(xs)) && Text(Entries(xs)) == [LBRACE] + (EntriesText(xs) + [RBRACE])
    ensures Meaning(Entries(xs)) == Object(EntriesMeaning(xs))
  {
  }

  lemma WidenedEntries(xs: seq<Entry>, blank: seq<byte>) returns (wide: seq<Entry>)
    requires xs != [] && ProperEntries(xs) && Blank(blank)
    ensures wide != [] && ProperEntries(wide)
    ensures EntriesText(wide) == blank + EntriesText(xs) && EntriesMeaning(wide) == EntriesMeaning(xs)
  {
    hide Text, Meaning, Proper, MoreEntries, KeyPart, ProperString, StringMeaning;
    var x := xs[0].(before := blank + xs[0].before);
    wide := [x] + xs[1..];
    assert wide[1..] == xs[1..];
    SameKey(xs[0], x);
    Assoc(blank, xs[0].before, KeyPart(x) + (Text(x.value) + (x.after + MoreEntries(xs[1..]))));
  }

  lemma SameKey(x: Entry, y: Entry)
    requires ProperString(x.key) && y == x.(before := y.before)
    ensures KeyPart(x) == KeyPart(y)
  {
  }

  lemma ConsEntry(x: Entry, xs: seq<Entry>)
    requires ProperKey(x) && Proper(x.value) && Blank(x.after) && ProperEntries(xs)
    ensures ProperEntries([x] + xs)
    ensures EntriesMeaning([x] + xs) == [Member(StringMeaning(x.key), Meaning(x.value))] + EntriesMeaning(xs)
    ensures EntriesText([x] + xs) == x.before + (KeyPart(x) + (Text(x.value) + (x.after + MoreEntries(xs))))
  {
    hide Text, Meaning, Proper, MoreEntries, Blank, KeyPart, ProperString, StringMeaning;
    assert ([x] + xs)[1..] == xs;
  }

  /** The key, its colon, and the blanks around them. */
  lemma KeyIsThere(c: seq<byte>, o: nat) returns (x: Entry)
    requires o < |c| && ParseKey(c, o).Ok?
    ensures ProperKey(x) && At(c, o + 1, x.before + KeyPart(x))
    ensures ParseKey(c, o) == Ok(StringMeaning(x.key), o + 1 + |x.before| + |KeyPart(x)|)
  {
    hide At, SkipWs, ParseString, StringText, StringMeaning, ProperString, Blank;
    var p := SkipWs(c, o + 1);
    var us := StringReading.StringIsThere(c, p);
    var e := p + |StringText(us)|;
    var q := SkipWs(c, e);
    var v := SkipWs(c, q + 1);
    SkippedAt(c, o + 1);
    SkippedAt(c, e);
    SkippedAt(c, q + 1);
    StringReading.OneByteAt(c, q);
    x := Entry(c[o + 1..p], us, c[e..q], c[q + 1..v], Word(Null), []);
    AtSplit(c, q, [COLON], x.afterColon);
    AtSplit(c, e, x.beforeColon, [COLON] + x.afterColon);
    AtSplit(c, p, StringText(us), x.beforeColon + ([COLON] + x.afterColon));
    AtSplit(c, o + 1, x.before, KeyPart(x));
  }

  lemma {:induction false} MembersAreThere(c: seq<byte>, o: nat, d: nat) returns (xs: seq<Entry>)
    requires o < |c| && ParseMembers(c, o, d).Ok?
    ensures xs != [] && ProperEntries(xs) && At(c, o + 1, EntriesText(xs) + [RBRACE])
    ensures ParseMembers(c, o, d) == Ok(EntriesMeaning(xs), o + 1 + |EntriesText(xs)|)
    decreases |c| - o, 2
  {
    hide At, SkipWs, ParseMembers, ParseKey, ParseValue, EntriesText, MoreEntries, Text, Meaning, ProperEntries, Proper;
    hide Blank, EntriesMeaning, KeyPart, StringMeaning, ProperString;
    FirstMemberRead(c, o, d);
    var head := KeyIsThere(c, o);
    var v := o + 1 + |head.before| + |KeyPart(head)|;
    var w := ValueIsThere(c, v, d);
    var e := v + |Text(w)|;
    var q := SkipWs(c, e);
    SkippedAt(c, e);
    StringReading.OneByteAt(c, q);
    var x, rest := head.(value := w, after := c[e..q]), [];
    NoMore();
    if c[q] == COMMA {
      rest := MembersAreThere(c, q, d);
      AtSplit(c, q, [COMMA], EntriesText(rest) + [RBRACE]);
    }
    SameKeyPart(head, x);
    assert [Member(StringMeaning(x.key), Meaning(w))] + [] == [Member(StringMeaning(x.key), Meaning(w))];
    MoreEntriesStart(rest);
    ConsEntry(x, rest);
    xs := [x] + rest;
    EntryPlaces(c, o + 1, v, e, q, x.before, KeyPart(x), Text(w), MoreEntries(rest));
    MoreEntriesLength(rest);
  }

  lemma SameKeyPart(x: Entry, y: Entry)
    requires ProperString(x.key) && y == x.(value := y.value, after := y.after)
    ensures KeyPart(x) == KeyPart(y)
  {
  }

  lemma MoreEntriesLength(rest: seq<Entry>)
    requires ProperEntries(rest)
    ensures |MoreEntries(rest)| == if rest == [] then 0 else 1 + |EntriesText(rest)|
  {
    hide EntriesText;
  }

  lemma FirstMemberRead(c: seq<byte>, o: nat, d: nat)
    requires o < |c| && ParseMembers(c, o, d).Ok?
    ensures ParseKey(c, o).Ok?
    ensures var key := ParseKey(c, o);
            var v := ParseValue(c, key.next, d);
            v.Ok? && v.next <= |c|
            && var m, q := Member(key.value, v.value), SkipWs(c, v.next);
               (IsByte(c, q, COMMA) && ParseMembers(c, q, d).Ok? && q > o
                && ParseMembers(c, o, d) == PrependMember(m, ParseMembers(c, q, d)))
               || (IsByte(c, q, RBRACE) && ParseMembers(c, o, d) == Ok([m], q))
  {
    hide SkipWs, ParseKey;
  }

  lemma EntryPlaces(c: seq<byte>, o: nat, v: nat, e: nat, q: nat,
                    before: seq<byte>, key: seq<byte>, text: seq<byte>, more: seq<byte>)
    requires o <= v <= e <= q <= |c| && v == o + |before| + |key| && e == v + |text|
    requires At(c, o, before + key) && At(c, v, text) && At(c, q, more + [RBRACE])
    ensures var all := before + (key + (text + (c[e..q] + more)));
            At(c, o, all + [RBRACE]) && |all| == q - o + |more|
  {
    hide At;
    var tail := text + (c[e..q] + more);
    ItemPlaces(c, v, v, e, q, text, more, RBRACE);
    assert c[v..v] + tail == tail;
    AtSplit(c, o, before + key, tail + [RBRACE]);
    Assoc(before, key, tail + [RBRACE]);
    Assoc(key, tail, [RBRACE]);
    Assoc(before, key + tail, [RBRACE]);
  }
}
