/** JSON texts as they may be written, token by token, and what they mean. */
module Syntax {
  import opened Bytes
  import opened JsonTree
  import opened Utf
  import opened Rendering
  import opened Numbers

  // Nothing here says how a text is read: a spelling is written out, and has a meaning of its own.

  // ---- string literals ----

  /** What a literal's body is made of. The last two are accepted though the standard rejects them:
      four bytes behind \u that are no hexadecimal number stand for U+0000, and where they have put the
      reader out of step, a backslash may be left over before the closing quote. */
  datatype Unit =
    | Raw(b: byte)
    | Short(letter: byte)
    | Code(n: nat, upper: seq<bool>)
    | Pair(high: nat, low: nat, upper: seq<bool>, lowUpper: seq<bool>)
    | Sloppy(four: seq<byte>)
    | Leftover

  /** Section 7 of RFC 8259: the letters behind a backslash. */
  const SHORT_FORMS: map<byte, byte> :=
    map[QUOTE := QUOTE, BACKSLASH := BACKSLASH, SLASH := SLASH, 98 := 8, 102 := 12, 110 := 10, 114 := 13, 116 := 9]

  ghost predicate ProperUnit(u: Unit) {
    match u
    case Raw(b) => b != BACKSLASH
    case Short(letter) => letter in SHORT_FORMS
    case Code(n, upper) => n < 0x10000 && Scalar(n) && |upper| == 4
    case Pair(high, low, upper, lowUpper) =>
      HighSurrogate(high) && LowSurrogate(low) && |upper| == 4 && |lowUpper| == 4
    case Sloppy(four) => |four| == 4 && Written(four, 0) == None
    case Leftover => true
  }

  ghost function UnitText(u: Unit): (s: seq<byte>)
    requires ProperUnit(u)
    ensures |s| > 0
  {
    match u
    case Raw(b) => [b]
    case Short(letter) => [BACKSLASH, letter]
    case Code(n, upper) => [BACKSLASH, LETTER_U] + HexText(n, upper)
    case Pair(high, low, upper, lowUpper) =>
      [BACKSLASH, LETTER_U] + HexText(high, upper) + ([BACKSLASH, LETTER_U] + HexText(low, lowUpper))
    case Sloppy(four) => [BACKSLASH, LETTER_U] + four
    case Leftover => [BACKSLASH]
  }

  ghost function UnitBytes(u: Unit): seq<byte>
    requires ProperUnit(u)
  {
    match u
    case Raw(b) => [b]
    case Short(letter) => [SHORT_FORMS[letter]]
    case Code(n, _) => Utf8(n)
    case Pair(high, low, _, _) => Utf8(0x10000 + 0x400 * (high - 0xD800) + (low - 0xDC00))
    case Sloppy(_) => [NUL]
    case Leftover => [QUOTE]
  }

  ghost predicate ProperUnits(us: seq<Unit>) {
    forall k :: 0 <= k < |us| ==> ProperUnit(us[k]) && (us[k].Leftover? ==> k == |us| - 1)
  }

  ghost function UnitsText(us: seq<Unit>): seq<byte>
    requires ProperUnits(us)
  {
    if us == [] then [] else UnitText(us[0]) + UnitsText(us[1..])
  }

  ghost function UnitsBytes(us: seq<Unit>): seq<byte>
    requires ProperUnits(us)
  {
    if us == [] then [] else UnitBytes(us[0]) + UnitsBytes(us[1..])
  }

  /** Every quote in the body, and its last byte, is behind a backslash that is not itself behind one. */
  predicate Closed(body: seq<byte>) {
    if body == [] then true
    else if body[0] == BACKSLASH then |body| >= 2 && Closed(body[2..])
    else body[0] != QUOTE && Closed(body[1..])
  }

  ghost predicate ProperString(us: seq<Unit>) {
    ProperUnits(us) && Closed(UnitsText(us))
  }

  ghost function StringText(us: seq<Unit>): seq<byte>
    requires ProperString(us)
  {
    [QUOTE] + (UnitsText(us) + [QUOTE])
  }

  /** A C string ends at its first NUL. */
  ghost function StringMeaning(us: seq<Unit>): CStr
    requires ProperString(us)
  {
    Visible(UnitsBytes(us))
  }

  // ---- numbers ----

  datatype Exponent = Exponent(capital: bool, sign: Option<bool>, digits: seq<nat>)

  /** [-] digits [. digits] [e [+|-] digits]; digits may be missing on one side of the point. */
  datatype Numeral = Numeral(negative: bool, whole: seq<nat>, fraction: Option<seq<nat>>, exponent: Option<Exponent>)

  predicate Digits(ds: seq<nat>) {
    forall k :: 0 <= k < |ds| ==> ds[k] < 10
  }

  function DigitsText(ds: seq<nat>): (s: seq<byte>)
    requires Digits(ds)
    ensures |s| == |ds|
  {
    seq(|ds|, k requires 0 <= k < |ds| => (48 + ds[k]) as byte)
  }

  function SignText(negative: bool): seq<byte> {
    if negative then [MINUS] else []
  }

  function FractionText(f: Option<seq<nat>>): seq<byte>
    requires f.Some? ==> Digits(f.value)
  {
    if f.None? then [] else [DOT] + DigitsText(f.value)
  }

  function ExponentText(e: Option<Exponent>): seq<byte>
    requires e.Some? ==> Digits(e.value.digits)
  {
    if e.None? then [] else
      [if e.value.capital then CAPITAL_E else LETTER_E]
      + ((match e.value.sign case None => [] case Some(negative) => if negative then [MINUS] else [PLUS])
         + DigitsText(e.value.digits))
  }

  predicate ProperDigits(n: Numeral) {
    && Digits(n.whole) && (n.fraction.Some? ==> Digits(n.fraction.value))
    && (n.exponent.Some? ==> Digits(n.exponent.value.digits) && n.exponent.value.digits != [])
  }

  function NumeralText(n: Numeral): seq<byte>
    requires ProperDigits(n)
  {
    SignText(n.negative) + (DigitsText(n.whole) + (FractionText(n.fraction) + ExponentText(n.exponent)))
  }

  /** At most 63 characters; without digits before the point there is a sign and there are some behind it. */
  predicate ProperNumeral(n: Numeral) {
    && ProperDigits(n) && |NumeralText(n)| <= 63
    && (n.whole == [] ==> n.negative && n.fraction.Some? && n.fraction.value != [])
  }

  /** Digit by digit, each with its place. */
  function WholeValue(ds: seq<nat>): nat {
    if ds == [] then 0 else ds[0] * Power(|ds| - 1) + WholeValue(ds[1..])
  }

  function FractionValue(ds: seq<nat>): real {
    if ds == [] then 0.0 else (ds[0] as real + FractionValue(ds[1..])) / 10.0
  }

  function TenTo(e: int): real
    decreases if e < 0 then -e else e
  {
    if e == 0 then 1.0 else if e > 0 then 10.0 * TenTo(e - 1) else TenTo(e + 1) / 10.0
  }

  function ExponentValue(e: Option<Exponent>): int {
    if e.None? then 0 else
      var n: int := WholeValue(e.value.digits);
      if e.value.sign == Some(true) then -n else n
  }

  function NumeralValue(n: Numeral): real {
    var m := WholeValue(n.whole) as real + (if n.fraction.None? then 0.0 else FractionValue(n.fraction.value));
    (if n.negative then -m else m) * TenTo(ExponentValue(n.exponent))
  }

  // ---- values ----

  /** A value with the blanks inside it. */
  datatype Spelling =
    | Word(word: Json)
    | Numeric(numeral: Numeral)
    | Quoted(units: seq<Unit>)
    | EmptyArray(blank: seq<byte>)
    | Elements(items: seq<Item>)
    | EmptyObject(blank: seq<byte>)
    | Entries(entries: seq<Entry>)

  /** An element with the blanks around it. */
  datatype Item = Item(before: seq<byte>, value: Spelling, after: seq<byte>)

  /** A member with the blanks before the key, around the colon, and behind the value. */
  datatype Entry = Entry(before: seq<byte>, key: seq<Unit>, beforeColon: seq<byte>, afterColon: seq<byte>,
                         value: Spelling, after: seq<byte>)

  /** cJSON takes every byte up to the space for a blank, NUL included. */
  predicate Blank(s: seq<byte>) {
    forall k :: 0 <= k < |s| ==> s[k] <= 32
  }

  ghost predicate Proper(w: Spelling)
    decreases w, 1
  {
    match w
    case Word(t) => t.Null? || t.False? || t.True?
    case Numeric(n) => ProperNumeral(n)
    case Quoted(us) => ProperString(us)
    case EmptyArray(blank) => Blank(blank)
    case Elements(items) => items != [] && ProperItems(items)
    case EmptyObject(blank) => Blank(blank)
    case Entries(entries) => entries != [] && ProperEntries(entries)
  }

  ghost predicate ProperItems(xs: seq<Item>)
    decreases xs, 0
  {
    xs == [] || (Blank(xs[0].before) && Proper(xs[0].value) && Blank(xs[0].after) && ProperItems(xs[1..]))
  }

  ghost predicate ProperEntries(xs: seq<Entry>)
    decreases xs, 0
  {
    xs == [] || (ProperKey(xs[0]) && Proper(xs[0].value) && Blank(xs[0].after) && ProperEntries(xs[1..]))
  }

  ghost predicate ProperKey(x: Entry) {
    Blank(x.before) && ProperString(x.key) && Blank(x.beforeColon) && Blank(x.afterColon)
  }

  function Ascii(s: string): (r: seq<byte>)
    requires forall k :: 0 <= k < |s| ==> s[k] < 128 as char
    ensures |r| == |s| && forall k :: 0 <= k < |s| ==> r[k] == s[k] as int
  {
    seq(|s|, k requires 0 <= k < |s| => s[k] as int)
  }

  function WordText(t: Json): seq<byte> {
    if t.Null? then Ascii("null") else if t.False? then Ascii("false") else Ascii("true")
  }

  lemma WordsAre()
    ensures WordText(Null) == TEXT_NULL && WordText(False) == TEXT_FALSE && WordText(True) == TEXT_TRUE
  {
  }

  ghost function Text(w: Spelling): seq<byte>
    requires Proper(w)
    decreases w, 1
  {
    match w
    case Word(t) => WordText(t)
    case Numeric(n) => NumeralText(n)
    case Quoted(us) => StringText(us)
    case EmptyArray(blank) => [LBRACKET] + (blank + [RBRACKET])
    case Elements(items) => [LBRACKET] + (ItemsText(items) + [RBRACKET])
    case EmptyObject(blank) => [LBRACE] + (blank + [RBRACE])
    case Entries(entries) => [LBRACE] + (EntriesText(entries) + [RBRACE])
  }

  ghost function ItemsText(xs: seq<Item>): seq<byte>
    requires ProperItems(xs)
    decreases xs, 0
  {
    if xs == [] then [] else
      xs[0].before + (Text(xs[0].value) + (xs[0].after + MoreItems(xs[1..])))
  }

  ghost function MoreItems(xs: seq<Item>): seq<byte>
    requires ProperItems(xs)
    decreases xs, 1
  {
    if xs == [] then [] else [COMMA] + ItemsText(xs)
  }

  ghost function EntriesText(xs: seq<Entry>): seq<byte>
    requires ProperEntries(xs)
    decreases xs, 0
  {
    if xs == [] then [] else
      xs[0].before + (KeyPart(xs[0]) + (Text(xs[0].value) + (xs[0].after + MoreEntries(xs[1..]))))
  }

  ghost function MoreEntries(xs: seq<Entry>): seq<byte>
    requires ProperEntries(xs)
    decreases xs, 1
  {
    if xs == [] then [] else [COMMA] + EntriesText(xs)
  }

  ghost function KeyPart(x: Entry): seq<byte>
    requires ProperString(x.key)
  {
    StringText(x.key) + (x.beforeColon + ([COLON] + x.afterColon))
  }

  ghost function Meaning(w: Spelling): Json
    requires Proper(w)
    decreases w, 1
  {
    match w
    case Word(t) => t
    case Numeric(n) => Number(NumeralValue(n))
    case Quoted(us) => String(StringMeaning(us))
    case EmptyArray(_) => Array([])
    case Elements(items) => Array(ItemsMeaning(items))
    case EmptyObject(_) => Object([])
    case Entries(entries) => Object(EntriesMeaning(entries))
  }

  ghost function ItemsMeaning(xs: seq<Item>): (ts: seq<Json>)
    requires ProperItems(xs)
    ensures |ts| == |xs|
    decreases xs, 0
  {
    if xs == [] then [] else [Meaning(xs[0].value)] + ItemsMeaning(xs[1..])
  }

  ghost function EntriesMeaning(xs: seq<Entry>): (ms: seq<Member>)
    requires ProperEntries(xs)
    ensures |ms| == |xs|
    decreases xs, 0
  {
    if xs == [] then [] else
      [Member(StringMeaning(xs[0].key), Meaning(xs[0].value))] + EntriesMeaning(xs[1..])
  }
}
