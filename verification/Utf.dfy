/** The \uXXXX escape: UTF-16 code units in hexadecimal to UTF-8 bytes. */
module Utf {
  import opened Bytes

  const LETTER_U: byte := 117

  predicate IsHex(b: byte) {
    48 <= b <= 57 || 65 <= b <= 70 || 97 <= b <= 102
  }

  function HexDigit(b: byte): nat
    requires IsHex(b)
  {
    if b <= 57 then b as int - 48 else if b <= 70 then b as int - 55 else b as int - 87
  }

  predicate FourHex(c: seq<byte>, i: nat) {
    i + 4 <= |c| && forall k :: i <= k < i + 4 ==> IsHex(c[k])
  }

  function HexCode(c: seq<byte>, i: nat): (h: nat)
    requires FourHex(c, i)
    ensures h < 0x10000
  {
    ((HexDigit(c[i]) * 16 + HexDigit(c[i + 1])) * 16 + HexDigit(c[i + 2])) * 16 + HexDigit(c[i + 3])
  }

  /** parse_hex4: a malformed digit makes the whole code zero. */
  function Hex4(c: seq<byte>, i: nat): (h: nat)
    requires i + 4 <= |c|
    ensures h < 0x10000
  {
    if FourHex(c, i) then HexCode(c, i) else 0
  }

  method ParseHex4(c: seq<byte>, start: nat) returns (h: nat)
    requires start + 4 <= |c|
    ensures h == Hex4(c, start)
  {
    h := 0;
    var i := 0;
    while i < 4
      invariant 0 <= i <= 4
      invariant forall k :: start <= k < start + i ==> IsHex(c[k])
      invariant i == 1 ==> h == HexDigit(c[start]) * 16
      invariant i == 2 ==> h == (HexDigit(c[start]) * 16 + HexDigit(c[start + 1])) * 16
      invariant i == 3 ==> h == ((HexDigit(c[start]) * 16 + HexDigit(c[start + 1])) * 16 + HexDigit(c[start + 2])) * 16
      invariant i == 4 ==> h == HexCode(c, start)
      invariant i == 0 ==> h == 0
    {
      var b := c[start + i];
      if 48 <= b <= 57 {
        h := h + (b as int - 48);
      } else if 65 <= b <= 70 {
        h := h + (10 + b as int - 65);
      } else if 97 <= b <= 102 {
        h := h + (10 + b as int - 97);
      } else {
        return 0;
      }
      if i < 3 {
        h := h * 16;
      }
      i := i + 1;
    }
  }

  /** One escape: the code point it names and the bytes of text it takes, or a rejection. */
  datatype Literal = Rejected | Named(point: nat, length: nat)

  predicate HighSurrogate(u: nat) { 0xD800 <= u <= 0xDBFF }
  predicate LowSurrogate(u: nat) { 0xDC00 <= u <= 0xDFFF }
  predicate Scalar(cp: nat) { cp <= 0x10FFFF && !(0xD800 <= cp <= 0xDFFF) }

  /** utf16_literal_to_utf8's reading of the escape at i, with the string body ending at `end`. */
  function ReadLiteral(c: seq<byte>, i: nat, end: nat): (r: Literal)
    requires i < end <= |c|
    ensures r.Named? ==> Scalar(r.point) && i + r.length <= end && (r.length == 6 || r.length == 12)
  {
    if end - i < 6 then Rejected else
      var first := Hex4(c, i + 2);
      if LowSurrogate(first) then Rejected
      else if HighSurrogate(first) then
        if end - (i + 6) < 6 || c[i + 6] != BACKSLASH || c[i + 7] != LETTER_U then Rejected else
          var second := Hex4(c, i + 8);
          if LowSurrogate(second) then Named(0x10000 + (first % 0x400) * 0x400 + second % 0x400, 12)
          else Rejected
      else Named(first, 6)
  }

  function Shift6(cp: nat, k: nat): nat {
    if k == 0 then cp else Shift6(cp, k - 1) / 64
  }

  function Utf8Length(cp: nat): (n: nat)
    requires cp <= 0x10FFFF
    ensures 1 <= n <= 4
  {
    if cp < 0x80 then 1 else if cp < 0x800 then 2 else if cp < 0x10000 then 3 else 4
  }

  /** The UTF-8 form of a code point, section 3 of RFC 3629. */
  function Utf8(cp: nat): (s: seq<byte>)
    requires cp <= 0x10FFFF
    ensures |s| == Utf8Length(cp)
  {
    if cp < 0x80 then [cp]
    else if cp < 0x800 then [0xC0 + cp / 64, 0x80 + cp % 64]
    else if cp < 0x10000 then [0xE0 + cp / 64 / 64, 0x80 + cp / 64 % 64, 0x80 + cp % 64]
    else [0xF0 + cp / 64 / 64 / 64, 0x80 + cp / 64 / 64 % 64, 0x80 + cp / 64 % 64, 0x80 + cp % 64]
  }

  /** The C code sets and clears bits; on values in range that is this arithmetic. */
  lemma BitForms(cp: bv32)
    ensures ((cp | 0x80) & 0xBF) & 0xFF == 0x80 + cp % 64
    ensures cp >> 6 == cp / 64
    ensures cp < 0x20 ==> (cp | 0xC0) & 0xFF == 0xC0 + cp
    ensures cp < 0x10 ==> (cp | 0xE0) & 0xFF == 0xE0 + cp
    ensures cp < 0x8 ==> (cp | 0xF0) & 0xFF == 0xF0 + cp
    ensures cp < 0x80 ==> cp & 0x7F == cp
  {
  }

  /** The same for the two halves of a surrogate pair. */
  lemma SurrogateBits(first: bv32, second: bv32)
    ensures ((first & 0x3FF) << 10) | (second & 0x3FF) == (first % 0x400) * 0x400 + second % 0x400
    ensures 0xD800 <= first <= 0xDBFF ==> first % 0x400 == first - 0xD800
    ensures 0xDC00 <= second <= 0xDFFF ==> second % 0x400 == second - 0xDC00
  {
  }

  /** The code point of the escape at i; `length` 0 means rejected. */
  method DecodeLiteral(c: seq<byte>, i: nat, end: nat) returns (length: nat, point: nat)
    requires i < end <= |c|
    ensures var r := ReadLiteral(c, i, end);
            if r.Rejected? then length == 0 else length == r.length && point == r.point
  {
    hide Hex4;
    length, point := 0, 0;
    if end - i < 6 {
      return;
    }
    var first := ParseHex4(c, i + 2);
    if LowSurrogate(first) {
      return;
    }
    if HighSurrogate(first) {
      var second := i + 6;
      if end - second < 6 {
        return;
      }
      if c[second] != BACKSLASH || c[second + 1] != LETTER_U {
        return;
      }
      var code := ParseHex4(c, second + 2);
      if !LowSurrogate(code) {
        return;
      }
      length := 12;
      point := 0x10000 + (first % 0x400) * 0x400 + code % 0x400;
    } else {
      length := 6;
      point := first;
    }
  }

  /** Decodes the escape at i into `output` from position `start`; `length` 0 means rejected. */
  method Utf16LiteralToUtf8(c: seq<byte>, i: nat, end: nat, output: array<byte>, start: nat)
    returns (length: nat, next: nat)
    requires i < end <= |c|
    requires var r := ReadLiteral(c, i, end); r.Named? ==> start + Utf8Length(r.point) <= output.Length
    requires start <= output.Length
    modifies output
    ensures var r := ReadLiteral(c, i, end);
            if r.Rejected? then length == 0 && next == start && output[..] == old(output[..])
            else length == r.length && next == start + Utf8Length(r.point)
                 && output[..next] == old(output[..start]) + Utf8(r.point)
                 && output[next..] == old(output[next..])
  {
    hide ReadLiteral, Utf8;
    next := start;
    var point;
    length, point := DecodeLiteral(c, i, end);
    if length > 0 {
      next := EncodeUtf8(point, output, start);
    }
  }

  function LeadMark(n: nat): (m: byte)
    ensures m <= 0xF0
  {
    if n == 2 then 0xC0 else if n == 3 then 0xE0 else if n == 4 then 0xF0 else 0
  }

  lemma Utf8Bytes(cp: nat, k: nat)
    requires cp <= 0x10FFFF && k < Utf8Length(cp)
    ensures var n := Utf8Length(cp);
            Utf8(cp)[k] == (if k == 0 then LeadMark(n) + Shift6(cp, n - 1) else 0x80 + Shift6(cp, n - 1 - k) % 64)
  {
    assert Shift6(cp, 1) == Shift6(cp, 0) / 64;
    assert Shift6(cp, 2) == Shift6(cp, 1) / 64;
    assert Shift6(cp, 3) == Shift6(cp, 2) / 64;
  }

  /** The encoding loop: continuation bytes from the last to the second, then the lead byte. */
  method EncodeUtf8(point: nat, output: array<byte>, start: nat) returns (next: nat)
    requires point <= 0x10FFFF
    requires start + Utf8Length(point) <= output.Length
    modifies output
    ensures next == start + Utf8Length(point)
    ensures output[..next] == old(output[..start]) + Utf8(point)
    ensures output[next..] == old(output[next..])
  {
    hide Utf8, LeadMark, Shift6, Utf8Length;
    var n := Utf8Length(point);
    var rest := point;
    var pos := n - 1;
    ghost var was := output[..];
    ShiftStep(point, 0);
    while pos > 0
      invariant 0 <= pos <= n - 1
      invariant rest == Shift6(point, n - 1 - pos)
      invariant output[start + pos + 1..start + n] == Utf8(point)[pos + 1..]
      invariant output[..start + pos + 1] == was[..start + pos + 1]
      invariant output[start + n..] == was[start + n..]
    {
      Utf8Bytes(point, pos);
      output[start + pos] := 0x80 + rest % 64;
      ShiftStep(point, n - pos);
      rest := rest / 64;
      OneMoreByte(output[..], Utf8(point), start, pos);
      pos := pos - 1;
    }
    Utf8Bytes(point, 0);
    output[start] := LeadMark(n) + rest;
    OneMoreByte(output[..], Utf8(point), start, 0);
    next := start + n;
    assert output[..next] == output[..start] + output[start..next];
  }

  lemma ShiftStep(cp: nat, k: nat)
    ensures Shift6(cp, k) == if k == 0 then cp else Shift6(cp, k - 1) / 64
  {
  }

  lemma OneMoreByte(s: seq<byte>, u: seq<byte>, start: nat, pos: nat)
    requires pos < |u| && start + |u| <= |s|
    requires s[start + pos + 1..start + |u|] == u[pos + 1..] && s[start + pos] == u[pos]
    ensures s[start + pos..start + |u|] == u[pos..]
    ensures pos == 0 ==> u[pos..] == u
  {
    assert s[start + pos..start + |u|] == [s[start + pos]] + s[start + pos + 1..start + |u|];
    assert u[pos..] == [u[pos]] + u[pos + 1..];
  }

  // ---- an independent reader of UTF-8 ----

  predicate Tail(b: byte) { 0x80 <= b < 0xC0 }

  /** The six bits a continuation byte carries. */
  function Low6(b: byte): (v: nat)
    requires Tail(b)
    ensures v < 64
  {
    b as int - 0x80
  }

  /** Reads a byte run as one well-formed UTF-8 character: shortest form, no surrogates. */
  function DecodeUtf8(s: seq<byte>): (r: Option<nat>)
    ensures r.Some? ==> Scalar(r.value)
  {
    if |s| == 1 && s[0] < 0x80 then Some(s[0])
    else if |s| == 2 && 0xC0 <= s[0] < 0xE0 && Tail(s[1]) then
      Shortest((s[0] as int - 0xC0) * 64 + Low6(s[1]), 0x80)
    else if |s| == 3 && 0xE0 <= s[0] < 0xF0 && Tail(s[1]) && Tail(s[2]) then
      Shortest(((s[0] as int - 0xE0) * 64 + Low6(s[1])) * 64 + Low6(s[2]), 0x800)
    else if |s| == 4 && 0xF0 <= s[0] < 0xF8 && Tail(s[1]) && Tail(s[2]) && Tail(s[3]) then
      Shortest((((s[0] as int - 0xF0) * 64 + Low6(s[1])) * 64 + Low6(s[2])) * 64 + Low6(s[3]), 0x10000)
    else None
  }

  function Shortest(cp: nat, least: nat): Option<nat> {
    if least <= cp && Scalar(cp) then Some(cp) else None
  }

  /** The encoder's bytes read back as exactly the code point. */
  lemma Utf8ReadsBack(cp: nat)
    requires Scalar(cp)
    ensures DecodeUtf8(Utf8(cp)) == Some(cp)
  {
    SplitBy64(cp);
    SplitBy64(cp / 64);
    SplitBy64(cp / 64 / 64);
  }

  lemma SplitBy64(v: nat)
    ensures v == v / 64 * 64 + v % 64
  {
  }

  lemma JoinBy64(q: nat, r: nat)
    requires r < 64
    ensures (q * 64 + r) / 64 == q && (q * 64 + r) % 64 == r
  {
  }

  /** ... and are the only bytes that do. */
  lemma Utf8IsUnique(s: seq<byte>, cp: nat)
    requires DecodeUtf8(s) == Some(cp)
    ensures s == Utf8(cp)
  {
    if |s| == 2 {
      JoinBy64(s[0] as int - 0xC0, Low6(s[1]));
    } else if |s| == 3 {
      var q := (s[0] as int - 0xE0) * 64 + Low6(s[1]);
      JoinBy64(s[0] as int - 0xE0, Low6(s[1]));
      JoinBy64(q, Low6(s[2]));
    } else if |s| == 4 {
      var q := (s[0] as int - 0xF0) * 64 + Low6(s[1]);
      var q' := q * 64 + Low6(s[2]);
      JoinBy64(s[0] as int - 0xF0, Low6(s[1]));
      JoinBy64(q, Low6(s[2]));
      JoinBy64(q', Low6(s[3]));
    }
  }

  // ---- what the escape means, section 7 of RFC 8259 ----

  /** The digits in order: 0 to 9, then A to F or a to f. */
  const UPPER_CASE: seq<byte> := [48, 49, 50, 51, 52, 53, 54, 55, 56, 57, 65, 66, 67, 68, 69, 70]
  const LOWER_CASE: seq<byte> := [48, 49, 50, 51, 52, 53, 54, 55, 56, 57, 97, 98, 99, 100, 101, 102]

  function HexChar(d: nat, upper: bool): byte
    requires d < 16
  {
    if upper then UPPER_CASE[d] else LOWER_CASE[d]
  }

  /** A 16-bit number written as four hexadecimal digits, each in upper or lower case. */
  function HexText(n: nat, upper: seq<bool>): (s: seq<byte>)
    requires n < 0x10000 && |upper| == 4
    ensures |s| == 4
  {
    [HexChar(n / 4096, upper[0]), HexChar(n / 256 % 16, upper[1]),
     HexChar(n / 16 % 16, upper[2]), HexChar(n % 16, upper[3])]
  }

  lemma HexDigitOfChar(d: nat, upper: bool)
    requires d < 16
    ensures IsHex(HexChar(d, upper)) && HexDigit(HexChar(d, upper)) == d
  {
  }

  lemma CharOfHexDigit(b: byte) returns (upper: bool)
    requires IsHex(b)
    ensures HexDigit(b) < 16 && HexChar(HexDigit(b), upper) == b
  {
    upper := b <= 70;
  }

  /** Whatever the cases, what is written is read back. */
  lemma HexReadsBack(c: seq<byte>, i: nat, n: nat, upper: seq<bool>)
    requires n < 0x10000 && |upper| == 4 && At(c, i, HexText(n, upper))
    ensures FourHex(c, i) && HexCode(c, i) == n
  {
    hide HexChar, HexDigit, IsHex, At;
    var s := HexText(n, upper);
    AtByte(c, i, s, 0);
    AtByte(c, i, s, 1);
    AtByte(c, i, s, 2);
    AtByte(c, i, s, 3);
    HexDigitOfChar(n / 4096, upper[0]);
    HexDigitOfChar(n / 256 % 16, upper[1]);
    HexDigitOfChar(n / 16 % 16, upper[2]);
    HexDigitOfChar(n % 16, upper[3]);
    Nibbles(n);
  }

  lemma Nibbles(n: nat)
    requires n < 0x10000
    ensures ((n / 4096 * 16 + n / 256 % 16) * 16 + n / 16 % 16) * 16 + n % 16 == n
  {
    assert n / 256 == n / 4096 * 16 + n / 256 % 16;
    assert n / 16 == n / 256 * 16 + n / 16 % 16;
  }

  /** Four hexadecimal digits are some number written like that. */
  lemma HexIsWritten(c: seq<byte>, i: nat) returns (upper: seq<bool>)
    requires FourHex(c, i)
    ensures |upper| == 4 && At(c, i, HexText(HexCode(c, i), upper))
  {
    hide HexChar, HexDigit, IsHex;
    var u0 := CharOfHexDigit(c[i]);
    var u1 := CharOfHexDigit(c[i + 1]);
    var u2 := CharOfHexDigit(c[i + 2]);
    var u3 := CharOfHexDigit(c[i + 3]);
    upper := [u0, u1, u2, u3];
    FourPlaces(HexDigit(c[i]), HexDigit(c[i + 1]), HexDigit(c[i + 2]), HexDigit(c[i + 3]));
    assert c[i..i + 4] == [c[i], c[i + 1], c[i + 2], c[i + 3]];
  }

  lemma FourPlaces(x: nat, y: nat, z: nat, w: nat)
    requires x < 16 && y < 16 && z < 16 && w < 16
    ensures var n := ((x * 16 + y) * 16 + z) * 16 + w;
            n / 4096 == x && n / 256 % 16 == y && n / 16 % 16 == z && n % 16 == w
  {
  }

  /** The number stands at i, in four hexadecimal digits. */
  ghost predicate Writes(c: seq<byte>, i: nat, n: nat) {
    n < 0x10000 && exists upper: seq<bool> :: |upper| == 4 && At(c, i, HexText(n, upper))
  }

  ghost function Written(c: seq<byte>, i: nat): Option<nat> {
    if exists n :: Writes(c, i, n) then var n :| Writes(c, i, n); Some(n) else None
  }

  lemma WrittenIsHexCode(c: seq<byte>, i: nat)
    ensures Written(c, i) == if FourHex(c, i) then Some(HexCode(c, i)) else None
  {
    hide HexCode, HexText;
    if FourHex(c, i) {
      var upper := HexIsWritten(c, i);
      assert Writes(c, i, HexCode(c, i));
    }
    if Written(c, i).Some? {
      var n := Written(c, i).value;
      var upper: seq<bool> :| |upper| == 4 && At(c, i, HexText(n, upper));
      HexReadsBack(c, i, n, upper);
    }
  }

  /** The standard's reading: four hexadecimal digits are mandatory, a high surrogate needs a
      low one right behind it, and the pair names 0x10000 plus the two ten-bit offsets. */
  ghost function StandardLiteral(c: seq<byte>, i: nat, end: nat): Literal
    requires i < end <= |c|
  {
    match Written(c, i + 2)
    case None => Rejected
    case Some(u) =>
      if i + 6 > end then Rejected
      else if !HighSurrogate(u) && !LowSurrogate(u) then Named(u, 6)
      else if HighSurrogate(u) && i + 12 <= end && c[i + 6..i + 8] == [BACKSLASH, LETTER_U] then
        match Written(c, i + 8)
        case None => Rejected
        case Some(v) =>
          if LowSurrogate(v) then Named(0x10000 + 0x400 * (u - 0xD800) + (v - 0xDC00), 12) else Rejected
      else Rejected
  }

  /** The code reads an escape as the standard does exactly when the escape is too short or
      four hexadecimal digits follow its \u; any other escape it takes for U+0000. */
  lemma LiteralMeetsStandard(c: seq<byte>, i: nat, end: nat)
    requires i < end <= |c|
    ensures ReadLiteral(c, i, end) == StandardLiteral(c, i, end) <==> end - i < 6 || FourHex(c, i + 2)
    ensures end - i >= 6 && !FourHex(c, i + 2) ==> ReadLiteral(c, i, end) == Named(0, 6)
  {
    hide HexCode, FourHex, Written;
    WrittenIsHexCode(c, i + 2);
    WrittenIsHexCode(c, i + 8);
    if i + 12 <= end {
      assert c[i + 6..i + 8] == [c[i + 6], c[i + 7]];
    }
  }

  /** The bytes written for an accepted escape are the one well-formed UTF-8 character
      that decodes to the code point the standard names. */
  lemma LiteralBytesMean(c: seq<byte>, i: nat, end: nat)
    requires i < end <= |c| && FourHex(c, i + 2)
    ensures var r := ReadLiteral(c, i, end);
            match StandardLiteral(c, i, end)
            case Rejected => r.Rejected?
            case Named(point, length) => r.Named? && r.length == length && DecodeUtf8(Utf8(r.point)) == Some(point)
  {
    LiteralMeetsStandard(c, i, end);
    var r := ReadLiteral(c, i, end);
    if r.Named? {
      Utf8ReadsBack(r.point);
    }
  }
}
