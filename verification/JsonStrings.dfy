/** JSON string literals: escaping as print_string_ptr does it, and the two passes of parse_string. */
module JsonStrings {
  import opened Bytes
  import opened Utf

  // ---- escaping ----

  function HexLower(n: nat): byte
    requires n < 16
  {
    if n < 10 then 48 + n else 87 + n
  }

  function ShortEscape(b: byte): Option<byte> {
    if b == QUOTE || b == BACKSLASH then Some(b)
    else if b == 8 then Some(98)
    else if b == 12 then Some(102)
    else if b == NEWLINE then Some(110)
    else if b == RETURN then Some(114)
    else if b == TAB then Some(116)
    else None
  }

  function EscapeByte(b: byte): (e: seq<byte>)
    ensures 1 <= |e| <= 6
  {
    match ShortEscape(b)
    case Some(letter) => [BACKSLASH, letter]
    case None =>
      if b < 32 then [BACKSLASH, LETTER_U, ZERO, ZERO, HexLower(b as int / 16), HexLower(b as int % 16)] else [b]
  }

  function Escaped(s: seq<byte>): seq<byte> {
    if s == [] then [] else EscapeByte(s[0]) + Escaped(s[1..])
  }

  /** The literal as it is printed. */
  function Quoted(s: seq<byte>): seq<byte> {
    [QUOTE] + Escaped(s) + [QUOTE]
  }

  /** print_string_ptr's first pass: the characters escaping will add. */
  method CountEscapes(s: seq<byte>) returns (extra: nat)
    ensures |s| + extra == |Escaped(s)|
  {
    extra := 0;
    var i := 0;
    assert s[0..] == s;
    while i < |s|
      invariant 0 <= i <= |s|
      invariant i + extra + |Escaped(s[i..])| == |Escaped(s)|
    {
      assert s[i..][1..] == s[i + 1..];
      match ShortEscape(s[i]) {
        case Some(_) => extra := extra + 1;
        case None =>
          if s[i] < 32 {
            extra := extra + 5;
          }
      }
      i := i + 1;
    }
  }

  lemma {:induction false} EscapedLength(s: seq<byte>)
    ensures |Escaped(s)| >= |s|
  {
    if s != [] {
      EscapedLength(s[1..]);
    }
  }

  lemma {:induction false} NothingEscaped(s: seq<byte>)
    requires |Escaped(s)| == |s|
    ensures Escaped(s) == s
  {
    if s != [] {
      EscapedLength(s[1..]);
      NothingEscaped(s[1..]);
      assert s == [s[0]] + s[1..];
    }
  }

  // ---- parse_string, first pass: find the closing quote, count the escapes ----

  /** Where the literal whose body starts at i closes. */
  function ScanEnd(c: seq<byte>, i: nat): (r: Option<nat>)
    requires i <= |c|
    ensures r.Some? ==> i <= r.value < |c| && c[r.value] == QUOTE
    decreases |c| - i
  {
    if i == |c| then None
    else if c[i] == QUOTE then Some(i)
    else if c[i] == BACKSLASH then
      if i + 1 >= |c| then None else ScanEnd(c, i + 2)
    else ScanEnd(c, i + 1)
  }

  /** The characters the pre-scan counts, an escape pair counting once. */
  function Units(c: seq<byte>, i: nat): nat
    requires i <= |c| && ScanEnd(c, i).Some?
    decreases |c| - i
  {
    if c[i] == QUOTE then 0
    else if c[i] == BACKSLASH then 1 + Units(c, i + 2)
    else 1 + Units(c, i + 1)
  }

  method PreScan(c: seq<byte>, start: nat) returns (end: Option<nat>, skipped: nat)
    requires start <= |c|
    ensures end == ScanEnd(c, start)
    ensures end.Some? ==> end.value - start - skipped == Units(c, start)
  {
    var i := start;
    skipped := 0;
    while i < |c| && c[i] != QUOTE
      invariant start <= i <= |c|
      invariant ScanEnd(c, i) == ScanEnd(c, start)
      invariant ScanEnd(c, i).Some? ==> i - start - skipped + Units(c, i) == Units(c, start)
    {
      if c[i] == BACKSLASH {
        if i + 1 >= |c| {
          return None, skipped;
        }
        skipped := skipped + 1;
        i := i + 1;
      }
      i := i + 1;
    }
    end := if i < |c| then Some(i) else None;
  }

  // ---- parse_string, second pass: decode ----

  /** The bytes written, and where decoding stopped if the body is malformed. */
  datatype Decoded = Decoded(bytes: seq<byte>, bad: Option<nat>)

  function Emit(bytes: seq<byte>, rest: Decoded): Decoded {
    Decoded(bytes + rest.bytes, rest.bad)
  }

  /** The byte a two-character escape stands for. */
  function Unescape(letter: byte): Option<byte> {
    if letter == 98 then Some(8)
    else if letter == 102 then Some(12)
    else if letter == 110 then Some(NEWLINE)
    else if letter == 114 then Some(RETURN)
    else if letter == 116 then Some(TAB)
    else if letter == QUOTE || letter == BACKSLASH || letter == SLASH then Some(letter)
    else None
  }

  function Decode(c: seq<byte>, i: nat, end: nat): (r: Decoded)
    requires end < |c|
    ensures r.bad.Some? ==> i <= r.bad.value < end
    decreases end - i
  {
    if i >= end then Decoded([], None)
    else if c[i] != BACKSLASH then Emit([c[i]], Decode(c, i + 1, end))
    else if c[i + 1] == LETTER_U then
      match ReadLiteral(c, i, end)
      case Rejected => Decoded([], Some(i))
      case Named(point, length) => Emit(Utf8(point), Decode(c, i + length, end))
    else
      match Unescape(c[i + 1])
      case None => Decoded([], Some(i))
      case Some(b) => Emit([b], Decode(c, i + 2, end))
  }

  // ---- one allocation suffices ----

  /** The pre-scan stands on a character boundary at i (inSync), or i is the second
      half of one of its escape pairs. */
  predicate Scanning(c: seq<byte>, i: nat, end: nat, inSync: bool) {
    var at := if inSync then i else i + 1;
    at <= |c| && ScanEnd(c, at) == Some(end)
  }

  /** How much output the pre-scan still has room for. */
  function Room(c: seq<byte>, i: nat, end: nat, inSync: bool): nat
    requires Scanning(c, i, end, inSync)
  {
    if inSync then Units(c, i) else 1 + Units(c, i + 1)
  }

  /** One character of text uses up one unit of room, save a backslash that opens a pair. */
  lemma Step(c: seq<byte>, i: nat, end: nat, inSync: bool) returns (next: bool)
    requires i < end && Scanning(c, i, end, inSync)
    ensures Scanning(c, i + 1, end, next)
    ensures inSync && c[i] == BACKSLASH ==> !next && Room(c, i + 1, end, next) == Room(c, i, end, inSync)
    ensures !(inSync && c[i] == BACKSLASH) ==> next && Room(c, i + 1, end, next) == Room(c, i, end, inSync) - 1
  {
    next := !(inSync && c[i] == BACKSLASH);
  }

  /** Two characters that open an escape use up at least one unit. */
  lemma Pair(c: seq<byte>, i: nat, end: nat, inSync: bool) returns (next: bool)
    requires i + 2 <= end && Scanning(c, i, end, inSync)
    ensures Scanning(c, i + 2, end, next)
    ensures Room(c, i + 2, end, next) < Room(c, i, end, inSync)
    ensures c[i + 1] != BACKSLASH ==> next
  {
    next := Step(c, i, end, inSync);
    next := Step(c, i + 1, end, next);
  }

  /** A \uXXXX uses up at least one unit, and at least five when its digits are well formed. */
  lemma Six(c: seq<byte>, i: nat, end: nat, inSync: bool) returns (next: bool)
    requires i + 6 <= end && Scanning(c, i, end, inSync)
    requires c[i] == BACKSLASH && c[i + 1] == LETTER_U
    ensures Scanning(c, i + 6, end, next)
    ensures Room(c, i + 6, end, next) < Room(c, i, end, inSync)
    ensures FourHex(c, i + 2) ==> next && Room(c, i + 6, end, next) + 5 <= Room(c, i, end, inSync)
  {
    next := Pair(c, i, end, inSync);
    next := Step(c, i + 2, end, next);
    next := Step(c, i + 3, end, next);
    next := Step(c, i + 4, end, next);
    next := Step(c, i + 5, end, next);
  }

  /** Whatever the text, the decoder writes no more than the pre-scan counted, even when a
      malformed \u leaves the two passes on different escape boundaries. */
  lemma {:induction false} OutputFits(c: seq<byte>, i: nat, end: nat, inSync: bool)
    requires end < |c| && i <= end && Scanning(c, i, end, inSync)
    ensures |Decode(c, i, end).bytes| <= Room(c, i, end, inSync)
    decreases end - i
  {
    if i == end {
    } else if c[i] != BACKSLASH {
      var next := Step(c, i, end, inSync);
      OutputFits(c, i + 1, end, next);
    } else if c[i + 1] == LETTER_U {
      var r := ReadLiteral(c, i, end);
      if r.Named? {
        var next := Six(c, i, end, inSync);
        if r.length == 12 {
          next := Six(c, i + 6, end, next);
        }
        OutputFits(c, i + r.length, end, next);
      }
    } else if i + 1 == end {
      var next := Step(c, i, end, inSync);
      assert Decode(c, i + 2, end).bytes == [];
    } else {
      var next := Pair(c, i, end, inSync);
      OutputFits(c, i + 2, end, next);
    }
  }

  /** The decoding loop. `output` has the length parse_string allocates. */
  method DecodeInto(c: seq<byte>, start: nat, end: nat, output: array<byte>)
    returns (ok: bool, n: nat, stop: nat)
    requires start <= end < |c| && ScanEnd(c, start) == Some(end)
    requires output.Length == Units(c, start) + 2
    modifies output
    ensures ok <==> Decode(c, start, end).bad == None
    ensures ok ==> n < output.Length && output[..n] == Decode(c, start, end).bytes && output[n] == NUL
    ensures !ok ==> Decode(c, start, end).bad == Some(stop)
  {
    OutputFits(c, start, end, true);
    hide Decode, Units, ScanEnd, Utf8, ReadLiteral, Reached, Emit;
    ghost var whole := Decode(c, start, end);
    NothingReached(whole);
    var i := start;
    n := 0;
    stop := start;
    while i < end
      invariant start <= i <= end + 1
      invariant n <= |whole.bytes| <= output.Length - 2
      invariant Reached(whole, output[..n], Decode(c, i, end))
      decreases end - i
    {
      ghost var before := output[..n];
      DecodeAt(c, i, end);
      if c[i] != BACKSLASH {
        output[n] := c[i];
        Extend(whole, before, [c[i]], Decode(c, i + 1, end));
        assert output[..n + 1] == before + [c[i]];
        i, n := i + 1, n + 1;
      } else if c[i + 1] == LETTER_U {
        var length;
        length, n := DecodeUnicode(c, i, end, output, n, whole);
        if length == 0 {
          return false, n, i;
        }
        i := i + length;
      } else {
        match Unescape(c[i + 1])
        case None =>
          Ended(whole, before, Some(i));
          return false, n, i;
        case Some(b) =>
          output[n] := b;
          Extend(whole, before, [b], Decode(c, i + 2, end));
          assert output[..n + 1] == before + [b];
          i, n := i + 2, n + 1;
      }
    }
    DecodeEnds(c, i, end);
    Ended(whole, output[..n], None);
    output[n] := NUL;
    ok := true;
  }

  /** A \u escape in the loop. */
  method DecodeUnicode(c: seq<byte>, i: nat, end: nat, output: array<byte>, n: nat, ghost whole: Decoded)
    returns (length: nat, next: nat)
    requires i < end < |c| && c[i] == BACKSLASH && c[i + 1] == LETTER_U
    requires n <= |whole.bytes| <= output.Length - 2
    requires Reached(whole, output[..n], Decode(c, i, end))
    modifies output
    ensures length == 0 ==> whole.bad == Some(i)
    ensures length != 0 ==> i + length <= end && n <= next <= |whole.bytes|
                            && Reached(whole, output[..next], Decode(c, i + length, end))
  {
    hide Decode, Utf8, ReadLiteral, Reached, Emit;
    ghost var before := output[..n];
    DecodeAt(c, i, end);
    ghost var r := ReadLiteral(c, i, end);
    if r.Named? {
      Extend(whole, before, Utf8(r.point), Decode(c, i + r.length, end));
    } else {
      Ended(whole, before, Some(i));
    }
    length, next := Utf16LiteralToUtf8(c, i, end, output, n);
  }

  lemma NothingReached(whole: Decoded)
    ensures Reached(whole, [], whole)
  {
    assert [] + whole.bytes == whole.bytes;
  }

  /** Nothing more to come: what has been written is all there is. */
  lemma Ended(whole: Decoded, written: seq<byte>, bad: Option<nat>)
    requires Reached(whole, written, Decoded([], bad))
    ensures whole == Decoded(written, bad)
  {
    assert written + [] == written;
  }

  /** One step of decoding. */
  lemma DecodeAt(c: seq<byte>, i: nat, end: nat)
    requires i < end < |c|
    ensures c[i] != BACKSLASH ==> Decode(c, i, end) == Emit([c[i]], Decode(c, i + 1, end))
    ensures c[i] == BACKSLASH && c[i + 1] == LETTER_U ==>
              var r := ReadLiteral(c, i, end);
              Decode(c, i, end) == if r.Rejected? then Decoded([], Some(i))
                                   else Emit(Utf8(r.point), Decode(c, i + r.length, end))
    ensures c[i] == BACKSLASH && c[i + 1] != LETTER_U ==>
              var b := Unescape(c[i + 1]);
              Decode(c, i, end) == if b.None? then Decoded([], Some(i)) else Emit([b.value], Decode(c, i + 2, end))
  {
  }

  lemma DecodeEnds(c: seq<byte>, i: nat, end: nat)
    requires end <= i && end < |c|
    ensures Decode(c, i, end) == Decoded([], None)
  {
  }

  ghost predicate Reached(whole: Decoded, written: seq<byte>, rest: Decoded) {
    whole == Emit(written, rest)
  }

  lemma Extend(whole: Decoded, written: seq<byte>, more: seq<byte>, rest: Decoded)
    requires Reached(whole, written, Emit(more, rest))
    ensures Reached(whole, written + more, rest)
    ensures |written| + |more| <= |whole.bytes|
  {
    assert written + (more + rest.bytes) == written + more + rest.bytes;
  }
}
