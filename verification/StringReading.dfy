/** Every string literal that is well spelled is read as what it means, and no other is read. */
module StringReading {
  import opened Bytes
  import opened Utf
  import opened JsonStrings
  import opened Syntax
  import opened Grammar

  // ---- the closing quote ----

  lemma {:induction false} ClosedEnds(c: seq<byte>, i: nat, body: seq<byte>)
    requires At(c, i, body + [QUOTE]) && Closed(body)
    ensures ScanEnd(c, i) == Some(i + |body|)
    decreases |body|
  {
    hide At;
    AtByte(c, i, body + [QUOTE], 0);
    if body != [] {
      var n := if body[0] == BACKSLASH then 2 else 1;
      assert body + [QUOTE] == body[..n] + (body[n..] + [QUOTE]);
      AtSplit(c, i, body[..n], body[n..] + [QUOTE]);
      ClosedEnds(c, i + n, body[n..]);
    }
  }

  lemma {:induction false} EndsClosed(c: seq<byte>, i: nat)
    requires i <= |c| && ScanEnd(c, i).Some?
    ensures Closed(c[i..ScanEnd(c, i).value])
    decreases |c| - i
  {
    var end := ScanEnd(c, i).value;
    if c[i] != QUOTE {
      var n := if c[i] == BACKSLASH then 2 else 1;
      EndsClosed(c, i + n);
      assert c[i..end][n..] == c[i + n..end];
    }
  }

  // ---- one unit ----

  lemma CodeIsRead(c: seq<byte>, i: nat, end: nat, n: nat, upper: seq<bool>)
    requires n < 0x10000 && |upper| == 4 && i + 6 <= end <= |c|
    requires At(c, i, [BACKSLASH, LETTER_U] + HexText(n, upper))
    ensures c[i] == BACKSLASH && c[i + 1] == LETTER_U && Hex4(c, i + 2) == n
  {
    hide At, HexText;
    AtSplit(c, i, [BACKSLASH, LETTER_U], HexText(n, upper));
    AtByte(c, i, [BACKSLASH, LETTER_U], 0);
    AtByte(c, i, [BACKSLASH, LETTER_U], 1);
    HexReadsBack(c, i + 2, n, upper);
  }

  lemma FourWritten(c: seq<byte>, i: nat, four: seq<byte>)
    requires |four| == 4 && At(c, i, four)
    ensures FourHex(c, i) <==> Written(four, 0).Some?
  {
    hide Written, HexCode;
    WrittenIsHexCode(four, 0);
    AtByte(c, i, four, 0);
    AtByte(c, i, four, 1);
    AtByte(c, i, four, 2);
    AtByte(c, i, four, 3);
  }

  lemma CodeDecodes(c: seq<byte>, i: nat, end: nat)
    requires i + 6 <= end < |c| && c[i] == BACKSLASH && c[i + 1] == LETTER_U
    requires Scalar(Hex4(c, i + 2))
    ensures Decode(c, i, end) == Emit(Utf8(Hex4(c, i + 2)), Decode(c, i + 6, end))
  {
    hide Hex4, Utf8, Decode;
    DecodeAt(c, i, end);
  }

  lemma PairDecodes(c: seq<byte>, i: nat, end: nat)
    requires i + 12 <= end < |c| && c[i] == BACKSLASH && c[i + 1] == LETTER_U
    requires c[i + 6] == BACKSLASH && c[i + 7] == LETTER_U
    requires HighSurrogate(Hex4(c, i + 2)) && LowSurrogate(Hex4(c, i + 8))
    ensures var point := 0x10000 + 0x400 * (Hex4(c, i + 2) - 0xD800) + (Hex4(c, i + 8) - 0xDC00);
            Decode(c, i, end) == Emit(Utf8(point), Decode(c, i + 12, end))
  {
    hide Hex4, Utf8, Decode;
    DecodeAt(c, i, end);
  }

  /** A unit in front of the closing quote is decoded as what it means. */
  lemma UnitIsRead(c: seq<byte>, i: nat, end: nat, u: Unit)
    requires ProperUnit(u) && At(c, i, UnitText(u)) && i + |UnitText(u)| <= end < |c|
    requires u.Leftover? ==> i + 1 == end && c[end] == QUOTE
    ensures Decode(c, i, end)
         == Emit(UnitBytes(u), if u.Leftover? then Decoded([], None) else Decode(c, i + |UnitText(u)|, end))
  {
    hide At, Hex4, Utf8, HexText, Decode, Written, ReadLiteral;
    AtByte(c, i, UnitText(u), 0);
    if !u.Code? && !u.Pair? && !u.Sloppy? {
      DecodeAt(c, i, end);
    }
    match u
    case Raw(b) =>
    case Short(letter) => AtByte(c, i, UnitText(u), 1);
    case Code(n, upper) =>
      CodeIsRead(c, i, end, n, upper);
      CodeDecodes(c, i, end);
    case Pair(high, low, upper, lowUpper) =>
      var first, second := [BACKSLASH, LETTER_U] + HexText(high, upper), [BACKSLASH, LETTER_U] + HexText(low, lowUpper);
      AtSplit(c, i, first, second);
      CodeIsRead(c, i, end, high, upper);
      CodeIsRead(c, i + 6, end, low, lowUpper);
      PairDecodes(c, i, end);
    case Sloppy(four) =>
      AtSplit(c, i, [BACKSLASH, LETTER_U], four);
      AtByte(c, i, UnitText(u), 1);
      FourWritten(c, i + 2, four);
      NoCode(c, i + 2);
      CodeDecodes(c, i, end);
    case Leftover => DecodeEnds(c, i + 2, end);
  }

  lemma NoCode(c: seq<byte>, i: nat)
    requires i + 4 <= |c| && !FourHex(c, i)
    ensures Hex4(c, i) == 0 && Utf8(0) == [NUL]
  {
  }

  /** ... and what is decoded there is a unit. */
  lemma UnitIsThere(c: seq<byte>, i: nat, end: nat) returns (u: Unit)
    requires i < end < |c| && c[end] == QUOTE && Decode(c, i, end).bad == None
    ensures ProperUnit(u) && At(c, i, UnitText(u)) && i + |UnitText(u)| <= end
    ensures u.Leftover? ==> i + 1 == end
  {
    hide At, Hex4, Utf8, HexText, Written;
    if c[i] != BACKSLASH {
      u := Raw(c[i]);
      OneByteAt(c, i);
    } else if c[i + 1] == LETTER_U {
      u := CodeIsThere(c, i, end);
    } else if i + 1 == end {
      u := Leftover;
      OneByteAt(c, i);
    } else {
      u := Short(c[i + 1]);
      OneByteAt(c, i);
      OneByteAt(c, i + 1);
      AtSplit(c, i, [c[i]], [c[i + 1]]);
      assert [c[i]] + [c[i + 1]] == [BACKSLASH, c[i + 1]];
    }
  }

  lemma OneByteAt(c: seq<byte>, i: nat)
    requires i < |c|
    ensures At(c, i, [c[i]])
  {
  }

  lemma CodeIsThere(c: seq<byte>, i: nat, end: nat) returns (u: Unit)
    requires i < end < |c| && c[i] == BACKSLASH && c[i + 1] == LETTER_U && ReadLiteral(c, i, end).Named?
    ensures ProperUnit(u) && !u.Leftover? && At(c, i, UnitText(u)) && i + |UnitText(u)| <= end
  {
    hide At, Written, HexText;
    EscapeAt(c, i);
    if !FourHex(c, i + 2) {
      var four := c[i + 2..i + 6];
      u := Sloppy(four);
      FourAt(c, i + 2);
      FourWritten(c, i + 2, four);
      AtSplit(c, i, [BACKSLASH, LETTER_U], four);
    } else {
      var upper := HexIsWritten(c, i + 2);
      var n := HexCode(c, i + 2);
      AtSplit(c, i, [BACKSLASH, LETTER_U], HexText(n, upper));
      if HighSurrogate(n) {
        assert FourHex(c, i + 8) && LowSurrogate(HexCode(c, i + 8)) by { hide HexCode; }
        var lowUpper := HexIsWritten(c, i + 8);
        var low := HexCode(c, i + 8);
        EscapeAt(c, i + 6);
        AtSplit(c, i + 6, [BACKSLASH, LETTER_U], HexText(low, lowUpper));
        AtSplit(c, i, [BACKSLASH, LETTER_U] + HexText(n, upper), [BACKSLASH, LETTER_U] + HexText(low, lowUpper));
        u := Pair(n, low, upper, lowUpper);
      } else {
        u := Code(n, upper);
      }
    }
  }

  lemma EscapeAt(c: seq<byte>, i: nat)
    requires i + 1 < |c| && c[i] == BACKSLASH && c[i + 1] == LETTER_U
    ensures At(c, i, [BACKSLASH, LETTER_U])
  {
  }

  lemma FourAt(c: seq<byte>, i: nat)
    requires i + 4 <= |c|
    ensures At(c, i, c[i..i + 4])
  {
  }

  // ---- the body ----

  lemma {:induction false} UnitsAreRead(c: seq<byte>, i: nat, us: seq<Unit>)
    requires ProperUnits(us) && At(c, i, UnitsText(us) + [QUOTE])
    ensures Decode(c, i, i + |UnitsText(us)|) == Decoded(UnitsBytes(us), None)
    decreases |us|
  {
    hide At, Decode, UnitText, UnitBytes, ProperUnit;
    var end := i + |UnitsText(us)|;
    AtByte(c, i, UnitsText(us) + [QUOTE], |UnitsText(us)|);
    if us == [] {
      DecodeEnds(c, i, end);
    } else {
      var u, rest := us[0], us[1..];
      assert ProperUnit(us[0]);
      assert ProperUnits(rest) by { RestIsProper(us); }
      Assoc(UnitText(u), UnitsText(rest), [QUOTE]);
      AtSplit(c, i, UnitText(u), UnitsText(rest) + [QUOTE]);
      if u.Leftover? {
        LeftoverLength();
        assert rest == [] && UnitsText(rest) == [];
      }
      UnitIsRead(c, i, end, u);
      if !u.Leftover? {
        UnitsAreRead(c, i + |UnitText(u)|, rest);
      }
    }
  }

  lemma RestIsProper(us: seq<Unit>)
    requires ProperUnits(us) && us != []
    ensures ProperUnits(us[1..]) && (us[0].Leftover? ==> us[1..] == [])
  {
    hide ProperUnit;
    forall k | 0 <= k < |us[1..]|
      ensures ProperUnit(us[1..][k]) && (us[1..][k].Leftover? ==> k == |us[1..]| - 1)
    {
      assert us[1..][k] == us[k + 1];
    }
  }

  lemma ConsIsProper(u: Unit, us: seq<Unit>)
    requires ProperUnit(u) && ProperUnits(us) && (u.Leftover? ==> us == [])
    ensures ProperUnits([u] + us) && UnitsText([u] + us) == UnitText(u) + UnitsText(us)
    ensures UnitsBytes([u] + us) == UnitBytes(u) + UnitsBytes(us)
  {
    hide ProperUnit, UnitText, UnitBytes;
    var all := [u] + us;
    assert all[1..] == us;
    forall k | 0 <= k < |all| ensures ProperUnit(all[k]) && (all[k].Leftover? ==> k == |all| - 1) {
      assert all[k] == if k == 0 then u else us[k - 1];
    }
  }

  lemma {:induction false} UnitsAreThere(c: seq<byte>, i: nat, end: nat) returns (us: seq<Unit>)
    requires i <= end < |c| && c[end] == QUOTE && Decode(c, i, end).bad == None
    ensures ProperUnits(us) && At(c, i, UnitsText(us)) && i + |UnitsText(us)| == end
    decreases end - i
  {
    hide At, Decode, UnitText, UnitBytes, ProperUnit;
    us := [];
    if i == end {
      NothingThere(c, i);
    } else {
      var u := UnitIsThere(c, i, end);
      var n := |UnitText(u)|;
      var rest := [];
      if u.Leftover? {
        LeftoverLength();
        NothingThere(c, end);
      } else {
        AtByte(c, i, UnitText(u), 0);
        UnitIsRead(c, i, end, u);
        rest := UnitsAreThere(c, i + n, end);
      }
      us := [u] + rest;
      ConsIsProper(u, rest);
      AtSplit(c, i, UnitText(u), UnitsText(rest));
    }
  }

  lemma LeftoverLength()
    ensures ProperUnit(Leftover) && |UnitText(Leftover)| == 1
  {
  }

  lemma NothingThere(c: seq<byte>, i: nat)
    requires i <= |c|
    ensures At(c, i, [])
  {
  }

  // ---- the literal ----

  lemma StringIsRead(c: seq<byte>, o: nat, us: seq<Unit>)
    requires ProperString(us) && At(c, o, StringText(us))
    ensures o < |c| && c[o] == QUOTE
    ensures ParseString(c, o) == Ok(StringMeaning(us), o + |StringText(us)|)
  {
    hide At, ProperUnits, UnitsText, UnitsBytes, ScanEnd, Decode, Closed;
    var body := UnitsText(us);
    AtSplit(c, o, [QUOTE], body + [QUOTE]);
    AtByte(c, o, [QUOTE], 0);
    ClosedEnds(c, o + 1, body);
    UnitsAreRead(c, o + 1, us);
  }

  lemma StringIsThere(c: seq<byte>, o: nat) returns (us: seq<Unit>)
    requires o < |c| && ParseString(c, o).Ok?
    ensures ProperString(us) && At(c, o, StringText(us))
    ensures ParseString(c, o) == Ok(StringMeaning(us), o + |StringText(us)|)
  {
    hide At, ProperUnits, UnitsText, UnitsBytes, ScanEnd, Decode, Closed;
    var end := ScanEnd(c, o + 1).value;
    us := UnitsAreThere(c, o + 1, end);
    EndsClosed(c, o + 1);
    BodyIs(c, o + 1, end, UnitsText(us));
    OneByteAt(c, o);
    OneByteAt(c, end);
    AtSplit(c, o + 1, UnitsText(us), [QUOTE]);
    AtSplit(c, o, [QUOTE], UnitsText(us) + [QUOTE]);
    StringIsRead(c, o, us);
  }

  lemma BodyIs(c: seq<byte>, i: nat, end: nat, body: seq<byte>)
    requires At(c, i, body) && i + |body| == end
    ensures c[i..end] == body
  {
  }

  // ---- what the standard allows ----

  /** No byte that the reader of the closing quote could take for something else. */
  predicate Strict(u: Unit) {
    !u.Sloppy? && !u.Leftover? && (u.Raw? ==> u.b != QUOTE)
  }

  lemma NothingClosed()
    ensures Closed([])
  {
  }

  lemma ClosedBehind(u: Unit, rest: seq<byte>)
    requires ProperUnit(u) && Strict(u)
    ensures Closed(UnitText(u) + rest) <==> Closed(rest)
  {
    hide Written;
    match u
    case Raw(b) => assert (UnitText(u) + rest)[1..] == rest;
    case Short(letter) => assert (UnitText(u) + rest)[2..] == rest;
    case Code(n, upper) => CodeClosed(n, upper, rest);
    case Pair(high, low, upper, lowUpper) =>
      var second := [BACKSLASH, LETTER_U] + HexText(low, lowUpper);
      Assoc([BACKSLASH, LETTER_U] + HexText(high, upper), second, rest);
      CodeClosed(high, upper, second + rest);
      CodeClosed(low, lowUpper, rest);
  }

  lemma CodeClosed(n: nat, upper: seq<bool>, rest: seq<byte>)
    requires n < 0x10000 && |upper| == 4
    ensures Closed([BACKSLASH, LETTER_U] + HexText(n, upper) + rest) <==> Closed(rest)
  {
    hide HexChar, Closed;
    var digits := HexText(n, upper);
    var all := [BACKSLASH, LETTER_U] + digits + rest;
    assert all[2..] == digits + rest;
    PairStep(all);
    HexCharIsPlain(n / 4096, upper[0]);
    HexCharIsPlain(n / 256 % 16, upper[1]);
    HexCharIsPlain(n / 16 % 16, upper[2]);
    HexCharIsPlain(n % 16, upper[3]);
    PlainStep(all[2..]);
    PlainStep(all[3..]);
    PlainStep(all[4..]);
    PlainStep(all[5..]);
    assert all[6..] == rest;
  }

  lemma HexCharIsPlain(d: nat, upper: bool)
    requires d < 16
    ensures HexChar(d, upper) != QUOTE && HexChar(d, upper) != BACKSLASH
  {
  }

  lemma PairStep(s: seq<byte>)
    requires |s| >= 2 && s[0] == BACKSLASH
    ensures Closed(s) <==> Closed(s[2..])
  {
  }

  lemma PlainStep(s: seq<byte>)
    requires s != [] && s[0] != QUOTE && s[0] != BACKSLASH
    ensures Closed(s) <==> Closed(s[1..])
  {
  }

  /** So a literal as the standard has it is always closed. */
  lemma {:induction false} StrictIsProper(us: seq<Unit>)
    requires forall k :: 0 <= k < |us| ==> ProperUnit(us[k]) && Strict(us[k])
    ensures ProperString(us)
  {
    hide UnitText, ProperUnit, Strict, Closed;
    NothingClosed();
    if us != [] {
      assert ProperUnit(us[0]) && Strict(us[0]);
      forall k | 0 <= k < |us[1..]| ensures ProperUnit(us[1..][k]) && Strict(us[1..][k]) {
        assert us[1..][k] == us[k + 1];
      }
      StrictIsProper(us[1..]);
      NotLeftover(us[0]);
      ConsIsProper(us[0], us[1..]);
      assert [us[0]] + us[1..] == us;
      ClosedBehind(us[0], UnitsText(us[1..]));
    }
  }

  lemma NotLeftover(u: Unit)
    requires Strict(u)
    ensures !u.Leftover?
  {
  }
}
