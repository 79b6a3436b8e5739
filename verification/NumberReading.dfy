/** Every number that is well spelled is read as its value, and no other is read. */
module NumberReading {
  import opened Bytes
  import opened Numbers
  import opened Syntax
  import opened Grammar

  // ---- the value of digits ----

  lemma {:induction false} PowersAgree(k: nat)
    ensures Pow10(k) == Power(k) as real
  {
    if k > 0 {
      PowersAgree(k - 1);
    }
  }

  lemma {:induction false} FrontDigit(s: seq<byte>)
    requires s != [] && forall k :: 0 <= k < |s| ==> IsDigit(s[k])
    ensures DigitsValue(s) == (s[0] as int - 48) * Power(|s| - 1) + DigitsValue(s[1..])
    decreases |s|
  {
    var n := |s| - 1;
    if n > 0 {
      var init := s[..n];
      FrontDigit(init);
      assert init[1..] == s[1..][..n - 1] && s[1..][n - 1] == s[n];
      TenTimes(s[0] as int - 48, Power(n - 1));
    } else {
      assert s[1..] == [] && s[..0] == [];
    }
  }

  lemma TenTimes(d: int, p: int)
    ensures 10 * (d * p) == d * (10 * p)
  {
  }

  lemma {:induction false} WholeIsRead(ds: seq<nat>)
    requires Digits(ds)
    ensures var s := DigitsText(ds);
            (forall k :: 0 <= k < |s| ==> IsDigit(s[k])) && DigitsValue(s) == WholeValue(ds)
  {
    var s := DigitsText(ds);
    assert forall k :: 0 <= k < |s| ==> IsDigit(s[k]);
    if ds != [] {
      WholeIsRead(ds[1..]);
      assert s[1..] == DigitsText(ds[1..]);
      FrontDigit(s);
    }
  }

  lemma {:induction false} FractionIsRead(ds: seq<nat>)
    ensures FractionValue(ds) == WholeValue(ds) as real / Pow10(|ds|)
  {
    if ds != [] {
      FractionIsRead(ds[1..]);
      var k := |ds| - 1;
      PowersAgree(k);
      OnePlace(ds[0], WholeValue(ds[1..]), Power(k), Pow10(k));
    }
  }

  lemma OnePlace(d: nat, rest: nat, power: nat, p: real)
    requires p >= 1.0 && p == power as real
    ensures (d * power + rest) as real / (10.0 * p) == (d as real + rest as real / p) / 10.0
  {
    RealProduct(d, power);
    PlaceBehindPoint(d as real, rest as real, p);
  }

  lemma {:induction false} RealProduct(d: nat, n: nat)
    ensures (d * n) as real == d as real * n as real
  {
    if d > 0 {
      RealProduct(d - 1, n);
      assert d * n == (d - 1) * n + n;
      assert (d - 1) as real * n as real == d as real * n as real - n as real;
    }
  }

  lemma PlaceBehindPoint(d: real, rest: real, p: real)
    requires p >= 1.0
    ensures (d * p + rest) / (10.0 * p) == (d + rest / p) / 10.0
  {
    var q := rest / p;
    assert rest == q * p;
    assert d * p + rest == (d + q) * p;
    Cancel(d + q, p);
  }

  lemma Cancel(a: real, p: real)
    requires p >= 1.0
    ensures (a * p) / (10.0 * p) == a / 10.0
  {
    var x := a / 10.0;
    assert a * p == x * (10.0 * p);
  }

  lemma {:induction false} TenToIs(e: nat)
    ensures TenTo(e) == Pow10(e) && TenTo(0 - e) * Pow10(e) == 1.0
  {
    if e > 0 {
      TenToIs(e - 1);
      var x, p := TenTo(1 - e), Pow10(e - 1);
      assert TenTo(0 - e) == x / 10.0;
      assert (x / 10.0) * (10.0 * p) == x * p;
    }
  }

  lemma ScaleIs(m: real, negative: bool, e: nat)
    ensures Scale(m, negative, e) == m * TenTo(if negative then 0 - e else e)
  {
    TenToIs(e);
    if negative {
      DivideBy(m, TenTo(0 - e), Pow10(e));
    }
  }

  lemma DivideBy(m: real, x: real, p: real)
    requires x * p == 1.0 && p >= 1.0
    ensures m / p == m * x
  {
    assert (m * x) * p == m * (x * p) == m;
  }

  function FractionOf(n: Numeral): seq<nat> {
    if n.fraction.None? then [] else n.fraction.value
  }

  function Down(n: Numeral): bool {
    n.exponent.Some? && n.exponent.value.sign == Some(true)
  }

  /** The value in the terms strtod works in. */
  lemma ValueIsRead(n: Numeral)
    requires ProperDigits(n)
    ensures var whole, fraction := DigitsText(n.whole), DigitsText(FractionOf(n));
            (forall k :: 0 <= k < |whole| ==> IsDigit(whole[k]))
            && (forall k :: 0 <= k < |fraction| ==> IsDigit(fraction[k]))
            && var m := Mantissa(whole, fraction);
               var signed := if n.negative then -m else m;
               (n.exponent.None? ==> NumeralValue(n) == signed)
               && (n.exponent.Some? ==>
                     var exponent := DigitsText(n.exponent.value.digits);
                     (forall k :: 0 <= k < |exponent| ==> IsDigit(exponent[k]))
                     && NumeralValue(n) == Scale(signed, Down(n), DigitsValue(exponent)))
  {
    hide WholeValue, DigitsValue, FractionValue, DigitsText, Pow10, TenTo, Scale;
    WholeIsRead(n.whole);
    WholeIsRead(FractionOf(n));
    FractionIsRead(FractionOf(n));
    NoFraction();
    var m := WholeValue(n.whole) as real + FractionValue(FractionOf(n));
    if n.exponent.Some? {
      WholeIsRead(n.exponent.value.digits);
      ScaleIs(if n.negative then -m else m, Down(n), WholeValue(n.exponent.value.digits));
    }
  }

  lemma NoFraction()
    ensures FractionValue([]) == 0.0 && TenTo(0) == 1.0
  {
  }

  // ---- the text is read to its end ----

  lemma DigitsAt(s: seq<byte>, i: nat, j: nat, ds: seq<nat>)
    requires Digits(ds) && i <= j <= |s| && s[i..j] == DigitsText(ds)
    requires j < |s| ==> !IsDigit(s[j])
    ensures DigitsEnd(s, i) == j && j == i + |ds|
  {
    forall k | i <= k < j ensures IsDigit(s[k]) {
      assert s[k] == s[i..j][k - i];
    }
    DigitsRun(s, i, j);
  }

  /** Where the parts of a numeral stand. */
  function WholeAt(n: Numeral): nat {
    if n.negative then 1 else 0
  }

  function FractionAt(n: Numeral): nat {
    WholeAt(n) + |n.whole|
  }

  function ExponentAt(n: Numeral): nat {
    FractionAt(n) + (if n.fraction.None? then 0 else 1 + |n.fraction.value|)
  }

  lemma Parts(n: Numeral)
    requires ProperDigits(n)
    ensures var s, a, w, f := NumeralText(n), WholeAt(n), FractionAt(n), ExponentAt(n);
            && a <= w <= f <= |s| && s[a..w] == DigitsText(n.whole)
            && (n.negative ==> s[0] == MINUS)
            && (n.fraction.Some? ==> w < f && s[w] == DOT && s[w + 1..f] == DigitsText(n.fraction.value))
            && (n.exponent.None? ==> f == |s|)
            && (n.exponent.Some? ==> f < |s| && s[f..] == ExponentText(n.exponent))
  {
    hide DigitsText, ExponentText;
    var sign, whole, fraction, exponent :=
      SignText(n.negative), DigitsText(n.whole), FractionText(n.fraction), ExponentText(n.exponent);
    var s, a, w, f := NumeralText(n), WholeAt(n), FractionAt(n), ExponentAt(n);
    assert s == sign + whole + fraction + exponent;
    assert s[a..w] == whole && s[w..f] == fraction && s[f..] == exponent;
    if n.fraction.Some? {
      assert s[w + 1..f] == fraction[1..];
    }
    ExponentStarts(n.exponent);
  }

  lemma ExponentStarts(e: Option<Exponent>)
    requires e.Some? ==> Digits(e.value.digits) && e.value.digits != []
    ensures var t := ExponentText(e);
            if e.None? then t == [] else
              var x := if e.value.sign.None? then 1 else 2;
              |t| == x + |e.value.digits| && t[x..] == DigitsText(e.value.digits)
              && t[0] == (if e.value.capital then CAPITAL_E else LETTER_E)
              && (SignAt(t, 1) <==> e.value.sign.Some?) && (t[1] == MINUS <==> e.value.sign == Some(true))
  {
    if e.Some? {
      assert DigitsText(e.value.digits)[0] >= 48;
    }
  }

  lemma ExponentIsRead(s: seq<byte>, f: nat, e: Exponent)
    requires Digits(e.digits) && e.digits != [] && f < |s| && s[f..] == ExponentText(Some(e))
    ensures s[f] == LETTER_E || s[f] == CAPITAL_E
    ensures var x := if SignAt(s, f + 1) then f + 2 else f + 1;
            x == f + (if e.sign.None? then 1 else 2) && x < |s| && DigitsEnd(s, x) == |s|
            && s[x..|s|] == DigitsText(e.digits) && (s[f + 1] == MINUS <==> e.sign == Some(true))
  {
    hide DigitsText, ExponentText;
    var t := s[f..];
    ExponentStarts(Some(e));
    assert s[f] == t[0] && s[f + 1] == t[1];
    var x := f + (if e.sign.None? then 1 else 2);
    assert s[x..] == t[x - f..] && s[x..|s|] == s[x..];
    DigitsAt(s, x, |s|, e.digits);
  }

  /** strtod reads the whole of a numeral, and its value. */
  lemma StrtodOfNumeral(n: Numeral)
    requires ProperNumeral(n)
    ensures Strtod(NumeralText(n)) == (|NumeralText(n)|, NumeralValue(n))
  {
    hide DigitsText, ExponentText, NumeralText, NumeralValue, DigitsEnd, FractionEnd, FractionDigits;
    hide Mantissa, WithExponent;
    var s, a, w := NumeralText(n), WholeAt(n), FractionAt(n);
    Parts(n);
    FirstDigit(n);
    WholePart(n);
    FractionPart(n);
    ValueIsRead(n);
    var m := Mantissa(DigitsText(n.whole), DigitsText(FractionOf(n)));
    ExponentPart(n, if n.negative then -m else m);
  }

  lemma WholePart(n: Numeral)
    requires ProperDigits(n)
    ensures DigitsEnd(NumeralText(n), WholeAt(n)) == FractionAt(n)
  {
    hide DigitsText, NumeralText;
    Parts(n);
    if n.exponent.Some? {
      ExponentIsRead(NumeralText(n), ExponentAt(n), n.exponent.value);
    }
    DigitsAt(NumeralText(n), WholeAt(n), FractionAt(n), n.whole);
  }

  lemma FractionPart(n: Numeral)
    requires ProperDigits(n)
    ensures var s, w := NumeralText(n), FractionAt(n);
            w <= |s| && FractionEnd(s, w) == ExponentAt(n) && FractionDigits(s, w) == DigitsText(FractionOf(n))
  {
    hide NumeralText;
    Parts(n);
    if n.exponent.Some? {
      ExponentIsRead(NumeralText(n), ExponentAt(n), n.exponent.value);
    }
    if n.fraction.Some? {
      DigitsAt(NumeralText(n), FractionAt(n) + 1, ExponentAt(n), n.fraction.value);
    }
  }

  lemma ExponentPart(n: Numeral, m: real)
    requires ProperDigits(n)
    ensures var s, f := NumeralText(n), ExponentAt(n);
            f <= |s|
            && (n.exponent.None? ==> WithExponent(s, f, m) == (|s|, m))
            && (n.exponent.Some? ==>
                  var digits := DigitsText(n.exponent.value.digits);
                  (forall k :: 0 <= k < |digits| ==> IsDigit(digits[k]))
                  && WithExponent(s, f, m) == (|s|, Scale(m, Down(n), DigitsValue(digits))))
  {
    hide NumeralText, Scale, DigitsValue;
    Parts(n);
    if n.exponent.Some? {
      ExponentIsRead(NumeralText(n), ExponentAt(n), n.exponent.value);
    }
  }

  lemma NoDigits()
    ensures DigitsText([]) == [] && DigitsValue([]) == 0
  {
  }

  lemma FirstDigit(n: Numeral)
    requires ProperNumeral(n)
    ensures |NumeralText(n)| > 0
    ensures NumeralText(n)[0] == MINUS || IsDigit(NumeralText(n)[0])
    ensures NumeralText(n)[0] == MINUS <==> n.negative
  {
    if !n.negative {
      assert NumeralText(n)[0] == DigitsText(n.whole)[0];
    }
  }

  // ---- what strtod reads is a numeral ----

  function DigitsOf(t: seq<byte>): (ds: seq<nat>)
    requires forall k :: 0 <= k < |t| ==> IsDigit(t[k])
    ensures |ds| == |t| && Digits(ds)
  {
    seq(|t|, k requires 0 <= k < |t| && IsDigit(t[k]) => DigitOf(t[k]))
  }

  function DigitOf(b: byte): (d: nat)
    requires IsDigit(b)
    ensures d < 10
  {
    b as int - 48
  }

  lemma DigitsOfText(t: seq<byte>)
    requires forall k :: 0 <= k < |t| ==> IsDigit(t[k])
    ensures DigitsText(DigitsOf(t)) == t
  {
  }

  /** The exponent at i, if it has digits. */
  function ExponentOf(s: seq<byte>, i: nat): (e: Option<Exponent>)
    requires i <= |s|
    ensures e.Some? ==> Digits(e.value.digits) && e.value.digits != []
  {
    if !MarkAt(s, i) then None else
      var x := if SignAt(s, i + 1) then i + 2 else i + 1;
      var end := DigitsEnd(s, x);
      if x == end then None else
        var sign := if SignAt(s, i + 1) then Some(s[i + 1] == MINUS) else None;
        Some(Exponent(s[i] == CAPITAL_E, sign, DigitsOf(s[x..end])))
  }

  lemma ExponentIsThere(s: seq<byte>, i: nat, m: real)
    requires i <= |s|
    ensures var e, r := ExponentOf(s, i), WithExponent(s, i, m);
            i <= r.0 && s[i..r.0] == ExponentText(e)
            && (if e.None? then r.1 == m else
                  var digits := DigitsText(e.value.digits);
                  (forall k :: 0 <= k < |digits| ==> IsDigit(digits[k]))
                  && r.1 == Scale(m, e.value.sign == Some(true), DigitsValue(digits)))
  {
    hide Scale, DigitsValue, DigitsText, DigitsOf, ExponentText;
    if MarkAt(s, i) {
      var x := if SignAt(s, i + 1) then i + 2 else i + 1;
      var end := DigitsEnd(s, x);
      DigitsOfText(s[x..end]);
      if x < end {
        MarkText(s, i, x, end, ExponentOf(s, i).value);
      }
    }
    NoExponent(s, i);
  }

  lemma NoExponent(s: seq<byte>, i: nat)
    requires i <= |s|
    ensures s[i..i] == ExponentText(None)
  {
  }

  lemma MarkText(s: seq<byte>, i: nat, x: nat, end: nat, e: Exponent)
    requires MarkAt(s, i) && x == (if SignAt(s, i + 1) then i + 2 else i + 1) && x <= end <= |s|
    requires e.capital == (s[i] == CAPITAL_E) && Digits(e.digits) && DigitsText(e.digits) == s[x..end]
    requires e.sign == if SignAt(s, i + 1) then Some(s[i + 1] == MINUS) else None
    ensures s[i..end] == ExponentText(Some(e))
  {
    hide DigitsText;
    assert s[i..end] == [s[i]] + (s[i + 1..x] + s[x..end]);
    assert SignAt(s, i + 1) ==> s[i + 1..x] == [s[i + 1]];
    assert !SignAt(s, i + 1) ==> s[i + 1..x] == [];
  }

  function NumeralOf(s: seq<byte>): (n: Numeral)
    requires s != []
    ensures ProperDigits(n)
  {
    var a := if SignAt(s, 0) then 1 else 0;
    var w := DigitsEnd(s, a);
    var fraction := if w < |s| && s[w] == DOT then Some(DigitsOf(FractionDigits(s, w))) else None;
    Numeral(s[0] == MINUS, DigitsOf(s[a..w]), fraction, ExponentOf(s, FractionEnd(s, w)))
  }

  lemma NumeralIsThere(s: seq<byte>)
    requires s != [] && |s| <= NUMBER_WINDOW && (s[0] == MINUS || IsDigit(s[0])) && Strtod(s).0 > 0
    ensures var n := NumeralOf(s); ProperNumeral(n) && Strtod(s) == (|NumeralText(n)|, NumeralValue(n))
    ensures s[..Strtod(s).0] == NumeralText(NumeralOf(s))
  {
    hide Mantissa, WithExponent, ExponentOf, ExponentText, NumeralValue, DigitsText, FractionText, DigitsOf;
    hide FractionEnd, FractionDigits, DigitsEnd;
    var n := NumeralOf(s);
    var a := if SignAt(s, 0) then 1 else 0;
    var w := DigitsEnd(s, a);
    var f, m := FractionEnd(s, w), Mantissa(s[a..w], FractionDigits(s, w));
    var signed := if n.negative then -m else m;
    SomeDigits(s, a);
    DigitsOfText(s[a..w]);
    DigitsOfText(FractionDigits(s, w));
    NoDigits();
    ExponentIsThere(s, f, signed);
    ValueIsRead(n);
    PointIsThere(s, w);
    FourParts(s, a, w, f, WithExponent(s, f, signed).0);
  }

  lemma SomeDigits(s: seq<byte>, a: nat)
    requires s != [] && a <= |s|
    ensures IsDigit(s[0]) && a == 0 ==> DigitsEnd(s, a) > 0
    ensures var w := DigitsEnd(s, a); !(w < |s| && s[w] == DOT) ==> FractionDigits(s, w) == []
  {
  }

  lemma FourParts(s: seq<byte>, a: nat, w: nat, f: nat, k: nat)
    requires a <= w <= f <= k <= |s|
    ensures s[..k] == s[..a] + (s[a..w] + (s[w..f] + s[f..k]))
    ensures a == 0 ==> s[..a] == []
    ensures a == 1 ==> s[..a] == [s[0]]
  {
  }

  lemma PointIsThere(s: seq<byte>, w: nat)
    requires w <= |s|
    ensures s[w..FractionEnd(s, w)]
         == FractionText(if w < |s| && s[w] == DOT then Some(DigitsOf(FractionDigits(s, w))) else None)
  {
    if w < |s| && s[w] == DOT {
      DigitsOfText(FractionDigits(s, w));
      assert s[w..FractionEnd(s, w)] == [s[w]] + s[w + 1..FractionEnd(s, w)];
    }
  }

  // ---- in a text ----

  lemma NumberIsRead(c: seq<byte>, o: nat, n: Numeral)
    requires ProperNumeral(n) && At(c, o, NumeralText(n))
    requires o + |NumeralText(n)| == |c| || !NumberChar(c[o + |NumeralText(n)|])
    ensures ParseNumber(c, o) == Ok(NumeralValue(n), o + |NumeralText(n)|) && StartsNumber(c, o)
  {
    hide Strtod, NumeralText, NumeralValue, NumberChar, DigitsText;
    var s := NumeralText(n);
    FirstDigit(n);
    AtByte(c, o, s, 0);
    NumeralChars(n);
    forall i | o <= i < o + |s| ensures NumberChar(c[i]) {
      AtByte(c, o, s, i - o);
    }
    WindowOfRun(c, o, 0, |s|);
    StrtodOfNumeral(n);
  }

  predicate NumberChars(s: seq<byte>) {
    forall k :: 0 <= k < |s| ==> NumberChar(s[k])
  }

  lemma NumeralChars(n: Numeral)
    requires ProperDigits(n)
    ensures NumberChars(NumeralText(n))
  {
    hide DigitsText, NumberChars;
    TextChars(n.whole);
    SignChars(n.negative);
    if n.fraction.Some? {
      TextChars(n.fraction.value);
      JoinedChars([DOT], DigitsText(n.fraction.value));
    }
    if n.exponent.Some? {
      TextChars(n.exponent.value.digits);
      ExponentChars(n.exponent.value);
    }
    JoinedChars(FractionText(n.fraction), ExponentText(n.exponent));
    JoinedChars(DigitsText(n.whole), FractionText(n.fraction) + ExponentText(n.exponent));
    JoinedChars(SignText(n.negative), DigitsText(n.whole) + (FractionText(n.fraction) + ExponentText(n.exponent)));
  }

  lemma TextChars(ds: seq<nat>)
    requires Digits(ds)
    ensures NumberChars(DigitsText(ds))
  {
  }

  lemma SignChars(negative: bool)
    ensures NumberChars(SignText(negative)) && NumberChars([DOT]) && NumberChars([])
  {
  }

  lemma ExponentChars(e: Exponent)
    requires Digits(e.digits) && NumberChars(DigitsText(e.digits))
    ensures NumberChars(ExponentText(Some(e)))
  {
  }

  lemma JoinedChars(s: seq<byte>, t: seq<byte>)
    requires NumberChars(s) && NumberChars(t)
    ensures NumberChars(s + t)
  {
  }

  lemma NumberIsThere(c: seq<byte>, o: nat) returns (n: Numeral)
    requires StartsNumber(c, o) && ParseNumber(c, o).Ok?
    ensures ProperNumeral(n) && At(c, o, NumeralText(n))
    ensures ParseNumber(c, o) == Ok(NumeralValue(n), o + |NumeralText(n)|)
  {
    hide Strtod, NumeralText, NumeralValue, NumberChar, DigitsText, NumeralOf;
    var s := c[o..o + WindowLen(c, o, 0)];
    NothingRead();
    n := NumeralOf(s);
    NumeralIsThere(s);
    var k := Strtod(s).0;
    assert s[..k] == c[o..o + k];
  }

  lemma NothingRead()
    ensures Strtod([]).0 == 0
  {
  }
}
