/** Number text: the `%d` form and the strtod grammar. Doubles are exact reals. */
module Numbers {
  import opened Bytes
  import opened JsonTree

  const LETTER_E: byte := 101
  const CAPITAL_E: byte := 69

  /** parse_number copies at most this many characters before it converts. */
  const NUMBER_WINDOW: nat := 63

  predicate IsDigit(b: byte) { 48 <= b <= 57 }

  /** The characters parse_number copies. */
  predicate NumberChar(b: byte) {
    IsDigit(b) || b == PLUS || b == MINUS || b == DOT || b == LETTER_E || b == CAPITAL_E
  }

  // ---- printing ----

  function Decimal(n: nat): (r: seq<byte>) {
    if n < 10 then [48 + n] else Decimal(n / 10) + [48 + n % 10]
  }

  /** What sprintf writes for "%d". */
  function PrintInt(n: int): seq<byte> {
    if n < 0 then [MINUS] + Decimal(-n) else Decimal(n)
  }

  // ---- parsing ----

  /** The end of the run of digits that starts at i. */
  function DigitsEnd(s: seq<byte>, i: nat): (j: nat)
    requires i <= |s|
    ensures i <= j <= |s|
    ensures forall k :: i <= k < j ==> IsDigit(s[k])
    ensures j < |s| ==> !IsDigit(s[j])
    decreases |s| - i
  {
    if i < |s| && IsDigit(s[i]) then DigitsEnd(s, i + 1) else i
  }

  /** The number that digits write, most significant first. */
  function DigitsValue(s: seq<byte>): nat
    requires forall k :: 0 <= k < |s| ==> IsDigit(s[k])
  {
    if s == [] then 0 else
      assert IsDigit(s[|s| - 1]);
      10 * DigitsValue(s[..|s| - 1]) + (s[|s| - 1] as int - 48)
  }

  function Pow10(e: nat): (r: real)
    ensures r >= 1.0
  {
    if e == 0 then 1.0 else 10.0 * Pow10(e - 1)
  }

  function Scale(m: real, negativeExponent: bool, e: nat): real {
    if negativeExponent then m / Pow10(e) else m * Pow10(e)
  }

  predicate SignAt(s: seq<byte>, i: nat) {
    i < |s| && (s[i] == PLUS || s[i] == MINUS)
  }

  /** The end of the digits behind a point at i, or i if there is none. */
  function FractionEnd(s: seq<byte>, i: nat): (j: nat)
    requires i <= |s|
    ensures i <= j <= |s|
  {
    if i < |s| && s[i] == DOT then DigitsEnd(s, i + 1) else i
  }

  function FractionDigits(s: seq<byte>, i: nat): (r: seq<byte>)
    requires i <= |s|
    ensures forall k :: 0 <= k < |r| ==> IsDigit(r[k])
  {
    if i < |s| && s[i] == DOT then s[i + 1..FractionEnd(s, i)] else []
  }

  /** The number that the digits before and behind the point write. */
  function Mantissa(whole: seq<byte>, fraction: seq<byte>): real
    requires forall k :: 0 <= k < |whole| ==> IsDigit(whole[k])
    requires forall k :: 0 <= k < |fraction| ==> IsDigit(fraction[k])
  {
    DigitsValue(whole) as real + DigitsValue(fraction) as real / Pow10(|fraction|)
  }

  predicate MarkAt(s: seq<byte>, i: nat) {
    i < |s| && (s[i] == LETTER_E || s[i] == CAPITAL_E)
  }

  /** An exponent at i scales m, if it has digits. */
  function WithExponent(s: seq<byte>, i: nat, m: real): (r: (nat, real))
    requires i <= |s|
    ensures r.0 <= |s|
  {
    if !MarkAt(s, i) then (i, m) else
      var exp := if SignAt(s, i + 1) then i + 2 else i + 1;
      var end := DigitsEnd(s, exp);
      if exp == end then (i, m) else (end, Scale(m, s[i + 1] == MINUS, DigitsValue(s[exp..end])))
  }

  /** strtod on a run of number characters: how much it consumes (0: no conversion) and the value. */
  function Strtod(s: seq<byte>): (r: (nat, real))
    ensures r.0 <= |s|
  {
    var start := if SignAt(s, 0) then 1 else 0;
    var whole := DigitsEnd(s, start);
    if start == whole && FractionDigits(s, whole) == [] then (0, 0.0) else
      var m := Mantissa(s[start..whole], FractionDigits(s, whole));
      WithExponent(s, FractionEnd(s, whole), if start == 1 && s[0] == MINUS then -m else m)
  }

  /** How many characters parse_number copies from offset o, k of them copied already. */
  function WindowLen(c: seq<byte>, o: nat, k: nat): (n: nat)
    requires o + k <= |c| && k <= NUMBER_WINDOW
    ensures k <= n <= NUMBER_WINDOW && o + n <= |c|
    decreases NUMBER_WINDOW - k
  {
    if k < NUMBER_WINDOW && o + k < |c| && NumberChar(c[o + k]) then WindowLen(c, o, k + 1) else k
  }

  /** valueint: the double truncated towards zero, saturated to the C int range. */
  function ToInt(d: real): (n: int)
    ensures INT_MIN <= n <= INT_MAX
    ensures IsInt(d) ==> n == d.Floor
  {
    if d >= INT_MAX as real then INT_MAX
    else if d <= INT_MIN as real then INT_MIN
    else if d >= 0.0 then d.Floor else -((-d).Floor)
  }

  /** Of the C ints from zero to d, valueint is the one farthest from zero. */
  lemma ToIntIsFarthest(d: real, m: int)
    requires INT_MIN <= m <= INT_MAX
    ensures d >= 0.0 ==> 0.0 <= ToInt(d) as real <= d && (m as real <= d ==> m <= ToInt(d))
    ensures d <= 0.0 ==> d <= ToInt(d) as real <= 0.0 && (d <= m as real ==> ToInt(d) <= m)
  {
    var n := ToInt(d);
    if d < 0.0 && d > INT_MIN as real {
      assert -d - 1.0 < (-d).Floor as real <= -d;
    }
  }

  /** %d writes no needless zeros. */
  lemma {:induction false} NoLeadingZero(n: nat)
    ensures Decimal(n)[0] == ZERO ==> n == 0 && Decimal(n) == [ZERO]
  {
    if n >= 10 {
      NoLeadingZero(n / 10);
    }
  }

  // ---- the %d form reads back ----

  lemma {:induction false} DecimalDigits(n: nat)
    ensures |Decimal(n)| > 0
    ensures forall k :: 0 <= k < |Decimal(n)| ==> IsDigit(Decimal(n)[k])
    ensures DigitsValue(Decimal(n)) == n
  {
    if n >= 10 {
      DecimalDigits(n / 10);
      assert Decimal(n)[..|Decimal(n)| - 1] == Decimal(n / 10);
    }
  }

  lemma {:induction false} DecimalLength(n: nat, k: nat, bound: nat)
    requires bound == Power(k) && n < bound && k > 0
    ensures |Decimal(n)| <= k
    decreases k
  {
    if n >= 10 {
      assert k > 1;
      DecimalLength(n / 10, k - 1, Power(k - 1));
    }
  }

  function Power(k: nat): nat {
    if k == 0 then 1 else 10 * Power(k - 1)
  }

  lemma IntLength(n: int)
    requires INT_MIN <= n <= INT_MAX
    ensures 1 <= |PrintInt(n)| <= 11
  {
    var m := if n < 0 then -n else n;
    DecimalDigits(m);
    assert Power(5) == 100000;
    assert Power(10) == 10000000000;
    DecimalLength(m, 10, Power(10));
  }

  lemma {:induction false} DigitsRun(s: seq<byte>, i: nat, j: nat)
    requires i <= j <= |s|
    requires forall k :: i <= k < j ==> IsDigit(s[k])
    requires j < |s| ==> !IsDigit(s[j])
    ensures DigitsEnd(s, i) == j
    decreases j - i
  {
    if i < j {
      DigitsRun(s, i + 1, j);
    }
  }

  lemma PrintIntChars(n: int)
    ensures |PrintInt(n)| > 0
    ensures PrintInt(n)[0] == MINUS || IsDigit(PrintInt(n)[0])
    ensures forall k :: 0 <= k < |PrintInt(n)| ==> NumberChar(PrintInt(n)[k])
  {
    DecimalDigits(if n < 0 then -n else n);
  }

  /** strtod reads the whole of what %d writes, and reads the number it writes. */
  lemma StrtodOfPrintInt(n: int)
    ensures Strtod(PrintInt(n)) == (|PrintInt(n)|, n as real)
  {
    var m := if n < 0 then -n else n;
    var s := PrintInt(n);
    DecimalDigits(m);
    var start := if n < 0 then 1 else 0;
    assert s[start..] == Decimal(m);
    assert forall k :: start <= k < |s| ==> IsDigit(s[k]) by {
      forall k | start <= k < |s| ensures IsDigit(s[k]) {
        assert s[k] == Decimal(m)[k - start];
      }
    }
    DigitsRun(s, start, |s|);
    assert SignAt(s, 0) <==> n < 0;
    assert s[start..|s|] == Decimal(m);
    assert DigitsValue([]) == 0;
    assert Pow10(0) == 1.0;
  }

  /** The window closes at the first character that cannot belong to a number. */
  lemma {:induction false} WindowOfRun(c: seq<byte>, o: nat, k: nat, n: nat)
    requires k <= n <= NUMBER_WINDOW && o + n <= |c|
    requires forall i :: o <= i < o + n ==> NumberChar(c[i])
    requires n == NUMBER_WINDOW || o + n == |c| || !NumberChar(c[o + n])
    ensures WindowLen(c, o, k) == n
    decreases n - k
  {
    if k < n {
      WindowOfRun(c, o, k + 1, n);
    }
  }
}
