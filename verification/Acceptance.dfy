/** The texts the parser accepts. */
module Acceptance {
  import opened Bytes
  import opened JsonTree
  import opened Grammar
  import opened Syntax
  import opened Reading
  import Numbers

  /** A byte order mark or none, blanks, a value, and what is behind it. */
  ghost predicate Spells(c: seq<byte>, mark: bool, before: seq<byte>, w: Spelling, after: seq<byte>) {
    Blank(before) && Proper(w) && c == Mark(mark) + (before + (Text(w) + after))
  }

  function Mark(mark: bool): seq<byte> {
    if mark then BOM else []
  }

  /** Blanks, the last of them the terminator. */
  predicate Terminated(after: seq<byte>) {
    after != [] && Blank(after) && after[|after| - 1] == NUL
  }

  /** The value starts behind the mark and the blanks. */
  lemma ValueStart(c: seq<byte>, mark: bool, before: seq<byte>, w: Spelling, after: seq<byte>)
    requires Spells(c, mark, before, w, after) && (mark ==> |c| > 4)
    ensures var o := |c| - |after| - |Text(w)|;
            c != [] && o >= 0 && SkipWs(c, SkipBom(c)) == o && At(c, o, Text(w)) && At(c, |c| - |after|, after)
  {
    hide SkipWs, SkipBlanks, Text, Proper, At, SkipBom;
    TextStart(w);
    var rest := Text(w) + after;
    StandsWhole(c);
    AtSplit(c, 0, Mark(mark), before + rest);
    BlanksAt(c, |Mark(mark)|, before, rest);
    AtSplit(c, |Mark(mark)| + |before|, Text(w), after);
    MarkSkipped(c, mark);
  }

  lemma StandsWhole(c: seq<byte>)
    ensures At(c, 0, c)
  {
  }

  lemma MarkSkipped(c: seq<byte>, mark: bool)
    requires if mark then |c| > 4 && At(c, 0, BOM) else c != [] && c[0] < 128
    ensures SkipBom(c) == |Mark(mark)|
  {
    if !mark && At(c, 0, BOM) {
      AtByte(c, 0, BOM, 0);
    }
  }

  /** Every text that is well spelled is accepted, and taken for what it means. Nothing behind a bare
      number may prolong it. */
  lemma TextIsRead(c: seq<byte>, mark: bool, before: seq<byte>, w: Spelling, after: seq<byte>)
    requires Spells(c, mark, before, w, after) && (mark ==> |c| > 4) && Depth(Meaning(w)) <= NESTING_LIMIT
    requires w.Numeric? && after != [] ==> !Numbers.NumberChar(after[0])
    ensures c != [] && ParseText(c, false) == Ok(Meaning(w), |c| - |after|)
    ensures Terminated(after) ==> ParseText(c, true) == Ok(Meaning(w), |c| - 1)
  {
    hide SkipWs, SkipBom, ParseValue, ParseText, Text, Proper, Meaning, Depth, At, IsByte;
    hide Blank, Mark, Numbers.NumberChar;
    ValueStart(c, mark, before, w, after);
    WhatWasParsed(c, false);
    WhatWasParsed(c, true);
    var e := |c| - |after|;
    BehindValue(c, e, after);
    ValueIsRead(c, e - |Text(w)|, w, 0);
    if Terminated(after) {
      RestIsBlank(c, e);
    }
  }

  lemma BehindValue(c: seq<byte>, e: nat, after: seq<byte>)
    requires At(c, e, after) && e + |after| == |c|
    ensures c[e..] == after && (after != [] ==> c[e] == after[0])
  {
    assert after == c[e..];
  }

  lemma RestIsBlank(c: seq<byte>, e: nat)
    requires e < |c|
    ensures IsByte(c, SkipWs(c, e), NUL) <==> Terminated(c[e..])
    ensures Terminated(c[e..]) ==> SkipWs(c, e) == |c| - 1
  {
    var r := c[e..];
    var p := SkipBlanks(c, e);
    assert r[|r| - 1] == c[|c| - 1];
    if p == |c| {
      assert forall k :: 0 <= k < |r| ==> r[k] == c[e + k];
    } else {
      assert r[p - e] == c[p];
    }
  }

  /** Every text that is accepted is spelled like that. */
  lemma TextIsThere(c: seq<byte>, requireNul: bool)
    returns (mark: bool, before: seq<byte>, w: Spelling, after: seq<byte>)
    requires c != [] && ParseText(c, requireNul).Ok?
    ensures Spells(c, mark, before, w, after) && (mark ==> |c| > 4) && Depth(Meaning(w)) <= NESTING_LIMIT
    ensures ParseText(c, requireNul).value == Meaning(w)
    ensures requireNul ==> Terminated(after)
    ensures !requireNul ==> ParseText(c, false).next == |c| - |after|
  {
    hide SkipWs, ParseValue, ParseText, Text, Proper, Meaning, Depth, At, SkipBom, Blank, Mark, Terminated, IsByte;
    var from := SkipBom(c);
    var o := SkipWs(c, from);
    MarkIsThere(c);
    SkippedAt(c, from);
    WhatWasParsed(c, requireNul);
    mark := from == 3;
    w := ValueIsThere(c, o, 0);
    NestingBounded(c, o, 0);
    before, after := c[from..o], c[o + |Text(w)|..];
    WholeText(c, from, o, Text(w));
    if requireNul {
      NotAtEnd(c, o + |Text(w)|);
      RestIsBlank(c, o + |Text(w)|);
    }
  }

  lemma WhatWasParsed(c: seq<byte>, requireNul: bool)
    requires c != []
    ensures var v, r := ParseValue(c, SkipWs(c, SkipBom(c)), 0), ParseText(c, requireNul);
            (r.Ok? ==> v.Ok? && r.value == v.value)
            && (v.Ok? && !requireNul ==> r == v)
            && (v.Ok? && requireNul ==>
                  var p := SkipWs(c, v.next); r == if IsByte(c, p, NUL) then Ok(v.value, p) else Err(p))
  {
    hide SkipWs, ParseValue, SkipBom;
  }

  lemma NotAtEnd(c: seq<byte>, e: nat)
    requires e <= |c| && IsByte(c, SkipWs(c, e), NUL)
    ensures e < |c|
  {
  }

  lemma MarkIsThere(c: seq<byte>)
    ensures var from := SkipBom(c); from <= |c| && c[..from] == Mark(from == 3) && (from == 3 ==> |c| > 4)
  {
  }

  lemma WholeText(c: seq<byte>, from: nat, o: nat, text: seq<byte>)
    requires from <= o && At(c, o, text)
    ensures o + |text| <= |c| && c == c[..from] + (c[from..o] + (text + c[o + |text|..]))
  {
  }

  /** The text denotes t, for a caller that wants the terminator behind it. */
  ghost predicate Denotes(c: seq<byte>, t: Json) {
    Depth(t) <= NESTING_LIMIT
    && exists mark, before, w, after :: Spells(c, mark, before, w, after) && Meaning(w) == t && Terminated(after)
  }

  /** cJSON_Parse accepts exactly the texts that denote something, and takes them for it. */
  lemma AcceptedExactly(c: seq<byte>, t: Json)
    requires c != []
    ensures ParseText(c, true).Ok? && ParseText(c, true).value == t <==> Denotes(c, t)
  {
    hide ParseText, Meaning, Depth;
    if ParseText(c, true).Ok? && ParseText(c, true).value == t {
      var mark, before, w, after := TextIsThere(c, true);
    }
    if Denotes(c, t) {
      var mark, before, w, after :|
        Spells(c, mark, before, w, after) && Meaning(w) == t && Terminated(after);
      EnoughForMark(c, mark, before, w, after);
      TextIsRead(c, mark, before, w, after);
    }
  }

  lemma EnoughForMark(c: seq<byte>, mark: bool, before: seq<byte>, w: Spelling, after: seq<byte>)
    requires Spells(c, mark, before, w, after) && Terminated(after)
    ensures mark ==> |c| > 4
    ensures !Numbers.NumberChar(after[0])
  {
    hide Text, Proper;
    TextStart(w);
  }
}
