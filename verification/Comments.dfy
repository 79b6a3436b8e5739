/** Minifying a text of tokens, blanks and comments leaves the tokens. */
module Comments {
  import opened Bytes
  import opened Minifier
  import opened MinifyLaws

  /** What a text to be minified is made of. */
  datatype Piece =
    | Bare(b: byte)
    | Literal(body: seq<byte>)
    | Space(b: byte)
    | Stray
    | Line(inside: seq<byte>)
    | Block(inside: seq<byte>)

  /** A literal's quotes are behind backslashes, and it does not end in one; a comment does not contain
      what ends it. */
  predicate Proper(p: Piece) {
    match p
    case Bare(b) => Plain(b)
    case Literal(body) => Hidden(body)
    case Space(b) => IsBlank(b)
    case Stray => true
    case Line(inside) => NEWLINE !in inside
    case Block(inside) => forall k :: 0 <= k < |inside| - 1 ==> !(inside[k] == STAR && inside[k + 1] == SLASH)
  }

  predicate Hidden(body: seq<byte>) {
    Escaping(body) && (body != [] ==> body[|body| - 1] != BACKSLASH)
  }

  predicate Escaping(body: seq<byte>) {
    forall k :: 0 <= k < |body| && body[k] == QUOTE ==> k > 0 && body[k - 1] == BACKSLASH
  }

  function Text(p: Piece): seq<byte> {
    match p
    case Bare(b) => [b]
    case Literal(body) => [QUOTE] + (body + [QUOTE])
    case Space(b) => [b]
    case Stray => [SLASH]
    case Line(inside) => [SLASH, SLASH] + (inside + [NEWLINE])
    case Block(inside) => [SLASH, STAR] + (inside + [STAR, SLASH])
  }

  function AllText(ps: seq<Piece>): seq<byte> {
    if ps == [] then [] else Text(ps[0]) + AllText(ps[1..])
  }

  function Tokens(ps: seq<Piece>): seq<Piece> {
    if ps == [] then [] else (if ps[0].Bare? || ps[0].Literal? then [ps[0]] else []) + Tokens(ps[1..])
  }

  lemma {:induction false} LineEnds(inside: seq<byte>, x: seq<byte>)
    requires NEWLINE !in inside
    ensures LineCommentEnd(inside + ([NEWLINE] + x), 0) == |inside| + 1
  {
    var s := inside + ([NEWLINE] + x);
    if inside != [] {
      assert s == [inside[0]] + (inside[1..] + ([NEWLINE] + x));
      LineEnds(inside[1..], x);
      ShiftEnds([inside[0]], inside[1..] + ([NEWLINE] + x), 0);
    }
  }

  lemma {:induction false} BlockEnds(inside: seq<byte>, x: seq<byte>)
    requires Proper(Block(inside))
    ensures BlockCommentEnd(inside + ([STAR, SLASH] + x), 0) == |inside| + 2
  {
    var s := inside + ([STAR, SLASH] + x);
    if inside != [] {
      var rest := inside[1..];
      assert s == [inside[0]] + (rest + ([STAR, SLASH] + x));
      forall k | 0 <= k < |rest| - 1 ensures !(rest[k] == STAR && rest[k + 1] == SLASH) {
        assert rest[k] == inside[k + 1] && rest[k + 1] == inside[k + 2];
      }
      BlockEnds(rest, x);
      ShiftEnds([inside[0]], rest + ([STAR, SLASH] + x), 0);
      assert rest != [] ==> s[1] == inside[1];
    }
  }

  lemma LineSkipped(inside: seq<byte>, x: seq<byte>)
    requires NEWLINE !in inside
    ensures M([SLASH, SLASH] + (inside + ([NEWLINE] + x))) == M(x)
  {
    hide Minified;
    var s := inside + ([NEWLINE] + x);
    var t := [SLASH, SLASH] + s;
    LineEnds(inside, x);
    ShiftEnds([SLASH, SLASH], s, 0);
    FromComment(t);
    assert t[|inside| + 3..] == x;
  }

  lemma BlockSkipped(inside: seq<byte>, x: seq<byte>)
    requires Proper(Block(inside))
    ensures M([SLASH, STAR] + (inside + ([STAR, SLASH] + x))) == M(x)
  {
    hide Minified;
    var s := inside + ([STAR, SLASH] + x);
    var t := [SLASH, STAR] + s;
    BlockEnds(inside, x);
    ShiftEnds([SLASH, STAR], s, 0);
    FromComment(t);
    assert t[|inside| + 4..] == x;
  }

  lemma {:induction false} BodyCopied(body: seq<byte>, x: seq<byte>)
    requires Hidden(body)
    ensures InString(body + ([QUOTE] + x)) == body + ([QUOTE] + M(x))
    decreases |body|
  {
    hide InString, M;
    var s := body + ([QUOTE] + x);
    InStringQuote(x);
    if body == [] {
      assert s == [QUOTE] + x;
    } else if body[0] == BACKSLASH && body[1] == QUOTE {
      var rest := body[2..];
      HiddenBehind(body, 2);
      BodyCopied(rest, x);
      InStringHidden(rest + ([QUOTE] + x));
      assert s == [BACKSLASH, QUOTE] + (rest + ([QUOTE] + x)) && body == [BACKSLASH, QUOTE] + rest;
    } else {
      var rest := body[1..];
      HiddenBehind(body, 1);
      BodyCopied(rest, x);
      InStringByte(body[0], rest + ([QUOTE] + x));
      assert s == [body[0]] + (rest + ([QUOTE] + x)) && body == [body[0]] + rest;
    }
  }

  lemma HiddenBehind(body: seq<byte>, n: nat)
    requires Hidden(body) && n <= |body| && (n < |body| && body[n] == QUOTE ==> n == 0)
    ensures Hidden(body[n..])
  {
    EscapingBehind(body, n);
  }

  lemma OnePiece(p: Piece, x: seq<byte>)
    requires Proper(p) && (p.Stray? ==> x == [] || (x[0] != SLASH && x[0] != STAR))
    ensures M(Text(p) + x) == (if p.Bare? || p.Literal? then Text(p) else []) + M(x)
  {
    hide M, InString, Hidden;
    match p
    case Bare(b) => PlainByte(b, x);
    case Space(b) =>
      Blank(b, x);
      Enclosed([], [], [], M(x));
    case Stray =>
      StraySkipped(x);
      Enclosed([], [], [], M(x));
    case Line(inside) =>
      LineSkipped(inside, x);
      Enclosed([SLASH, SLASH], inside, [NEWLINE], x);
      Enclosed([], [], [], M(x));
    case Block(inside) =>
      BlockSkipped(inside, x);
      Enclosed([SLASH, STAR], inside, [STAR, SLASH], x);
      Enclosed([], [], [], M(x));
    case Literal(body) =>
      BodyCopied(body, x);
      OpenQuote(body + ([QUOTE] + x));
      Enclosed([QUOTE], body, [QUOTE], x);
      Enclosed([QUOTE], body, [QUOTE], M(x));
  }

  lemma Enclosed(a: seq<byte>, b: seq<byte>, c: seq<byte>, x: seq<byte>)
    ensures (a + (b + c)) + x == a + (b + (c + x))
    ensures [] + x == x
  {
  }

  /** A slash that opens no comment goes as well. */
  lemma StraySkipped(x: seq<byte>)
    requires x != [] ==> x[0] != SLASH && x[0] != STAR
    ensures M([SLASH] + x) == M(x)
  {
    hide Minified;
    MinifiedAt([SLASH] + x, 0);
    Shift([SLASH], x, 0);
  }

  predicate NoStray(ps: seq<Piece>, tail: seq<byte>) {
    if ps == [] then true
    else
      var x := AllText(ps[1..]) + tail;
      (ps[0].Stray? ==> x == [] || (x[0] != SLASH && x[0] != STAR)) && NoStray(ps[1..], tail)
  }

  /** Blanks, comments and stray slashes go wherever they stand, tokens stay as they are. */
  lemma {:induction false} TokensAreLeft(ps: seq<Piece>, tail: seq<byte>)
    requires (forall k :: 0 <= k < |ps| ==> Proper(ps[k])) && NoStray(ps, tail)
    ensures M(AllText(ps) + tail) == AllText(Tokens(ps)) + M(tail)
  {
    hide Minified, Proper, Text, M;
    if ps == [] {
      Enclosed([], [], [], tail);
      Enclosed([], [], [], M(tail));
    } else {
      assert Proper(ps[0]);
      forall k | 0 <= k < |ps[1..]| ensures Proper(ps[1..][k]) {
        assert ps[1..][k] == ps[k + 1];
      }
      var rest := ps[1..];
      TokensAreLeft(rest, tail);
      OnePiece(ps[0], AllText(rest) + tail);
      Assoc(Text(ps[0]), AllText(rest), tail);
      OneToken(ps[0], Tokens(rest));
      Assoc(AllText(Tokens([ps[0]])), AllText(Tokens(rest)), M(tail));
    }
  }

  lemma OneToken(p: Piece, tokens: seq<Piece>)
    ensures AllText(Tokens([p])) == if p.Bare? || p.Literal? then Text(p) else []
    ensures AllText(Tokens([p]) + tokens) == AllText(Tokens([p])) + AllText(tokens)
  {
    hide Text;
    assert Tokens([]) == [] && [p][1..] == [];
    if p.Bare? || p.Literal? {
      assert Tokens([p]) == [p] && ([p] + tokens)[1..] == tokens;
      assert AllText([p]) == Text(p) + [];
    } else {
      assert Tokens([p]) == [] && [] + tokens == tokens;
    }
  }

  // ---- how a text may end ----

  lemma {:induction false} NoLineEnd(inside: seq<byte>)
    requires NEWLINE !in inside
    ensures LineCommentEnd(inside, 0) == |inside|
  {
    if inside != [] {
      assert inside == [inside[0]] + inside[1..];
      NoLineEnd(inside[1..]);
      ShiftEnds([inside[0]], inside[1..], 0);
    }
  }

  lemma {:induction false} NoBlockEnd(inside: seq<byte>)
    requires Proper(Block(inside))
    ensures BlockCommentEnd(inside, 0) == |inside|
  {
    if inside != [] {
      var rest := inside[1..];
      assert inside == [inside[0]] + rest;
      forall k | 0 <= k < |rest| - 1 ensures !(rest[k] == STAR && rest[k + 1] == SLASH) {
        assert rest[k] == inside[k + 1] && rest[k + 1] == inside[k + 2];
      }
      NoBlockEnd(rest);
      ShiftEnds([inside[0]], rest, 0);
    }
  }

  /** A comment that is never closed swallows the rest. */
  lemma OpenComment(inside: seq<byte>)
    ensures NEWLINE !in inside ==> M([SLASH, SLASH] + inside) == []
    ensures Proper(Block(inside)) ==> M([SLASH, STAR] + inside) == []
  {
    hide Minified, Proper;
    MinifiedAtEnd([]);
    if NEWLINE !in inside {
      NoLineEnd(inside);
      ShiftEnds([SLASH, SLASH], inside, 0);
      FromComment([SLASH, SLASH] + inside);
    }
    if Proper(Block(inside)) {
      NoBlockEnd(inside);
      ShiftEnds([SLASH, STAR], inside, 0);
      FromComment([SLASH, STAR] + inside);
    }
  }

  lemma {:induction false} NoClosingQuote(body: seq<byte>)
    requires Escaping(body)
    ensures InString(body) == body
    decreases |body|
  {
    hide InString, Minified;
    if body == [] {
      NothingInString();
    } else if body[0] == BACKSLASH && |body| > 1 && body[1] == QUOTE {
      EscapingBehind(body, 2);
      NoClosingQuote(body[2..]);
      InStringHidden(body[2..]);
      assert body == [BACKSLASH, QUOTE] + body[2..];
    } else {
      EscapingBehind(body, 1);
      NoClosingQuote(body[1..]);
      InStringByte(body[0], body[1..]);
      assert body == [body[0]] + body[1..];
    }
  }

  lemma NothingInString()
    ensures InString([]) == []
  {
    MinifiedAtEnd([]);
  }

  lemma EscapingBehind(body: seq<byte>, n: nat)
    requires Escaping(body) && n <= |body| && (n < |body| && body[n] == QUOTE ==> n == 0)
    ensures Escaping(body[n..])
  {
    var rest := body[n..];
    forall k | 0 <= k < |rest| && rest[k] == QUOTE ensures k > 0 && rest[k - 1] == BACKSLASH {
      assert rest[k] == body[n + k];
    }
  }

  /** A literal that is never closed is copied to the end. */
  lemma OpenLiteral(body: seq<byte>)
    requires Escaping(body)
    ensures M([QUOTE] + body) == [QUOTE] + body
  {
    hide M, InString;
    OpenQuote(body);
    NoClosingQuote(body);
  }
}
