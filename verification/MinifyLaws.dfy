/** Minifying from the middle of a text, and minifying twice. */
module MinifyLaws {
  import opened Bytes
  import opened Minifier

  // ---- minifying from the middle ----

  lemma {:induction false} ShiftLine(p: seq<byte>, s: seq<byte>, i: nat)
    requires i <= |s|
    ensures LineCommentEnd(p + s, |p| + i) == |p| + LineCommentEnd(s, i)
    decreases |s| - i
  {
    if i < |s| {
      ShiftLine(p, s, i + 1);
    }
  }

  lemma {:induction false} ShiftBlock(p: seq<byte>, s: seq<byte>, i: nat)
    requires i <= |s|
    ensures BlockCommentEnd(p + s, |p| + i) == |p| + BlockCommentEnd(s, i)
    decreases |s| - i
  {
    if i < |s| {
      ShiftBlock(p, s, i + 1);
    }
  }

  lemma {:induction false} ShiftString(p: seq<byte>, s: seq<byte>, i: nat)
    requires i <= |s|
    ensures StringEnd(p + s, |p| + i) == |p| + StringEnd(s, i)
    decreases |s| - i
  {
    if i < |s| {
      ShiftString(p, s, i + 1);
      if i + 1 < |s| {
        ShiftString(p, s, i + 2);
      }
    }
  }

  lemma ShiftEnds(p: seq<byte>, s: seq<byte>, i: nat)
    requires i <= |s|
    ensures LineCommentEnd(p + s, |p| + i) == |p| + LineCommentEnd(s, i)
    ensures BlockCommentEnd(p + s, |p| + i) == |p| + BlockCommentEnd(s, i)
    ensures StringEnd(p + s, |p| + i) == |p| + StringEnd(s, i)
  {
    ShiftLine(p, s, i);
    ShiftBlock(p, s, i);
    ShiftString(p, s, i);
  }

  lemma {:induction false} Shift(p: seq<byte>, s: seq<byte>, i: nat)
    requires i <= |s|
    ensures Minified(p + s, |p| + i) == Minified(s, i)
    decreases |s| - i
  {
    hide LineCommentEnd, BlockCommentEnd, StringEnd, Minified, CommentEnd;
    var t, n := p + s, |p| + i;
    if i == |s| {
      MinifiedAtEnd(s);
      MinifiedAtEnd(t);
    } else {
      SameStep(p, s, i);
      MinifiedAt(s, i);
      MinifiedAt(t, n);
      if CommentAt(s, i) {
        Shift(p, s, CommentEnd(s, i));
      } else if s[i] == QUOTE {
        Shift(p, s, StringEnd(s, i + 1));
      } else {
        Shift(p, s, i + 1);
        assert n + 1 == |p| + (i + 1);
      }
    }
  }

  lemma MinifiedAtEnd(s: seq<byte>)
    ensures Minified(s, |s|) == []
  {
  }

  /** The loop does at |p| + i in p + s what it does at i in s. */
  lemma SameStep(p: seq<byte>, s: seq<byte>, i: nat)
    requires i < |s|
    ensures var t, n := p + s, |p| + i;
            t[n] == s[i] && (CommentAt(t, n) <==> CommentAt(s, i))
            && (CommentAt(s, i) ==> CommentEnd(t, n) == |p| + CommentEnd(s, i))
            && var j := StringEnd(s, i + 1); StringEnd(t, n + 1) == |p| + j && t[n..|p| + j] == s[i..j]
  {
    hide LineCommentEnd, BlockCommentEnd, StringEnd;
    var t, n := p + s, |p| + i;
    assert t[n] == s[i];
    assert i + 1 < |s| ==> t[n + 1] == s[i + 1];
    if CommentAt(s, i) {
      ShiftEnds(p, s, i + 2);
    }
    ShiftEnds(p, s, i + 1);
    Behind(p, s, i, StringEnd(s, i + 1));
  }

  lemma Behind(p: seq<byte>, s: seq<byte>, i: nat, j: nat)
    requires i <= j <= |s|
    ensures (p + s)[|p| + i..|p| + j] == s[i..j]
  {
  }

  function M(x: seq<byte>): seq<byte> {
    Minified(x, 0)
  }

  /** Minifying a text that starts inside a string. */
  function InString(x: seq<byte>): seq<byte> {
    var j := StringEnd(x, 0); x[..j] + Minified(x, j)
  }

  lemma Blank(b: byte, x: seq<byte>)
    requires IsBlank(b)
    ensures M([b] + x) == M(x)
  {
    hide Minified;
    MinifiedAt([b] + x, 0);
    Shift([b], x, 0);
  }

  lemma PlainByte(b: byte, x: seq<byte>)
    requires Plain(b)
    ensures M([b] + x) == [b] + M(x)
  {
    hide Minified;
    MinifiedAt([b] + x, 0);
    Shift([b], x, 0);
  }

  lemma OpenQuote(x: seq<byte>)
    ensures M([QUOTE] + x) == [QUOTE] + InString(x)
  {
    hide Minified, StringEnd;
    var j := StringEnd(x, 0);
    MinifiedAt([QUOTE] + x, 0);
    ShiftEnds([QUOTE], x, 0);
    Shift([QUOTE], x, j);
    assert ([QUOTE] + x)[0..1 + j] == [QUOTE] + x[..j];
  }

  /** One byte inside a string. */
  lemma InStringQuote(x: seq<byte>)
    ensures InString([QUOTE] + x) == [QUOTE] + M(x)
  {
    assert StringEnd([QUOTE] + x, 0) == 1;
    hide Minified;
    Shift([QUOTE], x, 0);
    assert ([QUOTE] + x)[..1] == [QUOTE];
  }

  lemma InStringPrefix(p: seq<byte>, x: seq<byte>)
    requires StringEnd(p + x, 0) == |p| + StringEnd(x, 0)
    ensures InString(p + x) == p + InString(x)
  {
    hide Minified, StringEnd;
    var j := StringEnd(x, 0);
    Shift(p, x, j);
    assert (p + x)[..|p| + j] == p + x[..j];
    Assoc(p, x[..j], Minified(x, j));
  }

  lemma InStringByte(b: byte, x: seq<byte>)
    requires b != QUOTE && !(b == BACKSLASH && x != [] && x[0] == QUOTE)
    ensures InString([b] + x) == [b] + InString(x)
  {
    ShiftEnds([b], x, 0);
    var s := [b] + x;
    assert x != [] ==> s[1] == x[0];
    assert StringEnd(s, 0) == StringEnd(s, 1);
    hide Minified, StringEnd;
    InStringPrefix([b], x);
  }

  lemma InStringHidden(x: seq<byte>)
    ensures InString([BACKSLASH, QUOTE] + x) == [BACKSLASH, QUOTE] + InString(x)
  {
    ShiftEnds([BACKSLASH, QUOTE], x, 0);
    assert StringEnd([BACKSLASH, QUOTE] + x, 0) == StringEnd([BACKSLASH, QUOTE] + x, 2);
    hide Minified, StringEnd;
    InStringPrefix([BACKSLASH, QUOTE], x);
  }

  // ---- idempotence ----

  lemma {:induction false} ClosedString(s: seq<byte>, i: nat, t: seq<byte>)
    requires i <= |s| && StringEnd(s, i) <= |t|
    requires t[..StringEnd(s, i)] == s[..StringEnd(s, i)]
    requires StringEnd(s, i) < |s| || |t| == |s|
    ensures StringEnd(t, i) == StringEnd(s, i)
    decreases |s| - i
  {
    var j := StringEnd(s, i);
    forall k | 0 <= k < j ensures t[k] == s[k] {
      assert t[..j][k] == s[..j][k];
    }
    if i < |s| && s[i] != QUOTE {
      if s[i] == BACKSLASH && i + 1 < |s| && s[i + 1] == QUOTE {
        ClosedString(s, i + 2, t);
      } else {
        ClosedString(s, i + 1, t);
      }
    }
  }

  /** M at the front of x, one step at a time. */
  lemma FromComment(x: seq<byte>)
    requires CommentAt(x, 0)
    ensures M(x) == M(x[CommentEnd(x, 0)..])
  {
    hide Minified, CommentEnd;
    var j := CommentEnd(x, 0);
    MinifiedAt(x, 0);
    assert x == x[..j] + x[j..];
    Shift(x[..j], x[j..], 0);
  }

  lemma InStringFrom(x: seq<byte>, e: nat)
    requires e == StringEnd(x, 0)
    ensures InString(x) == x[..e] + M(x[e..])
  {
    hide Minified, StringEnd;
    assert x == x[..e] + x[e..];
    Shift(x[..e], x[e..], 0);
  }

  /** Minifying again changes nothing. */
  lemma {:induction false} MinifyTwice(x: seq<byte>)
    ensures M(M(x)) == M(x)
    decreases |x|
  {
    hide Minified, CommentEnd, StringEnd;
    if x == [] {
      MinifiedAtEnd(x);
    } else if CommentAt(x, 0) {
      FromComment(x);
      MinifyTwice(x[CommentEnd(x, 0)..]);
    } else {
      var u := x[1..];
      assert x == [x[0]] + u;
      if x[0] == QUOTE {
        var e := StringEnd(u, 0);
        var t := u[..e] + M(u[e..]);
        OpenQuote(u);
        InStringFrom(u, e);
        ClosedAgain(u, e);
        InStringFrom(t, e);
        assert t[e..] == M(u[e..]) && t[..e] == u[..e];
        OpenQuote(t);
        MinifyTwice(u[e..]);
      } else {
        MinifyTwice(u);
        if Plain(x[0]) {
          PlainByte(x[0], u);
          PlainByte(x[0], M(u));
        } else {
          MinifiedAt(x, 0);
          Shift([x[0]], u, 0);
        }
      }
    }
  }

  lemma ClosedAgain(u: seq<byte>, e: nat)
    requires e == StringEnd(u, 0)
    ensures StringEnd(u[..e] + M(u[e..]), 0) == e
  {
    hide Minified;
    if e == |u| {
      MinifiedAtEnd([]);
    }
    ClosedString(u, 0, u[..e] + M(u[e..]));
  }

  lemma {:induction false} MinifiedHasNoNul(s: CStr, i: nat)
    requires i <= |s|
    ensures NUL !in Minified(s, i)
    decreases |s| - i
  {
    hide LineCommentEnd, BlockCommentEnd, StringEnd, Minified, CommentEnd;
    if i == |s| {
      MinifiedAtEnd(s);
    } else {
      MinifiedAt(s, i);
      if CommentAt(s, i) {
        MinifiedHasNoNul(s, CommentEnd(s, i));
      } else if s[i] == QUOTE {
        MinifiedHasNoNul(s, StringEnd(s, i + 1));
      } else {
        MinifiedHasNoNul(s, i + 1);
      }
    }
  }

  lemma MinifyIdempotent(s: CStr)
    ensures NUL !in Minify(s) && Minify(Minify(s)) == Minify(s)
  {
    MinifiedHasNoNul(s, 0);
    MinifyTwice(s);
  }
}
