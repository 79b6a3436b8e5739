/** Bytes of a text, C strings, and the placement of one text inside another. */
module Bytes {
  type byte = b: int | 0 <= b < 256

  /** The contents of a C string: the bytes before its terminator. */
  type CStr = s: seq<byte> | 0 !in s

  const NUL: byte := 0
  const TAB: byte := 9
  const NEWLINE: byte := 10
  const RETURN: byte := 13
  const SPACE: byte := 32
  const QUOTE: byte := 34
  const STAR: byte := 42
  const PLUS: byte := 43
  const COMMA: byte := 44
  const MINUS: byte := 45
  const DOT: byte := 46
  const SLASH: byte := 47
  const ZERO: byte := 48
  const COLON: byte := 58
  const LBRACKET: byte := 91
  const BACKSLASH: byte := 92
  const RBRACKET: byte := 93
  const LBRACE: byte := 123
  const RBRACE: byte := 125

  datatype Option<+T> = None | Some(value: T)

  function Min(a: int, b: int): int {
    if a < b then a else b
  }

  /** `w` stands in `c` at offset `o`. */
  predicate At(c: seq<byte>, o: nat, w: seq<byte>) {
    o + |w| <= |c| && c[o..o + |w|] == w
  }

  lemma AtSplit(c: seq<byte>, o: nat, u: seq<byte>, v: seq<byte>)
    ensures At(c, o, u + v) <==> At(c, o, u) && At(c, o + |u|, v)
  {
    if o + |u| + |v| <= |c| {
      assert c[o..o + |u + v|] == c[o..o + |u|] + c[o + |u|..o + |u| + |v|];
      if At(c, o, u + v) {
        assert c[o..o + |u|] == (u + v)[..|u|];
        assert c[o + |u|..o + |u| + |v|] == (u + v)[|u|..];
      }
    }
  }

  lemma AtByte(c: seq<byte>, o: nat, w: seq<byte>, k: nat)
    requires At(c, o, w) && k < |w|
    ensures o + |w| <= |c| && c[o + k] == w[k]
  {
    assert c[o..o + |w|][k] == c[o + k];
  }

  lemma Assoc(a: seq<byte>, b: seq<byte>, c: seq<byte>)
    ensures (a + b) + c == a + (b + c)
  {
  }

  /** What a C reader sees of a byte run: everything before the first NUL. */
  function Visible(s: seq<byte>): (r: CStr)
    ensures |r| <= |s| && r == s[..|r|]
    ensures |r| < |s| ==> s[|r|] == NUL
  {
    if s == [] || s[0] == NUL then [] else
      var r := Visible(s[1..]);
      assert 0 !in [s[0]] + r;
      [s[0]] + r
  }

  lemma {:induction false} VisibleOfCStr(s: CStr)
    ensures Visible(s) == s
  {
    if s != [] {
      assert s[0] in s;
      assert forall b :: b in s[1..] ==> b in s;
      VisibleOfCStr(s[1..]);
    }
  }

  lemma AssocOf<T>(a: seq<T>, b: seq<T>, c: seq<T>)
    ensures (a + b) + c == a + (b + c)
  {
  }
}
