/** Integers as bytes, in either order. */
module Endian {
  import opened Bytes

  datatype Order = Little | Big

  function Pow256(n: nat): (p: nat)
    ensures p > 0
  {
    if n == 0 then 1 else 256 * Pow256(n - 1)
  }

  function ToBig(v: nat, n: nat): (s: seq<byte>)
    ensures |s| == n
  {
    if n == 0 then [] else ToBig(v / 256, n - 1) + [v % 256]
  }

  function FromBig(s: seq<byte>): nat {
    if s == [] then 0 else 256 * FromBig(s[..|s| - 1]) + s[|s| - 1] as nat
  }

  function ToLittle(v: nat, n: nat): (s: seq<byte>)
    ensures |s| == n
  {
    if n == 0 then [] else [v % 256] + ToLittle(v / 256, n - 1)
  }

  function FromLittle(s: seq<byte>): nat {
    if s == [] then 0 else s[0] as nat + 256 * FromLittle(s[1..])
  }

  /** The host's own order. */
  function ToHost(v: nat, n: nat, order: Order): seq<byte> {
    if order == Little then ToLittle(v, n) else ToBig(v, n)
  }

  function FromHost(s: seq<byte>, order: Order): nat {
    if order == Little then FromLittle(s) else FromBig(s)
  }

  lemma {:induction false} BigRoundTrip(v: nat, n: nat)
    requires v < Pow256(n)
    ensures FromBig(ToBig(v, n)) == v
  {
    if n > 0 {
      BigRoundTrip(v / 256, n - 1);
      LastByte(ToBig(v / 256, n - 1), v % 256);
    }
  }

  lemma LastByte(s: seq<byte>, b: byte)
    ensures FromBig(s + [b]) == 256 * FromBig(s) + b as nat
  {
    assert (s + [b])[..|s|] == s;
  }

  lemma {:induction false} FromBigBounded(s: seq<byte>)
    ensures FromBig(s) < Pow256(|s|) && ToBig(FromBig(s), |s|) == s
  {
    if s != [] {
      var t, b := s[..|s| - 1], s[|s| - 1];
      FromBigBounded(t);
      assert FromBig(s) / 256 == FromBig(t) && FromBig(s) % 256 == b;
      assert s == t + [b];
    }
  }

  lemma {:induction false} LittleRoundTrip(v: nat, n: nat)
    requires v < Pow256(n)
    ensures FromLittle(ToLittle(v, n)) == v
  {
    if n > 0 {
      LittleRoundTrip(v / 256, n - 1);
    }
  }

  lemma {:induction false} FromLittleBounded(s: seq<byte>)
    ensures FromLittle(s) < Pow256(|s|) && ToLittle(FromLittle(s), |s|) == s
  {
    if s != [] {
      FromLittleBounded(s[1..]);
      assert FromLittle(s) / 256 == FromLittle(s[1..]) && FromLittle(s) % 256 == s[0];
      assert s == [s[0]] + s[1..];
    }
  }

  /** A host integer survives the network order and back. */
  lemma HostRoundTrip(s: seq<byte>, order: Order)
    ensures FromHost(s, order) < Pow256(|s|)
    ensures FromBig(ToBig(FromHost(s, order), |s|)) == FromHost(s, order)
    ensures ToHost(FromBig(ToBig(FromHost(s, order), |s|)), |s|, order) == s
  {
    FromBigBounded(s);
    FromLittleBounded(s);
    BigRoundTrip(FromHost(s, order), |s|);
  }

  /** On a little-endian host the bytes change places, on a big-endian one they do not. */
  lemma {:induction false} NetworkOrder(s: seq<byte>, order: Order)
    ensures |s| > 0 ==> ToBig(FromHost(s, order), |s|)[0] == if order == Little then s[|s| - 1] else s[0]
    ensures order == Big ==> ToBig(FromHost(s, order), |s|) == s
    ensures order == Little ==> ToBig(FromHost(s, order), |s|) == Reversed(s)
    ensures |s| > 0 ==> Reversed(s)[0] == s[|s| - 1]
  {
    FromBigBounded(s);
    ReversedFirst(s);
    if order == Little {
      LittleIsReversed(s);
    }
  }

  function Reversed(s: seq<byte>): (r: seq<byte>)
    ensures |r| == |s|
  {
    if s == [] then [] else Reversed(s[1..]) + [s[0]]
  }

  lemma {:induction false} ReversedFirst(s: seq<byte>)
    ensures s != [] ==> Reversed(s)[0] == s[|s| - 1]
  {
    if |s| > 1 {
      ReversedFirst(s[1..]);
    }
  }

  lemma {:induction false} LittleIsReversed(s: seq<byte>)
    ensures ToBig(FromLittle(s), |s|) == Reversed(s)
  {
    if s != [] {
      LittleIsReversed(s[1..]);
      assert FromLittle(s) / 256 == FromLittle(s[1..]) && FromLittle(s) % 256 == s[0];
    }
  }

  // ---- 64-bit two's complement ----

  const TWO_63: int := 0x8000_0000_0000_0000
  const TWO_64: int := 0x1_0000_0000_0000_0000

  predicate IsInt64(v: int) {
    -TWO_63 <= v < TWO_63
  }

  function Unsigned64(v: int): (u: nat)
    ensures u < TWO_64
    ensures IsInt64(v) ==> u == if v < 0 then v + TWO_64 else v
  {
    v % TWO_64
  }

  function Signed64(u: nat): (v: int)
    requires u < TWO_64
    ensures IsInt64(v) && Unsigned64(v) == u
  {
    if u < TWO_63 then u else u - TWO_64
  }

  lemma EightBytes()
    ensures Pow256(8) == TWO_64
  {
    assert Pow256(1) == 256;
    assert Pow256(2) == 0x1_0000;
    assert Pow256(4) == 0x1_0000_0000;
  }
}
