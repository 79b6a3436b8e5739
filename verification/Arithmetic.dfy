/** Multiples and remainders: places in a packed array, and turns around a ring of buffers. */
module Arithmetic {
  /** Part k of count parts of one size ends inside the whole. */
  lemma PartInside(k: nat, count: nat, size: nat)
    requires k < count
    ensures k * size + size == (k + 1) * size <= count * size
  {
    assert count * size == (k + 1) * size + (count - k - 1) * size;
    assert (count - k - 1) * size >= 0;
  }

  lemma AtLeastOnce(n: nat, d: int)
    ensures d >= 1 ==> n * d >= n
    ensures d <= -1 ==> n * d + n <= 0
  {
    if d >= 1 {
      assert n * d == n * (d - 1) + n;
    } else if d <= -1 {
      assert n * d == n * (d + 1) - n;
    }
  }

  /** Quotient and remainder are unique. */
  lemma Remainder(a: nat, q: nat, r: nat, n: nat)
    requires n > 0 && r < n && a == n * q + r
    ensures a % n == r
  {
    var d := a / n - q;
    assert n * d == n * (a / n) - n * q;
    AtLeastOnce(n, d);
  }

  lemma Rotation(a: nat, n: nat)
    requires n >= 2
    ensures a % n < n && (a % n + 1) % n == (a + 1) % n && (a + 1) % n != a % n
  {
    var q, r := a / n, a % n;
    assert n * (q + 1) == n * q + n;
    if r + 1 < n {
      Remainder(a + 1, q, r + 1, n);
      Remainder(r + 1, 0, r + 1, n);
    } else {
      Remainder(a + 1, q + 1, 0, n);
      Remainder(r + 1, 1, 0, n);
    }
  }

  /** Two buffers on: the same one if there are two, another one if there are more. */
  lemma TwoOn(a: nat, n: nat)
    requires n >= 2
    ensures (a + 2) % n == a % n <==> n == 2
  {
    var q, r := a / n, a % n;
    assert n * (q + 1) == n * q + n;
    if r + 2 < n {
      Remainder(a + 2, q, r + 2, n);
    } else {
      Remainder(a + 2, q + 1, r + 2 - n, n);
    }
  }
}
