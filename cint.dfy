/**
 * C integer division and remainder. C's `/` truncates toward zero and `%`
 * takes the sign of the dividend; Dafny's own operators are Euclidean. The
 * model uses these wherever the source divides integers.
 */
module CInt {

  function Abs(a: int): nat {
    if a < 0 then -a else a
  }

  /** `a / b` as C computes it. */
  function Div(a: int, b: int): int
    requires b != 0
  {
    if (a < 0) == (b < 0) then Abs(a) / Abs(b) else -(Abs(a) / Abs(b))
  }

  /** `a % b` as C computes it: `a == b * (a / b) + a % b`. */
  function Mod(a: int, b: int): int
    requires b != 0
  {
    a - b * Div(a, b)
  }

  /** For a non-negative dividend and a positive divisor C agrees with Dafny. */
  lemma NonNegativeAgrees(a: int, b: int)
    requires 0 <= a && 0 < b
    ensures Div(a, b) == a / b && Mod(a, b) == a % b
  {
  }

  /** The remainder of a negative dividend is never positive, and is smaller than the divisor in magnitude. */
  lemma NegativeRemainder(a: int, b: int)
    requires a < 0 && 0 < b
    ensures -b < Mod(a, b) <= 0
    ensures Div(a, b) <= 0
  {
    var q := Abs(a) / b;
    var r := Abs(a) % b;
    assert Abs(a) == q * b + r;
    assert Div(a, b) == -q;
    assert Mod(a, b) == a + b * q;
    assert a + b * q == -r;
  }

  lemma MulLe(a: int, b: int, s: nat)
    requires a <= b
    ensures a * s <= b * s
  {
  }

  /** For a positive stride, `k s <= i < k s + s` holds exactly for `k == i / s`. */
  lemma {:induction false} StrideBlock(i: nat, s: nat, k: int)
    requires s > 0
    ensures k * s <= i < k * s + s <==> k == i / s
  {
    var q := i / s;
    assert i == q * s + i % s;
    if k < q {
      MulLe(k + 1, q, s);
      assert k * s + s == (k + 1) * s;
    } else if k > q {
      MulLe(q + 1, k, s);
      assert q * s + s == (q + 1) * s;
    }
  }

  /** With a positive stride, `(P - 1) s <= i` says exactly that `i / s` reaches `P - 1`. */
  lemma {:induction false} LastBlock(i: nat, s: nat, last: int)
    requires s > 0
    ensures last * s <= i <==> last <= i / s
  {
    var q := i / s;
    assert i == q * s + i % s;
    if last <= q {
      MulLe(last, q, s);
    } else {
      MulLe(q + 1, last, s);
      assert q * s + s == (q + 1) * s;
    }
  }

  /** `q * m + r` with `0 <= r < m` divides into quotient `q` and remainder `r`. */
  lemma {:induction false} DivideExactly(x: nat, m: nat, q: int, r: int)
    requires 0 < m && 0 <= r < m && x == q * m + r
    ensures x / m == q && x % m == r
  {
    StrideBlock(x, m, q);
  }
}
