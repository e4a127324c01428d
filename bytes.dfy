/** Octets and the shift arithmetic of the codec, on unbounded integers.
    A right shift `x >> s` is Shr(x, s), which is `x / Pow2(s)`, a left
    shift `x << s` is Shl(x, s), which is `x * Pow2(s)`, and the mask
    `& 0x7F` and the store into a `uint8_t` are `% 128` and `% 256`. */
module Bytes {

  /** An unsigned 8-bit value (`uint8_t`). */
  type Byte = x: int | 0 <= x < 256

  /** 2 to the power s. */
  function Pow2(s: nat): (p: nat)
    ensures p >= 1
  {
    if s == 0 then 1 else 2 * Pow2(s - 1)
  }

  lemma {:induction false} Pow2Sum(s: nat, t: nat)
    ensures Pow2(s + t) == Pow2(s) * Pow2(t)
  {
    if s > 0 {
      Pow2Sum(s - 1, t);
      assert Pow2(s + t) == 2 * Pow2(s - 1 + t);
    }
  }

  /** `x >> s`: s halvings, each dropping the lowest bit. */
  function Shr(x: nat, s: nat): nat
  {
    if s == 0 then x else Shr(x, s - 1) / 2
  }

  /** `x << s` on an unbounded integer. */
  function Shl(x: nat, s: nat): nat
  {
    if s == 0 then x else 2 * Shl(x, s - 1)
  }

  /** The low w bits of an octet, `y & ((1 << w) - 1)`. */
  function LowBits(y: Byte, w: nat): Byte
    requires w <= 8
  {
    Pow2Sum(w, 8 - w);
    MulAtLeast(Pow2(w), Pow2(8 - w));
    y % Pow2(w)
  }

  lemma {:induction false} ShrDiv(x: nat, s: nat)
    ensures Shr(x, s) == x / Pow2(s)
  {
    if s > 0 {
      ShrDiv(x, s - 1);
      DivDiv(x, Pow2(s - 1), 2);
    }
  }

  lemma {:induction false} ShlMul(x: nat, s: nat)
    ensures Shl(x, s) == x * Pow2(s)
  {
    if s > 0 {
      ShlMul(x, s - 1);
      assert x * Pow2(s) == 2 * (x * Pow2(s - 1));
    }
  }

  /** `x << 8` */
  lemma ShlOctet(x: nat)
    ensures Shl(x, 8) == 256 * x
  {
    ShlMul(x, 8);
    assert Pow2(8) == 256;
  }

  /** Dividing by a and then by b is dividing by a * b. */
  lemma DivDiv(x: nat, a: int, b: int)
    requires a > 0 && b > 0
    ensures x / a / b == x / (a * b)
  {
    var q, u := x / a, x % a;
    var h, v := q / b, q % b;
    assert x == a * (b * h + v) + u;
    assert x == (a * b) * h + (a * v + u) by {
      assert a * (b * h + v) == (a * b) * h + a * v;
    }
    assert 0 <= a * v + u < a * b by {
      MulNonneg(a, v);
      MulNonneg(a, b - 1 - v);
      assert a * (b - 1 - v) == a * b - a - a * v;
    }
    DivModUnique(x, a * b, h, a * v + u);
  }

  lemma MulAtLeast(p: int, d: int)
    requires p > 0 && d >= 1
    ensures p * d >= p
  {
    assert p * d == p * (d - 1) + p;
    assert p * (d - 1) >= 0;
  }

  /** A multiple of p strictly between -p and p is 0 times p. */
  lemma MulSmall(p: int, d: int)
    requires p > 0 && -p < p * d < p
    ensures d == 0
  {
    if d >= 1 {
      MulAtLeast(p, d);
      assert false;
    } else if d <= -1 {
      assert p * (-d) == -(p * d);
      MulAtLeast(p, -d);
      assert false;
    }
  }

  /** Euclidean division is determined by its quotient and remainder. */
  lemma DivModUnique(n: int, p: int, q: int, u: int)
    requires p > 0 && 0 <= u < p && n == p * q + u
    ensures n / p == q && n % p == u
  {
    var q', u' := n / p, n % p;
    assert n == p * q' + u' && 0 <= u' < p;
    assert p * (q - q') == u' - u;
    MulSmall(p, q - q');
  }

  lemma MulNonneg(x: int, y: int)
    requires x >= 0 && y >= 0
    ensures x * y >= 0
  {
  }

  /** Shifting left by p and keeping the low bits of width p * q keeps the
      low bits of width q of the value. */
  lemma MulMod(a: int, p: int, q: int)
    requires a >= 0 && p > 0 && q > 0
    ensures (a * p) % (p * q) == (a % q) * p
  {
    var h, l, n := a / q, a % q, p * q;
    assert a * p == n * h + l * p by {
      assert a == q * h + l;
      assert (q * h + l) * p == (q * h) * p + l * p;
      assert (q * h) * p == (p * q) * h;
    }
    assert 0 <= l * p < n by {
      MulNonneg(q - 1 - l, p);
      assert (q - 1 - l) * p == n - p - l * p;
    }
    DivModUnique(a * p, n, h, l * p);
  }

  lemma DivBelow(x: int, p: int, q: int)
    requires p > 0 && q > 0 && 0 <= x < p * q
    ensures 0 <= x / p < q
  {
    var d := x / p;
    assert x == p * d + x % p;
    assert p * (d - q + 1) == p * d - p * q + p;
    if d >= q {
      MulAtLeast(p, d - q + 1);
      assert false;
    }
  }
}
