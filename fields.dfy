/** Arithmetic on the bit fields of one packed octet and its neighbours:
    how Combine places parts of two septets in an octet and how Window reads
    a septet back out of two adjacent octets. */
module Fields {
  import opened Bytes
  import opened Septets

  /** Window as division: the shift `>> off` is `/ 2^off`. */
  lemma WindowDiv(lo: Byte, hi: Byte, off: nat)
    requires off < 8
    ensures Window(lo, hi, off) == ((lo + 256 * hi) / Pow2(off)) % 128
  {
    ShrDiv(lo + 256 * hi, off);
  }

  /** Combine as division and multiplication by powers of two. */
  lemma CombineDiv(p: Byte, a: Byte, r: nat)
    requires 1 <= r <= 7
    ensures Combine(p, a, r) == ((p / Pow2(r - 1)) % 128 + (a * Pow2(8 - r)) % 256) % 256
  {
    ShrDiv(p, r - 1);
    ShlMul(a, 8 - r);
  }

  lemma Pow2Split(r: nat)
    requires 1 <= r <= 7
    ensures Pow2(r - 1) * Pow2(8 - r) == 128
    ensures Pow2(8 - r) * Pow2(r) == 256
    ensures Pow2(9 - r) * Pow2(r - 1) == 256
    ensures Pow2(r) == 2 * Pow2(r - 1) && Pow2(8 - r) >= 2
  {
    Pow2Sum(r - 1, 8 - r);
    Pow2Sum(8 - r, r);
    Pow2Sum(9 - r, r - 1);
    assert Pow2(7) == 128 && Pow2(8) == 256;
  }

  lemma FieldsFit(lo: int, hi: int, q: int)
    requires 0 <= lo < q <= 128 && 0 <= hi <= 256 - q
    ensures (lo % 128 + hi) % 256 == lo + hi
  {
  }

  /** The bits of p from the bit of weight w up, below the low bits of a
      shifted to weight q, where w * q == 128 and q * v == 256. */
  lemma SplitFields(p: int, a: int, w: int, q: int, v: int)
    requires w > 0 && q > 0 && v > 0 && w * q == 128 && q * v == 256
    requires 0 <= p < 128 && 0 <= a
    ensures ((p / w) % 128 + (a * q) % 256) % 256 == p / w + q * (a % v)
    ensures 0 <= p / w < q
  {
    DivBelow(p, w, q);
    MulMod(a, q, v);
    MulAtLeast(q, w);
    FieldBelow(a % v, q, v, 256);
    FieldsFit(p / w, (a % v) * q, q);
  }

  /** A field value below v, shifted by q, stays below the field above it. */
  lemma FieldBelow(x: int, q: int, v: int, n: int)
    requires 0 <= x < v && q > 0 && q * v == n
    ensures 0 <= x * q <= n - q
  {
    assert (v - 1 - x) * q >= 0;
    assert (v - 1 - x) * q == v * q - q - x * q;
  }

  /** Combine(p, a, r) is the bits of p from bit r-1 up, below the low r
      bits of a. */
  lemma CombineFields(p: Byte, a: Byte, r: nat)
    requires 1 <= r <= 7 && p < 128
    ensures Combine(p, a, r) == p / Pow2(r - 1) + Pow2(8 - r) * (a % Pow2(r))
    ensures 0 <= p / Pow2(r - 1) < Pow2(8 - r)
  {
    CombineDiv(p, a, r);
    Pow2Split(r);
    SplitFields(p, a, Pow2(r - 1), Pow2(8 - r), Pow2(r));
  }

  lemma WindowTail(u: int, a: int, c: int, q: int)
    requires 0 <= u < q && 0 <= a < 128 && c >= 0
    ensures ((u + q * (a + 128 * c)) / q) % 128 == a
  {
    DivModUnique(u + q * (a + 128 * c), q, a + 128 * c, u);
    DivModUnique(a + 128 * c, 128, c, a);
  }

  /** The two octets around a septet, regrouped around the septet. */
  lemma Regroup(u: int, a: int, c: int, q: int, v: int, s: int)
    requires q * v == 256 && v * s == 128
    ensures u + q * (a % v) + 256 * (a / v + s * c) == u + q * (a + 128 * c)
  {
    assert a == v * (a / v) + a % v;
    assert 256 * (a / v + s * c) == q * (v * (a / v)) + q * (128 * c) by {
      assert 256 * (a / v + s * c) == (q * v) * (a / v) + (q * v) * s * c;
      assert (q * v) * s * c == q * (v * s) * c;
    }
  }

  /** Reading back the septet placed by Combine: a septet whose first r - 1
      bits went into the octet before is found at bit 8 - r of the window
      over that octet and the next one. */
  lemma WindowOfCombine(p: Byte, a: Byte, b: Byte, z: Byte, r: nat)
    requires 1 <= r <= 7 && p < 128 && a < 128 && b < 128
    ensures Window(Combine(p, a, r), if r < 7 then Combine(a, b, r + 1) else z, 8 - r) == a
  {
    if r < 7 {
      WindowOfCombineInner(p, a, b, r);
    } else {
      WindowOfCombineLast(p, a, z);
    }
  }

  lemma WindowOfCombineInner(p: Byte, a: Byte, b: Byte, r: nat)
    requires 1 <= r < 7 && p < 128 && a < 128
    ensures Window(Combine(p, a, r), Combine(a, b, r + 1), 8 - r) == a
  {
    var Q, R := Pow2(8 - r), Pow2(r);
    Pow2Split(r);
    Pow2Split(r + 1);
    CombineFields(p, a, r);
    CombineFields(a, b, r + 1);
    var u, c := p / Pow2(r - 1), b % Pow2(r + 1);
    Regroup(u, a, c, Q, R, Pow2(7 - r));
    WindowDiv(Combine(p, a, r), Combine(a, b, r + 1), 8 - r);
    WindowTail(u, a, c, Q);
  }

  lemma WindowOfCombineLast(p: Byte, a: Byte, z: Byte)
    requires p < 128 && a < 128
    ensures Window(Combine(p, a, 7), z, 1) == a
  {
    Pow2Split(7);
    CombineFields(p, a, 7);
    var u := p / Pow2(6);
    assert Combine(p, a, 7) + 256 * z == u + 2 * (a + 128 * z);
    WindowDiv(Combine(p, a, 7), z, 1);
    WindowTail(u, a, z, 2);
  }

  /** The first septet of a group of eight is the low seven bits of its
      octet. */
  lemma WindowOfFirst(a: Byte, b: Byte, z: Byte)
    requires a < 128
    ensures Window(Combine(a, b, 1), z, 0) == a
  {
    CombineFields(a, b, 1);
    WindowDiv(Combine(a, b, 1), z, 0);
    var w := Combine(a, b, 1) + 256 * z;
    assert Pow2(0) == 1 && Pow2(7) == 128 && Pow2(1) == 2;
    assert w == a + 128 * (b % 2 + 2 * z);
    DivModUnique(w, 1, w, 0);
    DivModUnique(w, 128, b % 2 + 2 * z, a);
  }

  /** Shifting the window `x + 256 * y` down by t, where t * w == 256,
      leaves y shifted up by w above the top bits of x. */
  lemma ShiftWindow(x: Byte, y: Byte, w: int, t: int)
    requires w > 0 && t > 0 && t * w == 256
    ensures (x + 256 * y) / t == w * y + x / t
    ensures 0 <= x / t < w
  {
    DivBelow(x, t, w);
    assert x == t * (x / t) + x % t;
    assert t * (w * y) == (t * w) * y;
    DivModUnique(x + 256 * y, t, w * y + x / t, x % t);
  }

  /** Of y shifted up by w above a value below w, seven bits keep the low
      bits of y of width q, where w * q == 128. */
  lemma LowBitsShifted(y: Byte, v: int, w: int, q: int)
    requires 0 <= v < w && q > 0 && w * q == 128
    ensures (((w * y + v) % 128) / w) % 128 == y % q
  {
    var hi, lo := y / q, y % q;
    assert w * y == 128 * hi + w * lo by {
      assert y == q * hi + lo;
      assert w * (q * hi) == (w * q) * hi;
    }
    FieldBelow(lo, w, q, 128);
    DivModUnique(w * y + v, 128, hi, w * lo + v);
    DivModUnique(w * lo + v, w, lo, v);
    MulAtLeast(q, w);
  }

  /** The window starting r - 1 bits before the top of octet x, shifted
      down by r - 1, is the low 8 - r bits of the following octet y; here
      w, q and t stand for 2^(r-1), 2^(8-r) and 2^(9-r). */
  lemma LowFieldOfWindow(x: Byte, y: Byte, w: int, q: int, t: int)
    requires w > 0 && q > 0 && t > 0 && t * w == 256 && w * q == 128
    ensures ((((x + 256 * y) / t) % 128) / w) % 128 == y % q
  {
    ShiftWindow(x, y, w, t);
    LowBitsShifted(y, x / t, w, q);
  }

  /** Shifting the window `y + 256 * z` down by q, where q * v == 256,
      leaves z shifted up by v above the top bits of y. */
  lemma ShiftWindowAgain(y: Byte, z: Byte, q: int, v: int)
    requires q > 0 && v > 0 && q * v == 256
    ensures (y + 256 * z) / q == y / q + v * z
  {
    assert y == q * (y / q) + y % q;
    assert q * (v * z) == (q * v) * z;
    DivModUnique(y + 256 * z, q, y / q + v * z, y % q);
  }

  /** Seven bits of s shifted back up by an even q and cut to eight bits
      are the bits of s * q cut to eight bits. */
  lemma ShiftBack(s: int, q: int, n: int)
    requires q > 0 && q % 2 == 0 && 0 <= n < 256
    requires s * q == n + 256 * (s * q / 256)
    ensures ((s % 128) * q) % 256 == n
  {
    var h := q / 2;
    assert (s % 128) * q == n + 256 * (s * q / 256 - h * (s / 128)) by {
      assert s == 128 * (s / 128) + s % 128;
      assert (s % 128) * q == s * q - (128 * (s / 128)) * q;
      assert (128 * (s / 128)) * q == 256 * (h * (s / 128));
    }
    DivModUnique((s % 128) * q, 256, s * q / 256 - h * (s / 128), n);
  }

  /** The window starting at bit 8 - r of octet y, shifted back up by
      8 - r and cut to eight bits, is the high r bits of y in place; q and v
      stand for 2^(8-r) and 2^r. */
  lemma HighFieldOfWindow(y: Byte, z: Byte, q: int, v: int)
    requires q > 0 && v > 0 && q * v == 256 && q % 2 == 0
    ensures ((((y + 256 * z) / q) % 128) * q) % 256 == q * (y / q)
  {
    var s, n := y / q + v * z, q * (y / q);
    assert (y + 256 * z) / q == s by {
      ShiftWindowAgain(y, z, q, v);
    }
    assert 0 <= n < 256 && s * q == n + 256 * (s * q / 256) by {
      HighPart(y, z, q, v, s, n);
    }
    ShiftBack(s, q, n);
  }

  /** The window value s = y / q + v * z, shifted back up by q, is the high
      bits n of y plus 256 times z. */
  lemma HighPart(y: Byte, z: Byte, q: int, v: int, s: int, n: int)
    requires q > 0 && v > 0 && q * v == 256
    requires s == y / q + v * z && n == q * (y / q)
    ensures 0 <= n < 256 && s * q == n + 256 * (s * q / 256)
  {
    assert s * q == n + 256 * z by {
      assert s * q == q * (y / q) + (q * v) * z;
    }
    assert 0 <= n <= y by {
      assert y == q * (y / q) + y % q;
    }
    DivModUnique(s * q, 256, z, n);
  }


  /** The septet that ends in octet j when octet j is rebuilt: the whole
      septet for the first octet of a group of seven, else the window
      that starts r - 1 bits below the top of the octet before. */
  function FirstWindow(x: Byte, y: Byte, z: Byte, r: nat): Byte
    requires 1 <= r <= 7
  {
    if r == 1 then Window(y, z, 0) else Window(x, y, 9 - r)
  }

  lemma FirstWindowField(x: Byte, y: Byte, z: Byte, r: nat)
    requires 1 <= r <= 7
    ensures (FirstWindow(x, y, z, r) / Pow2(r - 1)) % 128 == y % Pow2(8 - r)
  {
    Pow2Split(r);
    if r == 1 {
      WindowDiv(y, z, 0);
      var w := y + 256 * z;
      assert Pow2(0) == 1 && Pow2(7) == 128;
      assert w == y % 128 + 128 * (y / 128 + 2 * z);
      DivModUnique(w, 1, w, 0);
      DivModUnique(w, 128, y / 128 + 2 * z, y % 128);
      DivModUnique(y % 128, 1, y % 128, 0);
    } else {
      WindowDiv(x, y, 9 - r);
      LowFieldOfWindow(x, y, Pow2(r - 1), Pow2(8 - r), Pow2(9 - r));
    }
  }

  /** Re-packing the two septets read from around octet y gives y back. */
  lemma CombineOfWindows(x: Byte, y: Byte, z: Byte, r: nat)
    requires 1 <= r <= 7
    ensures Combine(FirstWindow(x, y, z, r), Window(y, z, 8 - r), r) == y
  {
    FirstWindowField(x, y, z, r);
    HighOfWindow(y, z, r);
    CombineParts(FirstWindow(x, y, z, r), Window(y, z, 8 - r), y, r);
  }

  /** Shifted left by 8 - r, the window at bit 8 - r of y, z keeps the
      high r bits of y. */
  lemma HighOfWindow(y: Byte, z: Byte, r: nat)
    requires 1 <= r <= 7
    ensures (Window(y, z, 8 - r) * Pow2(8 - r)) % 256 == Pow2(8 - r) * (y / Pow2(8 - r))
  {
    var Q := Pow2(8 - r);
    WindowDiv(y, z, 8 - r);
    Pow2Split(r);
    assert Q % 2 == 0 by { assert Q == 2 * Pow2(7 - r); }
    HighFieldOfWindow(y, z, Q, Pow2(r));
  }

  /** An octet combined from a low field holding the low 8 - r bits of y
      and a high field holding the rest of y is y. */
  lemma CombineParts(first: Byte, w: Byte, y: Byte, r: nat)
    requires 1 <= r <= 7
    requires (first / Pow2(r - 1)) % 128 == y % Pow2(8 - r)
    requires (w * Pow2(8 - r)) % 256 == Pow2(8 - r) * (y / Pow2(8 - r))
    ensures Combine(first, w, r) == y
  {
    CombineDiv(first, w, r);
    Reunite(y, Pow2(8 - r));
  }

  lemma Reunite(y: Byte, q: int)
    requires q > 0
    ensures (y % q + q * (y / q)) % 256 == y
  {
    assert y == q * (y / q) + y % q;
  }

  /** With a zero septet in place of the next one, only the low 8 - r bits
      of y are rebuilt. */
  lemma CombineOfWindowAndZero(x: Byte, y: Byte, z: Byte, r: nat)
    requires 1 <= r <= 7
    ensures Combine(FirstWindow(x, y, z, r), 0, r) == y % Pow2(8 - r)
  {
    var Q := Pow2(8 - r);
    var first := FirstWindow(x, y, z, r);
    assert Combine(first, 0, r) == ((first / Pow2(r - 1)) % 128) % 256 by {
      CombineWithZero(first, r);
    }
    assert (first / Pow2(r - 1)) % 128 == y % Q by {
      FirstWindowField(x, y, z, r);
    }
    assert y % Q < 128 by {
      Pow2Split(r);
      MulAtLeast(Q, Pow2(r - 1));
    }
  }

  lemma CombineWithZero(f: Byte, r: nat)
    requires 1 <= r <= 7
    ensures Combine(f, 0, r) == ((f / Pow2(r - 1)) % 128) % 256
  {
    CombineDiv(f, 0, r);
    assert 0 * Pow2(8 - r) == 0;
  }

  /** The spare top r bits of a last octet y are all zero exactly when y
      keeps its value under `% 2^(8-r)`. */
  lemma SpareBits(y: Byte, r: nat)
    requires 1 <= r <= 7
    ensures Window(y, 0, 8 - r) == 0 <==> y % Pow2(8 - r) == y
  {
    var Q := Pow2(8 - r);
    HighBits(y, r);
    LowBitsAll(y, Q);
  }

  /** Bits 8-r and up of an octet, read through a window with a zero high octet. */
  lemma HighBits(y: Byte, r: nat)
    requires 1 <= r <= 7
    ensures Window(y, 0, 8 - r) == y / Pow2(8 - r)
  {
    var Q, R := Pow2(8 - r), Pow2(r);
    var d := y / Q;
    WindowDiv(y, 0, 8 - r);
    assert y + 256 * 0 == y;
    Pow2Split(r);
    DivBelow(y, Q, R);
    MulAtLeast(Pow2(r - 1), 1);
    DivModUnique(d, 128, 0, d);
  }

  /** A value is its own low bits exactly when its high part is zero. */
  lemma LowBitsAll(y: nat, Q: nat)
    requires Q > 0
    ensures y % Q == y <==> y / Q == 0
  {
    var d := y / Q;
    assert y == Q * d + y % Q;
    if d != 0 {
      MulAtLeast(Q, d);
    }
  }

  lemma CombineZero(r: nat)
    requires 1 <= r <= 7
    ensures Combine(0, 0, r) == 0
  {
    CombineDiv(0, 0, r);
    var p := Pow2(r - 1);
    assert 0 / p == 0 by { DivModUnique(0, p, 0, 0); }
  }

  lemma WindowZero(off: nat)
    requires off < 8
    ensures Window(0, 0, off) == 0
  {
    WindowDiv(0, 0, off);
    DivModUnique(0, Pow2(off), 0, 0);
  }
}
