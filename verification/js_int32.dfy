/**
 * The integer semantics of JavaScript's bitwise operators (`|`, `&`, `<<`,
 * `>>`, `~`), stated on mathematical integers. Every bitwise operator first
 * converts its operands with ToInt32 / ToUint32 (ECMAScript 2024, section
 * 7.1.6 and 7.1.7) and produces a signed 32-bit result.
 */
module JsInt32 {

  const TWO_30: int := 0x4000_0000
  const TWO_31: int := 0x8000_0000
  const TWO_32: int := 0x1_0000_0000

  predicate IsInt32(x: int) {
    -TWO_31 <= x < TWO_31
  }

  function Pow2(n: nat): (r: nat)
    ensures r >= 1
  {
    if n == 0 then 1 else 2 * Pow2(n - 1)
  }

  /** `x * 2^n`, by doubling `n` times. */
  function Scale(x: int, n: nat): (r: int)
    ensures x >= 0 ==> r >= 0
  {
    if n == 0 then x else 2 * Scale(x, n - 1)
  }

  /** ToUint32: the unique value in [0, 2^32) congruent to `x` modulo 2^32. */
  function ToUint32(x: int): (r: int)
    ensures 0 <= r < TWO_32
    ensures (x - r) % TWO_32 == 0
    ensures 0 <= x < TWO_32 ==> r == x
  {
    x % TWO_32
  }

  /** ToInt32: the unique value in [-2^31, 2^31) congruent to `x` modulo 2^32. */
  function ToInt32(x: int): (r: int)
    ensures IsInt32(r)
    ensures (x - r) % TWO_32 == 0
    ensures IsInt32(x) ==> r == x
  {
    var u := x % TWO_32;
    if u >= TWO_31 then u - TWO_32 else u
  }

  /** Bitwise or of two naturals, bit by bit from the least significant end. */
  function BitOr(a: nat, b: nat): (r: nat)
    decreases a + b
  {
    if a == 0 then b
    else if b == 0 then a
    else 2 * BitOr(a / 2, b / 2) + (if a % 2 == 1 || b % 2 == 1 then 1 else 0)
  }

  /** `x | y` */
  function Or(x: int, y: int): (r: int)
    ensures IsInt32(r)
    ensures ToUint32(y) == 0 ==> r == ToInt32(x)
  {
    ToInt32(BitOr(ToUint32(x), ToUint32(y)))
  }

  lemma {:induction false} BitOrCommutes(a: nat, b: nat)
    ensures BitOr(a, b) == BitOr(b, a)
    decreases a + b
  {
    if a != 0 && b != 0 {
      BitOrCommutes(a / 2, b / 2);
    }
  }

  /** `x | y == y | x` */
  lemma OrCommutes(x: int, y: int)
    ensures Or(x, y) == Or(y, x)
  {
    BitOrCommutes(ToUint32(x), ToUint32(y));
  }

  /**
   * `x & (2^k - 1)`, the mask of the `k` low bits: the residue of `x`
   * modulo `2^k`, negative `x` included (two's complement). With `k < 32`
   * the mask is a positive 32-bit value, so the result is one too.
   */
  function MaskLow(x: int, k: nat): (r: int)
    requires k < 32
    ensures 0 <= r < Pow2(k)
    ensures IsInt32(r)
    ensures r == x % Pow2(k)
  {
    Pow2Add(k, 32 - k);
    Pow2Of32();
    ModOfMultiple(x, Pow2(k), Pow2(32 - k));
    assert Pow2(k) <= TWO_31 by {
      Pow2Monotone(k, 31);
      Pow2Values();
    }
    ToUint32(x) % Pow2(k)
  }

  /** `x << s`: only the five low bits of the shift count are used. */
  function Shl(x: int, s: int): (r: int)
    ensures IsInt32(r)
  {
    ToInt32(Scale(ToUint32(x), s % 32))
  }

  /** `x >> s`: the arithmetic (sign-propagating) right shift. */
  function Sar(x: int, s: int): (r: int)
    ensures IsInt32(r)
  {
    var y, d := ToInt32(x), Pow2(s % 32);
    DivBounds(y, d);
    y / d
  }

  /**
   * `>>` rounds towards minus infinity: `x >> s` is the largest `q` with
   * `q * 2^(s % 32) <= ToInt32(x)`.
   */
  lemma SarIsFloor(x: int, s: int)
    ensures Sar(x, s) * Pow2(s % 32) <= ToInt32(x) < (Sar(x, s) + 1) * Pow2(s % 32)
  {
  }

  /** `~x` */
  function BitNot(x: int): (r: int)
    ensures IsInt32(r)
    ensures ToUint32(r) + ToUint32(x) == TWO_32 - 1
  {
    -ToInt32(x) - 1
  }

  lemma DivBounds(y: int, d: int)
    requires IsInt32(y) && d >= 1
    ensures IsInt32(y / d)
  {
    DivBetween(y, d);
  }

  /** Dividing by a positive `d` moves `y` towards zero but never past it. */
  lemma DivBetween(y: int, d: int)
    requires d >= 1
    ensures y >= 0 ==> 0 <= y / d <= y
    ensures y < 0 ==> y <= y / d < 0
  {
    var q, r := y / d, y % d;
    assert y == d * q + r && 0 <= r < d;
    if q >= 0 {
      MulAtLeast(d, q);
    } else {
      MulAtLeast(d - 1, -q);
      assert (d - 1) * -q >= d - 1;
      assert q - y == (d - 1) * -q - r;
    }
  }

  lemma MulAtLeast(d: int, q: int)
    requires d >= 0 && q >= 0
    ensures d * q >= q || d == 0
    ensures q >= 1 ==> d * q >= d
  {
  }

  lemma {:induction false} ScaleIsMul(x: int, n: nat)
    ensures Scale(x, n) == x * Pow2(n)
  {
    if n > 0 {
      ScaleIsMul(x, n - 1);
    }
  }

  lemma {:induction false} ScaleZero(n: nat)
    ensures Scale(0, n) == 0
  {
    if n > 0 {
      ScaleZero(n - 1);
    }
  }

  /**
   * Shifting a 5-bit chunk `p` left by `s` is exact when the result stays
   * below the sign bit.
   */
  lemma ShlChunk(p: int, s: nat)
    requires 0 <= p < 32 && Scale(p, s) < TWO_31
    ensures Shl(p, s) == Scale(p, s)
  {
    assert ToUint32(p) == p;
    if p == 0 {
      ScaleZero(s);
      ScaleZero(s % 32);
    } else {
      ShiftBelow31(p, s);
      assert s % 32 == s;
      ScaleIsMul(p, s);
      MulAtLeast(p, Pow2(s));
      assert ToInt32(Scale(p, s)) == Scale(p, s);
    }
  }

  lemma ShiftBelow31(p: int, s: nat)
    requires 1 <= p && Scale(p, s) < TWO_31
    ensures s < 31
  {
    ScaleIsMul(p, s);
    MulAtLeast(p, Pow2(s));
    Pow2Values();
    if s >= 31 {
      Pow2Monotone(31, s);
    }
  }

  lemma Pow2Add(m: nat, n: nat)
    ensures Pow2(m + n) == Pow2(m) * Pow2(n)
  {
    if n > 0 {
      Pow2Add(m, n - 1);
    }
  }

  lemma Pow2Monotone(m: nat, n: nat)
    requires m <= n
    ensures Pow2(m) <= Pow2(n)
  {
    if m < n {
      Pow2Monotone(m, n - 1);
    }
  }

  /**
   * `x << s` agrees with `x * 2^(s % 32)` modulo 2^32: the shift of the
   * standard, before the result is read back as a signed 32-bit value.
   */
  lemma ShlCongruent(x: int, s: int)
    ensures (Shl(x, s) - x * Pow2(s % 32)) % TWO_32 == 0
  {
    var u, n := ToUint32(x), s % 32;
    var a := Scale(u, n);
    assert (a - Shl(x, s)) % TWO_32 == 0;
    ScaleIsMul(u, n);
    CongruentScaled(x, u, Pow2(n));
    CongruentShared(a, Shl(x, s), x * Pow2(n));
  }

  lemma CongruentScaled(a: int, b: int, p: int)
    requires (a - b) % TWO_32 == 0
    ensures (b * p - a * p) % TWO_32 == 0
  {
    var m := (a - b) / TWO_32;
    assert a - b == TWO_32 * m;
    assert b * p - a * p == TWO_32 * (-m * p) by {
      assert b * p - a * p == -(a - b) * p;
    }
    ModUnique(b * p - a * p, TWO_32, -m * p, 0);
  }

  /** Two values congruent to the same `a` modulo 2^32 are congruent to each other. */
  lemma CongruentShared(a: int, b: int, c: int)
    requires (a - b) % TWO_32 == 0 && (a - c) % TWO_32 == 0
    ensures (b - c) % TWO_32 == 0
  {
    var m, n := (a - b) / TWO_32, (a - c) / TWO_32;
    assert a - b == TWO_32 * m && a - c == TWO_32 * n;
    ModUnique(b - c, TWO_32, n - m, 0);
  }

  /** Division with remainder is unique. */
  lemma ModUnique(x: int, d: int, q: int, r: int)
    requires d >= 1 && 0 <= r < d && x == d * q + r
    ensures x % d == r && x / d == q
  {
    var q', r' := x / d, x % d;
    assert d * (q - q') == r' - r;
    if q > q' {
      MulAtLeast(d, q - q');
    } else if q < q' {
      MulAtLeast(d, q' - q);
    }
  }

  /** Reducing modulo `p * q` first does not change the residue modulo `p`. */
  lemma ModOfMultiple(x: int, p: int, q: int)
    requires p >= 1 && q >= 1
    ensures p * q >= 1
    ensures (x % (p * q)) % p == x % p
  {
    MulAtLeast(p, q);
    var m := p * q;
    var a, b := x / m, x % m;
    var c, d := b / p, b % p;
    assert x == m * a + b && b == p * c + d && 0 <= d < p;
    assert m * a == p * (q * a);
    ModUnique(x, p, q * a + c, d);
  }

  lemma Pow2Of32()
    ensures Pow2(32) == TWO_32
  {
    Pow2Values();
    Pow2Add(31, 1);
  }

  lemma Pow2Values()
    ensures Pow2(5) == 32
    ensures Pow2(30) == TWO_30
    ensures Pow2(31) == TWO_31
  {
    Pow2Add(5, 5);
    Pow2Add(10, 10);
    Pow2Add(20, 10);
    Pow2Add(30, 1);
  }

  /**
   * When the set bits of `a` all lie below bit `n` and those of `m * 2^n` all
   * at or above it, or-ing them is adding them.
   */
  lemma {:induction false} BitOrDisjoint(a: nat, m: nat, n: nat)
    requires a < Pow2(n)
    ensures Scale(m, n) >= 0
    ensures BitOr(a, Scale(m, n)) == a + Scale(m, n)
  {
    if n == 0 {
    } else {
      BitOrDisjoint(a / 2, m, n - 1);
    }
  }
}
