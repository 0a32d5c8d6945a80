/** Java's fixed-width integer arithmetic on top of Dafny's unbounded `int`. */
module JavaInt {

  const INT_HALF: int := 0x8000_0000
  const LONG_HALF: int := 0x8000_0000_0000_0000

  predicate IsInt(x: int) { -INT_HALF <= x < INT_HALF }
  predicate IsLong(x: int) { -LONG_HALF <= x < LONG_HALF }

  /** Java `int` and `long`. */
  type int32 = x: int | IsInt(x)
  type int64 = x: int | IsLong(x)

  /** The representative of x modulo 2 * half that lies in [-half, half). */
  function Wrap(x: int, half: int): (r: int)
    requires half > 0
    ensures -half <= r < half
    ensures (x - r) % (2 * half) == 0
    ensures -half <= x < half ==> r == x
  {
    var m := 2 * half;
    var q := (x + half) / m;
    assert x + half == q * m + (x + half) % m;
    ModUnique(q * m, q, 0, m);
    assert -half <= x < half ==> (x + half) % m == x + half by {
      if -half <= x < half {
        ModUnique(x + half, 0, x + half, m);
      }
    }
    ((x + half) % m) - half
  }

  /** The result of an `int` operation whose exact value is x. */
  function WrapInt(x: int): (r: int32)
    ensures (x - r) % (2 * INT_HALF) == 0
    ensures IsInt(x) ==> r == x
  {
    Wrap(x, INT_HALF)
  }

  /** The result of a `long` operation whose exact value is x. */
  function WrapLong(x: int): (r: int64)
    ensures (x - r) % (2 * LONG_HALF) == 0
    ensures IsLong(x) ==> r == x
  {
    Wrap(x, LONG_HALF)
  }

  /** Adding a multiple of the modulus does not change the wrapped value. */
  lemma {:induction false} WrapShift(x: int, k: int, half: int)
    requires half > 0
    ensures Wrap(x + k * (2 * half), half) == Wrap(x, half)
  {
    var m := 2 * half;
    var q := (x + half) / m;
    var r := (x + half) % m;
    assert x + half == q * m + r;
    assert x + k * m + half == (q + k) * m + r;
    ModUnique(x + k * m + half, q + k, r, m);
  }

  /** Euclidean division is unique. */
  lemma {:induction false} ModUnique(y: int, q: int, r: int, m: int)
    requires m > 0 && 0 <= r < m && y == q * m + r
    ensures y % m == r && y / m == q
  {
    var q', r' := y / m, y % m;
    assert y == q' * m + r';
    var d := q - q';
    assert d * m == q * m - q' * m;
    assert d * m == r' - r;
    if d > 0 {
      MulAtLeast(d, m);
    }
  }

  lemma {:induction false} MulAtLeast(d: nat, m: int)
    requires d >= 1 && m > 0
    ensures d * m >= m
  {
    if d > 1 {
      MulAtLeast(d - 1, m);
      assert d * m == (d - 1) * m + m;
    }
  }

  /** Values that differ by a multiple of the modulus wrap to the same value. */
  lemma {:induction false} WrapCongruent(x: int, y: int, half: int)
    requires half > 0
    requires (x - y) % (2 * half) == 0
    ensures Wrap(x, half) == Wrap(y, half)
  {
    var m := 2 * half;
    var k := (x - y) / m;
    assert x - y == k * m;
    WrapShift(y, k, half);
  }

  /** Wrapping an operand before an addition does not change the wrapped sum. */
  lemma {:induction false} WrapIntAdd(a: int, b: int)
    ensures WrapInt(WrapInt(a) + b) == WrapInt(a + b)
  {
    var m := 2 * INT_HALF;
    var k := (a - WrapInt(a)) / m;
    assert a - WrapInt(a) == k * m;
    WrapCongruent(WrapInt(a) + b, a + b, INT_HALF);
  }

  /** Wrapping an operand before a multiplication does not change the wrapped product. */
  lemma {:induction false} WrapIntMul(a: int, b: int)
    ensures WrapInt(WrapInt(a) * b) == WrapInt(a * b)
  {
    var m := 2 * INT_HALF;
    var k := (a - WrapInt(a)) / m;
    assert a - WrapInt(a) == k * m;
    assert a * b - WrapInt(a) * b == (k * b) * m;
    WrapCongruent(WrapInt(a) * b, a * b, INT_HALF);
  }

  /** Wrapping an operand before an addition does not change the wrapped `long` sum. */
  lemma {:induction false} WrapLongAdd(a: int, b: int)
    ensures WrapLong(WrapLong(a) + b) == WrapLong(a + b)
  {
    var m := 2 * LONG_HALF;
    var k := (a - WrapLong(a)) / m;
    assert a - WrapLong(a) == k * m;
    WrapCongruent(WrapLong(a) + b, a + b, LONG_HALF);
  }
}
