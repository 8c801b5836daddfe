/** Integer arithmetic shared by both RSA programs: powers, divisibility,
    congruences, and the truncating division of C and C++. */
module Arith {

  datatype Option<T> = None | Some(value: T)

  function Abs(x: int): (r: nat)
  {
    if x < 0 then -x else x
  }

  /** b raised to the power e, over unbounded integers. */
  function Pow(b: int, e: nat): (r: int)
    decreases e
  {
    if e == 0 then 1 else b * Pow(b, e - 1)
  }

  /** C's `/` on signed integers: the quotient is truncated toward zero. */
  function CDiv(a: int, b: int): (q: int)
    requires b != 0
  {
    var q := Abs(a) / Abs(b);
    if (a < 0) == (b < 0) then q else -q
  }

  /** C's `%` on signed integers: the remainder takes the sign of the dividend. */
  function CRem(a: int, b: int): (r: int)
    requires b != 0
    ensures Abs(r) < Abs(b)
    ensures a >= 0 ==> r >= 0
    ensures a <= 0 ==> r <= 0
  {
    var r := Abs(a) % Abs(b);
    if a < 0 then -r else r
  }

  /** d divides x; zero divides only zero. */
  predicate Divides(d: int, x: int)
  {
    if d == 0 then x == 0 else x % Abs(d) == 0
  }

  lemma MulAtLeast(m: int, j: int)
    requires m > 0 && j >= 1
    ensures m * j >= m
  {
    assert m * j == m * (j - 1) + m;
  }

  /** Euclidean division is unique: a quotient and a remainder in [0, m) that
      rebuild x are the ones `/` and `%` produce. */
  lemma DivModUnique(x: int, m: int, k: int, r: int)
    requires m > 0 && 0 <= r < m && x == m * k + r
    ensures x / m == k && x % m == r
  {
    var k', r' := x / m, x % m;
    assert x == m * k' + r';
    assert m * (k - k') == r' - r;
    if k - k' >= 1 {
      MulAtLeast(m, k - k');
    } else if k' - k >= 1 {
      MulAtLeast(m, k' - k);
    }
  }

  lemma DividesMultiple(d: int, k: int)
    ensures Divides(d, d * k)
  {
    if d > 0 {
      DivModUnique(d * k, d, k, 0);
    } else if d < 0 {
      assert d * k == (-d) * (-k);
      DivModUnique(d * k, -d, -k, 0);
    }
  }

  /** What a number divides it also divides in any integer combination. */
  lemma DividesCombination(d: int, x: int, y: int, c: int)
    requires Divides(d, x) && Divides(d, y)
    ensures Divides(d, x + c * y)
  {
    if d != 0 {
      var D := Abs(d);
      var i, j := x / D, y / D;
      assert x == D * i;
      assert y == D * j;
      assert x + c * y == D * (i + c * j);
      DividesMultiple(D, i + c * j);
    }
  }

  lemma SameRemainderDivides(x: int, y: int, m: int)
    requires m > 0 && x % m == y % m
    ensures Divides(m, x - y)
  {
    var k := x / m - y / m;
    assert x - y == m * k;
    DividesMultiple(m, k);
  }

  lemma DividesSameRemainder(x: int, y: int, m: int)
    requires m > 0 && Divides(m, x - y)
    ensures x % m == y % m
  {
    var k := (x - y) / m;
    assert x - y == m * k;
    assert x == m * (y / m + k) + y % m;
    DivModUnique(x, m, y / m + k, y % m);
  }

  /** Congruence modulo m, phrased with divisibility and with `%`, agree. */
  lemma CongruentIffSameRemainder(x: int, y: int, m: int)
    requires m > 0
    ensures Divides(m, x - y) <==> x % m == y % m
  {
    if x % m == y % m {
      SameRemainderDivides(x, y, m);
    }
    if Divides(m, x - y) {
      DividesSameRemainder(x, y, m);
    }
  }

  /** C's quotient and remainder rebuild the dividend. */
  lemma CDivRemIdentity(a: int, b: int)
    requires b != 0
    ensures a == CDiv(a, b) * b + CRem(a, b)
  {
    var B: int := Abs(b);
    var q, r := Abs(a) / B, Abs(a) % B;
    assert Abs(a) == B * q + r;
    if a < 0 && b < 0 {
      assert a == -(B * q + r) && b == -B;
    } else if a < 0 {
      assert a == -(B * q + r) && b == B;
    } else if b < 0 {
      assert a == B * q + r && b == -B;
    } else {
      assert a == B * q + r && b == B;
    }
  }

  /** C's quotient and remainder rebuild the dividend, the remainder is
      congruent to the dividend modulo the divisor's magnitude, and on
      non-negative operands both agree with Euclidean division. */
  lemma CDivRem(a: int, b: int)
    requires b != 0
    ensures a == CDiv(a, b) * b + CRem(a, b)
    ensures CRem(a, b) % Abs(b) == a % Abs(b)
    ensures a >= 0 ==> CRem(a, b) == a % Abs(b)
    ensures a >= 0 && b > 0 ==> CDiv(a, b) == a / b && CDiv(a, b) >= 0
  {
    var B: int := Abs(b);
    var q, r := CDiv(a, b), CRem(a, b);
    CDivRemIdentity(a, b);
    var k := if b < 0 then -q else q;
    assert q * b == B * k by {
      if b < 0 {
        assert b == -B;
      }
    }
    assert Divides(B, a - r) by {
      DividesMultiple(B, k);
      assert a - r == B * k;
    }
    CongruentIffSameRemainder(a, r, B);
  }

  /** Products of congruent factors are congruent. */
  lemma MulCongruent(x: int, x': int, y: int, y': int, m: int)
    requires m > 0 && x % m == x' % m && y % m == y' % m
    ensures (x * y) % m == (x' * y') % m
  {
    CongruentIffSameRemainder(x, x', m);
    CongruentIffSameRemainder(y, y', m);
    assert x * y - x' * y' == y * (x - x') + x' * (y - y');
    DividesCombination(m, 0, x - x', y);
    assert Divides(m, y * (x - x'));
    DividesCombination(m, y * (x - x'), y - y', x');
    assert Divides(m, x * y - x' * y');
    CongruentIffSameRemainder(x * y, x' * y', m);
  }

  /** Powers of congruent bases are congruent. */
  lemma {:induction false} PowCongruent(x: int, y: int, e: nat, m: int)
    requires m > 0 && x % m == y % m
    ensures Pow(x, e) % m == Pow(y, e) % m
  {
    if e > 0 {
      PowCongruent(x, y, e - 1, m);
      MulCongruent(x, y, Pow(x, e - 1), Pow(y, e - 1), m);
    }
  }

  lemma {:induction false} PowOfSquare(b: int, j: nat)
    ensures Pow(b * b, j) == Pow(b, 2 * j)
  {
    if j > 0 {
      PowOfSquare(b, j - 1);
      assert Pow(b, 2 * j) == b * (b * Pow(b, 2 * j - 2));
    }
  }

  /** The identity square-and-multiply rests on: one low bit of the exponent
      and the square of the base for the remaining bits. */
  lemma PowHalving(b: int, e: nat)
    ensures Pow(b, e) == (if e % 2 == 1 then b else 1) * Pow(b * b, e / 2)
  {
    PowOfSquare(b, e / 2);
    if e % 2 == 1 {
      assert e == 2 * (e / 2) + 1;
    } else {
      assert e == 2 * (e / 2);
    }
  }

  /** Any positive power of m is a multiple of m. */
  lemma PowOfModulus(m: int, e: nat)
    requires m > 0 && e >= 1
    ensures Pow(m, e) % m == 0
  {
    DividesMultiple(m, Pow(m, e - 1));
  }
}
