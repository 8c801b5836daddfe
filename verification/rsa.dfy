/** The hand-written textbook RSA of rsa.cpp: Euclid's gcd, square-and-multiply
    exponentiation, the search for the public exponent, the extended Euclidean
    inverse, the even-mask rejection loop, and the blinded single-bit protocol
    that `main` runs with them. Every `long long` is an unbounded integer here,
    and C's `/` and `%` are modelled as the truncating operations CDiv and CRem. */
module Rsa {
  import opened Arith

  // ---------------------------------------------------------------- gcd

  /** The recursion of rsa.cpp's `gcd`, with C's remainder. */
  function Gcd(a: int, b: int): (g: int)
    decreases Abs(b)
  {
    if b == 0 then a else Gcd(b, CRem(a, b))
  }

  /** Replacing a by its remainder modulo b keeps the common divisors. */
  lemma RemainderKeepsCommonDivisors(a: int, b: int, d: int)
    requires a >= 0 && b > 0
    ensures Divides(d, a) && Divides(d, b) <==> Divides(d, b) && Divides(d, CRem(a, b))
  {
    CDivRem(a, b);
    var q := a / b;
    assert CRem(a, b) == a + (-q) * b;
    assert a == CRem(a, b) + q * b;
    if Divides(d, a) && Divides(d, b) {
      DividesCombination(d, a, b, -q);
    }
    if Divides(d, b) && Divides(d, CRem(a, b)) {
      DividesCombination(d, CRem(a, b), b, q);
    }
  }

  /** On non-negative arguments Gcd is the greatest common divisor: it divides
      both, every common divisor divides it, and it is zero only for (0, 0). */
  lemma {:induction false} GcdIsGreatestCommonDivisor(a: int, b: int)
    requires a >= 0 && b >= 0
    ensures Gcd(a, b) >= 0
    ensures Gcd(a, b) == 0 <==> a == 0 && b == 0
    ensures Divides(Gcd(a, b), a) && Divides(Gcd(a, b), b)
    ensures forall d :: Divides(d, a) && Divides(d, b) ==> Divides(d, Gcd(a, b))
    decreases b
  {
    if b == 0 {
      DividesMultiple(a, 1);
      DividesMultiple(a, 0);
    } else {
      var r := CRem(a, b);
      GcdIsGreatestCommonDivisor(b, r);
      var g := Gcd(b, r);
      RemainderKeepsCommonDivisors(a, b, g);
      forall d | Divides(d, a) && Divides(d, b)
        ensures Divides(d, g)
      {
        RemainderKeepsCommonDivisors(a, b, d);
      }
    }
  }

  /** The coprimality test `gcd(e, phi) == 1` holds exactly when the two
      numbers share no factor above 1. */
  lemma GcdOneIffNoCommonFactor(a: int, b: int)
    requires a >= 0 && b >= 0
    ensures Gcd(a, b) == 1 <==> forall d :: d > 1 ==> !(Divides(d, a) && Divides(d, b))
  {
    GcdIsGreatestCommonDivisor(a, b);
    var g := Gcd(a, b);
    if g == 1 {
      forall d | d > 1
        ensures !(Divides(d, a) && Divides(d, b))
      {
        if Divides(d, a) && Divides(d, b) {
          assert Divides(d, 1);
          DivModUnique(1, d, 0, 1);
        }
      }
    } else if g == 0 {
      assert Divides(2, a) && Divides(2, b);
    } else {
      assert g > 1 && Divides(g, a) && Divides(g, b);
    }
  }

  lemma GcdWithOne(m: int)
    requires m >= 0
    ensures Gcd(1, m) == 1 && Gcd(m, 1) == 1
  {
    DivModUnique(m, 1, m, 0);
    if m > 1 {
      DivModUnique(1, m, 0, 1);
    }
  }

  // ---------------------------------------------------------------- modexp

  /** One round of square-and-multiply keeps result * b^e fixed modulo |mod|. */
  lemma HalvingWithAccumulator(result: int, b: int, e: nat)
    ensures result * Pow(b, e) == (result * (if e % 2 == 1 then b else 1)) * Pow(b * b, e / 2)
  {
    var f := if e % 2 == 1 then b else 1;
    var P := Pow(b * b, e / 2);
    PowHalving(b, e);
    assert Pow(b, e) == f * P;
    assert (result * f) * P == result * (f * P);
  }

  lemma ModExpStep(result: int, b: int, e: nat, mod: int)
    requires mod != 0 && e > 0
    ensures var result' := if e % 2 == 1 then CRem(result * b, mod) else result;
            (result' * Pow(CRem(b * b, mod), e / 2)) % Abs(mod) == (result * Pow(b, e)) % Abs(mod)
  {
    var M := Abs(mod);
    var f := if e % 2 == 1 then b else 1;
    var result' := if e % 2 == 1 then CRem(result * b, mod) else result;
    var b2 := CRem(b * b, mod);
    var P := Pow(b * b, e / 2);
    assert Pow(b2, e / 2) % M == P % M by {
      CDivRem(b * b, mod);
      PowCongruent(b2, b * b, e / 2, M);
    }
    assert result' % M == (result * f) % M by {
      CDivRem(result * b, mod);
    }
    MulCongruent(result', result * f, Pow(b2, e / 2), P, M);
    HalvingWithAccumulator(result, b, e);
  }

  /** rsa.cpp's `modexp`: for a positive exponent the result is congruent to
      base^exp modulo |mod| and lies strictly inside (-|mod|, |mod|); for a
      non-negative base it is exactly base^exp mod |mod|. A zero or negative
      exponent skips the loop and yields 1, whatever mod is (so 1 even for
      mod = 1). */
  method ModExp(base: int, exp: int, mod: int) returns (result: int)
    requires mod != 0
    ensures exp <= 0 ==> result == 1
    ensures exp > 0 ==> Abs(result) < Abs(mod) && result % Abs(mod) == Pow(base, exp) % Abs(mod)
    ensures exp > 0 && base >= 0 ==> result == Pow(base, exp) % Abs(mod)
  {
    ghost var M := Abs(mod);
    result := 1;
    var b := CRem(base, mod);
    var e := exp;
    CDivRem(base, mod);
    if exp > 0 {
      PowCongruent(b, base, exp, M);
    }
    while e > 0
      invariant exp <= 0 ==> e == exp && result == 1
      invariant Abs(b) < M
      invariant base >= 0 ==> b >= 0 && result >= 0
      invariant result == 1 || Abs(result) < M
      invariant exp > 0 && e == 0 ==> Abs(result) < M
      invariant exp > 0 ==> 0 <= e <= exp && (result * Pow(b, e)) % M == Pow(base, exp) % M
      decreases e
    {
      ModExpStep(result, b, e, mod);
      if e % 2 == 1 {
        result := CRem(result * b, mod);
      }
      e := e / 2;
      b := CRem(b * b, mod);
    }
    if exp > 0 && base >= 0 {
      DivModUnique(result, M, 0, result);
    }
  }

  // ---------------------------------------------------------------- chooseE

  /** What chooseE settles on: the least odd number from 3 up whose gcd with
      phi is 1. */
  predicate IsLeastOddCoprime(e: int, phi: int)
  {
    e >= 3 && e % 2 == 1 && Gcd(e, phi) == 1 &&
    forall e' :: 3 <= e' < e && e' % 2 == 1 ==> Gcd(e', phi) != 1
  }

  /** 2 * phi + 1 is odd and coprime to phi, which bounds chooseE's search. */
  lemma DoublePlusOneCoprime(phi: int)
    requires phi >= 1
    ensures Gcd(2 * phi + 1, phi) == 1
  {
    CDivRem(2 * phi + 1, phi);
    if phi >= 2 {
      DivModUnique(2 * phi + 1, phi, 2, 1);
      GcdWithOne(phi);
    } else {
      DivModUnique(3, 1, 3, 0);
    }
  }

  /** chooseE's answer is determined by phi alone. */
  lemma LeastOddCoprimeUnique(e1: int, e2: int, phi: int)
    requires IsLeastOddCoprime(e1, phi) && IsLeastOddCoprime(e2, phi)
    ensures e1 == e2
  {
  }

  /** With phi = 0 every candidate e >= 3 has gcd e, never 1: the loop of
      chooseE does not stop. */
  lemma ChooseEDivergesAtZero(e: int)
    requires e >= 3
    ensures Gcd(e, 0) != 1 && !IsLeastOddCoprime(e, 0)
  {
  }

  /** rsa.cpp's `chooseE`: steps through 3, 5, 7, ... until gcd(e, phi) = 1;
      the answer is the least such odd number and at most 2 * phi + 1. */
  method ChooseE(phi: int) returns (e: int)
    requires phi >= 1
    ensures IsLeastOddCoprime(e, phi)
    ensures e <= 2 * phi + 1
  {
    DoublePlusOneCoprime(phi);
    e := 3;
    ghost var half := 1;
    while Gcd(e, phi) != 1
      invariant 1 <= half <= phi && e == 2 * half + 1
      invariant forall e' :: 3 <= e' < e && e' % 2 == 1 ==> Gcd(e', phi) != 1
      decreases phi - half
    {
      forall e' | 3 <= e' < e + 2 && e' % 2 == 1
        ensures Gcd(e', phi) != 1
      {
        assert e' != e + 1 by {
          assert e + 1 == 2 * (half + 1);
        }
      }
      e, half := e + 2, half + 1;
    }
  }

  // ---------------------------------------------------------------- modInverse

  /** What modInverse ends with: the inverse, or the crash of `a / m` once m
      has reached 0 while a > 1. */
  datatype InverseResult = Inverse(d: int) | DivisionByZero

  /** One step of the extended Euclidean loop keeps the weighted sum
      |x1| * m + |x0| * a equal to m0 and keeps x0 and x1 of opposite signs. */
  lemma WeightStep(a: int, m: int, x0: int, x1: int, q: int, m0: int)
    requires m > 0 && q >= 0 && q * m <= a
    requires Abs(x1) * m + Abs(x0) * a == m0
    requires (x0 >= 0 && x1 <= 0) || (x0 <= 0 && x1 >= 0)
    ensures Abs(x0) * (a - q * m) + Abs(x1 - q * x0) * m == m0
    ensures (x1 - q * x0 >= 0 && x0 <= 0) || (x1 - q * x0 <= 0 && x0 >= 0)
  {
    if x0 >= 0 && x1 <= 0 {
      assert Abs(x1 - q * x0) == -x1 + q * x0;
      assert Abs(x0) * (a - q * m) + (-x1 + q * x0) * m == x0 * a + (-x1) * m;
    } else {
      assert Abs(x1 - q * x0) == x1 - q * x0;
      assert Abs(x0) * (a - q * m) + (x1 - q * x0) * m == (-x0) * a + x1 * m;
    }
  }

  lemma MulMonotone(c: nat, x: int, y: int)
    requires x <= y
    ensures c * x <= c * y
  {
    assert c * y - c * x == c * (y - x);
  }

  /** The Bezout coefficients follow the remainders: the combination that
      yields the new remainder a - q * m is x1 - q * x0. */
  lemma BezoutStep(a0: int, a: int, m: int, x0: int, x1: int, q: int)
    ensures (x1 - q * x0) * a0 - (a - q * m) == (x1 * a0 - a) + (-q) * (x0 * a0 - m)
  {
  }

  /** One less than a multiple of m is never a multiple of m (for m > 1). */
  lemma MultipleMinusOne(m: int, c: int)
    requires m > 1
    ensures !Divides(m, m * c - 1)
  {
    DivModUnique(m * c - 1, m, c - 1, m - 1);
  }

  /** What the extended Euclidean loop keeps for a0 >= 1 and m0 >= 1: the
      Bezout congruences x1 * a0 = a and x0 * a0 = m (mod m0), the weighted sum
      |x1| * m + |x0| * a = m0 with x0 and x1 of opposite signs, and the bound
      |x1| * a <= m0 from the first step on, which keeps the final coefficient
      within one m0 of zero. */
  ghost predicate EuclidInvariant(a0: int, m0: int, a: int, m: int, x0: int, x1: int)
  {
    a >= 1 && m >= 0 && m0 >= 1 &&
    Divides(m0, x1 * a0 - a) && Divides(m0, x0 * a0 - m) &&
    Abs(x1) * m + Abs(x0) * a == m0 &&
    ((x0 >= 0 && x1 <= 0) || (x0 <= 0 && x1 >= 0)) &&
    (x0 == 0 || m < a) &&
    (Abs(x1) * a <= m0 || (x1 == 1 && x0 == 0))
  }

  /** One iteration of modInverse's loop preserves EuclidInvariant. */
  lemma EuclidInvariantStep(a0: int, m0: int, a: int, m: int, x0: int, x1: int)
    requires EuclidInvariant(a0, m0, a, m, x0, x1) && a > 1 && m != 0
    ensures EuclidInvariant(a0, m0, m, CRem(a, m), x1 - CDiv(a, m) * x0, x0)
  {
    var q := CDiv(a, m);
    CDivRem(a, m);
    assert CRem(a, m) == a - q * m;
    WeightStep(a, m, x0, x1, q, m0);
    if x0 != 0 {
      MulMonotone(Abs(x0), m, a);
    }
    DividesCombination(m0, x1 * a0 - a, x0 * a0 - m, -q);
    BezoutStep(a0, a, m, x0, x1, q);
  }

  /** The two states modInverse passes through when m0 = 1 and a0 >= 2: the
      initial one, and the one after a single step, where x1 = 0. */
  ghost predicate UnitModulusState(a0: int, a: int, m: int, x0: int, x1: int)
  {
    (a == a0 && m == 1 && x0 == 0 && x1 == 1) || (a == 1 && m == 0 && x1 == 0)
  }

  lemma UnitModulusStep(a0: int, a: int, m: int, x0: int, x1: int)
    requires a0 >= 2 && UnitModulusState(a0, a, m, x0, x1) && a > 1 && m != 0
    ensures UnitModulusState(a0, m, CRem(a, m), x1 - CDiv(a, m) * x0, x0)
  {
    DivModUnique(a, 1, a, 0);
  }

  /** rsa.cpp's `modInverse`, the extended Euclidean algorithm. On non-negative
      arguments it divides by zero exactly when a0 > 0 and gcd(a0, m0) != 1;
      otherwise, for a0 >= 1 and m0 > 1, it returns the inverse of a0 modulo m0
      normalised into [0, m0), and for a0 >= 2 and m0 = 1 one step leaves
      x1 = 0, so it returns 0. */
  method ModInverse(a0: int, m0: int) returns (r: InverseResult)
    ensures a0 >= 0 && m0 >= 0 ==> (r == DivisionByZero <==> a0 > 0 && Gcd(a0, m0) != 1)
    ensures r.Inverse? && a0 >= 1 && m0 >= 1 ==> r.d >= 0
    ensures r.Inverse? && a0 >= 1 && m0 > 1 ==> 0 <= r.d < m0 && (a0 * r.d) % m0 == 1
    ensures a0 >= 2 && m0 == 1 ==> r == Inverse(0)
  {
    var a, m, x0, x1 := a0, m0, 0, 1;
    if m0 >= 1 {
      DividesMultiple(m0, 0);
      DividesMultiple(m0, -1);
      assert x1 * a0 - a == 0 && x0 * a0 - m == m0 * -1;
    }
    while a > 1
      invariant Gcd(a, m) == Gcd(a0, m0)
      invariant a0 == 0 ==> a == 0
      invariant a0 >= 0 && m0 >= 0 ==> a >= 0 && m >= 0
      invariant a0 >= 1 && m0 >= 0 ==> a >= 1
      invariant a0 >= 1 && m0 >= 1 ==> EuclidInvariant(a0, m0, a, m, x0, x1)
      invariant a0 >= 2 && m0 == 1 ==> UnitModulusState(a0, a, m, x0, x1)
      decreases Abs(m)
    {
      if m == 0 {
        return DivisionByZero;
      }
      var q := CDiv(a, m);
      if a0 >= 1 && m0 >= 1 {
        EuclidInvariantStep(a0, m0, a, m, x0, x1);
      }
      if a0 >= 2 && m0 == 1 {
        UnitModulusStep(a0, a, m, x0, x1);
      }
      var t := m;
      m := CRem(a, m);
      a := t;
      t := x0;
      x0 := x1 - q * x0;
      x1 := t;
    }
    if a0 >= 1 && m0 >= 0 {
      GcdWithOne(m);
    }
    if a0 >= 1 && m0 >= 1 {
      assert a == 1 && (Abs(x1) <= m0 || x1 == 1);
    }
    if a0 >= 1 && m0 > 1 {
      NormalisedInverse(a0, m0, x1);
    }
    return Inverse(if x1 < 0 then x1 + m0 else x1);
  }

  /** A coefficient x1 with x1 * a0 = 1 (mod m0) is not a multiple of m0. */
  lemma CoefficientNotMultiple(a0: int, m0: int, x1: int)
    requires m0 > 1 && Divides(m0, x1 * a0 - 1)
    ensures x1 != m0 && x1 != -m0
  {
    MultipleMinusOne(m0, a0);
    MultipleMinusOne(m0, -a0);
    assert m0 * -a0 - 1 == -m0 * a0 - 1;
  }

  /** modInverse's final step: a coefficient x1 with x1 * a0 = 1 (mod m0) and
      |x1| <= m0, shifted by m0 when negative, is the inverse in [0, m0). */
  lemma NormalisedInverse(a0: int, m0: int, x1: int)
    requires a0 >= 1 && m0 > 1
    requires Divides(m0, x1 * a0 - 1) && Abs(x1) <= m0
    ensures var d := if x1 < 0 then x1 + m0 else x1;
            0 <= d < m0 && (a0 * d) % m0 == 1
  {
    CoefficientNotMultiple(a0, m0, x1);
    var j := if x1 < 0 then 1 else 0;
    var d := x1 + j * m0;
    ShiftedCoefficient(a0, m0, x1, j);
    CongruentIffSameRemainder(a0 * d, 1, m0);
    DivModUnique(1, m0, 0, 1);
  }

  /** Adding multiples of m0 to a Bezout coefficient keeps it one. */
  lemma ShiftedCoefficient(a0: int, m0: int, x1: int, j: int)
    requires m0 > 1 && Divides(m0, x1 * a0 - 1)
    ensures Divides(m0, a0 * (x1 + j * m0) - 1)
  {
    DividesMultiple(m0, 1);
    DividesCombination(m0, x1 * a0 - 1, m0, j * a0);
    assert a0 * (x1 + j * m0) - 1 == x1 * a0 - 1 + (j * a0) * m0;
  }

  /** An inverse modulo m in [0, m) is unique. */
  lemma InverseUnique(a: int, m: int, d1: int, d2: int)
    requires m > 1 && 0 <= d1 < m && 0 <= d2 < m
    requires (a * d1) % m == 1 && (a * d2) % m == 1
    ensures d1 == d2
  {
    DivModUnique(1, m, 0, 1);
    DivModUnique(d1, m, 0, d1);
    DivModUnique(d2, m, 0, d2);
    MulCongruent(d2, d2, a * d1, 1, m);
    MulCongruent(d1, d1, a * d2, 1, m);
    assert d2 * (a * d1) == d1 * (a * d2);
  }

  // ---------------------------------------------------------------- randomEven

  /** The exit test of the mask loops: a nonzero even value. */
  predicate IsEvenMask(k: int)
  {
    k != 0 && k % 2 == 0
  }

  /** rsa.cpp's `randomEven`: draws `rand() % n` until the value is even and
      nonzero. The values rand() returns are the sequence `draws`; the loop
      keeps the first acceptable candidate, and None means every draw given was
      rejected (the C loop would go on drawing). For |n| <= 2 no candidate is
      ever accepted. */
  method RandomEven(n: int, draws: seq<int>) returns (k: Option<int>)
    requires n != 0
    requires forall i :: 0 <= i < |draws| ==> draws[i] >= 0
    ensures k.Some? ==> IsEvenMask(k.value) && 0 < k.value < Abs(n)
    ensures k.Some? ==> exists i :: 0 <= i < |draws| && k.value == CRem(draws[i], n) &&
                          forall j :: 0 <= j < i ==> !IsEvenMask(CRem(draws[j], n))
    ensures k.None? <==> forall i :: 0 <= i < |draws| ==> !IsEvenMask(CRem(draws[i], n))
    ensures Abs(n) <= 2 ==> k.None?
  {
    var i := 0;
    while i < |draws|
      invariant 0 <= i <= |draws|
      invariant forall j :: 0 <= j < i ==> !IsEvenMask(CRem(draws[j], n))
    {
      var candidate := CRem(draws[i], n);
      if IsEvenMask(candidate) {
        return Some(candidate);
      }
      i := i + 1;
    }
    return None;
  }

  // ---------------------------------------------------------------- protocol

  /** Everything main computes, in order. */
  datatype Transcript = Transcript(n: int, phi: int, e: int, d: int, m: int, k: int,
                                   c: int, decrypted: int, recovered: int)

  /** The key material derived from p and q: n, phi, an e coprime to phi and
      its inverse d modulo phi, which is 0 when phi = 1 (every number is
      congruent to 0 modulo 1). */
  predicate KeysFrom(t: Transcript, p: int, q: int)
  {
    t.n == p * q && t.phi == (p - 1) * (q - 1) && t.e > 0 && Gcd(t.e, t.phi) == 1 &&
    t.d >= 0 && (t.phi > 1 ==> t.d < t.phi && (t.e * t.d) % t.phi == 1) &&
    (t.phi == 1 ==> t.d == 0)
  }

  /** The cipher steps: c = (m + k)^e mod n, decrypted = c^d mod n, and the
      recovered bit is the parity of the decrypted value. */
  predicate CipherSteps(t: Transcript)
  {
    t.n > 0 && t.e >= 0 && t.d >= 0 &&
    t.c == Pow(t.m + t.k, t.e) % t.n &&
    t.decrypted == Pow(t.c, t.d) % t.n &&
    t.recovered == t.decrypted % 2
  }

  /** Blinding by an even mask keeps the parity of the bit: whenever the
      decrypted value is m + k itself, its parity is m. */
  lemma ParityRecoversBit(m: int, k: int)
    requires m == 0 || m == 1
    requires IsEvenMask(k)
    ensures (m + k) % 2 == m
  {
  }

  /** The mask range (0, n) lets m + k reach n: with the odd n of two odd
      primes, the even mask k = n - 1 and the bit m = 1 encrypt n itself, which
      is 0 modulo n, so decryption gives 0 and the recovered bit is 0, not 1. */
  lemma MaskAtEdgeLosesBit(n: int, e: nat, d: nat)
    requires n >= 3 && n % 2 == 1 && e >= 1 && d >= 1
    ensures IsEvenMask(n - 1) && n - 1 < n
    ensures var c := Pow(1 + (n - 1), e) % n;
            c == 0 && Pow(c, d) % n == 0 && (Pow(c, d) % n) % 2 == 0
  {
    PowOfModulus(n, e);
    assert Pow(0, d) == 0 * Pow(0, d - 1);
    DivModUnique(0, n, 0, 0);
  }

  /** Key derivation of rsa.cpp's main: n = p * q, phi = (p - 1) * (q - 1),
      e from chooseE and d from modInverse, which cannot divide by zero here
      because chooseE's e is coprime to phi. */
  method DeriveKeys(p: int, q: int) returns (n: int, phi: int, e: int, d: int)
    requires p >= 2 && q >= 2
    ensures n == p * q && n >= 4
    ensures phi == (p - 1) * (q - 1) && phi >= 1
    ensures IsLeastOddCoprime(e, phi)
    ensures d >= 0 && (phi > 1 ==> d < phi && (e * d) % phi == 1)
    ensures phi == 1 ==> d == 0
  {
    n := p * q;
    phi := (p - 1) * (q - 1);
    MulMonotone(p, 2, q);
    MulMonotone(p - 1, 1, q - 1);
    e := ChooseE(phi);
    var inverse := ModInverse(e, phi);
    d := inverse.d;
  }

  /** rsa.cpp's `main` with the primes as parameters (the program fixes them
      at 37 and 53), rand() for the bit as `mDraw` and the draws of randomEven
      as `kDraws`. None means every mask draw was rejected. Otherwise the run
      derives n, phi, the least odd coprime e and its inverse d, takes the bit
      m = mDraw mod 2, blinds it with an even nonzero k < n, and returns a bit
      in {0, 1} that equals m whenever decryption gives back m + k. */
  method RunRsa(p: int, q: int, mDraw: int, kDraws: seq<int>) returns (t: Option<Transcript>)
    requires p >= 2 && q >= 2
    requires mDraw >= 0
    requires forall i :: 0 <= i < |kDraws| ==> kDraws[i] >= 0
    ensures t.None? <==> forall i :: 0 <= i < |kDraws| ==> !IsEvenMask(CRem(kDraws[i], p * q))
    ensures t.Some? ==> KeysFrom(t.value, p, q) && IsLeastOddCoprime(t.value.e, t.value.phi)
    ensures t.Some? ==> t.value.m == mDraw % 2 && IsEvenMask(t.value.k) && 0 < t.value.k < t.value.n
    ensures t.Some? ==> exists i :: 0 <= i < |kDraws| && t.value.k == CRem(kDraws[i], p * q) &&
                          forall j :: 0 <= j < i ==> !IsEvenMask(CRem(kDraws[j], p * q))
    ensures t.Some? ==> CipherSteps(t.value)
    ensures t.Some? ==> t.value.recovered == 0 || t.value.recovered == 1
    ensures t.Some? && t.value.decrypted == t.value.m + t.value.k ==> t.value.recovered == t.value.m
  {
    var n, phi, e, d := DeriveKeys(p, q);
    var m := CRem(mDraw, 2);
    CDivRem(mDraw, 2);
    var mask := RandomEven(n, kDraws);
    if mask.None? {
      return None;
    }
    var k := mask.value;
    var c := ModExp(m + k, e, n);
    var decrypted := ModExp(c, d, n);
    if d == 0 {
      DivModUnique(1, n, 0, 1);
    }
    var recovered := CRem(decrypted, 2);
    CDivRem(decrypted, 2);
    if decrypted == m + k {
      ParityRecoversBit(m, k);
    }
    t := Some(Transcript(n, phi, e, d, m, k, c, decrypted, recovered));
  }

  /** For phi = 1872 = 2^4 * 3^2 * 13 the exponent search stops at 5. */
  lemma DemoExponent(e: int)
    requires IsLeastOddCoprime(e, 1872)
    ensures e == 5
  {
    DemoGcds();
    assert IsLeastOddCoprime(5, 1872);
    LeastOddCoprimeUnique(e, 5, 1872);
  }

  lemma DemoGcds()
    ensures Gcd(5, 1872) == 1 && Gcd(3, 1872) == 3
  {
    DivModUnique(1872, 5, 374, 2);
    DivModUnique(1872, 3, 624, 0);
    assert Gcd(2, 1) == 1;
    assert Gcd(5, 2) == 1;
    assert Gcd(1872, 5) == 1;
    assert Gcd(1872, 3) == 3;
  }

  /** The inverse of 5 modulo 1872 in [0, 1872) is 749. */
  lemma DemoInverse(d: int)
    requires 0 <= d < 1872 && (5 * d) % 1872 == 1
    ensures d == 749
  {
    DivModUnique(5 * 749, 1872, 2, 1);
    InverseUnique(5, 1872, d, 749);
  }

  /** The key derivation rsa.cpp's main performs for its fixed primes 37 and
      53, and the encryption of m + k = 5: n = 1961, phi = 1872, e = 5 (3
      divides 1872), d = 749 and c = 5^5 mod 1961 = 1164. */
  method DemoDerivation() returns (n: int, phi: int, e: int, d: int, c: int)
    ensures n == 1961 && phi == 1872 && e == 5 && d == 749 && c == 1164
  {
    n, phi, e, d := DeriveKeys(37, 53);
    assert n == 1961 && phi == 1872;
    DemoExponent(e);
    assert 0 <= d < 1872 && (5 * d) % 1872 == 1;
    DemoInverse(d);
    c := ModExp(5, e, n);
    assert Pow(5, 5) == 3125;
    DivModUnique(3125, 1961, 1, 1164);
  }

  /** main's own keys with the mask draw 1960 = n - 1 and the bit 1: the mask
      is accepted, m + k = n encrypts to 0, decrypts to 0, and the recovered
      bit is 0 instead of 1. */
  method DemoEdgeRun() returns (t: Option<Transcript>)
    ensures t.Some? && t.value.e == 5 && t.value.d == 749
    ensures t.value.m == 1 && t.value.k == 1960
    ensures t.value.c == 0 && t.value.decrypted == 0 && t.value.recovered == 0
  {
    var draws := [1960];
    assert IsEvenMask(CRem(draws[0], 37 * 53));
    t := RunRsa(37, 53, 1, draws);
    var r := t.value;
    assert r.n == 1961 && r.phi == 1872;
    DemoExponent(r.e);
    assert 0 <= r.d < 1872 && (5 * r.d) % 1872 == 1;
    DemoInverse(r.d);
    assert r.k == 1960;
    MaskAtEdgeLosesBit(1961, 5, 749);
  }
}
