/** The same blinded single-bit protocol as rsaopenssl.c runs it on OpenSSL
    big numbers. Each BN_* call becomes the integer operation it computes:
    BN_mul and BN_sub are `*` and `-`, BN_gcd is Rsa.Gcd on non-negative
    operands, BN_mod_inverse is the inverse Rsa.ModInverse finds (the unique
    one in [0, phi), or 0 when phi = 1), BN_mod_exp is Pow(b, e) % n and BN_mod on a non-negative
    value is `%`. What differs from rsa.cpp is the choice of e and the mask
    loop, which draws from [0, n) directly. */
module RsaOpenSsl {
  import opened Arith
  import opened Rsa

  /** The exponent OpenSSL users reach for first. */
  const PreferredE: int := 65537

  // ---------------------------------------------------------------- choice of e

  /** The fallback search's answer: the least integer e >= 3, odd or even,
      that is coprime to phi. */
  predicate IsLeastCoprimeFrom3(e: int, phi: int)
  {
    e >= 3 && Gcd(e, phi) == 1 &&
    forall e' :: 3 <= e' < e ==> Gcd(e', phi) != 1
  }

  /** The exponent rsaopenssl.c settles on: 65537 when it is coprime to phi,
      otherwise the result of the step-by-one search from 3. */
  predicate IsSelectedExponent(e: int, phi: int)
  {
    if Gcd(PreferredE, phi) == 1 then e == PreferredE else IsLeastCoprimeFrom3(e, phi)
  }

  /** phi + 1 is coprime to phi, which bounds the fallback search. */
  lemma SuccessorCoprime(phi: int)
    requires phi >= 1
    ensures Gcd(phi + 1, phi) == 1
  {
    if phi >= 2 {
      DivModUnique(phi + 1, phi, 1, 1);
      CDivRem(phi + 1, phi);
      GcdWithOne(phi);
    } else {
      DivModUnique(2, 1, 2, 0);
    }
  }

  /** Two even numbers share the factor 2, so they are never coprime. */
  lemma EvenNotCoprime(e: int, phi: int)
    requires e >= 0 && phi >= 0 && e % 2 == 0 && phi % 2 == 0
    ensures Gcd(e, phi) != 1
  {
    GcdIsGreatestCommonDivisor(e, phi);
    assert Divides(2, e) && Divides(2, phi);
    assert Divides(2, Gcd(e, phi));
  }

  /** Lines 32-43 of rsaopenssl.c: try 65537; if it shares a factor with phi,
      set e = 3 and add one until gcd(e, phi) = 1. The search cannot pass
      phi + 1. */
  method SelectE(phi: int) returns (e: int)
    requires phi >= 1
    ensures IsSelectedExponent(e, phi)
    ensures Gcd(e, phi) == 1 && e >= 3
    ensures Gcd(PreferredE, phi) != 1 ==> e <= phi + 1
  {
    e := PreferredE;
    var g := Gcd(e, phi);
    if g != 1 {
      GcdWithOne(PreferredE);
      SuccessorCoprime(phi);
      e := 3;
      while true
        invariant 3 <= e <= phi + 1
        invariant forall e' :: 3 <= e' < e ==> Gcd(e', phi) != 1
        decreases phi + 1 - e
      {
        g := Gcd(e, phi);
        if g == 1 {
          break;
        }
        e := e + 1;
      }
    }
  }

  /** When phi is even, as it is for any two odd primes, the step-by-one
      search skips every even candidate and lands on the exponent rsa.cpp's
      step-by-two chooseE finds. */
  lemma FallbackAgreesWithChooseE(e: int, phi: int)
    requires phi >= 0 && phi % 2 == 0
    requires IsLeastCoprimeFrom3(e, phi)
    ensures IsLeastOddCoprime(e, phi)
  {
    if e % 2 == 0 {
      EvenNotCoprime(e, phi);
    }
  }

  // ---------------------------------------------------------------- the mask loop

  /** Lines 55-58 of rsaopenssl.c: BN_rand_range draws k from [0, n) until k is
      nonzero and even. The draws are the sequence `draws`; None means every
      draw given was rejected (the C loop would go on drawing). */
  method DrawMask(n: int, draws: seq<int>) returns (k: Option<int>)
    requires forall i :: 0 <= i < |draws| ==> 0 <= draws[i] < n
    ensures k.Some? ==> IsEvenMask(k.value) && 0 < k.value < n
    ensures k.Some? ==> exists i :: 0 <= i < |draws| && k.value == draws[i] &&
                          forall j :: 0 <= j < i ==> !IsEvenMask(draws[j])
    ensures k.None? <==> forall i :: 0 <= i < |draws| ==> !IsEvenMask(draws[i])
    ensures n <= 2 ==> k.None?
  {
    var i := 0;
    while i < |draws|
      invariant 0 <= i <= |draws|
      invariant forall j :: 0 <= j < i ==> !IsEvenMask(draws[j])
    {
      if IsEvenMask(draws[i]) {
        return Some(draws[i]);
      }
      i := i + 1;
    }
    return None;
  }

  // ---------------------------------------------------------------- protocol

  /** Lines 24-47 of rsaopenssl.c: n = p * q, phi = (p - 1) * (q - 1), the
      selected exponent e and its inverse d modulo phi. */
  method DeriveOpenSslKeys(p: int, q: int) returns (n: int, phi: int, e: int, d: int)
    requires p >= 2 && q >= 2
    ensures n == p * q && n >= 4
    ensures phi == (p - 1) * (q - 1) && phi >= 1
    ensures IsSelectedExponent(e, phi) && Gcd(e, phi) == 1 && e >= 3
    ensures d >= 0 && (phi > 1 ==> d < phi && (e * d) % phi == 1)
    ensures phi == 1 ==> d == 0
  {
    n := p * q;
    phi := (p - 1) * (q - 1);
    MulMonotone(p, 2, q);
    MulMonotone(p - 1, 1, q - 1);
    e := SelectE(phi);
    var inverse := ModInverse(e, phi);
    d := inverse.d;
  }

  /** rsaopenssl.c's `main`, lines 24-71, with the generated primes as
      parameters, BN_rand_range(m, 2) as `mDraw` and the mask draws as
      `kDraws`. None means every mask draw was rejected. Otherwise the run
      derives the keys, blinds the bit m with an even nonzero k < n, encrypts,
      decrypts, and returns a bit in {0, 1} that equals m whenever decryption
      gives back m + k. */
  method RunOpenSsl(p: int, q: int, mDraw: int, kDraws: seq<int>) returns (t: Option<Transcript>)
    requires p >= 2 && q >= 2
    requires 0 <= mDraw < 2
    requires forall i :: 0 <= i < |kDraws| ==> 0 <= kDraws[i] < p * q
    ensures t.None? <==> forall i :: 0 <= i < |kDraws| ==> !IsEvenMask(kDraws[i])
    ensures t.Some? ==> KeysFrom(t.value, p, q) && IsSelectedExponent(t.value.e, t.value.phi)
    ensures t.Some? ==> t.value.m == mDraw && IsEvenMask(t.value.k) && 0 < t.value.k < t.value.n
    ensures t.Some? ==> exists i :: 0 <= i < |kDraws| && t.value.k == kDraws[i] &&
                          forall j :: 0 <= j < i ==> !IsEvenMask(kDraws[j])
    ensures t.Some? ==> CipherSteps(t.value)
    ensures t.Some? ==> t.value.recovered == 0 || t.value.recovered == 1
    ensures t.Some? && t.value.decrypted == t.value.m + t.value.k ==> t.value.recovered == t.value.m
  {
    var n, phi, e, d := DeriveOpenSslKeys(p, q);
    var m := mDraw;
    var mask := DrawMask(n, kDraws);
    if mask.None? {
      return None;
    }
    var k := mask.value;
    var mPlusK := m + k;
    var c := Pow(mPlusK, e) % n;
    var decrypted := Pow(c, d) % n;
    var recovered := decrypted % 2;
    if decrypted == m + k {
      ParityRecoversBit(m, k);
    }
    t := Some(Transcript(n, phi, e, d, m, k, c, decrypted, recovered));
  }
}
