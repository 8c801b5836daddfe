# Textbook RSA with a blinded single bit, in Dafny

This project models the two programs of the `rsa_iisc` repository.

- `rsa.cpp` implements textbook RSA by hand on `long long`. It has
  square-and-multiply `modexp`, recursive `gcd`, the exponent search
  `chooseE`, the extended Euclidean `modInverse` and the rejection loop
  `randomEven`.
- `rsaopenssl.c` runs the same protocol on OpenSSL big numbers. It differs
  in two ways. It first tries `e = 65537`, and only when that fails does it
  step by one from 3. It also draws the mask from `[0, n)` directly.

The protocol is the same in both programs. A single message bit `m` is
blinded by a random nonzero even mask `k < n`. The sum is encrypted as
`c = (m + k)^e mod n` and decrypted as `c^d mod n`, and the bit is read back
as the parity of the decrypted value.

The model has three modules:

- `Arith` (`arith.dfy`) holds powers, divisibility and congruences. It also
  holds `CDiv` and `CRem`, which model C's `/` and `%` (truncating toward
  zero), so negative operands behave as they do in C.
- `Rsa` (`rsa.dfy`) models `rsa.cpp`.
  - `gcd` is a recursive function.
  - `modexp`, `chooseE`, `modInverse` and `randomEven` are methods whose
    loops carry the invariants of the C loops.
  - `main` becomes `RunRsa`, which returns the whole transcript of a run.
- `RsaOpenSsl` (`rsa_openssl.dfy`) models `rsaopenssl.c`'s `main`.
  - Each `BN_*` call is the integer operation it computes.
  - `BN_gcd` is `Rsa.Gcd` on non-negative operands.
  - `BN_mod_inverse` is the inverse `Rsa.ModInverse` returns. For `phi > 1`,
    `Rsa.InverseUnique` shows this is the only inverse in `[0, phi)`, which
    is what OpenSSL returns. For `phi = 1` it is 0.
  - `BN_mod_exp` is `Pow(b, e) % n`.

Randomness is an input. `rand()` and `BN_rand_range` become a draw value or a
finite sequence of draws. A loop that consumes every draw without accepting
one returns `None`, because the C loop would keep drawing.

The primes are also inputs, with `p, q >= 2`. `rsa.cpp` fixes them at 37 and
53. `rsaopenssl.c` gets them from `BN_generate_prime_ex`.

For the fixed primes 37 and 53, `rsa.cpp` computes `n = 1961` and
`phi = 36 * 52 = 1872`. Because 3 divides 1872, `chooseE` returns 5, and
`modInverse(5, 1872)` returns 749. Encrypting `m + k = 5` gives
`5^5 mod 1961 = 1164`. `Rsa.DemoDerivation` proves these values.

## Model

| member | source | states |
|---|---|---|
| Arith.CDivRem | rsa.cpp:21 | C's `%` and `/` rebuild the dividend (`a == CDiv(a,b)*b + CRem(a,b)`). The remainder is congruent to the dividend modulo `abs(b)`. On non-negative operands both agree with mathematical division. |
| Rsa.GcdIsGreatestCommonDivisor | rsa.cpp:20-22 | For `a, b >= 0`, `gcd(a, b)` is non-negative, is 0 only for `(0, 0)`, divides both arguments, and is divisible by every common divisor. |
| Rsa.GcdOneIffNoCommonFactor | rsa.cpp:20-22 | The test `gcd(e, phi) == 1` used by both programs holds exactly when no integer above 1 divides both arguments. |
| Rsa.ModExpStep | rsa.cpp:10-15 | One iteration of `modexp`'s loop keeps `result * base^exp` congruent to `base0^exp0` modulo `abs(mod)`. |
| Rsa.ModExp | rsa.cpp:6-18 | For `exp <= 0` the result is 1, unreduced, so `modexp(x, 0, 1) == 1`. For `exp > 0` the result is below `abs(mod)` in magnitude and congruent to `base^exp`. For `base >= 0` it equals `base^exp mod abs(mod)`. |
| Rsa.DoublePlusOneCoprime | rsa.cpp:24-29 | `2*phi + 1` is coprime to `phi`, which bounds `chooseE`'s search. |
| Rsa.ChooseE | rsa.cpp:24-29 | For `phi >= 1`, returns the least odd `e >= 3` with `gcd(e, phi) == 1`, and `e <= 2*phi + 1`. |
| Rsa.LeastOddCoprimeUnique | rsa.cpp:24-29 | Only one value satisfies `chooseE`'s contract for a given `phi`. |
| Rsa.ChooseEDivergesAtZero | rsa.cpp:24-29 | For `phi = 0`, every candidate `e >= 3` has gcd `e`, never 1, so the search never stops. |
| Rsa.EuclidInvariantStep | rsa.cpp:34-44 | One iteration of `modInverse`'s loop keeps two Bezout congruences, `x1*a0 ≡ a` and `x0*a0 ≡ m` modulo `m0`. It also keeps the weighted sum `abs(x1)*m + abs(x0)*a == m0` with `x0` and `x1` of opposite signs, and the bound on `abs(x1)`. |
| Rsa.ModInverse | rsa.cpp:32-47 | On non-negative arguments, it divides by zero exactly when `a0 > 0` and `gcd(a0, m0) != 1`. Otherwise, for `a0 >= 1` and `m0 > 1`, it returns `d` in `[0, m0)` with `a0*d mod m0 == 1`. For `a0 >= 2` and `m0 == 1`, one step leaves `x1 = 0`, and it returns 0. |
| Rsa.InverseUnique | rsa.cpp:46 | At most one value in `[0, m)` is an inverse of `a` modulo `m`, so the normalised result of `modInverse` is the inverse. |
| Rsa.RandomEven | rsa.cpp:50-56 | An accepted mask is nonzero, even and in `(0, abs(n))`, and it is the first acceptable `rand() % n` among the draws. `None` comes back exactly when every draw is rejected, and always when `abs(n) <= 2`. |
| Rsa.ParityRecoversBit | rsa.cpp:83-84 | For `m` in {0, 1} and an even nonzero mask `k`, `(m + k) mod 2 == m`. |
| Rsa.MaskAtEdgeLosesBit | rsa.cpp:72-84 | For odd `n >= 3`, the mask `k = n - 1` is accepted. Then `m = 1` encrypts to 0, decrypts to 0 and is recovered as 0, not 1. |
| Rsa.DeriveKeys | rsa.cpp:63-67 | `n == p*q`, `phi == (p-1)*(q-1) >= 1`, and `e` is `chooseE`'s least odd coprime exponent. For `phi > 1`, `d` is the inverse of `e` in `[0, phi)`. For `phi == 1` (`p = q = 2`), `d == 0`. |
| Rsa.RunRsa | rsa.cpp:59-84 | A run with mask draws either rejects every draw or yields keys as in `DeriveKeys`. The bit is `rand() % 2`, and `k` is the first acceptable `rand() % n` among the draws, even and in `(0, n)`. Then `c = (m+k)^e mod n`, `decrypted = c^d mod n`, and the recovered bit is in {0, 1}. The recovered bit equals `m` whenever `decrypted == m + k`. |
| Rsa.DemoExponent | rsa.cpp:60-66 | For `phi = 1872`, `chooseE` returns 5. |
| Rsa.DemoInverse | rsa.cpp:67 | The inverse of 5 modulo 1872 in `[0, 1872)` is 749. |
| Rsa.DemoEdgeRun | rsa.cpp:70-84 | `main`'s own keys (`e = 5`, `d = 749`) with bit 1 and mask draw 1960: the mask `k = 1960 = n - 1` is accepted, `c == 0`, `decrypted == 0` and the recovered bit is 0, not 1. |
| Rsa.DemoDerivation | rsa.cpp:60-76 | Running `DeriveKeys` on `p = 37` and `q = 53` gives `n == 1961`, `phi == 1872`, `e == 5`, `d == 749`, and `modexp(5, 5, 1961) == 1164`. |
| RsaOpenSsl.SuccessorCoprime | rsaopenssl.c:37-42 | `phi + 1` is coprime to `phi`, so the step-by-one search stops by `phi + 1`. |
| RsaOpenSsl.SelectE | rsaopenssl.c:31-44 | `e == 65537` when `gcd(65537, phi) == 1`. Otherwise `e` is the least integer `>= 3` coprime to `phi`, and `e <= phi + 1`. |
| RsaOpenSsl.EvenNotCoprime | rsaopenssl.c:37-42 | Two even non-negative numbers have gcd other than 1, so the fallback search never stops on an even `e` when `phi` is even. |
| RsaOpenSsl.FallbackAgreesWithChooseE | rsaopenssl.c:37-42 | For even `phi`, the step-by-one fallback returns the same exponent as `rsa.cpp`'s step-by-two `chooseE`. |
| RsaOpenSsl.DrawMask | rsaopenssl.c:53-58 | With draws in `[0, n)`, an accepted mask is nonzero, even, below `n`, and the first acceptable draw. `None` comes back exactly when every draw is rejected, and always when `n <= 2`. |
| RsaOpenSsl.DeriveOpenSslKeys | rsaopenssl.c:23-47 | `n == p*q`, `phi == (p-1)*(q-1) >= 1`, and `e` is the selected exponent (65537 or the fallback), coprime to `phi`. For `phi > 1`, `d` is the inverse of `e` in `[0, phi)`. For `phi == 1`, `d == 0`. |
| RsaOpenSsl.RunOpenSsl | rsaopenssl.c:23-71 | With a bit drawn from `[0, 2)` and mask draws from `[0, n)`, a run either rejects every draw or yields keys as in `DeriveOpenSslKeys`. The bit is the draw, and the mask is the first acceptable draw, even and in `(0, n)`. Then `c = (m+k)^e mod n` and `decrypted = c^d mod n`. The recovered bit `decrypted mod 2` is in {0, 1} and equals `m` whenever `decrypted == m + k`. |

## Left out

- Console output (`cout` in `rsa.cpp`, `printf` and `BN_print_fp` in `rsaopenssl.c`) is I/O and is not modelled.
- `srand(time(0))`, `rand()` and `BN_rand_range` are not modelled as generators. Their values are parameters (`mDraw`, `draws`, `kDraws`).
- `BN_generate_prime_ex` is a library call, and neither program tests primality. The primes are parameters with `p, q >= 2`.
- OpenSSL object management (`BN_new`, `BN_free`, `BN_CTX_*`) is memory plumbing and is not modelled.
- The Markdown text at the end of `rsaopenssl.c` (lines 95-139) is not code and is not modelled.
- Rsa.ModExp: every `long long` is an unbounded integer, so the overflow of `result * base` and `base * base` is not modelled. The C code is only correct when `mod^2 < 2^63`.
- Rsa.ModExp: requires `mod != 0`, because C's `base % mod` is undefined for a zero modulus. `main` always passes `n >= 4`.
- Rsa.RandomEven: requires `n != 0`, because C's `rand() % n` is undefined for a zero modulus. `main` always passes `n = 1961`.
- Rsa.ChooseE: requires `phi >= 1`. For `phi = 0` the C loop never ends (`Rsa.ChooseEDivergesAtZero`). `main` cannot produce a negative `phi`, so that case is not modelled.
- RsaOpenSsl.SelectE: requires `phi >= 1`. Without that bound the fallback loop need not end.
- Rsa.RandomEven, RsaOpenSsl.DrawMask: an endless run of rejected draws, in which the C loop never returns, appears as `None` once the finite sequence of draws runs out.
- Rsa.RunRsa, RsaOpenSsl.RunOpenSsl: neither proves that decryption returns `m + k`. That needs Euler's theorem and the Chinese remainder theorem, which the code does not contain. The contracts instead state the parity step under the hypothesis `decrypted == m + k`, and `Rsa.MaskAtEdgeLosesBit` shows the hypothesis fails when `m + k == n`.
