# Fractions and prime utilities, verified in Dafny

This project models the arithmetic core of a small Rust library for exact fractions:

- the prime utilities of `src/prime.rs`: `is_prime` (trial division by odd numbers) and
  `next_prime` (step through odd candidates until one is prime);
- the fraction engine of `src/fraction.rs`: a `Fraction { n, d }` whose methods
  `simplify`, `sum`, `sub` and `apply_lcm` overwrite its fields in place, its conversion
  `get_fraction_mixed` to a `FractionMixed { num_improprio, fracao }`, the conversion
  `get_fraction` back, and the free function `lcm`, which finds the least common multiple
  of a slice by factorising the slice in place.

Files and modules:

- `number_theory.dfy` (`NumberTheory`): divisibility, primality (`Prime`), the least
  prime above a number (`IsNextPrime`), `Gcd`, Euclid's lemma, least prime factors and
  Euclid's proof that there is a prime above every number.
- `primes.dfy` (`Primes`): `IsPrime` and `NextPrime`, the loops of `src/prime.rs`.
- `truncating.dfy` (`Truncating`): Rust's `/` and `%` on integers, which truncate toward
  zero, as `Quot` and `Rem`.
- `fractions.dfy` (`Fractions`): the class `Fraction` with fields `n` and `d` and its
  in-place methods; the datatype `Ratio`, the `(n, d)` pair a fraction holds at one
  moment; the datatype `FractionMixed`; and the lemmas that say what the methods mean for
  the rational value.
- `lcm.dfy` (`LeastCommonMultiple`): `Lcm`, the in-place factorisation over an array.
- `examples_client.dfy` (`Demo`): the sample computations of `src/main.rs`, whose results
  follow from the contracts alone.

How the source is followed:

- `is_prime` answers true for every `x <= 0` and for 2, because neither of its guards
  fires and its range of trial divisors is empty. The model keeps this: `IsPrime(x)` is
  true exactly when `x <= 0` or `x` is prime.
- `next_prime` has no bound on its loop. `NextPrime` proves that it stops by exhibiting a
  prime above `p` (the least factor of `p! + 1`) and decreasing the distance to it.
- `simplify` is specified through the states it leaves unchanged (`Settled`: a part below
  2, two primes, or no common factor). Its result is settled and a settled fraction is
  left unchanged, so applying it twice gives the same result as once. When numerator and
  denominator start equal it stops at equal primes: `6/6` becomes `3/3`.
- `sum` and `sub` act only when the denominators are equal; `sub` stores the distance
  between the numerators. With different denominators both leave the fraction as it is.
  `src/fraction.rs` has no `mul`, `div`, LCM-aware `sum`/`sub` or mixed-number
  arithmetic; the model covers what it has.
- `/` and `%` are Rust's truncating operators wherever a negative operand can reach them
  (`apply_lcm`, `get_fraction_mixed`), except where only a zero remainder is tested
  (`is_prime`), which does not depend on the sign convention; in `simplify` and `lcm` the
  operands are positive, where truncating and Euclidean division agree.

## Model

| member | source | states |
|---|---|---|
| `Primes.IsPrime` | src/prime.rs:15-30 | the answer is true exactly when `x <= 0` or `x` is prime; in particular false for 1 and for every even number above 2, true for every `x <= 0`; odd trial divisors suffice because even numbers above 2 are rejected first |
| `Primes.NextPrime` | src/prime.rs:1-13 | the result is the least prime strictly above `p` (2 when `p < 2`), and odd when `p >= 2`: the search over odd candidates skips no prime |
| `NumberTheory.PrimeAbove` | src/prime.rs:6-11 | there is a prime above every integer, which is why the loop of `next_prime` ends |
| `Fractions.Fraction.Simplify` | src/fraction.rs:22-38 | the result is settled; a settled fraction (in particular one with `n < 2` or `d < 2`) is left unchanged, so simplifying twice equals simplifying once; the value is kept (`n' * d == n * d'`); for positive parts the new parts divide the old ones; distinct positive parts end with `Gcd(n, d) == 1`; equal parts from 2 up end as the largest prime factor over itself |
| `Fractions.DivideStep` | src/fraction.rs:31-33 | dividing both parts by a common prime candidate keeps the loop invariant (the pair times the divided-out product is the original pair, no smaller prime is a common factor, a settled pair was never touched) and lowers the numerator, so the loop makes progress |
| `Fractions.NextStep` | src/fraction.rs:34-35 | moving the candidate to the next prime when it is not a common factor keeps the loop invariant: no prime skipped in between can be a common factor |
| `Fractions.SimplifyEnd` | src/fraction.rs:25-28 | each of the exit tests leaves a settled pair, and from the invariant the pair has the original value, divides the original parts, and is coprime when the parts started distinct |
| `Fractions.SettledDistinctCoprime` | src/fraction.rs:25-27 | a settled fraction with distinct positive parts has no common factor |
| `Fractions.EqualOutcome` | src/fraction.rs:25-35 | when the parts start equal, the loop stops at the largest prime factor of the starting value |
| `Fractions.Fraction.Sum` | src/fraction.rs:40-44 | with equal denominators the numerators are added and `d` is kept; otherwise nothing changes |
| `Fractions.SummedIsRationalSum` | src/fraction.rs:40-44 | with a shared non-zero denominator the result has the value of the rational sum |
| `Fractions.Fraction.Sub` | src/fraction.rs:46-50 | with equal denominators `n` becomes the distance between the numerators and `d` is kept; otherwise nothing changes |
| `Fractions.SubtractedIsDistance` | src/fraction.rs:46-50 | with a shared positive denominator the result is never negative and has the value of the absolute difference |
| `Fractions.SumUndoesSub` | src/fraction.rs:40-50 | `sub` followed by `sum` with the same operand restores the receiver when its numerator is not the smaller |
| `Fractions.SubUndoesSum` | src/fraction.rs:40-50 | `sum` followed by `sub` with the same operand restores a receiver whose numerator is not negative |
| `Fractions.Fraction.ApplyLcm` | src/fraction.rs:52-55 | the denominator becomes `mmc` and the numerator is scaled by the truncated quotient `mmc / d` |
| `Fractions.RescaledKeepsValue` | src/fraction.rs:52-55 | when `d` divides `mmc` the value is kept and the numerator is multiplied by `mmc / d` |
| `Fractions.FractionMixed.GetFraction` | src/fraction.rs:10-12 | the improper fraction keeps the denominator `fracao.d`; for a proper fraction with the sign of the whole part, Rust's truncating `/` and `%` of the result give back the whole part and the numerator, so `get_fraction_mixed` undoes it (`MixedRoundTrip`), and it undoes `get_fraction_mixed` (the first ensures of `GetFractionMixed`) |
| `Fractions.Fraction.GetFractionMixed` | src/fraction.rs:57-59 | converting back with `get_fraction` gives the same fraction; the remainder has the denominator `d`, is smaller than `d` in size and has the sign of `n`; for `n >= 0`, `d > 0` the whole part is `n / d` and `0 <= remainder < d` |
| `Fractions.MixedRoundTrip` | src/fraction.rs:10-12 | a mixed number with a proper fraction of the sign of its whole part comes back unchanged from `get_fraction` followed by `get_fraction_mixed` |
| `Truncating.Quot` | src/fraction.rs:58 | Rust's `/`: `b * q` lies between 0 and `a` and is within `b` of `a`; it is Dafny's `/` for `a >= 0`, `b > 0` |
| `Truncating.Rem` | src/fraction.rs:58 | Rust's `%`: `a == b * Quot(a, b) + r`, with `r` of the sign of `a` and smaller than `b` in size |
| `Truncating.QuotUnique` | src/fraction.rs:53 | any `q` with the two properties of `Quot` is `Quot(a, b)`: the truncated quotient is the multiple of `b` nearest `a` on the side of zero |
| `LeastCommonMultiple.Lcm` | src/fraction.rs:62-98 | for positive elements the result is the least common multiple of the original elements (a common multiple dividing every positive common multiple) and every element ends equal to 1; an empty slice gives 1 |
| `LeastCommonMultiple.PassMultiples` | src/fraction.rs:70-81 | after a pass with a prime that divides some element, the common multiples of the old slice are exactly the prime times those of the new slice |
| `LeastCommonMultiple.AccountsStep` | src/fraction.rs:83-84 | multiplying the result by the prime after such a pass keeps the loop invariant that ties the result so far and the current slice to the original slice |
| `LeastCommonMultiple.NoFactorBelowNext` | src/fraction.rs:85-87 | moving to the next prime after a pass that divided nothing leaves no element with a factor below the new prime |
| `LeastCommonMultiple.DivideAllFacts` | src/fraction.rs:70-81 | a pass keeps the elements positive, divides nothing or lowers their sum, and introduces no new factor |
| `LeastCommonMultiple.LcmUnique` | src/fraction.rs:62 | the least common multiple that `lcm` returns is unique |
| `Demo.SimplifyTwiceSample` | src/fraction.rs:22-38 | simplifying a fraction a second time leaves it as the first `simplify` left it, for every starting pair |
| `Demo.LcmOfFiveAndTwo` | src/main.rs:8-9 | the least common multiple of `[5, 2]` is 10 |

## Left out

- `i32` arithmetic: integers are unbounded, so no overflow and no `i32::MIN / -1` panic is
  modelled.
- Division by zero: `apply_lcm` and `get_fraction_mixed` panic in Rust when `d == 0`; the
  model requires `d != 0` there.
- `lcm` on zero or negative elements: the model requires positive elements. In the source
  `[0]` returns 2, but a zero alongside an element above 1 that is not a power of 2 keeps
  the loop from ending: 0 is divisible by 2 on every pass, so `prime` never advances.
- `get_fraction` returns a new `Fraction` in Rust; the model returns its `(n, d)` value as
  a `Ratio`, since the new fraction is not shared with anything.
- `simplify` evaluates `is_prime(self.d)` only when `is_prime(self.n)` holds; the model
  evaluates both, which is the same because `is_prime` has no effect.
- `src/percentage.rs` (a conversion driven by floating-point rounding), the printing of
  `src/main.rs` and the `Debug` formatting are not part of this model.
