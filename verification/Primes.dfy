/** Trial division in the C++ library and in the Python tools, and the finite moduli they admit. */
module Primes {
  import opened IntMath
  import opened Divisibility
  import opened Contracts

  /** No divisor strictly between 1 and the number itself. */
  ghost predicate IsPrime(n: int)
  {
    n >= 2 && forall d :: 2 <= d < n ==> !Divides(d, n)
  }

  ghost predicate NoDivisorBelow(n: int, bound: int)
  {
    forall d :: 2 <= d < bound ==> !Divides(d, n)
  }

  /** Trial division may stop at the square root: a large divisor has a small cofactor. */
  lemma SquareRootSuffices(n: int, bound: int)
    requires n >= 2 && bound >= 2 && bound * bound > n && NoDivisorBelow(n, bound)
    ensures IsPrime(n)
  {
    forall d | 2 <= d < n
      ensures !Divides(d, n)
    {
      if Divides(d, n) && d >= bound {
        var e := DividesQuotient(d, n);
        if e <= 1 {
          MulMono(e, 1, d);
        }
        if e >= bound {
          MulMono(bound, e, d);
          MulMono(bound, d, bound);
        }
        MultipleDivides(e, d);
      }
    }
  }

  /** `valid_finite_field_modulus`. */
  method ValidFiniteFieldModulus(modulus: nat) returns (ok: bool)
    ensures ok <==> modulus <= 251 && IsPrime(modulus)
  {
    if modulus < 2 || modulus > 251 {
      return false;
    }
    var divisor := 2;
    while divisor * divisor <= modulus
      invariant 2 <= divisor <= modulus && NoDivisorBelow(modulus, divisor)
      decreases modulus - divisor
    {
      MulMono(2, divisor, divisor);
      if modulus % divisor == 0 {
        assert Divides(divisor, modulus);
        return false;
      }
      divisor := divisor + 1;
    }
    SquareRootSuffices(modulus, divisor);
    return true;
  }

  lemma OddHasNoEvenDivisor(n: int, d: int)
    requires n % 2 == 1 && d > 0 && d % 2 == 0
    ensures !Divides(d, n)
  {
    var k, half := n / d, d / 2;
    assert n == k * d + n % d;
    assert k * (2 * half) == 2 * (k * half);
  }

  /** `is_prime` of the search tool and `_is_prime` of the modulus map: odd divisors only. */
  method IsPrimeOddDivisors(value: int) returns (ok: bool)
    ensures ok <==> IsPrime(value)
  {
    if value < 2 {
      return false;
    }
    if value == 2 {
      return true;
    }
    if value % 2 == 0 {
      assert Divides(2, value);
      return false;
    }
    var divisor := 3;
    while divisor * divisor <= value
      invariant 3 <= divisor <= value && divisor % 2 == 1 && NoDivisorBelow(value, divisor)
      decreases value - divisor
    {
      if value % divisor == 0 {
        MulMono(3, divisor, divisor);
        assert Divides(divisor, value);
        return false;
      }
      OddHasNoEvenDivisor(value, divisor + 1);
      MulMono(3, divisor, divisor);
      divisor := divisor + 2;
    }
    SquareRootSuffices(value, divisor);
    return true;
  }

  ghost predicate HasInverse(a: int, m: int) { exists b :: IsInverse(b, a, m) }

  /** The integers modulo `m` form a field exactly when `m` is prime. */
  lemma FieldIffPrime(m: nat)
    requires m >= 2
    ensures IsPrime(m) <==> forall a :: 1 <= a < m ==> HasInverse(a, m)
  {
    if IsPrime(m) {
      forall a | 1 <= a < m
        ensures HasInverse(a, m)
      {
        GcdDivides(a, m);
        var g := Gcd(a, m);
        var k := DividesQuotient(g, a);
        if g > a {
          if k >= 1 { MulMono(1, k, g); } else { MulMono(k, 0, g); }
        }
        assert g == 1;
        var inv := InverseExists(a, m);
      }
    } else {
      var d :| 2 <= d < m && Divides(d, m);
      if HasInverse(d, m) {
        var b :| IsInverse(b, d, m);
        InverseMeansCoprime(b, d, m);
        MultipleDivides(d, 1);
        GcdGreatest(d, m, d);
        DividesOne(d);
      }
    }
  }

  /** `valid_finite_modulus`: a ring takes any byte modulus; a field takes exactly the moduli up to 251 for
      which every nonzero residue is invertible; other semantics carry no modulus to check. */
  method ValidFiniteModulus(semantics: Semantics, modulus: nat) returns (ok: bool)
    ensures semantics == FiniteRingU8 ==> (ok <==> 2 <= modulus <= 256)
    ensures semantics == FiniteFieldU8 ==>
      (ok <==> 2 <= modulus <= 251 && forall a :: 1 <= a < modulus ==> HasInverse(a, modulus))
    ensures semantics != FiniteRingU8 && semantics != FiniteFieldU8 ==> ok
  {
    if semantics == FiniteRingU8 {
      return 2 <= modulus <= 256;
    }
    if semantics == FiniteFieldU8 {
      if modulus >= 2 {
        FieldIffPrime(modulus);
      }
      ok := ValidFiniteFieldModulus(modulus);
      return;
    }
    return true;
  }
}
