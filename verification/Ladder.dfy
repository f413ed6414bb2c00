/** Modulus ladders: the pairwise-coprimality test and CRT constants of the offline search tool, and the
    Chinese-remainder facts that hold of every pairwise-coprime ladder. */
module Ladder {
  import opened Wrappers
  import opened IntMath
  import opened Divisibility

  predicate Moduli(ms: seq<nat>) { forall i :: 0 <= i < |ms| ==> ms[i] >= 2 }

  /** The product of the first `n` moduli. */
  function PrefixProduct(ms: seq<nat>, n: nat): nat
    requires n <= |ms|
  {
    if n == 0 then 1 else PrefixProduct(ms, n - 1) * ms[n - 1]
  }

  /** No two of the first `n` moduli share a factor. */
  ghost predicate PairwiseCoprime(ms: seq<nat>, n: nat)
    requires n <= |ms|
  {
    forall i, j :: 0 <= i < j < n ==> Coprime(ms[i], ms[j])
  }

  /** Two integers that leave the same remainder by each of the first `n` moduli. */
  ghost predicate SameResidues(x: int, y: int, ms: seq<nat>, n: nat)
    requires Moduli(ms) && n <= |ms|
  {
    forall i :: 0 <= i < n ==> x % ms[i] == y % ms[i]
  }

  lemma {:induction false} PrefixProductGrows(ms: seq<nat>, i: nat, n: nat)
    requires Moduli(ms) && i <= n <= |ms|
    ensures 1 <= PrefixProduct(ms, i) <= PrefixProduct(ms, n)
    ensures i < n ==> 2 * PrefixProduct(ms, i) <= PrefixProduct(ms, n)
    decreases n
  {
    if i < n {
      PrefixProductGrows(ms, i, n - 1);
      MulMono(2, ms[n - 1], PrefixProduct(ms, n - 1));
    } else if n > 0 {
      PrefixProductGrows(ms, n - 1, n - 1);
      MulMono(1, ms[n - 1], PrefixProduct(ms, n - 1));
    }
  }

  lemma {:induction false} ModulusDividesProduct(ms: seq<nat>, i: nat, n: nat)
    requires Moduli(ms) && i < n <= |ms|
    ensures Divides(ms[i], PrefixProduct(ms, n))
    decreases n
  {
    if i == n - 1 {
      MultipleDivides(ms[i], PrefixProduct(ms, n - 1));
    } else {
      ModulusDividesProduct(ms, i, n - 1);
      DividesCombination(ms[i], PrefixProduct(ms, n - 1), 0, ms[n - 1], 0);
    }
  }

  /** A number is coprime to a product exactly when it is coprime to every factor. */
  lemma {:induction false} CoprimeToProduct(ms: seq<nat>, n: nat, m: nat)
    requires n <= |ms|
    ensures Coprime(PrefixProduct(ms, n), m) <==> forall i :: 0 <= i < n ==> Coprime(ms[i], m)
  {
    if n == 0 {
      CoprimeFromBezout(1, m, 1, 0);
    } else {
      CoprimeToProduct(ms, n - 1, m);
      CoprimeProduct(PrefixProduct(ms, n - 1), ms[n - 1], m);
    }
  }

  /** Uniqueness half of the Chinese remainder theorem. */
  lemma {:induction false} ResiduesDetermine(ms: seq<nat>, n: nat, x: int, y: int)
    requires Moduli(ms) && n <= |ms| && PairwiseCoprime(ms, n)
    requires SameResidues(x, y, ms, n)
    ensures PrefixProduct(ms, n) > 0 && x % PrefixProduct(ms, n) == y % PrefixProduct(ms, n)
  {
    PrefixProductGrows(ms, 0, n);
    if n > 0 {
      ResiduesDetermine(ms, n - 1, x, y);
      PrefixProductGrows(ms, 0, n - 1);
      var p, m := PrefixProduct(ms, n - 1), ms[n - 1];
      CongSubZero(x, y, p);
      CongSubZero(x, y, m);
      CoprimeToProduct(ms, n - 1, m);
      CoprimeDivisorsMultiply(p, m, x - y);
      CongSubZero(x, y, p * m);
    } else {
      SmallMod(0, 1);
    }
  }

  /** Equality modulo the product gives equality modulo every factor. */
  lemma ProductDetermines(ms: seq<nat>, n: nat, x: int, y: int)
    requires Moduli(ms) && n <= |ms|
    requires PrefixProduct(ms, n) > 0 && x % PrefixProduct(ms, n) == y % PrefixProduct(ms, n)
    ensures SameResidues(x, y, ms, n)
  {
    var k := CongToMultiple(x, y, PrefixProduct(ms, n));
    forall i | 0 <= i < n
      ensures x % ms[i] == y % ms[i]
    {
      ModulusDividesProduct(ms, i, n);
      DividesCombination(ms[i], PrefixProduct(ms, n), 0, k, 0);
      CongSubZero(x, y, ms[i]);
    }
  }

  /** Every pairwise gcd of 1 up to row `index`; the tool's doubly nested loop. */
  method IsCoprimeSet(values: seq<nat>) returns (ok: bool)
    ensures ok <==> PairwiseCoprime(values, |values|)
  {
    for index := 0 to |values|
      invariant forall i, j :: 0 <= i < index && i < j < |values| ==> Coprime(values[i], values[j])
    {
      for right := index + 1 to |values|
        invariant forall j :: index < j < right ==> Coprime(values[index], values[j])
      {
        var g := EuclidGcd(values[index], values[right]);
        if g != 1 {
          return false;
        }
      }
    }
    return true;
  }

  method Product(values: seq<nat>) returns (result: nat)
    ensures result == PrefixProduct(values, |values|)
  {
    result := 1;
    for i := 0 to |values|
      invariant result == PrefixProduct(values, i)
    {
      result := result * values[i];
    }
  }

  datatype CrtConstant = CrtConstant(prefix: nat, modulus: nat, priorProductMod: nat, inverse: Option<nat>)

  /** One row of the table: the prior product modulo the row's modulus, and its inverse if it has one. */
  ghost predicate RowCorrect(c: CrtConstant, ms: seq<nat>, i: nat)
    requires Moduli(ms) && i < |ms|
  {
    && c.prefix == i + 1 && c.modulus == ms[i]
    && c.priorProductMod == PrefixProduct(ms, i) % ms[i]
    && (c.inverse.Some? <==> RowInvertible(ms, i))
    && (c.inverse.Some? ==> IsInverse(c.inverse.value, PrefixProduct(ms, i), ms[i]))
  }

  lemma InverseOfResidue(inv: int, a: int, m: int)
    requires m > 1
    ensures IsInverse(inv, a % m, m) <==> IsInverse(inv, a, m)
  {
    ModIdem(a, m);
    CongMul(a % m, a, inv, inv, m);
  }

  ghost predicate RowInvertible(ms: seq<nat>, i: nat)
    requires i < |ms|
  {
    Coprime(PrefixProduct(ms, i), ms[i])
  }

  /** The prior product of a ladder is invertible at every row exactly when the ladder is coprime. */
  lemma {:induction false} InvertibleRowsIffCoprime(ms: seq<nat>, n: nat)
    requires n <= |ms|
    ensures PairwiseCoprime(ms, n) <==> forall i :: 0 <= i < n ==> RowInvertible(ms, i)
  {
    if n > 0 {
      InvertibleRowsIffCoprime(ms, n - 1);
      CoprimeToProduct(ms, n - 1, ms[n - 1]);
      assert RowInvertible(ms, n - 1) <==> forall i :: 0 <= i < n - 1 ==> Coprime(ms[i], ms[n - 1]);
    }
  }

  method CrtRow(index: nat, modulus: nat, prefixProduct: nat) returns (row: CrtConstant)
    requires modulus >= 2 && (index == 0 ==> prefixProduct == 1)
    ensures row.prefix == index + 1 && row.modulus == modulus
    ensures row.priorProductMod == prefixProduct % modulus
    ensures row.inverse.Some? <==> Coprime(prefixProduct, modulus)
    ensures row.inverse.Some? ==> IsInverse(row.inverse.value, prefixProduct, modulus)
  {
    if index == 0 {
      SmallMod(1, modulus);
      CoprimeFromBezout(1, modulus, 1, 0);
      return CrtConstant(1, modulus, 1 % modulus, Some(1 % modulus));
    }
    var priorMod := prefixProduct % modulus;
    var g := EuclidGcd(priorMod, modulus);
    CoprimeMod(prefixProduct, modulus);
    var inverse := None;
    if g == 1 {
      var inv := ModInverse(priorMod, modulus);
      InverseOfResidue(inv, prefixProduct, modulus);
      inverse := Some(inv);
    }
    return CrtConstant(index + 1, modulus, priorMod, inverse);
  }

  /** The CRT constants table.  No row lacks an inverse exactly when the ladder is pairwise coprime. */
  method CrtPrefixConstants(moduli: seq<nat>) returns (constants: seq<CrtConstant>)
    requires Moduli(moduli)
    ensures |constants| == |moduli|
    ensures forall i :: 0 <= i < |moduli| ==> RowCorrect(constants[i], moduli, i)
    ensures (forall i :: 0 <= i < |constants| ==> constants[i].inverse.Some?)
       <==> PairwiseCoprime(moduli, |moduli|)
  {
    constants := [];
    var prefixProduct := 1;
    for index := 0 to |moduli|
      invariant |constants| == index && prefixProduct == PrefixProduct(moduli, index)
      invariant forall i :: 0 <= i < index ==> RowCorrect(constants[i], moduli, i)
    {
      var row := CrtRow(index, moduli[index], prefixProduct);
      constants := constants + [row];
      prefixProduct := prefixProduct * moduli[index];
    }
    InvertibleRowsIffCoprime(moduli, |moduli|);
    assert forall i :: 0 <= i < |moduli| ==> (constants[i].inverse.Some? <==> RowInvertible(moduli, i));
  }

  /** The table holds the very numbers the run-time reconstruction recomputes: any inverse of the prior
      product is the table's. */
  lemma TableInverseIsTheInverse(c: CrtConstant, ms: seq<nat>, i: nat, inv: int)
    requires Moduli(ms) && i < |ms| && RowCorrect(c, ms, i)
    requires IsInverse(inv, c.priorProductMod, ms[i])
    ensures c.inverse == Some(inv)
  {
    InverseOfResidue(inv, PrefixProduct(ms, i), ms[i]);
    InverseMeansCoprime(inv, PrefixProduct(ms, i), ms[i]);
    InverseUnique(inv, c.inverse.value, PrefixProduct(ms, i), ms[i]);
  }
}
