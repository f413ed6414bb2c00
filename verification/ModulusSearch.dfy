/** The offline ladder search (`tools/modulus_set_search.py`): range coverage of ladder prefixes, the greedy
    candidate, and the verdict on a candidate. */
module ModulusSearch {
  import opened Wrappers
  import opened IntMath
  import opened Divisibility
  import opened Ladder
  import opened Garner
  import opened Vectors

  /** Python's `int.bit_length` of a nonnegative integer. */
  function BitLength(n: nat): nat
  {
    if n == 0 then 0 else 1 + BitLength(n / 2)
  }

  /** A bit-length test is a comparison with a power of two. */
  lemma {:induction false} BitLengthIff(n: nat, bits: nat)
    requires bits >= 1
    ensures BitLength(n) >= bits <==> n >= Pow2(bits - 1)
  {
    if n > 0 && bits > 1 {
      BitLengthIff(n / 2, bits - 1);
    }
  }

  /** What a required-bits entry asks of the first `n` moduli. */
  ghost predicate Satisfies(ms: seq<nat>, n: nat, bits: nat)
    requires n <= |ms|
  {
    bits == 0 || PrefixProduct(ms, n) >= Pow2(bits - 1)
  }

  /** Longer prefixes satisfy whatever shorter ones do. */
  lemma SatisfiesUpward(ms: seq<nat>, i: nat, n: nat, bits: nat)
    requires Moduli(ms) && i <= n <= |ms| && Satisfies(ms, i, bits)
    ensures Satisfies(ms, n, bits)
  {
    PrefixProductGrows(ms, i, n);
  }

  datatype PrefixRow = PrefixRow(prefix: nat, lastModulus: nat, productBits: nat, satisfies: map<string, bool>)

  ghost predicate RowFor(row: PrefixRow, ms: seq<nat>, i: nat, required: map<string, nat>)
    requires i < |ms|
  {
    && row.prefix == i + 1 && row.lastModulus == ms[i]
    && row.productBits == BitLength(PrefixProduct(ms, i + 1))
    && row.satisfies.Keys == required.Keys
    && forall name :: name in required ==> (row.satisfies[name] <==> Satisfies(ms, i + 1, required[name]))
  }

  lemma {:induction false} PrefixProductOfPrefix(ms: seq<nat>, k: nat, n: nat)
    requires n <= k <= |ms|
    ensures PrefixProduct(ms[..k], n) == PrefixProduct(ms, n)
  {
    if n > 0 {
      PrefixProductOfPrefix(ms, k, n - 1);
    }
  }

  /** `prefix_products`: the product of the running list is recomputed for every prefix. */
  method PrefixProducts(moduli: seq<nat>, required: map<string, nat>) returns (rows: seq<PrefixRow>)
    ensures |rows| == |moduli|
    ensures forall i :: 0 <= i < |rows| ==> RowFor(rows[i], moduli, i, required)
  {
    rows := [];
    var running := [];
    for index := 0 to |moduli|
      invariant running == moduli[..index] && |rows| == index
      invariant forall i :: 0 <= i < index ==> RowFor(rows[i], moduli, i, required)
    {
      running := running + [moduli[index]];
      assert running == moduli[..index + 1];
      PrefixProductOfPrefix(moduli, index + 1, index + 1);
      var product := Product(running);
      var bits := BitLength(product);
      forall name | name in required && required[name] >= 1
        ensures bits >= required[name] <==> product >= Pow2(required[name] - 1)
      {
        BitLengthIff(product, required[name]);
      }
      rows := rows + [PrefixRow(index + 1, moduli[index], bits,
                                map name | name in required :: bits >= required[name])];
    }
  }

  /** The first prefix that satisfies the entry, or none. */
  ghost predicate LeastPrefix(p: Option<nat>, ms: seq<nat>, bits: nat)
  {
    match p
    case Some(n) => 1 <= n <= |ms| && Satisfies(ms, n, bits) && forall i :: 1 <= i < n ==> !Satisfies(ms, i, bits)
    case None => forall i :: 1 <= i <= |ms| ==> !Satisfies(ms, i, bits)
  }

  /** `required_prefixes`. */
  method RequiredPrefixes(moduli: seq<nat>, required: map<string, nat>) returns (result: map<string, Option<nat>>)
    ensures result.Keys == required.Keys
    ensures forall name :: name in required ==> LeastPrefix(result[name], moduli, required[name])
  {
    var rows := PrefixProducts(moduli, required);
    result := map[];
    var names := required.Keys;
    while names != {}
      invariant result.Keys == required.Keys - names && names <= required.Keys
      invariant forall name :: name in result ==> LeastPrefix(result[name], moduli, required[name])
      decreases |names|
    {
      var name :| name in names;
      var prefix: Option<nat> := None;
      var i := 0;
      while i < |rows| && prefix == None
        invariant 0 <= i <= |rows|
        invariant prefix == None ==> forall j :: 1 <= j <= i ==> !Satisfies(moduli, j, required[name])
        invariant prefix != None ==> LeastPrefix(prefix, moduli, required[name])
        decreases |rows| - i, prefix == None
      {
        assert RowFor(rows[i], moduli, i, required);
        if rows[i].satisfies[name] {
          prefix := Some(rows[i].prefix);
        } else {
          i := i + 1;
        }
      }
      result := result[name := prefix];
      names := names - {name};
    }
  }

  // Coverage against the arithmetic contracts.

  lemma {:induction false} OddCoprimeToPow2(q: nat, e: nat)
    requires q % 2 == 1
    ensures Coprime(Pow2(e), q)
  {
    if e == 0 {
      CoprimeFromBezout(1, q, 1, 0);
    } else {
      OddCoprimeToPow2(q, e - 1);
      CoprimeFromBezout(2, q, -(q / 2), 1);
      CoprimeProductOf(2, Pow2(e - 1), q);
    }
  }

  /** Two coprime moduli are not both even, so a ladder of two or more is never a power of two. */
  lemma LadderIsNotPowerOfTwo(ms: seq<nat>, n: nat, e: nat)
    requires Moduli(ms) && 2 <= n <= |ms| && PairwiseCoprime(ms, n)
    ensures PrefixProduct(ms, n) != Pow2(e)
  {
    assert Coprime(ms[0], ms[1]);
    if ms[0] % 2 == 0 && ms[1] % 2 == 0 {
      GcdGreatest(ms[0], ms[1], 2);
    }
    var i := if ms[0] % 2 == 1 then 0 else 1;
    if PrefixProduct(ms, n) == Pow2(e) {
      ModulusDividesProduct(ms, i, n);
      MultipleDivides(ms[i], 1);
      OddCoprimeToPow2(ms[i], e);
      GcdGreatest(Pow2(e), ms[i], ms[i]);
      DividesOne(ms[i]);
    }
  }

  /** So a satisfied entry is a strict inequality. */
  lemma SatisfiesStrictly(ms: seq<nat>, n: nat, bits: nat)
    requires Moduli(ms) && 2 <= n <= |ms| && PairwiseCoprime(ms, n) && bits >= 1
    ensures Satisfies(ms, n, bits) <==> PrefixProduct(ms, n) > Pow2(bits - 1)
  {
    LadderIsNotPowerOfTwo(ms, n, bits - 1);
  }

  /** The 65-bit entry is exactly the range contract of full signed and of full unsigned 64-bit output. */
  lemma FullWordEntry(ms: seq<nat>, n: nat)
    requires Moduli(ms) && 2 <= n <= |ms| && PairwiseCoprime(ms, n)
    ensures Satisfies(ms, n, 65) <==> RangeFits(true, TWO_63, PrefixProduct(ms, n))
    ensures Satisfies(ms, n, 65) <==> RangeFits(false, TWO_64 - 1, PrefixProduct(ms, n))
  {
    SatisfiesStrictly(ms, n, 65);
    LadderIsNotPowerOfTwo(ms, n, 64);
    Pow2Consts();
  }

  lemma WidePowers()
    ensures Pow2(127) == TWO_63 * TWO_63 * 2 && Pow2(128) == TWO_64 * TWO_64
    ensures (TWO_64 - 1) * (TWO_64 - 1) <= Pow2(128)
  {
    Pow2Consts();
    Pow2Add(64, 63);
    Pow2Add(64, 64);
  }

  /** Vectors of `k` native 64-bit values. */
  predicate NativeTerms(signed: bool, x: seq<int>, k: nat)
  {
    |x| == k && forall t :: 0 <= t < k ==> FitsWord(signed, x[t])
  }

  /** The product covers every dot product of `k` native terms. */
  ghost predicate CoversDots(signed: bool, k: nat, product: nat)
  {
    forall x: seq<int>, y: seq<int> {:trigger NativeTerms(signed, x, k), NativeTerms(signed, y, k)} ::
      NativeTerms(signed, x, k) && NativeTerms(signed, y, k) ==> RangeFits(signed, Abs(Dot(x, y, k)), product)
  }

  /** The largest magnitude of a native value. */
  function NativeMax(signed: bool): nat { if signed then TWO_63 else TWO_64 - 1 }

  lemma NativeDotBound(signed: bool, x: seq<int>, y: seq<int>, k: nat)
    requires NativeTerms(signed, x, k) && NativeTerms(signed, y, k)
    ensures Abs(Dot(x, y, k)) <= k * (NativeMax(signed) * NativeMax(signed))
  {
    var top := NativeMax(signed);
    DotBySum(x, y, k, top);
    AbsSumByMax(x, k, top);
    MulMono(AbsSum(x, k), k * top, top);
    assert k * top * top == k * (top * top);
  }

  lemma CoversExtreme(signed: bool, k: nat, product: nat)
    requires RangeFits(signed, k * (NativeMax(signed) * NativeMax(signed)), product)
    ensures CoversDots(signed, k, product)
  {
    forall x: seq<int>, y: seq<int> {:trigger NativeTerms(signed, x, k), NativeTerms(signed, y, k)}
      | NativeTerms(signed, x, k) && NativeTerms(signed, y, k)
      ensures RangeFits(signed, Abs(Dot(x, y, k)), product)
    {
      NativeDotBound(signed, x, y, k);
    }
  }

  /** What plan validation demands of K covers every dot product of K native 64-bit terms. */
  lemma ContractCovers(signed: bool, k: nat, product: nat)
    requires product > k * Pow2(if signed then 127 else 128)
    ensures RangeFits(signed, k * (NativeMax(signed) * NativeMax(signed)), product) && CoversDots(signed, k, product)
  {
    WidePowers();
    MulMono((TWO_64 - 1) * (TWO_64 - 1), Pow2(128), k);
    MulNonNeg(k, (TWO_64 - 1) * (TWO_64 - 1));
    assert k * (TWO_63 * TWO_63) * 2 == k * (TWO_63 * TWO_63 * 2);
    CoversExtreme(signed, k, product);
  }

  /** A range of `t + 128` bits covers every dot product of 2^t native terms. */
  lemma BitsCoverDots(signed: bool, t: nat, product: nat)
    requires product > Pow2(t + 128)
    ensures CoversDots(signed, Pow2(t), product)
  {
    Pow2Add(t, 128);
    Pow2Mono(127, 128);
    MulMono(Pow2(127), Pow2(128), Pow2(t));
    ContractCovers(signed, Pow2(t), product);
  }

  lemma EntriesAreDemands(ms: seq<nat>, n: nat, t: nat, e: nat, bits: nat)
    requires Moduli(ms) && 2 <= n <= |ms| && PairwiseCoprime(ms, n) && bits == t + e + 1
    ensures Satisfies(ms, n, bits) <==> PrefixProduct(ms, n) > Pow2(t) * Pow2(e)
  {
    SatisfiesStrictly(ms, n, bits);
    Pow2Add(t, e);
    var power := Pow2(t) * Pow2(e);
    assert Pow2(bits - 1) == power;
  }

  /** The exact-wide entries for K = 2^t (128 + t signed, 129 + t unsigned) are exactly what plan validation
      demands of K, and they cover every dot product of K native 64-bit terms. */
  lemma ExactWideEntries(ms: seq<nat>, n: nat, t: nat)
    requires Moduli(ms) && 2 <= n <= |ms| && PairwiseCoprime(ms, n)
    ensures Satisfies(ms, n, 128 + t) <==> PrefixProduct(ms, n) > Pow2(t) * Pow2(127)
    ensures Satisfies(ms, n, 129 + t) <==> PrefixProduct(ms, n) > Pow2(t) * Pow2(128)
    ensures Satisfies(ms, n, 128 + t) ==> CoversDots(true, Pow2(t), PrefixProduct(ms, n))
    ensures Satisfies(ms, n, 128 + t) ==> RangeFits(true, Pow2(t) * (TWO_63 * TWO_63), PrefixProduct(ms, n))
    ensures Satisfies(ms, n, 129 + t) ==> CoversDots(false, Pow2(t), PrefixProduct(ms, n))
    ensures Satisfies(ms, n, 129 + t) ==>
      RangeFits(false, Pow2(t) * ((TWO_64 - 1) * (TWO_64 - 1)), PrefixProduct(ms, n))
  {
    EntriesAreDemands(ms, n, t, 127, 128 + t);
    EntriesAreDemands(ms, n, t, 128, 129 + t);
    if Satisfies(ms, n, 128 + t) {
      ContractCovers(true, Pow2(t), PrefixProduct(ms, n));
    }
    if Satisfies(ms, n, 129 + t) {
      ContractCovers(false, Pow2(t), PrefixProduct(ms, n));
    }
  }

  /** The 64-bit unsigned entry asks for less than its contract: it is met from 2^63 on, while full unsigned
      64-bit output needs the 65-bit entry. */
  lemma UnsignedEntryGap(ms: seq<nat>, n: nat)
    requires Moduli(ms) && 2 <= n <= |ms| && PairwiseCoprime(ms, n)
    ensures Satisfies(ms, n, 64) && !RangeFits(false, TWO_64 - 1, PrefixProduct(ms, n))
       <==> TWO_63 < PrefixProduct(ms, n) < TWO_64
  {
    SatisfiesStrictly(ms, n, 64);
    FullWordEntry(ms, n);
    SatisfiesStrictly(ms, n, 65);
    LadderIsNotPowerOfTwo(ms, n, 64);
    Pow2Consts();
  }

  datatype Disposition = RejectNotPairwiseCoprime | RejectInsufficientRangeBits | KeepResearchNonByteModulus
    | CandidateReadyForBenchmark

  /** `candidate_disposition` of a candidate's report: ready means exactly a pairwise-coprime ladder of byte
      moduli with the required range, so reconstruction is unique over that range. */
  method CandidateDisposition(moduli: seq<nat>, minBits: nat) returns (d: Disposition)
    requires Moduli(moduli) && minBits >= 1
    ensures d == CandidateReadyForBenchmark <==>
      ByteLadder(moduli, |moduli|) && PrefixProduct(moduli, |moduli|) >= Pow2(minBits - 1)
    ensures d == RejectNotPairwiseCoprime <==> !PairwiseCoprime(moduli, |moduli|)
    ensures d == RejectInsufficientRangeBits <==>
      PairwiseCoprime(moduli, |moduli|) && !Satisfies(moduli, |moduli|, minBits)
  {
    var coprime := IsCoprimeSet(moduli);
    if !coprime {
      return RejectNotPairwiseCoprime;
    }
    var product := Product(moduli);
    BitLengthIff(product, minBits);
    if BitLength(product) < minBits {
      return RejectInsufficientRangeBits;
    }
    var nonByte := 0;
    for i := 0 to |moduli|
      invariant nonByte == 0 <==> forall j :: 0 <= j < i ==> moduli[j] <= 256
    {
      if moduli[i] > 256 {
        nonByte := nonByte + 1;
      }
    }
    return if nonByte > 0 then KeepResearchNonByteModulus else CandidateReadyForBenchmark;
  }

  // The greedy candidate.

  /** 256 followed by strictly descending odd numbers between 3 and `start`. */
  ghost predicate DescendingLadder(ladder: seq<nat>, start: nat)
  {
    && |ladder| >= 1 && ladder[0] == 256
    && (forall i :: 1 <= i < |ladder| ==> 3 <= ladder[i] <= start && ladder[i] % 2 == 1)
    && (forall i, j :: 1 <= i < j < |ladder| ==> ladder[j] < ladder[i])
  }

  /** An odd number left out shares a factor with a larger odd number kept. */
  ghost predicate Skipped(ladder: seq<nat>, v: nat)
  {
    v in ladder || exists j :: 1 <= j < |ladder| && ladder[j] > v && !Coprime(v, ladder[j])
  }

  /** Every odd value from `start` down to above `floor` is kept or skipped for a reason. */
  ghost predicate Explained(ladder: seq<nat>, start: nat, floor: int)
  {
    forall v :: 3 <= v <= start && v > floor && v % 2 == 1 ==> Skipped(ladder, v)
  }

  lemma OddCoprimeTo256(v: nat)
    requires v % 2 == 1
    ensures Coprime(v, 256)
  {
    OddCoprimeToPow2(v, 8);
    Pow2Consts();
    CoprimeSym(256, v);
  }

  lemma ExplainedExtends(before: seq<nat>, value: nat, start: nat)
    requires Explained(before, start, value)
    ensures Explained(before + [value], start, value - 1)
  {
    var ladder := before + [value];
    forall v | 3 <= v <= start && v >= value && v % 2 == 1
      ensures Skipped(ladder, v)
    {
      if v == value {
        assert ladder[|before|] == value;
      } else if v !in before {
        assert Skipped(before, v);
        var j :| 1 <= j < |before| && before[j] > v && !Coprime(v, before[j]);
        assert ladder[j] == before[j];
      }
    }
  }

  /** Keeping a value that is smaller than all odd ones kept and coprime to all. */
  lemma LadderExtends(before: seq<nat>, value: nat, start: nat)
    requires DescendingLadder(before, start) && PairwiseCoprime(before, |before|)
    requires 3 <= value <= start && value % 2 == 1
    requires (forall i :: 1 <= i < |before| ==> value < before[i])
    requires (forall i :: 0 <= i < |before| ==> Coprime(value, before[i]))
    ensures var ladder := before + [value]; DescendingLadder(ladder, start) && PairwiseCoprime(ladder, |ladder|)
  {
    var ladder := before + [value];
    forall i, j | 0 <= i < j < |ladder|
      ensures Coprime(ladder[i], ladder[j])
    {
      if j == |before| {
        CoprimeSym(value, before[i]);
      }
    }
  }

  /** The `coprime_desc` loop, for any first odd value and any target length (the tool fixes 255 and 28). */
  method GreedyLadder(start: nat, target: nat) returns (ladder: seq<nat>)
    ensures DescendingLadder(ladder, start) && PairwiseCoprime(ladder, |ladder|) && |ladder| <= Max(target, 2)
    ensures Explained(ladder, start, if |ladder| >= Max(target, 2) then ladder[|ladder| - 1] else 2)
  {
    ladder := [256];
    var value := start;
    while value > 1
      invariant 0 <= value <= start && |ladder| < Max(target, 2)
      invariant DescendingLadder(ladder, start) && PairwiseCoprime(ladder, |ladder|)
      invariant forall i :: 1 <= i < |ladder| ==> value < ladder[i]
      invariant Explained(ladder, start, value)
    {
      if value % 2 == 1 {
        var fits := CoprimeToAll(value, ladder);
        if fits {
          LadderExtends(ladder, value, start);
          ExplainedExtends(ladder, value, start);
          ladder := ladder + [value];
        } else {
          OddCoprimeTo256(value);
          SharesFactor(ladder, value, start);
        }
        if |ladder| >= target {
          return;
        }
      }
      value := value - 1;
    }
  }

  /** A value not kept shares a factor with a larger odd value kept. */
  lemma SharesFactor(ladder: seq<nat>, value: nat, start: nat)
    requires DescendingLadder(ladder, start) && Explained(ladder, start, value) && Coprime(value, 256)
    requires (forall i :: 1 <= i < |ladder| ==> value < ladder[i])
    requires !(forall i :: 0 <= i < |ladder| ==> Coprime(value, ladder[i]))
    ensures |ladder| >= 2 && Explained(ladder, start, value - 1)
  {
    var j :| 0 <= j < |ladder| && !Coprime(value, ladder[j]);
    assert j >= 1;
    assert Skipped(ladder, value);
  }

  method CoprimeToAll(value: nat, kept: seq<nat>) returns (ok: bool)
    ensures ok <==> forall i :: 0 <= i < |kept| ==> Coprime(value, kept[i])
  {
    for i := 0 to |kept|
      invariant forall j :: 0 <= j < i ==> Coprime(value, kept[j])
    {
      var g := EuclidGcd(value, kept[i]);
      if g != 1 {
        return false;
      }
    }
    return true;
  }

  /** The greedy ladder is lexicographically greatest: any competing ladder within the length limit is
      a prefix of it or smaller at the first place they differ. */
  lemma GreedyIsLexicographicallyGreatest(ladder: seq<nat>, other: seq<nat>, start: nat, limit: nat, k: nat)
    requires DescendingLadder(ladder, start) && |ladder| <= limit
    requires Explained(ladder, start, if |ladder| >= limit then ladder[|ladder| - 1] else 2)
    requires DescendingLadder(other, start) && PairwiseCoprime(other, |other|) && |other| <= limit
    requires k < |other| && k <= |ladder| && other[..k] == ladder[..k] && (k < |ladder| ==> other[k] != ladder[k])
    ensures k < |ladder| && other[k] < ladder[k]
  {
    assert k >= 1 by {
      if k == 0 { assert other[0] == 256 == ladder[0]; }
    }
    var v := other[k];
    assert forall i :: 1 <= i < k ==> ladder[i] == other[..k][i] == other[i] && v < ladder[i];
    if v in ladder {
      var j :| 0 <= j < |ladder| && ladder[j] == v;
      assert j >= k;
    } else if k == |ladder| || v > ladder[k] {
      assert Skipped(ladder, v);
      var j :| 1 <= j < |ladder| && ladder[j] > v && !Coprime(v, ladder[j]);
      assert j < k && ladder[j] == other[..k][j] == other[j];
      CoprimeSym(other[j], other[k]);
    }
  }
}
