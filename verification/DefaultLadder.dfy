/** The two ladders of the repository: the library's (`kDefaultModuli`, and `MODS` of the kernel generator)
    and the search tool's default, which has 113 at the end and no 193. */
module DefaultLadder {
  import opened Wrappers
  import opened IntMath
  import opened Divisibility
  import opened Ladder
  import opened Garner
  import opened ModulusSearch
  import opened WidePlanes
  import opened Centering
  import opened Contracts
  import opened Limbs

  const DEFAULT_LADDER: seq<nat> :=
    [256, 255, 253, 251, 247, 239, 233, 229, 227, 223, 217, 211, 199, 197,
     193, 191, 181, 179, 173, 167, 163, 157, 151, 149, 139, 137, 131, 127]

  const SEARCH_LADDER: seq<nat> :=
    [256, 255, 253, 251, 247, 239, 233, 229, 227, 223, 217, 211, 199, 197,
     191, 181, 179, 173, 167, 163, 157, 151, 149, 139, 137, 131, 127, 113]

  /** One row of a ladder's CRT table: from the prior product and its inverse to the next product. */
  lemma Row(ms: seq<nat>, n: nat, modulus: nat, product: nat, inverse: nat)
    requires n < |ms| && ms[n] == modulus && PrefixProduct(ms, n) == product
    requires n > 0 ==> IsInverse(inverse, product, modulus)
    ensures RowInvertible(ms, n) && PrefixProduct(ms, n + 1) == product * modulus
  {
    if n > 0 {
      InverseMeansCoprime(inverse, product, modulus);
    } else {
      CoprimeFromBezout(1, modulus, 1, 0);
    }
  }

  lemma RowsTo9(ms: seq<nat>)
    requires |ms| >= 9 && ms[0] == 256 && ms[1] == 255 && ms[2] == 253 && ms[3] == 251 && ms[4] == 247 &&
      ms[5] == 239 && ms[6] == 233 && ms[7] == 229 && ms[8] == 227
    ensures forall i :: 0 <= i < 9 ==> RowInvertible(ms, i)
    ensures PrefixProduct(ms, 7) == 57019730936213760
    ensures PrefixProduct(ms, 8) == 13057518384392951040
    ensures PrefixProduct(ms, 9) == 2964056673257199886080
  {
    Row(ms, 0, 256, 1, 1);
    Row(ms, 1, 255, 256, 1);
    Row(ms, 2, 253, 65280, 211);
    Row(ms, 3, 251, 16515840, 182);
    Row(ms, 4, 247, 4145475840, 246);
    Row(ms, 5, 239, 1023932532480, 82);
    Row(ms, 6, 233, 244719875262720, 221);
    Row(ms, 7, 229, 57019730936213760, 100);
    Row(ms, 8, 227, 13057518384392951040, 75);
  }

  lemma RowsTo15(ms: seq<nat>)
    requires |ms| >= 15 && ms[9] == 223 && ms[10] == 217 && ms[11] == 211 && ms[12] == 199 && ms[13] == 197 && ms[14] == 193
    requires PrefixProduct(ms, 9) == 2964056673257199886080
    ensures forall i :: 9 <= i < 15 ==> RowInvertible(ms, i)
    ensures PrefixProduct(ms, 15) == 228986651783108016369925477052248320
  {
    Row(ms, 9, 223, 2964056673257199886080, 35);
    Row(ms, 10, 217, 660984638136355574595840, 104);
    Row(ms, 11, 211, 143433666475589159687297280, 114);
    Row(ms, 12, 199, 30264503626349312694019726080, 193);
    Row(ms, 13, 197, 6022636221643513226109925489920, 64);
    Row(ms, 14, 193, 1186459335663772105543655321514240, 164);
  }

  lemma RowsTo20(ms: seq<nat>)
    requires |ms| >= 20 && ms[15] == 191 && ms[16] == 181 && ms[17] == 179 && ms[18] == 173 && ms[19] == 167
    requires PrefixProduct(ms, 15) == 228986651783108016369925477052248320
    ensures forall i :: 15 <= i < 20 ==> RowInvertible(ms, i)
    ensures PrefixProduct(ms, 20) == 40939045642599350808141980128156261396585102080
  {
    Row(ms, 15, 191, 228986651783108016369925477052248320, 1);
    Row(ms, 16, 181, 43736450490573631126655766116979429120, 66);
    Row(ms, 17, 179, 7916297538793827233924693667173276670720, 146);
    Row(ms, 18, 173, 1417017259444095074872520166424016524058880, 164);
    Row(ms, 19, 167, 245143985883828447952945988791354858662186240, 135);
  }

  lemma RowsTo24(ms: seq<nat>)
    requires |ms| >= 24 && ms[20] == 163 && ms[21] == 157 && ms[22] == 151 && ms[23] == 149
    requires PrefixProduct(ms, 20) == 40939045642599350808141980128156261396585102080
    ensures forall i :: 20 <= i < 24 ==> RowInvertible(ms, i)
    ensures PrefixProduct(ms, 24) == 23571552462277559936964600641428595274614810305561470720
  {
    Row(ms, 20, 163, 40939045642599350808141980128156261396585102080, 65);
    Row(ms, 21, 157, 6673064439743694181727142760889470607643371639040, 147);
    Row(ms, 22, 151, 1047671117039759986531161413459646885400009347329280, 37);
    Row(ms, 23, 149, 158198338673003757966205373432406679695401411446721280, 122);
  }

  lemma RowsTo28(ms: seq<nat>)
    requires |ms| >= 28 && ms[24] == 139 && ms[25] == 137 && ms[26] == 131 && ms[27] == 127
    requires PrefixProduct(ms, 24) == 23571552462277559936964600641428595274614810305561470720
    ensures forall i :: 24 <= i < 28 ==> RowInvertible(ms, i)
    ensures PrefixProduct(ms, 28) == 7467901324470864734635186199174975496293667345778203505104011520
  {
    Row(ms, 24, 139, 23571552462277559936964600641428595274614810305561470720, 32);
    Row(ms, 25, 137, 3276445792256580831238079489158574743171458632473044430080, 13);
    Row(ms, 26, 131, 448873073539151573879616890014724739814489832648807086920960, 70);
    Row(ms, 27, 127, 58802372633628856178229812591928940915698168076993728386645760, 109);
  }

  /** 113, which only the search tool's ladder has, is coprime to the whole default ladder. */
  lemma OneThirteen(product: nat)
    requires product == 7467901324470864734635186199174975496293667345778203505104011520
    ensures Coprime(product, 113)
  {
    InverseMeansCoprime(49, product, 113);
  }

  /** All rows of the default ladder, with the products the contracts refer to. */
  lemma AllRows(ms: seq<nat>)
    requires ms == DEFAULT_LADDER
    ensures PairwiseCoprime(ms, 28) && Coprime(PrefixProduct(ms, 28), 113)
    ensures PrefixProduct(ms, 7) == 57019730936213760
    ensures PrefixProduct(ms, 8) == 13057518384392951040
    ensures PrefixProduct(ms, 9) == 2964056673257199886080
    ensures PrefixProduct(ms, 20) == 40939045642599350808141980128156261396585102080
    ensures PrefixProduct(ms, 28) == 7467901324470864734635186199174975496293667345778203505104011520
  {
    RowsTo9(ms);
    RowsTo15(ms);
    RowsTo20(ms);
    RowsTo24(ms);
    RowsTo28(ms);
    OneThirteen(PrefixProduct(ms, 28));
    InvertibleRowsIffCoprime(ms, 28);
  }

  lemma ModuliFitBytes(ms: seq<nat>)
    requires ms == DEFAULT_LADDER
    ensures |ms| == 28 && forall i :: 0 <= i < 28 ==> 127 <= ms[i] <= 256
    ensures forall i :: 0 <= i < 20 ==> 128 <= ms[i]
  {
  }

  lemma ValidFrom(ms: seq<nat>)
    requires |ms| == 28 && PairwiseCoprime(ms, 28)
    requires forall i :: 0 <= i < 28 ==> 2 <= ms[i] <= 256
    requires forall i :: 0 <= i < 20 ==> 128 <= ms[i]
    ensures ByteLadder(ms, 28) && WideLadder(ms)
  {
  }

  /** The default ladder is pairwise coprime, and its first 20 moduli suit exact-wide storage. */
  lemma DefaultLadderIsValid(ms: seq<nat>)
    requires ms == DEFAULT_LADDER
    ensures |ms| == 28 && ByteLadder(ms, 28) && WideLadder(ms)
  {
    AllRows(ms);
    ModuliFitBytes(ms);
    ValidFrom(ms);
  }

  /** `search` is `ms` without its entry 14, followed by 113. */
  ghost predicate SwapsLast(search: seq<nat>, ms: seq<nat>)
  {
    && |search| == |ms| == 28 && search[27] == 113
    && (forall i :: 0 <= i < 14 ==> search[i] == ms[i])
    && (forall i :: 14 <= i < 27 ==> search[i] == ms[i + 1])
  }

  lemma LaddersDiffer(search: seq<nat>, ms: seq<nat>)
    requires search == SEARCH_LADDER && ms == DEFAULT_LADDER
    ensures SwapsLast(search, ms)
  {
  }

  lemma CoprimeAfterSwap(search: seq<nat>, ms: seq<nat>)
    requires SwapsLast(search, ms) && ByteLadder(ms, 28) && Coprime(PrefixProduct(ms, 28), 113)
    ensures ByteLadder(search, 28)
  {
    CoprimeToProduct(ms, 28, 113);
    forall i, j | 0 <= i < j < 28
      ensures Coprime(search[i], search[j])
    {
      assert search[i] == ms[if i < 14 then i else i + 1];
    }
  }

  /** The search tool's ladder is valid too: 113 is coprime to everything it keeps. */
  lemma SearchLadderIsValid(search: seq<nat>, ms: seq<nat>)
    requires search == SEARCH_LADDER && ms == DEFAULT_LADDER
    ensures SwapsLast(search, ms) && ByteLadder(search, 28)
  {
    DefaultLadderIsValid(ms);
    LaddersDiffer(search, ms);
    AllRows(ms);
    CoprimeAfterSwap(search, ms);
  }

  /** The two ladders agree on the first 14 moduli, hence on every prefix the 64-bit contracts use. */
  lemma {:induction false} SamePrefixProducts(search: seq<nat>, ms: seq<nat>, n: nat)
    requires SwapsLast(search, ms) && n <= 14
    ensures PrefixProduct(search, n) == PrefixProduct(ms, n)
  {
    if n > 0 {
      SamePrefixProducts(search, ms, n - 1);
    }
  }

  lemma LeastPrefixes(search: seq<nat>)
    requires |search| == 28 && Moduli(search)
    requires PrefixProduct(search, 7) < TWO_63 <= PrefixProduct(search, 8) < TWO_64 <= PrefixProduct(search, 9)
    ensures LeastPrefix(Some(8), search, 64) && LeastPrefix(Some(9), search, 65)
  {
    Pow2Consts();
    forall i | 1 <= i < 9
      ensures i < 8 ==> !Satisfies(search, i, 64)
      ensures !Satisfies(search, i, 65)
    {
      PrefixProductGrows(search, i, if i < 8 then 7 else 8);
    }
  }

  /** What the search tool reports: 8 moduli for the 64-bit unsigned entry, which miss its contract, and 9 for
      the 65-bit entry. */
  lemma SearchToolPrefixes(search: seq<nat>, ms: seq<nat>)
    requires search == SEARCH_LADDER && ms == DEFAULT_LADDER
    ensures LeastPrefix(Some(8), search, 64) && LeastPrefix(Some(9), search, 65)
    ensures !RangeFits(false, TWO_64 - 1, PrefixProduct(search, 8))
  {
    SearchLadderIsValid(search, ms);
    AllRows(ms);
    SamePrefixProducts(search, ms, 7);
    SamePrefixProducts(search, ms, 8);
    SamePrefixProducts(search, ms, 9);
    LeastPrefixes(search);
  }

  /** The first 8 moduli pass the 64-bit unsigned entry but miss its contract; prefix 9 is the least that
      covers full 64-bit output, signed or unsigned. */
  lemma FullWordPrefixIsNine(ms: seq<nat>, n: nat)
    requires ms == DEFAULT_LADDER && n <= 28
    ensures RangeFits(true, TWO_63, PrefixProduct(ms, n)) <==> n >= 9
    ensures RangeFits(false, TWO_64 - 1, PrefixProduct(ms, n)) <==> n >= 9
    ensures Satisfies(ms, 8, 64)
  {
    DefaultLadderIsValid(ms);
    AllRows(ms);
    Pow2Consts();
    PrefixProductGrows(ms, if n >= 9 then 9 else n, if n >= 9 then n else 8);
  }

  lemma Pow2Of154()
    ensures Pow2(154) == 0x400_0000 * (TWO_64 * TWO_64) && Pow2(26) == 0x400_0000
  {
    Pow2Consts();
    Pow2Sum(8, 8, 16, 0x100, 0x100);
    Pow2Sum(16, 8, 24, 0x1_0000, 0x100);
    Pow2Sum(24, 2, 26, 0x100_0000, 4);
    Pow2Sum(64, 64, 128, TWO_64, TWO_64);
    Pow2Sum(26, 128, 154, 0x400_0000, TWO_64 * TWO_64);
  }

  /** The supported 20 moduli give between 154 and 155 bits of range, enough for 2^26 extreme products. */
  lemma SupportedRange(ms: seq<nat>)
    requires ms == DEFAULT_LADDER
    ensures Pow2(154) < PrefixProduct(ms, 20) < 2 * Pow2(154)
    ensures RangeFits(true, Pow2(26) * (TWO_63 * TWO_63), PrefixProduct(ms, 20))
    ensures RangeFits(false, Pow2(26) * ((TWO_64 - 1) * (TWO_64 - 1)), PrefixProduct(ms, 20))
  {
    AllRows(ms);
    Pow2Of154();
  }

  /** So they cover every dot product of 2^26 native 64-bit terms, signed or unsigned. */
  lemma SupportedDots(ms: seq<nat>, signed: bool, t: nat)
    requires ms == DEFAULT_LADDER && t == 26
    ensures CoversDots(signed, Pow2(t), PrefixProduct(ms, 20))
  {
    SupportedRange(ms);
    BitsCoverDots(signed, t, PrefixProduct(ms, 20));
  }

  /** No residue vector of a supported prefix of the default ladder decodes to a value the limbs cannot hold. */
  ghost predicate AlwaysFits(signed: bool, ms: seq<nat>, limbCount: nat)
    requires ms == DEFAULT_LADDER && ByteLadder(ms, 28) && limbCount >= 1
  {
    forall prefix: nat, rs: seq<int> :: 1 <= prefix <= 20 && Residues(rs, ms, prefix) ==>
      Representable(Reading(signed, ms, rs, prefix), signed, limbCount)
  }

  /** The bytes the packer would store for `v` on 20 planes. */
  lemma StoredBytes(ms: seq<nat>, v: int) returns (rs: seq<int>)
    requires ByteLadder(ms, 20)
    ensures Residues(rs, ms, 20) && Matches(v, rs, ms, 20)
  {
    rs := seq(20, i requires 0 <= i < 20 => Centered(v, ms[i]));
    forall i | 0 <= i < 20
      ensures -0x80 <= rs[i] <= 0x7f && 0 <= rs[i] + ms[i] && v % ms[i] == rs[i] % ms[i]
    {
      CenteredProperties(v, ms[i]);
    }
  }

  /** A power of two the prefix covers but the limbs do not reach is what some residue vector decodes to. */
  lemma TooWide(ms: seq<nat>, signed: bool, t: nat, limbCount: nat) returns (rs: seq<int>)
    requires ByteLadder(ms, 20) && RangeFits(signed, Pow2(t), PrefixProduct(ms, 20))
    requires 1 <= limbCount && 64 * limbCount <= t
    ensures Residues(rs, ms, 20) && !Representable(Reading(signed, ms, rs, 20), signed, limbCount)
  {
    rs := StoredBytes(ms, Pow2(t));
    ReadBack(signed, ms, rs, 20, Pow2(t), Pow2(t));
    Pow2Mono(64 * limbCount, t);
    Pow2Mono(64 * limbCount - 1, t);
  }

  /** 20 planes of the default ladder cover 2^128. */
  lemma TwoWordsCovered(ms: seq<nat>, signed: bool, t: nat)
    requires ms == DEFAULT_LADDER && t == 128
    ensures RangeFits(signed, Pow2(t), PrefixProduct(ms, 20))
  {
    SupportedRange(ms);
    Pow2Mono(t, 153);
    Pow2Mono(153 + 1, 154);
    assert Pow2(153 + 1) == 2 * Pow2(153);
  }

  /** The exact-wide status check is required exactly when some residue vector needs it; other contracts
      always require it. */
  lemma StatusCheckIsExact(semantics: Semantics, ms: seq<nat>, limbCount: nat)
    requires ms == DEFAULT_LADDER && limbCount >= 1
    ensures ByteLadder(ms, 28)
    ensures semantics == ExactWideSigned || semantics == ExactWideUnsigned ==>
      (ExportStatusCheckRequired(semantics, limbCount) <==> !AlwaysFits(semantics == ExactWideSigned, ms, limbCount))
    ensures semantics != ExactWideSigned && semantics != ExactWideUnsigned ==>
      ExportStatusCheckRequired(semantics, limbCount)
  {
    DefaultLadderIsValid(ms);
    var signed := semantics == ExactWideSigned;
    if limbCount <= 2 {
      TwoWordsCovered(ms, signed, 128);
      var rs := TooWide(ms, signed, 128, limbCount);
    } else {
      forall prefix: nat, rs: seq<int> | 1 <= prefix <= 20 && Residues(rs, ms, prefix)
        ensures Representable(Reading(signed, ms, rs, prefix), signed, limbCount)
      {
        StatusCheckElisionSound(if signed then ExactWideSigned else ExactWideUnsigned, ms, rs, prefix, limbCount);
      }
    }
  }
}
