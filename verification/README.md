# RNS8 in Dafny

RNS8 computes exact integer matrix products without wide arithmetic: integers are packed into centered 8-bit
residues modulo a ladder of pairwise-coprime byte moduli, multiplied plane by plane in int8/int32, and rebuilt
by the Chinese remainder theorem. This project models that computation and the tools around it, and proves
that it is exact.

`dafny verify dfyconfig.toml` checks everything. The main results:

* **Exactness.** `ExactExport.PackMultiplyExport` follows native 64-bit matrices through packing, the range
  proof, the automatic prefix choice, the lift of missing planes, the blocked int32 kernels and the
  two's-complement limb export. A successful run yields the integer product in every cell, and for a plan that
  creation admits the status of the run is determined exactly, success included.
  `CpuGemm.BoundedProduct` does the same for the bounded 64-bit contracts over any coprime ladder of byte
  moduli, `TiledGemm.TiledProduct` under per-tile bounds that give each tile its own prefix, both with the exact
  condition for success, and `CpuGemm.FiniteProduct` for one modulus.
* **A resident state machine.** `ExactWide.ExactMatrix` is an object with planes, an initialized prefix and a
  proved bound. `Valid` says that the planes hold the residues of one integer matrix and that the bound is true
  of it; packing, lifting, multiplying and storing all keep it. Failed operations change nothing, and the status
  of each is stated exactly: on a matrix with a proof no residue can make a lift or a product fail. `ExactRun.Run`
  carries this to whole runs: a machine on integer matrices and their proofs, without any residues, predicts every
  status and every matrix of any sequence of calls.
* **Reconstruction.** Garner's loop computes the unique integer with the stored residues, for every
  pairwise-coprime ladder, with the extended-Euclid inverse written out; a table of inverses has no gap exactly
  when the ladder is coprime.
* **Sound range proofs.** The bound computed from row and column summaries (magnitudes, sums, midpoint
  deviations) is never exceeded by the product, is the smaller of the scalar bound and the largest cell bound, and exceeds
  the entry it comes from by no more than the spreads of the operands explain; it is exact for a constant vector.
* **Reducers.** The Barrett and byte-fold reducers equal the mathematical residue on every 32-bit input.
* **Wrap64.** The 36 byte-pair planes give the low 64 bits of the dot product, and both int32 limits (131071
  byte products, 33025 unsigned byte products) are shown to be exact.
* **Around the library.** The ladder search, the checksum's detection guarantee, limb layout, key parsing, the
  bucket validator and the reviewed cache installer: over any run of requests every stored entry is traced to the
  request whose own ledgers cleared it, field by field.

C++ integer types are subset types, so each assignment to one proves that nothing is lost; wrap-around is
written out where the source relies on it. Loops and in-place updates stay loops and in-place updates, and each
is proved against a function of its inputs.

## Where code and documentation disagree

* `tools/modulus_set_search.py:52` asks 64 bits of `bounded_u64_full_unsigned` and compares with a bit length,
  so a product above 2^63 passes; README.md:51-53 promises P > bound, which needs prefix 9. The model follows
  the code. `ModulusSearch.UnsignedEntryGap` says exactly when the entry passes without the contract, and
  `DefaultLadder.FullWordPrefixIsNine` with `DefaultLadder.SearchToolPrefixes` show that prefix 8 is such a case.
* The library's ladder contains 193 and ends at 127; the search tool's default leaves out 193 and ends at 113.
  Both are proved valid, and they agree on the first 14 moduli.
* The emitted reducer sends the midpoint of an even modulus to +m/2, the library's reducer to -m/2. They are
  the same function exactly for odd moduli and for 256 (`Reducers.EmittedAgreesIff`); they are always congruent.

## Model

| member | source | states |
|---|---|---|
| ExactExport.PackMultiplyExport | README.md:40-47 | Pack, automatic product and limb export composed: on success the limb window of each output cell decodes to the integer dot product of the native row and column, for any inner dimension; and for a plan that creation admits, the status is exactly WorkspaceTooSmall when m*n*prefix exceeds the byte budget, else InvalidArgument for a bad limb count, else Success when every integer of the product fits the limbs, else RangeError; with 3 to 32 limbs and enough budget it is always Success |
| ExactExport.ThreeLimbsSuffice | README.md:31-33 | Under an admitted plan every integer of a native product fits any number of limbs from three on |
| ExactRun.Run | README.md:31-33 | Any run of packs, lifts and automatic products over a pool: every status and everything each matrix stands for, proof included, is what a machine without residues predicts |
| ExactRun.RunAndExport | README.md:40-47 | A run followed by an export: from the snapshot the machine predicts, the export is InvalidArgument for a limb count of 0 or above 32, else RangeError when the prefix is not initialized or does not cover the proof, else Success exactly when every predicted integer fits the limbs; on success each window decodes to the predicted integer |
| ExactRun.Step | src/core/api_exact_lift.cpp:104-205 | One call keeps every matrix valid, ends as predicted and leaves what is predicted |
| ExactRun.TripleProduct | README.md:31-33 | Two chained products that succeed leave the exact integer product (A * B) * C |
| ExactRun.MultiplyLive | src/core/api_exact_lift.cpp:119-205 | A product of live matrices: status, output and lifted inputs are functions of the proofs alone |
| ExactRun.OutcomeIsPredicted | src/core/api_exact_lift.cpp:130-171 | The status of a product depends on proofs, shapes and budget only |
| ExactRun.PackLive | src/core/api_pack.cpp:31-126 | A pack records the source, its largest magnitude and its exact summaries, or changes nothing |
| ExactRun.LiftLive | src/core/api_exact_lift.cpp:104-117 | A lift changes only the initialized prefix of what a matrix stands for |
| ExactRun.ExportOne | src/core/api_export.cpp:631-716 | Exporting leaves the pool as it is, and its status is determined by the snapshot, the prefix and the limb count |
| ExactExport.PackMultiply | src/core/api_exact_lift.cpp:119-205 | Two native matrices under an admitted plan multiply exactly when m*n*prefix is within the byte budget |
| ExactExport.AdmittedCovers | src/core/moduli.cpp:353-356 | The plan condition on K covers every native entry and every bound on a product of native matrices |
| ExactExport.AdmittedOutcome | src/core/api_exact_lift.cpp:130-171 | Freshly packed operands of an admitted plan multiply at the plan's own prefix |
| ExactExport.PackOperand | src/core/api_pack.cpp:51-65 | An admitted plan never refuses a native operand |
| TiledGemm.TiledProduct | README.md:51-54 | The same under per-tile bounds with a prefix per tile and skipped zero tiles: the bounds alone decide InvalidArgument; if they are true, success happens exactly when there is one admissible bound per tile and every entry is a word of the output type, and then every cell is the exact dot product |
| CpuGemm.BoundedProduct | README.md:49-53 | Pack, multiply, export under a declared bound: if the bound is true of the product, success happens exactly when the prefix covers the bound and every entry is an int64 or uint64 as the contract says, and then every output cell is the exact dot product; under a covered bound an unsigned run always succeeds and a signed one fails only at a bound above 2^63 or an entry of 2^63 |
| CpuGemm.TrueBoundOutcome | README.md:49-53 | Under a true covered bound no unsigned entry can be refused, and a signed one only when it is 2^63 |
| CpuGemm.FiniteProduct | src/cpu/cpu_reference.cpp:286-311 | The one-modulus route returns the matrix product modulo any byte modulus as canonical bytes and leaves padding alone |
| Divisibility.EuclidGcd | tools/modulus_set_search.py:62-67 | Euclid's loop returns the gcd |
| Divisibility.GcdGreatest | tools/modulus_set_search.py:62-67 | Every common divisor divides the gcd |
| Divisibility.Bezout | tools/modulus_set_search.py:62-67 | The gcd is an integer combination of its arguments |
| Divisibility.CoprimeIffNoCommonDivisor | tools/modulus_set_search.py:62-67 | gcd 1 is the same as having no common divisor but 1 |
| Divisibility.CoprimeProduct | tools/modulus_set_search.py:151-176 | Coprime to a product if and only if coprime to both factors |
| Divisibility.ModInverse | src/reconstruct/crt.cpp:9-32 | Extended Euclid: the unique inverse in [1, m) when coprime, 0 exactly when not; all intermediate coefficients stay within the modulus |
| Divisibility.EuclidStep | src/reconstruct/crt.cpp:15-23 | One loop turn keeps the gcd, both congruences, the alternating signs and the conserved sum that bounds the coefficients |
| Divisibility.InverseExists | tools/modulus_set_search.py:151-176 | Coprime numbers have a modular inverse |
| Divisibility.InverseMeansCoprime | tools/modulus_set_search.py:151-176 | A number with a modular inverse is coprime to the modulus |
| Divisibility.InverseUnique | tools/modulus_set_search.py:151-176 | The inverse in [1, m) is unique, so both implementations return the same number |
| Ladder.IsCoprimeSet | tools/modulus_set_search.py:62-67 | True exactly for pairwise-coprime lists |
| Ladder.Product | tools/modulus_set_search.py:85-89 | The product of the list |
| Ladder.CoprimeToProduct | tools/modulus_set_search.py:151-176 | Coprime to a prefix product if and only if coprime to every member |
| Ladder.InvertibleRowsIffCoprime | tools/modulus_set_search.py:151-176 | Every prior product is invertible exactly when the ladder is pairwise coprime |
| Ladder.CrtRow | tools/modulus_set_search.py:151-176 | One table row: the residue of the prior product, and its inverse exactly when it has one |
| Ladder.CrtPrefixConstants | tools/modulus_set_search.py:151-176 | The whole table: every row correct, and no inverse missing if and only if the ladder is pairwise coprime |
| Ladder.TableInverseIsTheInverse | src/reconstruct/crt.cpp:54-76 | The inverse that reconstruction recomputes at run time is the one in the table |
| Ladder.ResiduesDetermine | README.md:49-53 | Integers with equal residues for a coprime ladder are equal modulo its product |
| Ladder.ProductDetermines | README.md:49-53 | Equality modulo the product gives equal residues |
| Ladder.ModulusDividesProduct | tools/modulus_set_search.py:122-139 | Each modulus divides every prefix product that contains it |
| Ladder.PrefixProductGrows | tools/modulus_set_search.py:122-139 | Prefix products grow by at least a factor of two |
| Centering.CenteredProperties | src/cpu/cpu_reference.cpp:26-32 | The centered residue is in [-(m/2), (m-1)/2], congruent, and fits int8 for byte moduli |
| Centering.CenteredUnique | src/cpu/cpu_reference.cpp:26-32 | It is the only congruent value in that range |
| Centering.CanonicalResidue | src/cpu/cpu_reference.cpp:10-16 | Truncated remainder plus fix-up is the mathematical residue for every integer |
| Centering.CenteredResidue | src/cpu/cpu_reference.cpp:26-32 | Packing computes the centered residue |
| Centering.ReduceToCentered | src/cpu/cpu_reference.cpp:34-44 | The block reducer computes the same centered residue from any int64 |
| Centering.CanonicalFromCenteredCong | src/cpu/cpu_reference.cpp:18-24 | Decoding a stored byte keeps its residue class when the byte is at least -m |
| Centering.CanonicalOfCentered | src/cpu/cpu_reference.cpp:18-24 | Decoding a packed byte gives back the canonical residue of the packed value |
| Reducers.BarrettError | src/backend_common/finite_u8_reducer.hpp:61-70 | The truncated-reciprocal quotient is the true quotient or one less, and the product fits 64 bits |
| Reducers.ReduceU32SmallModulus | src/backend_common/finite_u8_reducer.hpp:61-70 | Barrett reduction with two conditional subtractions is exactly the remainder |
| Reducers.ReduceU32Mod255 | src/backend_common/finite_u8_reducer.hpp:72-78 | Byte folding modulo 255 is exactly the remainder |
| Reducers.ReduceU32Mod251 | src/backend_common/finite_u8_reducer.hpp:80-89 | Weighted byte folding modulo 251 is exactly the remainder |
| Reducers.ReduceU32 | src/backend_common/finite_u8_reducer.hpp:91-102 | The dispatcher is the remainder for every byte modulus |
| Reducers.CenterUnsignedResidue | src/backend_common/finite_u8_reducer.hpp:117-121 | The wrapping subtraction and cast give the centered residue |
| Reducers.ReduceToCenteredI32 | src/backend_common/finite_u8_reducer.hpp:145-165 | For every int32, the minimum included, the fast reducer equals the centered residue |
| Reducers.EmittedReducer | tools/generate_modulus_kernels.py:13-15 | The emitted text computes its closed form for every int32 |
| Reducers.EmittedProperties | tools/generate_modulus_kernels.py:13-15 | The emitted reducer is congruent, of magnitude at most m/2, and idempotent |
| Reducers.EmittedMultiplyAdd | tools/generate_modulus_kernels.py:13-15 | It commutes with multiply-add |
| Reducers.EmittedAgreesIff | tools/generate_modulus_kernels.py:13-15 | It equals the library reducer for all inputs exactly when the modulus is odd or 256 |
| Vectors.DotCong | README.md:42-45 | Congruent operands give congruent dot products |
| ResidueGemm.SafeBlockThreshold | src/backend_common/residue_dot.hpp:18-19 | A block of byte products plus a carried residue fits int32 for all inputs if and only if it has at most 131071 terms |
| ResidueGemm.AccumulatorSafeIff | src/core/api_plan_contract_names.inc:446-460 | The plan's overflow check accepts exactly the nonempty blocks that cannot overflow |
| ResidueGemm.CenteredResidueDot | src/backend_common/residue_dot.hpp:21-38 | The blocked int32 dot product is the centered residue of the integer dot product, for any length and stride |
| ResidueGemm.FoldResidue | src/backend_common/residue_dot.hpp:33-34 | The carried residue and a block sum stay in int32 and fold to the centered residue of the longer dot product |
| ResidueGemm.BlockDot | src/cpu/cpu_reference.cpp:163-170 | One block of the accumulation loop, without int32 overflow |
| ResidueGemm.FoldBlock | src/cpu/cpu_reference.cpp:171-174 | The carried residue plus the block, reduced in place |
| ResidueGemm.RingGemmRow | src/cpu/cpu_reference.cpp:156-177 | Every cell of the row is the centered residue of its dot product; nothing outside the row changes |
| ResidueGemm.RingGemmModulus | src/cpu/cpu_reference.cpp:180-186 | The same for a whole strided plane, for any block size up to the exact limit; padding columns and everything else in the buffer stay |
| Garner.GarnerStep | src/reconstruct/crt.cpp:57-74 | One mixed-radix step meets the next residue, stays below the next product, and keeps the value modulo the prior product |
| Garner.CrtExists | src/reconstruct/crt.cpp:54-76 | Every residue vector of a coprime ladder is met by some integer in [0, P) |
| Garner.Decode | src/reconstruct/crt.cpp:54-76 | The integer of [0, P) a residue vector stands for |
| Garner.DecodeUnique | src/reconstruct/crt.cpp:54-76 | It is the only one |
| Garner.CrtBijection | src/reconstruct/crt.cpp:54-76 | Reducing then decoding and decoding then reducing are both the identity |
| Garner.ReconstructCanonical | src/reconstruct/crt.cpp:54-76 | Garner's loop computes that integer |
| Garner.ModulusProduct | src/core/moduli.cpp:164-170 | The product of the prefix |
| Garner.DecodeSignedUnique | src/reconstruct/crt.cpp:47-50 | The signed reading is the only integer of the centered range with the stored residues |
| Garner.ReadBack | README.md:49-53 | A value within a covered bound is read back from its own residues |
| Garner.RangeFitsIff | src/core/exact_range.hpp:16-18 | The strict range condition holds exactly when no two integers within the bound agree modulo the product |
| Garner.FitsWordIff | src/reconstruct/crt.cpp:33-41 | The range test is membership in int64 or uint64 |
| Garner.ReconstructBounded | src/reconstruct/crt.cpp:78-121 | Bounded reconstruction: what success returns, and that a range error means the bound is not covered or no admissible integer has the residues |
| Garner.FalseBoundAliases | README.md:35-38 | When a declared bound is false, another in-bound integer is read if and only if it differs by a multiple of P |
| CpuGemm.GemmRns | src/cpu/cpu_reference.cpp:262-283 | Planes that hold A and B become planes that hold the integer product, in place; bytes behind the prefix stay |
| CpuGemm.RecoversOnlyItself | README.md:35-38 | Under a true and covered bound, what an export recovers is the entry itself |
| CpuGemm.TrueBoundRecovers | README.md:49-53 | An entry within the declared bound is recoverable exactly when the bound is covered and the entry fits the type |
| CpuGemm.ExportCell | src/core/api_export.cpp:367-386 | One cell succeeds exactly when an admissible integer has its residues, and returns that integer |
| CpuGemm.CopyCells | src/core/api_export.cpp:409-413 | Each staged cell lands at its padded place and nothing else changes |
| CpuGemm.ExportBounded | src/core/api_export.cpp:307-416 | Without a tile schedule: success exactly when every entry is recoverable, InvalidArgument exactly for a signed bound above 2^63, RangeError otherwise; a failed export writes nothing |
| TiledGemm.TilesPartition | src/core/api_plan_auto_backend.inc:155-175 | Each cell lies in the tile its index names and in no other |
| TiledGemm.PlaceTile | src/core/api_plan_schedule.inc:54-81 | The place and extent of an entry, nonempty and inside the output |
| TiledGemm.RequiredPrefix | src/core/moduli.cpp:181-190 | The least supported prefix whose product exceeds the range, or 0 when there is none |
| TiledGemm.SelectTile | src/core/api_plan_schedule.inc:202-225 | Which bounds are refused and how, and the prefix and skip flag of the others |
| TiledGemm.ConfigureTiles | src/core/api_plan_schedule.inc:185-240 | Succeeds exactly when there is one admissible bound per tile; the first inadmissible one decides the failure; storage is the largest selected prefix |
| TiledGemm.FillTile | src/cpu/cpu_reference.cpp:208-212 | A strided window is zeroed and nothing else changes |
| TiledGemm.TileProduct | src/cpu/cpu_reference.cpp:247-258 | A cell computed from offset operands is the cell of the whole product |
| TiledGemm.WindowIsTile | src/cpu/cpu_reference.cpp:241-243 | A byte inside a tile's strided window belongs to that tile and plane |
| TiledGemm.TilePlane | src/cpu/cpu_reference.cpp:235-259 | One plane of one tile is finished and no byte of another tile or plane changes |
| TiledGemm.DoneKept | src/cpu/cpu_reference.cpp:233-260 | Writing a tile keeps every other finished tile and plane |
| TiledGemm.GemmTiles | src/cpu/cpu_reference.cpp:232-262 | Every selected plane of every tile holds the product, or zeros where the tile is skipped |
| TiledGemm.ExportTiles | src/core/api_export.cpp:367-414 | Success exactly when every cell is recoverable from its own tile's prefix and bound or is skipped, all or nothing; otherwise the status is that of the first failing cell |
| TiledGemm.TrueTileCell | README.md:49-54 | Under true bounds a cell is exported exactly when it is a word of the output type, as itself; a skipped tile held only zeros |
| TiledGemm.TrueExport | README.md:49-54 | Under true bounds an exported cell is the native dot product |
| TiledGemm.MultiplyScheduled | README.md:51-54 | Pack, multiply and export by tiles: success and every cell by its own tile |
| CpuGemm.ExportFinite | src/cpu/cpu_reference.cpp:132-153 | Centered bytes leave as canonical residues |
| ExactRange.MagnitudeBoundSound | src/core/exact_range.hpp:79-83 | The three magnitude bounds are bounds on the dot product |
| ExactRange.CenteredDecomposition | src/core/exact_range.hpp:84-96 | dot = ca*sum(b) + cb*sum(a) - k*ca*cb + dot of the deviations |
| ExactRange.AxisProductBoundSound | src/core/exact_range.hpp:79-98 | No vectors with sound summaries have a dot product beyond the admission bound |
| ExactRange.DeviationIsHalfSpread | src/core/exact_range.hpp:24-32 | No element is further from the center than half the spread rounded up, and not at all when all elements are equal |
| ExactRange.BoundBelowMagnitudes | src/core/exact_range.hpp:79-83 | The admission bound is at most each of the three magnitude bounds |
| ExactRange.AxisProductBoundTight | src/core/exact_range.hpp:84-98 | The bound exceeds the dot product by at most twice each of k*dx*dy, sum|x-cx|*dy and dx*sum|y-cy| |
| ExactRange.BoundWithinSpreads | src/core/exact_range.hpp:84-98 | For native vectors within given limits the excess is at most half of k times the product of the spreads plus one |
| ExactRange.ConstantVectorExact | src/core/exact_range.hpp:84-98 | When one vector is constant the bound is exactly the magnitude of the dot product |
| ExactRange.SummaryExact | src/core/exact_range.hpp:34-47 | The first scan records exact sums, and a magnitude, minimum and maximum that bound every element and are attained |
| ExactRange.NativeSummarySound | src/core/exact_range.hpp:49-77 | The finished summary is sound for the vector |
| ExactRange.NativeExactRanges | src/core/exact_range.hpp:51-77 | Two strided scans fill every row and column summary and the attained maximum |
| ExactRange.UniformAxisSound | src/core/exact_range.hpp:100-107 | The fallback summary is sound |
| ExactRange.CellBoundSound | src/core/exact_range.hpp:126-131 | Each output cell is within its admission bound |
| ExactRange.LargestCellIsLargest | src/core/exact_range.hpp:125-143 | The maximum over the cells is a bound of every cell and is attained |
| ExactRange.MatrixProduct | src/cpu/cpu_reference.cpp:313-326 | The integer product, cell by cell |
| ExactRange.ExactGemmBound | src/core/exact_range.hpp:109-144 | The bound is the smaller of the scalar one and the largest cell bound, no output cell exceeds it, and the output summaries are the recorded ones and sound |
| ExactRange.GemmBoundIsMinimum | src/core/exact_range.hpp:121-143 | The recorded bound is the minimum of k*aMax*bMax and the largest cell bound |
| ExactRange.PackedBoundTight | src/core/exact_range.hpp:109-144 | For packed operands the bound exceeds some entry of the product by at most half of k times the spreads |
| ExactRange.OutputRowRecords | src/core/exact_range.hpp:132-139 | A row summary records the largest and the sum of its cell bounds and claims no exact sum |
| ExactRange.OutputColRecords | src/core/exact_range.hpp:132-139 | A column summary records an attained maximum and the sum of its cell bounds and claims no exact sum |
| ExactRange.SummaryBounds | src/core/exact_range.hpp:125-143 | The bound loop computes the largest cell bound and every output summary |
| ExactRange.OutputSummariesSound | src/core/exact_range.hpp:132-139 | The recorded output summaries are sound for any output within its cell bounds |
| ExactRange.AttainedIsLargest | src/core/exact_range.hpp:57-65 | An attained bound is the largest magnitude |
| WidePlanes.PlanesDecode | src/core/api_export.cpp:674-684 | Planes that hold a value within a covered bound decode to it |
| WidePlanes.StageSucceeds | src/core/api_exact_lift.cpp:65-88 | Staging cannot fail on planes that hold a proved value |
| WidePlanes.GatherChecked | src/core/api_exact_lift.cpp:73-78 | Collects a cell and refuses exactly the bytes outside the centered range |
| WidePlanes.LiftCell | src/core/api_exact_lift.cpp:72-81 | Status and value of one lifted cell |
| WidePlanes.WriteSuffixCell | src/core/api_exact_lift.cpp:82-85 | Writes one cell's residues into every staged plane and no other cell |
| WidePlanes.StageLift | src/core/api_exact_lift.cpp:65-88 | The staged planes are the centered residues of the decoded cells; the first failing cell decides the status |
| WidePlanes.SplicePlanes | src/core/api_exact_lift.cpp:90-94 | Committing the suffix behind the source planes extends what the planes hold |
| WidePlanes.OperandPlane | src/core/api_exact_lift.cpp:21-24 | Every operand plane, resident or staged, holds the value |
| WidePlanes.PlaneProduct | src/cpu/cpu_reference.cpp:180-186 | The product of planes is the plane of the product |
| ExactWide.MultiplyPlane | src/core/api_exact_lift.cpp:184-189 | One output plane holds the integer product and other bytes stay |
| ExactWide.MultiplyPlanes | src/core/api_exact_lift.cpp:178-189 | All selected output planes hold the integer product |
| ExactWide.PackPlane | src/cpu/cpu_reference.cpp:53-79 | The packing loop stores the centered residues of the strided source |
| ExactWide.PackPlanes | src/cpu/cpu_reference.cpp:53-107 | The same on every plane |
| ExactWide.NativeRangesSound | src/core/api_pack.cpp:51-65 | The recorded ranges are sound for what was packed |
| ExactWide.MaximumFitsIff | src/core/api_pack.cpp:57-64 | The range check on an attained maximum is the check on every entry |
| ExactWide.MaximumAttained | src/core/exact_range.hpp:57-65 | The recorded maximum is the magnitude of some entry |
| ExactWide.ExactMatrix.constructor | src/core/api_matrix_public_api.inc:84-95 | A new host matrix is the zero matrix on every plane, with a proof |
| ExactWide.ExactMatrix.Pack | src/core/api_pack.cpp:31-126 | Success exactly when every entry fits the allocated prefix, and then the object stands for the source and its bound is attained; otherwise nothing changes |
| ExactWide.ExactMatrix.PrepareLift | src/core/api_exact_lift.cpp:49-63 | A matrix is ready for a lift exactly when the target is within its storage, it is current and it has a proof; its range check can never fail, because a proof is always covered by its own prefix |
| ExactWide.ExactMatrix.Stage | src/core/api_exact_lift.cpp:65-88 | The missing planes of the integer matrix, without touching the object |
| ExactWide.ExactMatrix.Commit | src/core/api_exact_lift.cpp:90-94 | Changes only bytes and initialized prefix; the object stands for the same integers |
| ExactWide.ExactMatrix.StoreProduct | src/core/api_exact_lift.cpp:195-201 | Bytes, bound, summaries and prefix of an output are replaced together, and the object then stands for the product |
| ExactWide.ExactMatrix.Lift | src/core/api_exact_lift.cpp:104-117 | Lifting keeps the integer matrix, changes nothing on failure, and each of the four statuses is characterised: residues never make a lift fail |
| ExactWide.ProvedIsLiftable | src/core/api_exact_lift.cpp:65-88 | A current matrix with a proof is always liftable |
| ExactWide.SelectPrefix | src/core/api_exact_lift.cpp:153-160 | The least prefix from the plan's up to the ceiling that covers the bound, or none |
| ExactWide.LeastFit | src/core/api_exact_lift.cpp:153-160 | The least prefix from the plan's on that covers a bound, and no smaller one does |
| ExactWide.CoverableIffCeiling | src/core/api_exact_lift.cpp:149-160 | Some prefix within every limit covers the bound exactly when the smallest of the limits does |
| ExactWide.SelectedIsLeast | src/core/api_exact_lift.cpp:149-160 | What the search stops at is the least usable covering prefix, and it runs past the limits only when there is none |
| ExactWide.CheckOperands | src/core/api_exact_lift.cpp:119-139 | Accepts exactly operands of the plan's shapes and semantics with enough storage, and an output that is neither input |
| ExactWide.FitsUpward | src/core/exact_range.hpp:16-18 | A bound covered by a prefix is covered by every longer one |
| ExactWide.SomePrefixFitsIff | src/core/api_exact_lift.cpp:153-160 | Some prefix up to the ceiling covers a bound exactly when the ceiling does |
| ExactWide.PlanRange | src/core/api_exact_lift.cpp:149-160 | A prefix is found exactly when some usable one covers the admission bound; it is the least such, and the bound is true of the product |
| ExactWide.PlanProduct | src/core/api_exact_lift.cpp:130-171 | The status of all checks before staging is the exact outcome, with the admission bound and the least covering prefix |
| ExactWide.StageProduct | src/core/api_exact_lift.cpp:172-189 | All planes are computed outside the matrices; ready inputs cannot fail here |
| ExactWide.StageAndCommit | src/core/api_exact_lift.cpp:172-203 | On operands with proofs staging cannot fail, and the commit leaves the exact product |
| ExactWide.CommitProduct | src/core/api_exact_lift.cpp:190-203 | After the commit the output stands for the product and the inputs for what they did |
| ExactWide.ProductWithin | src/core/exact_range.hpp:16-18 | The product respects the bound and the sign discipline of its semantics |
| ExactWide.GemmAuto | src/core/api_exact_lift.cpp:119-205 | A product that passes the shape, currentness and proof checks ends RangeError exactly when no prefix from the plan's on, within its maximum and the storage of all three matrices, covers the admission bound, and otherwise selects the least such prefix; the byte budget decides the rest. On success the output stands for the exact integer product with that bound; otherwise no matrix has changed |
| ExactWide.FlattenedProduct | src/cpu/cpu_reference.cpp:313-341 | Strides do not matter: a packed product cell is the native dot product |
| ExactExport.StageExport | src/core/api_export.cpp:42-46 | Which matrices may be exported and with which error they are refused; with or without a proof, staging succeeds exactly when every cell decodes to an integer that fits the limbs, and the staged limbs decode to those integers |
| ExactExport.StageProved | src/core/api_export.cpp:668-704 | The status for a matrix with a proof is exact: covered and fitting, or RangeError |
| ExactExport.GatherCell | src/core/api_plan_auto_backend.inc:147-153 | The residue vector of a cell |
| ExactExport.CopyOut | src/core/api_export.cpp:705-713 | Each cell's limbs land in its own window of the padded destination; nothing else changes |
| ExactExport.WindowIsLimbIndex | benchmarks/rns8_bench.cpp:210-212 | For accepted sizes a window starts at the wrapped limb index of the library |
| ExactExport.Export | src/core/api_export.cpp:631-716 | The status is exact for every matrix: bad limb count, stale matrix, uncovered proof, a value that does not fit, or success; a failed export leaves the destination, a successful one decodes to the matrix cell by cell |
| Limbs.LimbSumBound | benchmarks/rns8_bench.cpp:196-208 | n limbs stay below 2^(64n) |
| Limbs.TopBitIsHalf | benchmarks/rns8_bench.cpp:204-206 | The top-bit test is the comparison with half the range |
| Limbs.DecodeRange | benchmarks/rns8_bench.cpp:196-208 | Decoding lands in the representable range and the top bit is the sign |
| Limbs.DecodeInjective | benchmarks/rns8_bench.cpp:196-208 | Equal values mean equal limbs |
| Limbs.LimbRoundTrip | src/reconstruct/crt.cpp:158-168 | Encode then decode is the identity on representable integers |
| Limbs.LimbRoundTripBack | benchmarks/rns8_bench.cpp:196-208 | Decode then encode is the identity on limbs, so decoding is onto |
| Limbs.SignExtension | benchmarks/rns8_bench.cpp:196-208 | A sign-extension limb does not change the value |
| Limbs.ExactWideValueFromLimbs | benchmarks/rns8_bench.cpp:196-208 | The loop computes the two's-complement value |
| Limbs.WriteLimbs | src/reconstruct/crt.cpp:136-139 | The masking and shifting loop writes the little-endian limbs |
| Limbs.EncodeValue | src/reconstruct/crt.cpp:155-168 | Success exactly for representable values, and the limbs decode to the value |
| Limbs.ExportExactWideLimbs | src/reconstruct/crt.cpp:123-170 | One cell: argument errors, range errors and success are told apart exactly; nothing is truncated |
| Limbs.ByteProductBound | README.md:28-33 | n byte moduli have a product of at most 2^(8n) |
| Limbs.StatusCheckElisionSound | benchmarks/rns8_bench_modes.cpp:39-47 | Whenever the status check is not required, no residue vector of a supported prefix can overflow the limbs |
| DefaultLadder.StatusCheckIsExact | benchmarks/rns8_bench_modes.cpp:39-47 | On the default ladder the exact-wide status check is required exactly when some residue vector of a supported prefix decodes to a value the limbs cannot hold; other contracts always require it |
| Limbs.CheckedElements | benchmarks/rns8_bench_support.cpp:299-306 | The exact product, or an error exactly on overflow |
| Limbs.CheckedLimbElements | benchmarks/rns8_bench_support.cpp:308-314 | The exact triple product, or an error on zero limbs or overflow |
| Limbs.CheckedBytes | benchmarks/rns8_bench_support.cpp:316-321 | The exact product, or an error exactly on overflow |
| Limbs.CheckedAddBytes | benchmarks/rns8_bench_support.cpp:323-328 | The exact sum, or an error exactly on overflow |
| Limbs.LimbIndexExact | benchmarks/rns8_bench.cpp:210-212 | The index is the unwrapped product and the window ends inside the buffer |
| Limbs.LimbWindows | benchmarks/rns8_bench.cpp:210-212 | Windows of different cells are disjoint and inside the accepted size |
| Primes.SquareRootSuffices | benchmarks/rns8_bench_modes.cpp:53-57 | No divisor up to the square root means prime |
| Primes.ValidFiniteFieldModulus | benchmarks/rns8_bench_modes.cpp:49-59 | Accepts exactly the primes up to 251 |
| Primes.IsPrimeOddDivisors | tools/modulus_set_search.py:70-82 | The odd-divisor loop is true exactly for primes |
| Primes.FieldIffPrime | README.md:25 | Every nonzero residue is invertible exactly for prime moduli |
| Primes.ValidFiniteModulus | benchmarks/rns8_bench_modes.cpp:61-69 | Rings: 2..256; fields: exactly the moduli up to 251 that make a field; otherwise true |
| ModulusSearch.BitLengthIff | tools/modulus_set_search.py:92-93 | A bit-length test is a comparison with a power of two |
| ModulusSearch.SatisfiesUpward | tools/modulus_set_search.py:122-139 | Satisfaction is upward closed in the prefix |
| ModulusSearch.PrefixProducts | tools/modulus_set_search.py:122-139 | Every row reports its prefix, modulus, bit length and satisfied entries correctly |
| ModulusSearch.RequiredPrefixes | tools/modulus_set_search.py:142-148 | The least satisfying prefix of every entry, or none |
| ModulusSearch.LadderIsNotPowerOfTwo | tools/modulus_set_search.py:50-59 | A coprime ladder of two or more moduli never has a power-of-two product |
| ModulusSearch.SatisfiesStrictly | tools/modulus_set_search.py:50-59 | So satisfaction is a strict inequality |
| ModulusSearch.FullWordEntry | tools/modulus_set_search.py:50-59 | The 65-bit entry is exactly the signed and the unsigned full 64-bit range contract |
| ModulusSearch.ExactWideEntries | src/core/moduli.cpp:353-356 | The exact-wide entries for K = 2^t are exactly the plan condition, and cover every dot product of 2^t native terms |
| ModulusSearch.ContractCovers | src/core/moduli.cpp:353-356 | The plan condition on any K covers every dot product of K native 64-bit terms, as `CoversDots` states |
| ModulusSearch.NativeDotBound | src/core/moduli.cpp:353-356 | A dot product of K native terms is at most K times the square of the largest native magnitude |
| ModulusSearch.CoversExtreme | src/core/moduli.cpp:353-356 | Covering K extreme products covers every dot product of K native terms |
| ModulusSearch.BitsCoverDots | README.md:28-30 | A product above 2^(t+128) covers every dot product of 2^t native terms |
| ModulusSearch.UnsignedEntryGap | tools/modulus_set_search.py:52 | The 64-bit unsigned entry is met without its contract exactly for products between 2^63 and 2^64 |
| ModulusSearch.CandidateDisposition | tools/modulus_set_search.py:206-213 | Ready exactly for coprime byte ladders with the required range; the rejections characterised |
| ModulusSearch.GreedyLadder | tools/modulus_set_search.py:252-258 | For any start and target the greedy list is coprime and descending, and every odd value left out shares a factor with a larger kept one |
| ModulusSearch.GreedyIsLexicographicallyGreatest | tools/modulus_set_search.py:252-258 | It beats every competing ladder at the first difference |
| DefaultLadder.DefaultLadderIsValid | src/core/internal.hpp:328-330 | The library ladder is pairwise coprime with byte moduli |
| DefaultLadder.SearchLadderIsValid | tools/modulus_set_search.py:19-48 | The search tool's ladder swaps 193 for 113 and is pairwise coprime too |
| DefaultLadder.SearchToolPrefixes | tools/modulus_set_search.py:142-148 | The tool reports prefix 8 for the 64-bit entry, which misses that contract on the tool's own ladder, and 9 for the 65-bit entry |
| DefaultLadder.FullWordPrefixIsNine | README.md:51-53 | A prefix covers full 64-bit output exactly from 9 on |
| DefaultLadder.SupportedRange | README.md:28-30 | 20 moduli give between 154 and 155 bits and fit 2^26 extreme native products |
| DefaultLadder.SupportedDots | README.md:28-30 | They cover every dot product of 2^26 native terms, signed or unsigned |
| Checksum.Accumulator.MixAll | benchmarks/rns8_bench_support.cpp:96-99 | A run of steps is the fold of the values |
| Checksum.MultiplierInjective | benchmarks/rns8_bench_support.cpp:98 | Multiplying by the odd constant is injective modulo 2^64 |
| Checksum.MixOfOne | benchmarks/rns8_bench_support.cpp:98 | Mixing 1 into 0 gives 1099511628211; a step is the exclusive or times that modulo 2^64 |
| Checksum.XorBits | benchmarks/rns8_bench_support.cpp:97 | A bit of the exclusive or is set exactly when one of the two bits is |
| Checksum.MixCollides | benchmarks/rns8_bench_support.cpp:96-99 | Two steps collide exactly when the checksums differ by what the values differ by |
| Checksum.MixSurjective | benchmarks/rns8_bench_support.cpp:96-99 | A step reaches every 64-bit word |
| Checksum.CommonSuffix | benchmarks/rns8_bench_support.cpp:96-99 | Equal values never merge or split two checksums |
| Checksum.SingleDifferenceDetected | benchmarks/rns8_bench_support.cpp:96-99 | Streams that differ in exactly one place have different checksums |
| Checksum.SecondDifferenceCanHide | benchmarks/rns8_bench_support.cpp:96-99 | Exactly when a second difference cancels the first |
| Wrap64.StoreByteLimbs | src/backend_wrap64/wrap64_reference.cpp:216-220 | Eight bytes that stand for the word: their weighted sum is the word |
| Wrap64.LoadByteLimbs | src/backend_wrap64/wrap64_reference.cpp:30-36 | Any eight bytes load as the word they stand for, so load undoes store |
| Wrap64.ByteLimbsUnique | src/backend_wrap64/wrap64_reference.cpp:212-220 | A word has only one byte vector, so store undoes load |
| Wrap64.SignedLanesCorrected | src/backend_wrap64/wrap64_reference.cpp:141-150 | Signed lane product plus correction is the unsigned byte product |
| Wrap64.UnsignedByteProduct | src/backend_wrap64/wrap64_reference.cpp:152-157 | The same, with every intermediate in int32 |
| Wrap64.PlaneThreshold | benchmarks/rns8_bench.cpp:127-130 | A byte-pair plane fits int32 for all inputs exactly up to K = 33025, so 32768 is safe |
| Wrap64.TermLowProduct | src/backend_wrap64/wrap64_reference.cpp:98-107 | The 36 kept byte products of one term give its product modulo 2^64 |
| Wrap64.PlanesGiveLowDot | src/backend_wrap64/wrap64_reference.cpp:98-107 | The weighted 36 plane sums equal the dot product modulo 2^64 |
| Wrap64.Low64FromDiagonals | src/backend_wrap64/wrap64_reference.cpp:109-119 | The carry pass assembles the weighted diagonals modulo 2^64 |
| Wrap64.LowIsRemainder | src/backend_wrap64/wrap64_reference.cpp:30-36 | The low n bytes are the remainder modulo 256^n |
| Wrap64.AddTerm | src/backend_wrap64/wrap64_reference.cpp:178-184 | The two nested loops add one term to the diagonals |
| Wrap64.LowDiagonalCell | src/backend_wrap64/wrap64_reference.cpp:166-188 | The byte-pair oracle returns the low 64 bits of the dot product |
| Wrap64.NativeCell | src/backend_wrap64/wrap64_reference.cpp:222-235 | Native wrapping multiplication returns the same |
| KeyFields.SplitJoin | tools/install_autotune_cache.py:66-74 | Splitting a join gives back the parts |
| KeyFields.ParsePrinted | tools/install_autotune_cache.py:66-74 | A printed field parses to itself |
| KeyFields.ParseKeyFields | tools/install_autotune_cache.py:66-74 | The loop computes the dictionary whose fields the last-wins lemma characterises |
| KeyFields.LastFieldWins | tools/install_autotune_cache.py:66-74 | For any key, repeated names included, a field is returned exactly when the last part naming it gives that value |
| KeyFields.LastPartWins | tools/install_autotune_cache.py:68-73 | The same for any number of leading parts |
| KeyFields.KeyRoundTrip | tools/exact_wide_chain_report.py:134-149 | Parsing a printed key returns exactly its fields |
| KeyFields.PrintKeyInjective | tools/exact_wide_chain_report.py:134-149 | The printed key determines the field list, order included, the empty list too |
| GroupedBuckets.TaskCountForCapture | tools/many_small_grouped_report.py:84-93 | Grouped dispatch counts its grouped task count, otherwise a host batch its batch size, otherwise one; a missing or non-positive count is one |
| GroupedBuckets.WalkBuckets | tools/many_small_grouped_report.py:169-185 | The loop accepts exactly buckets labelled for and placed at the running offset |
| GroupedBuckets.ChainedIffPartition | tools/many_small_grouped_report.py:169-186 | Consecutive nonempty buckets are the same thing as an ordered partition |
| GroupedBuckets.BucketsValid | tools/many_small_grouped_report.py:157-186 | Accepts exactly the ordered partitions of the task range into at least two labelled buckets of two or more |
| AutotuneCache.ReadPromotionLedger | tools/install_autotune_cache.py:400-420 | Accepts exactly ledgers with present, distinct keys, and maps each key to its row |
| AutotuneCache.CombineLedgers | tools/install_autotune_cache.py:430-435 | Accepts exactly ledgers that agree, and holds exactly their rows |
| AutotuneCache.ValidatePromotionLedgerGate | tools/install_autotune_cache.py:423-464 | Passes exactly when the ledgers agree and every entry has a row without blockers, performance validated, variance gate available and ready where required, and target gate available, ready and eligible where required or for a CDNA target in any case; the rows it returns are exactly the listed ones |
| AutotuneCache.ClearsIff | tools/install_autotune_cache.py:437-464 | The row check is that condition; lowering the target id amounts to comparing it with the three names in any ASCII case |
| AutotuneCache.SucceedsIff | tools/install_autotune_cache.py:511-563 | Exactly when a request is carried out, spelled out over its entries, ledgers and options: acceptance, scope, ledger rows, and the validity of the file it builds on |
| AutotuneCache.StoredExactly | tools/install_autotune_cache.py:564-596 | The file after an install lists exactly the last source entry of each key, and for keys no source mentions the old file's entry unless the old entries are to be replaced |
| AutotuneCache.NewEntriesPromoted | tools/install_autotune_cache.py:535-563 | An entry an install adds is one of its accepted source entries with an installable scope and a promoting row in its own ledgers |
| AutotuneCache.HeldAfterSources | tools/install_autotune_cache.py:564-591 | After merging, a key holds the last entry of the last source that mentions it, and otherwise its old entry |
| AutotuneCache.LastWins | tools/install_autotune_cache.py:564-591 | The last entry for a key wins |
| AutotuneCache.UnmentionedKept | tools/install_autotune_cache.py:564-591 | A key no source mentions keeps its entry |
| AutotuneCache.MergeAppend | tools/install_autotune_cache.py:564-591 | Merging A then B is merging both |
| AutotuneCache.MergeIdempotent | tools/install_autotune_cache.py:564-591 | Merging twice is merging once |
| AutotuneCache.MergeOrigins | tools/install_autotune_cache.py:564-591 | Every merged entry came from the old cache or a source |
| AutotuneCache.RenderingUnique | tools/install_autotune_cache.py:592 | A dictionary has one sorted listing |
| AutotuneCache.RenderingReadsBack | tools/install_autotune_cache.py:592 | Reading the listing back gives the dictionary |
| AutotuneCache.InstallsCompose | tools/install_autotune_cache.py:511-596 | Two installs in a row leave the same file as one install of both sources |
| AutotuneCache.ReinstallKeepsFile | tools/install_autotune_cache.py:511-596 | Repeating an install leaves the file as it is |
| AutotuneCache.HistoryComplete | tools/install_autotune_cache.py:564-591 | A key the history does not name keeps its old entry |
| AutotuneCache.HistoryReplays | tools/install_autotune_cache.py:564-591 | Replaying the history alone gives the merged cache |
| AutotuneCache.MergeInto | tools/install_autotune_cache.py:564-591 | The merge loop and its history |
| AutotuneCache.RenderSorted | tools/install_autotune_cache.py:592 | The sorted listing of a dictionary |
| AutotuneCache.Rewrite | tools/install_autotune_cache.py:564-593 | Merge, history, listing and the counts of the report |
| AutotuneCache.ReplacedAreChanged | tools/install_autotune_cache.py:594 | On a file without repeated keys the replaced count is the number of keys whose entry changed |
| AutotuneCache.PassedAreInstalled | tools/install_autotune_cache.py:535-563 | An entry of a request that gets through was accepted, in scope and cleared by a row of the request's own ledgers |
| AutotuneCache.StepKeepsReview | tools/install_autotune_cache.py:511-596 | One more request keeps every stored entry traced to the request that installed it |
| AutotuneCache.RunIsReviewed | tools/install_autotune_cache.py:511-596 | Over any run of requests from a missing file, each entry ever held comes from the sources of some request so far whose own ledgers list a row that clears it |
| AutotuneCache.RunIsRuntimeExact | tools/install_autotune_cache.py:437-464 | Whatever the run, each entry it leaves was accepted, its scope is absent or runtime-exact unless its request waived that, and a ledger of that request lists a row for its key with no blockers, validated performance, a ready variance gate, and a ready target gate where one is due |
| AutotuneCache.DestinationCache.constructor | tools/install_autotune_cache.py:381-397 | No file to begin with, which is clean |
| AutotuneCache.ReviewSources | tools/install_autotune_cache.py:535-563 | Passes exactly when every source, scope and gate condition holds |
| AutotuneCache.DestinationCache.Install | tools/install_autotune_cache.py:511-612 | Exact acceptance condition and exact new file, entry by entry; rejected requests and dry runs leave it; the log records the request, and every stored entry stays traced to the logged request whose ledgers cleared it |
| CacheOrder.LessIff | tools/install_autotune_cache.py:592 | The order is decided by the first differing character, and a proper prefix comes first |
| CacheOrder.SortedKeys | tools/install_autotune_cache.py:592 | A strictly ascending listing of the keys |
| CacheOrder.SortedUnique | tools/install_autotune_cache.py:592 | There is only one such listing |

## Left out

- GPU back ends and the HIP runtime (`src/backend_hip_direct` and its siblings): their kernels are not modelled; the CPU reference defines the results.
- C ABI handles, struct versions, null-pointer checks and `guard_api`: every object of the model exists.
- OpenMP loops: rows are independent and are modelled in order.
- TiledGemm.ConfigureTiles: a schedule whose tiles all take the plan's prefix is dropped by the source and kept here, which changes no byte; zero row and column masks only set a flag the CPU route ignores.
- CpuGemm.ExportBounded: is the case without a tile schedule; TiledGemm.ExportTiles is the other.
- Exact-wide multiplication at the plan's fixed prefix through `rns8_gemm_rns`, and the one-shot entry points; the automatic CPU product is modelled instead.
- `size_t` overflow of staging counts and failed allocations: counts are unbounded, so the range errors they lead to do not occur.
- Source versions and the currentness flags of other back ends: a host matrix is current or not.
- CpuGemm.GemmRns: the operands A and B and the storage of an `ExactMatrix` are immutable sequences that methods reassign, because the source never lets them alias the output buffer; only the output and the row accumulator are arrays.
- Garner.ReconstructCanonical: takes stored bytes of at least -m; below that the uint32 cast of the source wraps. The 20 supported moduli are all at least 167, so for them no byte is excluded.
- Branch-free masks of the reducers are written as conditionals, `|` of disjoint bits as addition, and the compile-time specialisations for fixed moduli are not repeated.
- `validate_entry` of the installer is a parameter (`accepts`) of the destination cache; its normalisation of `finite_modulus` is not modelled.
- File reading, JSON parsing, atomic renaming and Python's acceptance of `True` as the integer 1: a cache file is a sequence of entries.
- Fingerprints of the replacement history are replaced by the entries themselves, and `cache_coverage_summary` is a report field only.
- AutotuneCache.DestinationCache.Install: the target gate lowers ASCII letters only, where Python lowers all of Unicode; no other character lowers to one of the three names' letters.
- GroupedBuckets.BucketsValid: the common policy strings of the descriptor and the single-bucket policy are equality tests and are not modelled.
- `ntt_friendly_lengths`, reducer cost hints, timing, medians and report formatting: they settle no arithmetic question.
- Native vector and column-major storage: the exact-wide and bounded CPU routes are row-major.
