/** The arithmetic contracts a plan or a benchmark can name. */
module Contracts {
  datatype Semantics = BoundedI64 | BoundedU64 | ExactWideSigned | ExactWideUnsigned | WrapU64Mod2_64
    | FiniteRingU8 | FiniteFieldU8
}
