/** The integer widths of the C code, and the small notions that several components share. */
module Widths {
  const TWO32 := 0x1_0000_0000
  const TWO64 := 0x1_0000_0000_0000_0000
  const SIZE_MAX := 0xFFFF_FFFF_FFFF_FFFF
  const INT64_MIN := -0x8000_0000_0000_0000
  const INT64_MAX := 0x7FFF_FFFF_FFFF_FFFF

  type Octet = v: int | 0 <= v < 256
  type U32 = v: int | 0 <= v < TWO32
  type U64 = v: int | 0 <= v < TWO64
  type Size = v: int | 0 <= v <= SIZE_MAX
  type Int32 = v: int | -0x8000_0000 <= v < 0x8000_0000
  type Int64 = v: int | INT64_MIN <= v <= INT64_MAX

  datatype Option<+T> = None | Some(value: T)

  predicate Increasing(xs: seq<int>) { forall i, j :: 0 <= i < j < |xs| ==> xs[i] < xs[j] }
}
