/** The C# `int` type used for indices: a 32-bit two's-complement integer. */
module Int32 {

  newtype int32 = x: int | -0x8000_0000 <= x < 0x8000_0000

  /** `int.MinValue` */
  const MinValue: int32 := -0x8000_0000

  /** `int.MaxValue` */
  const MaxValue: int32 := 0x7FFF_FFFF
}
