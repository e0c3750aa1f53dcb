/** Java's fixed-width two's-complement integer types. */
module JavaTypes {

  const TWO_TO_THE_8: int := 0x100
  const TWO_TO_THE_16: int := 0x1_0000
  const TWO_TO_THE_32: int := 0x1_0000_0000
  const TWO_TO_THE_64: int := 0x1_0000_0000_0000_0000

  /** Java `byte` */
  newtype int8 = x: int | -0x80 <= x < 0x80

  /** Java `short` */
  newtype int16 = x: int | -0x8000 <= x < 0x8000

  /** Java `int` */
  newtype int32 = x: int | -0x8000_0000 <= x < 0x8000_0000

  /** Java `long` */
  newtype int64 = x: int | -0x8000_0000_0000_0000 <= x < 0x8000_0000_0000_0000
}
