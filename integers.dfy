/**
  The fixed-width signed integer ranges the system stores: a C# `long`, a Go
  `int64`/`int32`/`int8` and a Postgres `bigint`/`integer` share these bounds.
*/
module Integers {
  /** Eight bits, two's complement. */
  type Int8 = x: int | -0x80 <= x <= 0x7F

  /** Thirty-two bits, two's complement. */
  type Int32 = x: int | -0x8000_0000 <= x <= 0x7FFF_FFFF

  /** Sixty-four bits, two's complement. */
  type Int64 = x: int | -0x8000_0000_0000_0000 <= x <= 0x7FFF_FFFF_FFFF_FFFF
}
