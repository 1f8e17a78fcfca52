/** The fixed-width integers of the chain. */
module Integers {
  const UINT32_LIMIT := 0x1_0000_0000
  const UINT64_LIMIT := 0x1_0000_0000_0000_0000
  const INT64_LIMIT := 0x8000_0000_0000_0000

  type uint32 = x: int | 0 <= x < UINT32_LIMIT
  type uint64 = x: int | 0 <= x < UINT64_LIMIT
  type int64 = x: int | -INT64_LIMIT <= x < INT64_LIMIT
  /** A block height is a non-negative int64. */
  type Height = x: int | 0 <= x < INT64_LIMIT

  function WrapUint64(x: int): uint64 { x % UINT64_LIMIT }
  function WrapUint32(x: int): uint32 { x % UINT32_LIMIT }
  /** Reinterpret an unsigned 64-bit value as signed. */
  function AsInt64(x: uint64): int64 { if x < INT64_LIMIT then x else x - UINT64_LIMIT }
  /** Reinterpret a signed 64-bit value as unsigned. */
  function AsUint64(x: int64): uint64 { if x < 0 then x + UINT64_LIMIT else x }
}
