/** The fixed-width integers of the source, as bounded subsets of `int`. */
module Primitives {

  /** 2^256: one more than the largest `U256`. */
  const TWO_256: nat := 0x1_0000_0000_0000_0000_0000_0000_0000_0000_0000_0000_0000_0000_0000_0000_0000_0000

  /** A byte of `Vec<u8>`. */
  type Byte = b: int | 0 <= b < 0x100

  /** Rust's `i64`, the type of a JSON-RPC error code. */
  type Int64 = x: int | -0x8000_0000_0000_0000 <= x < 0x8000_0000_0000_0000

  /** Rust's `u64`, the type of the request id and of the recovery id `v`. */
  type UInt64 = x: int | 0 <= x < 0x1_0000_0000_0000_0000

  /** alloy's `U256`. */
  type U256 = x: nat | x < TWO_256
}
