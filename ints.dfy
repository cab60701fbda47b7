/** Machine integer widths used by the source (Rust `u8`, `u16`, `u64`/`usize`). */
module Ints {

  const TWO_8: nat := 0x100
  const TWO_16: nat := 0x1_0000
  const TWO_64: nat := 0x1_0000_0000_0000_0000

  type U8 = x: int | 0 <= x < TWO_8
  type U16 = x: int | 0 <= x < TWO_16
  type U64 = x: int | 0 <= x < TWO_64

  /** `usize` on the 64-bit targets the system runs on. */
  type Usize = U64

  /** A replica identifier (`types::Replica`, a `usize`). */
  type Replica = Usize

  type Bytes = seq<U8>

  /** A Rust `Vec<T>`: its length fits the `u64` length prefix of its encoding. */
  type Vec<T> = s: seq<T> | |s| < TWO_64 witness []

  function Min(a: int, b: int): int { if a <= b then a else b }
  function Max(a: int, b: int): int { if a <= b then b else a }
}
