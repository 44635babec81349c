/** Small vocabulary shared by the other modules. */
module Options {
  datatype Option<+T> = None | Some(value: T)

  /** The value domain of `std::uint64_t` (and of `size_t` on the 64-bit build). */
  const MAX_U64: int := 0xFFFF_FFFF_FFFF_FFFF
  type U64 = x: int | 0 <= x <= 0xFFFF_FFFF_FFFF_FFFF

  type Byte = x: int | 0 <= x < 256
}
