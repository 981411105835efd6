/** The range of Rust's `i64`, which both the sol count and the parsed fields use. */
module Int64 {
  const I64Min: int := -0x8000_0000_0000_0000
  const I64Max: int := 0x7FFF_FFFF_FFFF_FFFF

  predicate InI64(n: int)
  {
    I64Min <= n <= I64Max
  }
}
