/** Machine-level types shared by every module of the model. */
module Machine {

  datatype Option<+T> = None | Some(value: T)

  const U64_LIMIT: int := 0x1_0000_0000_0000_0000
  const I64_MIN: int := -0x8000_0000_0000_0000
  const I64_MAX: int := 0x7FFF_FFFF_FFFF_FFFF

  type u64 = x: int | 0 <= x < 0x1_0000_0000_0000_0000
  type i64 = x: int | -0x8000_0000_0000_0000 <= x < 0x8000_0000_0000_0000
  type byte = x: int | 0 <= x < 256
  type bytes = seq<byte>

  function Elements<T(==)>(s: seq<T>): set<T> {
    set x | x in s
  }
}
