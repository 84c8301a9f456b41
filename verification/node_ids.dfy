/**
 * The vertex-identifier width. The source is generic over an unsigned
 * integer type `T` (u8, u16, u32 or u64) that serves as vertex id, count
 * and BFS level; here the choice is a value and ids are `nat`s bounded by
 * `MaxValue`.
 */
module NodeIds {
  datatype Width = U8 | U16 | U32 | U64

  /** `T::max_value()`: the largest id, also the "unreached" level sentinel. */
  function MaxValue(w: Width): nat
  {
    match w
    case U8 => 0xFF
    case U16 => 0xFFFF
    case U32 => 0xFFFF_FFFF
    case U64 => 0xFFFF_FFFF_FFFF_FFFF
  }
}
