/** The fixed-width integers of the program and the conversions between them. */
module Words {
  const TWO16 := 0x1_0000
  const TWO31 := 0x8000_0000
  const TWO32 := 0x1_0000_0000
  const TWO63 := 0x8000_0000_0000_0000
  const TWO64 := 0x1_0000_0000_0000_0000

  type uint16 = x: nat | x < TWO16
  type uint32 = x: nat | x < TWO32
  type uint64 = x: nat | x < TWO64
  type int32 = x: int | -TWO31 <= x < TWO31
  type int64 = x: int | -TWO63 <= x < TWO63

  function U32(x: int): uint32 {
    x % TWO32
  }

  function U64(x: int): uint64 {
    x % TWO64
  }

  /** The low 32 bits read as a signed number, as the casts `(int)` and `(int32_t)` do. */
  function Int32(x: int): int32 {
    if x % TWO32 < TWO31 then x % TWO32 else x % TWO32 - TWO32
  }

  function Int64(x: int): int64 {
    if x % TWO64 < TWO63 then x % TWO64 else x % TWO64 - TWO64
  }

  lemma Small(x: nat)
    ensures x < TWO64 ==> U64(x) == x
    ensures x < TWO63 ==> Int64(x) == x
    ensures x < TWO32 ==> U32(x) == x
    ensures x < TWO31 ==> Int32(x) == x
  {
  }

  lemma Int32OfU64(x: int32)
    ensures Int32(U64(x)) == x
  {
  }

  lemma Int64OfU64(x: int64)
    ensures Int64(U64(x)) == x
  {
  }
}
