/** Small datatypes and fixed-width constants shared by the other modules. */
module Prelude {

  datatype Option<+T> = None | Some(value: T)

  const U32_MAX: nat := 0xFFFF_FFFF
  const U64_MAX: nat := 0xFFFF_FFFF_FFFF_FFFF

  type u64 = x: int | 0 <= x <= 0xFFFF_FFFF_FFFF_FFFF

  /** `AtomicU64::fetch_add` and `fetch_sub` wrap around. */
  function WrapAdd64(a: u64, b: nat): u64 {
    (a + b) % 0x1_0000_0000_0000_0000
  }

  function WrapSub64(a: u64, b: nat): u64 {
    (a - b) % 0x1_0000_0000_0000_0000
  }

  function Min(a: int, b: int): int { if a <= b then a else b }

  function Max(a: int, b: int): int { if a >= b then a else b }

  /** `saturating_sub` on unsigned integers. */
  function SatSub(a: int, b: int): int { if a >= b then a - b else 0 }

  lemma SubsetSize<T>(a: set<T>, b: set<T>)
    requires a <= b
    ensures |a| <= |b|
  {
    assert b == a + (b - a);
  }
}
