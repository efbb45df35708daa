/** The machine integers of the modelled code, as ranges of the integers. */
module Ints {

  const INT_LIMIT: int := 0x8000_0000
  const UINT: int := 0x1_0000_0000
  const LONG_LIMIT: int := 0x8000_0000_0000_0000
  const WORD: int := 0x1_0000_0000_0000_0000

  type I32 = x: int | -0x8000_0000 <= x < 0x8000_0000

  type U32 = x: int | 0 <= x < 0x1_0000_0000

  type I64 = x: int | -0x8000_0000_0000_0000 <= x < 0x8000_0000_0000_0000

  type U64 = x: int | 0 <= x < 0x1_0000_0000_0000_0000

  /** Whole periods make no difference. */
  lemma WrapMultiple(x: int, m: int)
    ensures (x + WORD * m) % WORD == x % WORD
  {
  }
}
