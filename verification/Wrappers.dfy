/** What several parts of the model share: optional values, the smaller and larger of two numbers, machine words. */
module Wrappers {

  datatype Option<+T> = None | Some(value: T)

  function Min(a: int, b: int): int { if a <= b then a else b }

  function Max(a: int, b: int): int { if a >= b then a else b }

  const WORD: nat := 0x1_0000_0000_0000_0000

  /** Addresses and sizes; assigning to one checks that the machine arithmetic does not overflow. */
  type Usize = n: nat | n < WORD
}
