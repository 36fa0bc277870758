/** 32-bit unsigned arithmetic, which wraps around. */
module Unsigned32 {
  const WORD: nat := 0x1_0000_0000

  type word = x: nat | x < 0x1_0000_0000

  function Wrapped(x: nat): word {
    x % WORD
  }

  lemma WrappedDrops(x: nat)
    ensures x < WORD ==> Wrapped(x) == x
    ensures x >= WORD ==> Wrapped(x) <= x - WORD
  {
  }

  lemma WrappedAgain(x: nat)
    ensures Wrapped(x + WORD) == Wrapped(x)
  {
  }
}
