/** The 32-bit unsigned arithmetic of the target: `unsigned`, `uint32_t` and `size_t` all have this width. */
module Words {
  const MODULUS: nat := 0x1_0000_0000

  type u32 = x: int | 0 <= x < 0x1_0000_0000

  /** What a 32-bit register keeps of a mathematical result. */
  function Wrap(x: int): u32 {
    x % MODULUS
  }

  /** Wrapping a part of a sum first does not change the wrapped sum. */
  lemma WrapInner(x: int, y: int)
    ensures Wrap(Wrap(x) + y) == Wrap(x + y)
  {
    assert x == Wrap(x) + MODULUS * (x / MODULUS);
  }
}
