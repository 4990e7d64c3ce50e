/** Machine numbers shared by the components. */
module Bytes {
  type byte = x: int | 0 <= x < 256

  /** `uint16_t`: sequence numbers wrap. */
  type u16 = x: int | 0 <= x < 0x1_0000

  /** The number `k` places after `s`. */
  function Plus(s: u16, k: nat): u16 {
    (s + k) % 0x1_0000
  }

  /** How often `s` must be incremented to reach `e`. */
  function Dist(s: u16, e: u16): (n: nat)
    ensures n < 0x1_0000
  {
    (e - s) % 0x1_0000
  }

  lemma PlusStep(s: u16, k: nat)
    ensures Plus(Plus(s, 1), k) == Plus(s, k + 1) && Plus(s, 0) == s
  {
  }

  lemma PlusPlus(s: u16, j: nat, k: nat)
    ensures Plus(Plus(s, j), k) == Plus(s, j + k)
  {
  }

  lemma DistPlus(s: u16, k: nat)
    requires k < 0x1_0000
    ensures Dist(s, Plus(s, k)) == k
  {
  }

  /** One increment brings `s` one nearer to a different `e`. */
  lemma DistStep(s: u16, e: u16)
    requires s != e
    ensures Dist(s, e) == 1 + Dist(Plus(s, 1), e)
  {
  }

  lemma DistSelf(s: u16)
    ensures Dist(s, s) == 0
  {
  }
}
