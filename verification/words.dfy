/**
 * Exclusive or of 32-bit words.
 */
module Words {
  function Xor(a: bv32, b: bv32): (r: bv32) { a ^ b }

  lemma XorAssoc(a: bv32, b: bv32, c: bv32)
    ensures Xor(Xor(a, b), c) == Xor(a, Xor(b, c))
  {}

  lemma XorComm(a: bv32, b: bv32)
    ensures Xor(a, b) == Xor(b, a)
  {}
}
