/** Bytes as bit sets: the shift-and-mask arithmetic of the bitmap index, with the handful of
    facts about single bits that the index proofs need. */
module Bits {
  /** The mask `1 << k`. */
  function Mask(k: int): bv8
    requires 0 <= k < 8
  {
    if k == 0 then 1 else if k == 1 then 2 else if k == 2 then 4 else if k == 3 then 8
    else if k == 4 then 16 else if k == 5 then 32 else if k == 6 then 64 else 128
  }

  predicate Bit(b: bv8, k: int)
    requires 0 <= k < 8
  {
    b & Mask(k) != 0
  }

  lemma AndBit(a: bv8, b: bv8, k: int)
    requires 0 <= k < 8
    ensures Bit(a & b, k) <==> Bit(a, k) && Bit(b, k)
  {
  }

  lemma OrBit(a: bv8, j: int, k: int)
    requires 0 <= j < 8 && 0 <= k < 8
    ensures Bit(a | Mask(j), k) <==> Bit(a, k) || j == k
  {
  }

  lemma ClearBit(a: bv8, j: int, k: int)
    requires 0 <= j < 8 && 0 <= k < 8
    ensures Bit(a & !Mask(j), k) <==> Bit(a, k) && j != k
  {
  }

  lemma ZeroByte(a: bv8)
    ensures a == 0 <==> forall k :: 0 <= k < 8 ==> !Bit(a, k)
  {
    if a != 0 {
      assert Bit(a, 0) || Bit(a, 1) || Bit(a, 2) || Bit(a, 3) || Bit(a, 4) || Bit(a, 5) || Bit(a, 6) || Bit(a, 7);
    }
  }

  /** Bit number s of a byte string, counting from the low bit of the first byte. */
  predicate On(h: seq<bv8>, s: int) {
    0 <= s < 8 * |h| && Bit(h[s / 8], s % 8)
  }

  /** Turning one bit on changes that bit and no other. */
  lemma OnAfterSet(h: seq<bv8>, j: int, s: int)
    requires 0 <= j < 8 * |h|
    ensures On(h[j / 8 := h[j / 8] | Mask(j % 8)], s) <==> On(h, s) || s == j
  {
    if 0 <= s < 8 * |h| {
      OrBit(h[j / 8], j % 8, s % 8);
    }
  }
}
