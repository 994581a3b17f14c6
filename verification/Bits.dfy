/** Single bits of bytes, as the flag vectors of src/merkleblock.h and src/cuckoocache.h pack them. */
module Bits {
  /** 1 << i. */
  function Bit(i: nat): (b: bv8)
    requires i < 8
  {
    if i == 0 then 1 else if i == 1 then 2 else if i == 2 then 4 else if i == 3 then 8
    else if i == 4 then 16 else if i == 5 then 32 else if i == 6 then 64 else 128
  }

  predicate HasBit(b: bv8, i: nat)
    requires i < 8
  {
    b & Bit(i) != 0
  }

  predicate BitAt(vBytes: seq<bv8>, p: nat)
    requires p < 8 * |vBytes|
  {
    HasBit(vBytes[p / 8], p % 8)
  }

  lemma SetBit(b: bv8, i: nat, j: nat)
    requires i < 8 && j < 8
    ensures HasBit(b | Bit(i), j) <==> i == j || HasBit(b, j)
  {}

  function Flag(i: nat, bit: bool): (r: bv8)
    requires i < 8
  {
    if bit then Bit(i) else 0
  }

  lemma OrFlag(b: bv8, i: nat, bit: bool, j: nat)
    requires i < 8 && j < 8
    ensures HasBit(b | Flag(i, bit), j) <==> (i == j && bit) || HasBit(b, j)
  {
    if bit { SetBit(b, i, j); } else { OrZero(b); }
  }

  lemma OrZero(b: bv8)
    ensures b | 0 == b
  {}

  /** Masking a bit out of its byte changes no other bit. */
  lemma ClearBit(b: bv8, i: nat, j: nat)
    requires i < 8 && j < 8
    ensures HasBit(b & !Bit(i), j) <==> i != j && HasBit(b, j)
  {}

  lemma Places(p: nat, q: nat)
    ensures p / 8 == q / 8 && p % 8 == q % 8 <==> p == q
  {
    assert p == 8 * (p / 8) + p % 8 && q == 8 * (q / 8) + q % 8;
  }

  /** Another byte in one place, which differs in one bit only. */
  lemma ByteChanged(vBytes: seq<bv8>, b: bv8, p: nat, bit: bool, q: nat)
    requires p < 8 * |vBytes| && q < 8 * |vBytes|
    requires HasBit(b, q % 8) <==> if p % 8 == q % 8 then bit else HasBit(vBytes[p / 8], q % 8)
    ensures BitAt(vBytes[p / 8 := b], q) <==> if p == q then bit else BitAt(vBytes, q)
  {
    hide HasBit;
    Places(p, q);
  }

  /** Or-ing a bit into its byte changes no other bit. */
  lemma OrBit(vBytes: seq<bv8>, p: nat, bit: bool, q: nat)
    requires p < 8 * |vBytes| && q < 8 * |vBytes|
    ensures BitAt(vBytes[p / 8 := vBytes[p / 8] | Flag(p % 8, bit)], q) <==> (q == p && bit) || BitAt(vBytes, q)
  {
    hide HasBit, Flag;
    OrFlag(vBytes[p / 8], p % 8, bit, q % 8);
    ByteChanged(vBytes, vBytes[p / 8] | Flag(p % 8, bit), p, bit || BitAt(vBytes, p), q);
  }

  lemma ClearBitAt(vBytes: seq<bv8>, p: nat, q: nat)
    requires p < 8 * |vBytes| && q < 8 * |vBytes|
    ensures BitAt(vBytes[p / 8 := vBytes[p / 8] & !Bit(p % 8)], q) <==> q != p && BitAt(vBytes, q)
  {
    hide HasBit, Bit;
    ClearBit(vBytes[p / 8], p % 8, q % 8);
    ByteChanged(vBytes, vBytes[p / 8] & !Bit(p % 8), p, false, q);
  }

  lemma AllOnes(i: nat)
    requires i < 8
    ensures HasBit(0xff as bv8, i)
  {}
}
