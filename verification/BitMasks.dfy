/** Setting, clearing and testing single bits of a byte. */
module BitMasks {

  /** `0x01 << i`. */
  function Mask(i: nat): bv8
    requires i < 8
  {
    if i == 0 then 1 else if i == 1 then 2 else if i == 2 then 4 else if i == 3 then 8
    else if i == 4 then 16 else if i == 5 then 32 else if i == 6 then 64 else 128
  }

  predicate ByteBit(x: bv8, i: nat)
    requires i < 8
  {
    x & Mask(i) != 0
  }

  /** `x |= 0x01 << i`. */
  function SetBit(x: bv8, i: nat): bv8
    requires i < 8
  {
    x | Mask(i)
  }

  /** `x = (x | (0x01 << i)) ^ (0x01 << i)`. */
  function ClearBit(x: bv8, i: nat): bv8
    requires i < 8
  {
    (x | Mask(i)) ^ Mask(i)
  }

  lemma SetByteBit(x: bv8, i: nat, j: nat)
    requires i < 8 && j < 8
    ensures ByteBit(SetBit(x, i), j) <==> j == i || ByteBit(x, j)
  {}

  lemma ClearByteBit(x: bv8, i: nat, j: nat)
    requires i < 8 && j < 8
    ensures ByteBit(ClearBit(x, i), j) <==> j != i && ByteBit(x, j)
  {}

  lemma NoBits(j: nat)
    requires j < 8
    ensures !ByteBit(0, j)
  {}
}
