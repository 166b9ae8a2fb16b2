/** Single bits of a byte. */
module Bits {

  function BitMask(k: nat): bv8
    requires k < 8
  {
    match k
    case 0 => 1 case 1 => 2 case 2 => 4 case 3 => 8
    case 4 => 16 case 5 => 32 case 6 => 64 case 7 => 128
  }

  predicate BitOf(b: bv8, k: nat)
    requires k < 8
  {
    b & BitMask(k) != 0
  }

  lemma SetBit(b: bv8, j: nat, k: nat)
    requires j < 8 && k < 8
    ensures BitOf(b | BitMask(j), k) <==> j == k || BitOf(b, k)
    ensures !BitOf(0, k) && BitOf(0xFF, k)
  {
  }

  lemma ClearBit(b: bv8, j: nat, k: nat)
    requires j < 8 && k < 8
    ensures BitOf(b & !BitMask(j), k) <==> j != k && BitOf(b, k)
  {
    assert !BitMask(j) == 0xFF ^ BitMask(j);
    if j == k {
      assert (b & !BitMask(j)) & BitMask(j) == 0;
    } else {
      assert (b & !BitMask(j)) & BitMask(k) == b & (!BitMask(j) & BitMask(k));
      MasksDisjoint(j, k);
    }
  }

  lemma MasksDisjoint(j: nat, k: nat)
    requires j < 8 && k < 8 && j != k
    ensures !BitMask(j) & BitMask(k) == BitMask(k)
  {
  }
}
