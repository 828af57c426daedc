/** The bit array of malloc/buddy.c: bit i is bit i % 8 of byte i / 8. */
module BitArray {

  /** 1 << j */
  function Mask(j: nat): bv8
    requires j < 8
  {
    match j
    case 0 => 0x01
    case 1 => 0x02
    case 2 => 0x04
    case 3 => 0x08
    case 4 => 0x10
    case 5 => 0x20
    case 6 => 0x40
    case 7 => 0x80
  }

  /** (byte >> j) & 1, which is whether byte & (1 << j) is not zero. */
  predicate BitOf(byte: bv8, j: nat)
    requires j < 8
  {
    byte & Mask(j) != 0
  }

  predicate BitAt(s: seq<bv8>, i: nat)
    requires i < 8 * |s|
  {
    BitOf(s[i / 8], i % 8)
  }

  lemma FlipBit(byte: bv8, j: nat, i: nat)
    requires j < 8 && i < 8
    ensures BitOf(byte ^ Mask(j), i) <==> BitOf(byte, i) != (i == j)
  {
    if i == j {
      FlipMask(byte, j);
    } else {
      assert Mask(j) & Mask(i) == 0;
      FlipOther(byte, Mask(j), Mask(i));
    }
  }

  lemma FlipMask(byte: bv8, j: nat)
    requires j < 8
    ensures BitOf(byte ^ Mask(j), j) <==> !BitOf(byte, j)
  {
  }

  lemma FlipOther(byte: bv8, c: bv8, d: bv8)
    requires c & d == 0
    ensures (byte ^ c) & d == byte & d
  {
  }

  /** s with bit i flipped: node_is_split[i / 8] ^= 1 << (i % 8) */
  function Flip(s: seq<bv8>, i: nat): (t: seq<bv8>)
    requires i < 8 * |s|
    ensures |t| == |s|
  {
    s[i / 8 := s[i / 8] ^ Mask(i % 8)]
  }

  lemma FlipAt(s: seq<bv8>, i: nat, j: nat)
    requires i < 8 * |s| && j < 8 * |s|
    ensures BitAt(Flip(s, i), j) <==> BitAt(s, j) != (j == i)
  {
    SameBit(i, j);
    if i / 8 == j / 8 {
      FlipBit(s[i / 8], i % 8, j % 8);
    }
  }

  lemma SameBit(i: nat, j: nat)
    ensures i == j <==> i / 8 == j / 8 && i % 8 == j % 8
  {
  }
}
