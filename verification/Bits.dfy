/** Bits packed into bytes, least significant bit first, as in section 3.1.1 of
    RFC 1951: bit `j` of a string is bit `j % 8` of byte `j / 8`. */
module Bits {

  function Mask(j: nat): bv8
    requires j < 8
  {
    [1, 2, 4, 8, 16, 32, 64, 128][j]
  }

  predicate Bit(b: bv8, j: nat)
    requires j < 8
  {
    b & Mask(j) != 0
  }

  predicate BitAt(bytes: seq<bv8>, j: nat)
    requires j < 8 * |bytes|
  {
    Bit(bytes[j / 8], j % 8)
  }

  lemma BitOfByte(bytes: seq<bv8>, j: nat)
    requires j < 8 * |bytes|
    ensures j / 8 < |bytes| && BitAt(bytes, j) == (bytes[j / 8] & Mask(j % 8) != 0)
  {
  }

  /** Or-ing a mask in sets that bit and no other. */
  lemma OrMask(b: bv8, i: nat, j: nat)
    requires i < 8 && j < 8
    ensures Bit(b | Mask(i), j) == (Bit(b, j) || i == j)
  {
    var s: seq<bv8> := [1, 2, 4, 8, 16, 32, 64, 128];
    assert i == j ==> (b | s[i]) & s[j] == s[j] && s[j] != 0;
    assert i != j ==> s[i] & s[j] == 0;
    assert (b | s[i]) & s[j] == (b & s[j]) | (s[i] & s[j]);
  }

  /** Or-ing it into one byte of many. */
  lemma SetBit(bits: seq<bv8>, i: nat, j: nat)
    requires i < 8 * |bits| && j < 8 * |bits|
    ensures BitAt(bits[i / 8 := bits[i / 8] | Mask(i % 8)], j) == (i == j || BitAt(bits, j))
  {
    if i / 8 == j / 8 {
      OrMask(bits[j / 8], i % 8, j % 8);
    }
  }

  lemma ZeroByte(bytes: seq<bv8>, j: nat)
    requires j < 8 * |bytes| && bytes[j / 8] == 0
    ensures !BitAt(bytes, j)
  {
    var m := Mask(j % 8);
    assert 0 & m == 0;
  }

  /** Xor-ing a mask in flips that bit and no other. */
  lemma XorMask(b: bv8, i: nat, j: nat)
    requires i < 8 && j < 8
    ensures Bit(b ^ Mask(i), j) == (Bit(b, j) != (i == j))
  {
    var s: seq<bv8> := [1, 2, 4, 8, 16, 32, 64, 128];
    assert (b ^ s[i]) & s[j] == (b & s[j]) ^ (s[i] & s[j]);
    assert i != j ==> s[i] & s[j] == 0;
    if i == j {
      OneBit(b, j);
      assert s[i] & s[j] == s[j] && s[j] ^ s[j] == 0 && 0 ^ s[j] == s[j] && s[j] != 0;
    }
  }

  lemma OneBit(b: bv8, j: nat)
    requires j < 8
    ensures b & Mask(j) == 0 || b & Mask(j) == Mask(j)
  {
    var s: seq<bv8> := [1, 2, 4, 8, 16, 32, 64, 128];
    assert b & 1 == 0 || b & 1 == 1;
    assert b & 2 == 0 || b & 2 == 2;
    assert b & 4 == 0 || b & 4 == 4;
    assert b & 8 == 0 || b & 8 == 8;
    assert b & 16 == 0 || b & 16 == 16;
    assert b & 32 == 0 || b & 32 == 32;
    assert b & 64 == 0 || b & 64 == 64;
    assert b & 128 == 0 || b & 128 == 128;
  }

  lemma AndXor(a: bv8, b: bv8, m: bv8)
    ensures (a ^ b) & m == (a & m) ^ (b & m)
  {
  }

  /** The bits of the pointwise xor of two bytes. */
  lemma XorBit(a: bv8, b: bv8, j: nat)
    requires j < 8
    ensures Bit(a ^ b, j) == (Bit(a, j) != Bit(b, j))
  {
    OneBit(a, j);
    OneBit(b, j);
    var m := Mask(j);
    AndXor(a, b, m);
    assert m ^ m == 0 && 0 ^ m == m && m ^ 0 == m && (0 as bv8) ^ 0 == 0 && m != 0;
  }
}
