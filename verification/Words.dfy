/**
  Words of 32 bits. They are wrapped, so that a proof about words as such does not look at their bits.
 */
module Words {
  datatype Word = Word(bits: bv32)

  function XorBits(x: bv32, y: bv32): bv32 {
    x ^ y
  }

  function Xor(x: Word, y: Word): Word {
    Word(XorBits(x.bits, y.bits))
  }

  function SumBits(x: bv32, y: bv32): bv32 {
    x + y
  }

  /** Addition, which wraps. */
  function Add(x: Word, y: Word): Word {
    Word(SumBits(x.bits, y.bits))
  }

  lemma XorKeeps(x: Word, y: Word, w: Word)
    ensures Xor(x, w) == Xor(y, w) <==> x == y
    ensures Xor(w, x) == Xor(w, y) <==> x == y
  {
  }

  lemma XorAssoc(x: Word, y: Word, z: Word)
    ensures Xor(x, Xor(y, z)) == Xor(Xor(x, y), z)
    ensures Xor(x, Word(0)) == x
  {
  }

  lemma SumBitsAre(x: bv32, y: bv32, z: bv32)
    ensures SumBits(SumBits(x, y), z) == SumBits(x, SumBits(y, z)) && SumBits(x, y) == SumBits(y, x)
  {
    assert (x + y) + z == x + (y + z);
    assert x + y == y + x;
  }

  lemma AddAssociates(x: Word, y: Word, z: Word)
    ensures Add(Add(x, y), z) == Add(x, Add(y, z)) && Add(x, y) == Add(y, x)
  {
    SumBitsAre(x.bits, y.bits, z.bits);
    hide SumBits;
  }
}
