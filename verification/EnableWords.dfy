/** Single bits of a 32-bit register. */
module EnableWords {
  import opened Words
  import opened Bits

  lemma OneBit(b: nat)
    requires b < 32
    ensures Pow2(b) < U32_SIZE
  {
    Pow2Monotone(b, 31);
    WidePowers();
    assert Pow2(32) == 2 * Pow2(31);
  }

  lemma SetBit(w: nat, b: nat, k: nat)
    requires w < U32_SIZE && b < 32
    ensures Or(w, Pow2(b)) < U32_SIZE
    ensures Bit(Or(w, Pow2(b)), k) <==> k == b || Bit(w, k)
  {
    OneBit(b);
    WidePowers();
    OrBelow(w, Pow2(b), 32);
    BitOr(w, Pow2(b), k);
    BitOfPow2(b, k);
  }

  lemma NotBit(b: nat, k: nat)
    requires b < 32 && k < 32 && Pow2(b) < U32_SIZE
    ensures Bit(Not32(Pow2(b)), k) <==> k != b
  {
    assert Pow2(32) == U32_SIZE by { WidePowers(); }
    BitComplement(Pow2(b), 32, k);
    BitOfPow2(b, k);
  }

  lemma ClearBit(w: nat, b: nat, k: nat)
    requires w < U32_SIZE && b < 32 && k < 32 && Pow2(b) < U32_SIZE
    ensures And(w, Not32(Pow2(b))) < U32_SIZE
    ensures Bit(And(w, Not32(Pow2(b))), k) <==> k != b && Bit(w, k)
  {
    BitAnd(w, Not32(Pow2(b)), k);
    NotBit(b, k);
  }
}
