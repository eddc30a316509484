/** The sizes of machine words, and the one law of products used everywhere. */
module Words {
  const U32_SIZE: nat := 0x1_0000_0000
  const U64_SIZE: nat := 0x1_0000_0000_0000_0000

  lemma TimesMonotone(a: nat, b: nat, c: nat)
    requires a <= b
    ensures a * c <= b * c
  {
  }
}
