/** Bytes, and numbers stored least significant byte first. */
module Bytes {

  type Byte = n: nat | n < 256

  function Pow256(k: nat): (p: nat)
    ensures p > 0
  {
    if k == 0 then 1 else 256 * Pow256(k - 1)
  }

  lemma WordSizes()
    ensures Pow256(4) == 0x1_0000_0000 && Pow256(8) == 0x1_0000_0000_0000_0000
  {
    assert Pow256(2) == 256 * Pow256(1) == 0x1_0000;
    assert Pow256(4) == 256 * Pow256(3) == 0x1_0000 * Pow256(2);
    assert Pow256(6) == 256 * Pow256(5) == 0x1_0000 * Pow256(4);
    assert Pow256(8) == 256 * Pow256(7) == 0x1_0000 * Pow256(6);
  }

  function Le(s: seq<Byte>): (n: nat)
    ensures n < Pow256(|s|)
    decreases |s|
  {
    if s == [] then 0 else s[0] + 256 * Le(s[1..])
  }

  function ToLe(n: nat, k: nat): (s: seq<Byte>)
    ensures |s| == k
    decreases k
  {
    if k == 0 then [] else [n % 256] + ToLe(n / 256, k - 1)
  }

  lemma {:induction false} LeOfToLe(n: nat, k: nat)
    requires n < Pow256(k)
    ensures Le(ToLe(n, k)) == n
    decreases k
  {
    if k > 0 {
      LeOfToLe(n / 256, k - 1);
      assert ToLe(n, k)[1..] == ToLe(n / 256, k - 1);
    }
  }

  /** The number in `k` bytes at an offset. */
  function LeAt(s: seq<Byte>, at: nat, k: nat): (n: nat)
    requires at + k <= |s|
    ensures n < Pow256(k)
  {
    Le(s[at..at + k])
  }

  /** `s` has the bytes `b` at an offset. */
  predicate HasBytes(s: seq<Byte>, at: nat, b: seq<Byte>) {
    at + |b| <= |s| && s[at..at + |b|] == b
  }

  lemma HasPart(s: seq<Byte>, at: nat, a: seq<Byte>, b: seq<Byte>)
    requires HasBytes(s, at, a + b)
    ensures HasBytes(s, at, a) && HasBytes(s, at + |a|, b)
  {
    assert a == (a + b)[..|a|] && b == (a + b)[|a|..];
    assert s[at..at + |a|] == s[at..at + |a + b|][..|a|];
    assert s[at + |a|..at + |a + b|] == s[at..at + |a + b|][|a|..];
  }

  lemma ReadsBack(s: seq<Byte>, at: nat, n: nat, k: nat)
    requires n < Pow256(k) && HasBytes(s, at, ToLe(n, k))
    ensures LeAt(s, at, k) == n
  {
    LeOfToLe(n, k);
  }

  /** A number stored in `size` bytes. */
  datatype Field = Field(value: nat, size: nat)

  function FieldBytes(f: Field): (s: seq<Byte>)
    ensures |s| == f.size
  {
    ToLe(f.value, f.size)
  }

  lemma FieldReadsBack(s: seq<Byte>, at: nat, f: Field)
    requires f.value < Pow256(f.size) && HasBytes(s, at, FieldBytes(f))
    ensures LeAt(s, at, f.size) == f.value
  {
    ReadsBack(s, at, f.value, f.size);
  }
}
