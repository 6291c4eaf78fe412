/** The 32-bit Fowler-Noll-Vo FNV-1a hash that `hashKey` computes through
    `fnv.New32a()`, `Write` and `Sum32()`. Arithmetic is on `bv32`, so the
    multiplication wraps modulo 2^32 exactly as Go's `uint32` does. */
module Fnv {
  import opened GoTypes

  const OffsetBasis32: bv32 := 2166136261
  const Prime32: bv32 := 16777619

  /** One round: xor the byte into the low bits, then multiply by the prime. */
  function Step(h: bv32, b: byte): bv32 {
    (h ^ (b as bv32)) * Prime32
  }

  /** Continues a hash in state `h` over the bytes of `s`, first byte first. */
  function Fold(h: bv32, s: GoString): bv32
    decreases |s|
  {
    if s == [] then h else Fold(Step(h, s[0]), s[1..])
  }

  /** `fnv.New32a()`, one `Write(s)`, then `Sum32()`. */
  function Sum32a(s: GoString): bv32 {
    Fold(OffsetBasis32, s)
  }

  /** Writing in two pieces gives the state of writing everything at once. */
  lemma {:induction false} FoldConcat(h: bv32, a: GoString, b: GoString)
    ensures Fold(h, a + b) == Fold(Fold(h, a), b)
    decreases |a|
  {
    if a != [] {
      assert (a + b)[0] == a[0];
      assert (a + b)[1..] == a[1..] + b;
      FoldConcat(Step(h, a[0]), a[1..], b);
    } else {
      assert a + b == b;
    }
  }

  /** The hash of a string extended by one byte is one more round on the
      hash of the string: the streaming form of the definition. */
  lemma Sum32aSnoc(s: GoString, b: byte)
    ensures Sum32a(s + [b]) == Step(Sum32a(s), b)
  {
    FoldConcat(OffsetBasis32, s, [b]);
  }

  /** The empty string hashes to the offset basis. */
  lemma Sum32aEmpty()
    ensures Sum32a([]) == 2166136261
  {
  }

  /** The published FNV-1a 32-bit test vector for "a". */
  lemma TestVectorA()
    ensures Sum32a(Ascii("a")) == 0xe40c292c
  {
    assert Ascii("a") == [0x61];
    assert Step(OffsetBasis32, 0x61) == 0xe40c292c;
  }
}
