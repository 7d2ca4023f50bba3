/** The 32-bit FNV-1a hash that every table of the store uses to pick a bucket
    (the `fnv1a` member duplicated in users.hpp, load.hpp, Classroom.hpp,
    Quiz.hpp and QuizAttempt.hpp). */
module Fnv {

  const OffsetBasis: bv32 := 2166136261
  const Prime: bv32 := 16777619

  /** The byte C++ sees when it walks a std::string as `unsigned char`.
      Characters of the model stand for the bytes of a std::string, so this is
      the identity on every character the system stores. */
  function Byte(c: char): bv8 {
    ((c as bv32) & 0xff) as bv8
  }

  /** One round: XOR the byte into the low bits, then multiply by the prime
      modulo 2^32 (bv32 arithmetic wraps exactly as uint32_t does). The
      product is written as the sum of the shifts given by the prime's set
      bits, 2^24 + 2^8 + 2^7 + 2^4 + 2^1 + 2^0 = 16777619. */
  function Step(h: bv32, b: bv8): bv32 {
    var x := h ^ (b as bv32);
    x + (x << 1) + (x << 4) + (x << 7) + (x << 8) + (x << 24)
  }

  /** Specification: Step folded over the bytes of s, first byte first. */
  function Fnv1a(s: string): bv32
    decreases |s|
  {
    if |s| == 0 then OffsetBasis else Step(Fnv1a(s[..|s| - 1]), Byte(s[|s| - 1]))
  }

  /** The source's loop: start at the offset basis and fold every byte in. */
  method Hash(s: string) returns (h: bv32)
    ensures h == Fnv1a(s)
  {
    h := OffsetBasis;
    var i := 0;
    while i < |s|
      invariant 0 <= i <= |s|
      invariant h == Fnv1a(s[..i])
    {
      assert s[..i + 1][..i] == s[..i];
      h := Step(h, Byte(s[i]));
      i := i + 1;
    }
    assert s[..|s|] == s;
  }

  /** `fnv1a(key) % n` with the uint32 hash widened to an index. */
  function Bucket(s: string, n: nat): (i: nat)
    requires 0 < n
    ensures i < n
    ensures i == (Fnv1a(s) as int) % n
  {
    (Fnv1a(s) as int) % n
  }

  /** Appending a character is one more Step: the hash of a longer key is
      computed from the hash of its prefix. */
  lemma {:induction false} Fnv1aSnoc(s: string, c: char)
    ensures Fnv1a(s + [c]) == Step(Fnv1a(s), Byte(c))
  {
    assert (s + [c])[..|s|] == s;
  }

  /** Agreement with the published FNV-1a 32-bit test vectors for "" and "a". */
  lemma TestVectors()
    ensures Fnv1a("") == 0x811c9dc5
    ensures Fnv1a("a") == 0xe40c292c
  {
    assert "a"[..0] == "";
    assert Byte('a') == 0x61;
    assert Step(OffsetBasis, 0x61) == 0xe40c292c;
  }
}
