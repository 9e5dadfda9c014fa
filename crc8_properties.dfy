/**
 What the shift/XOR structure of the checksum guarantees: each step, and so
 each round, is linear over XOR and a bijection on bytes. From these follow
 that a checksum is fixed by its payload, that the effect of an error pattern
 does not depend on the data it hits, and that every corruption confined to a
 single byte of the three is detected.
 */
module Crc8Properties {
  import opened Crc8

  /** XOR is associative and commutative. */
  lemma XorRegroup(a: bv8, b: bv8, c: bv8, d: bv8)
    ensures (a ^ b) ^ (c ^ d) == (a ^ c) ^ (b ^ d)
  {
  }

  /** XORing a non-zero pattern changes a byte. */
  lemma XorCancel(a: bv8, e: bv8)
    ensures a ^ e == a <==> e == 0
  {
  }

  /** XOR is associative. */
  lemma XorAssociative(a: bv8, b: bv8, c: bv8)
    ensures a ^ (b ^ c) == (a ^ b) ^ c
  {
  }

  /** XOR of equal operands gives equal results. */
  lemma XorCongruence(a: bv8, b: bv8, a': bv8, b': bv8)
    requires a == a' && b == b'
    ensures a ^ b == a' ^ b'
  {
  }

  /** A single step distributes over XOR. */
  lemma StepXor(a: bv8, b: bv8)
    ensures Step(a ^ b) == Step(a) ^ Step(b)
  {
    assert ((a ^ b) << 1) == (a << 1) ^ (b << 1);
    assert ((a ^ b) & 0x80 != 0) == ((a & 0x80 != 0) != (b & 0x80 != 0));
  }

  /** Distinct bytes step to distinct bytes. */
  lemma StepInjective(a: bv8, b: bv8)
    requires Step(a) == Step(b)
    ensures a == b
  {
  }

  /** n steps distribute over XOR. */
  lemma {:induction false} StepNXor(a: bv8, b: bv8, n: nat)
    ensures StepN(a ^ b, n) == StepN(a, n) ^ StepN(b, n)
  {
    if n > 0 {
      StepNXor(a, b, n - 1);
      StepXor(StepN(a, n - 1), StepN(b, n - 1));
    }
  }

  /** Distinct bytes stay distinct after n steps. */
  lemma {:induction false} StepNInjective(a: bv8, b: bv8, n: nat)
    requires StepN(a, n) == StepN(b, n)
    ensures a == b
  {
    if n > 0 {
      StepInjective(StepN(a, n - 1), StepN(b, n - 1));
      StepNInjective(a, b, n - 1);
    }
  }

  /** Zero is a fixed point: no step ever adds the polynomial to it. */
  lemma {:induction false} StepNZero(n: nat)
    ensures StepN(0, n) == 0
  {
    if n > 0 {
      StepNZero(n - 1);
    }
  }

  /** A round is linear over XOR. */
  lemma RoundXor(a: bv8, b: bv8)
    ensures Round(a ^ b) == Round(a) ^ Round(b)
  {
    StepNXor(a, b, 8);
    XorCongruence(StepN(a, 8), StepN(b, 8), Round(a), Round(b));
  }

  /** RoundXor, for operands whose rounds are already known. */
  lemma RoundOfXor(x: bv8, y: bv8, rx: bv8, ry: bv8)
    requires rx == Round(x) && ry == Round(y)
    ensures Round(x ^ y) == rx ^ ry
  {
    RoundXor(x, y);
    XorCongruence(Round(x), Round(y), rx, ry);
  }

  /** A round maps distinct bytes to distinct bytes. */
  lemma RoundInjective(a: bv8, b: bv8)
    ensures Round(a) == Round(b) <==> a == b
  {
    if Round(a) == Round(b) {
      StepNInjective(a, b, 8);
    }
  }

  /** Every byte is the result of a round, so with RoundInjective a round
      is a permutation of the 256 byte values. */
  lemma RoundSurjective(y: bv8)
    ensures Round(UnstepN(y, 8)) == y
  {
  }

  /** A round maps a byte to zero exactly when the byte is zero. */
  lemma RoundZero(e: bv8)
    ensures Round(e) == 0 <==> e == 0
  {
    StepNZero(8);
    RoundInjective(e, 0);
  }

  /** A round of a seeded byte with an error pattern XORed in. */
  lemma RoundSeededXor(seed: bv8, d0: bv8, e0: bv8)
    ensures Round(seed ^ (d0 ^ e0)) == Round(seed ^ d0) ^ Round(e0)
  {
    XorAssociative(seed, d0, e0);
    RoundXor(seed ^ d0, e0);
  }

  /** A round of r ^ (d1 ^ e1), where r is itself the XOR of x and y. */
  lemma RoundRegroupedXor(r: bv8, x: bv8, y: bv8, d1: bv8, e1: bv8)
    requires r == x ^ y
    ensures Round(r ^ (d1 ^ e1)) == Round(x ^ d1) ^ Round(y ^ e1)
  {
    XorRegroup(x, y, d1, e1);
    RoundXor(x ^ d1, y ^ e1);
  }

  /** Two rounds, seeded by XORing `seed` into the first byte and with the
      second byte XORed in between, are affine: XORing error patterns into
      both bytes adds a term that depends on the errors alone. */
  lemma TwoRoundsAffine(seed: bv8, d0: bv8, d1: bv8, e0: bv8, e1: bv8)
    ensures Round(Round(seed ^ (d0 ^ e0)) ^ (d1 ^ e1))
         == Round(Round(seed ^ d0) ^ d1) ^ Round(Round(e0) ^ e1)
  {
    RoundSeededXor(seed, d0, e0);
    RoundRegroupedXor(Round(seed ^ (d0 ^ e0)), Round(seed ^ d0), Round(e0), d1, e1);
  }

  /** The remainder of the payload XORed with an error pattern (e0, e1) is
      the remainder of the payload XORed with a syndrome that depends on the
      error pattern alone. */
  lemma CrcAffine(d0: bv8, d1: bv8, e0: bv8, e1: bv8)
    ensures CrcValue(d0 ^ e0, d1 ^ e1) == CrcValue(d0, d1) ^ Round(Round(e0) ^ e1)
  {
    TwoRoundsAffine(Init, d0, d1, e0, e1);
  }

  /** Two seeded rounds with the second byte fixed map distinct first
      bytes to distinct results. */
  lemma SeededRoundsInjectiveFirst(seed: bv8, d0: bv8, d0': bv8, d1: bv8)
    requires Round(Round(seed ^ d0) ^ d1) == Round(Round(seed ^ d0') ^ d1)
    ensures d0 == d0'
  {
    RoundInjective(Round(seed ^ d0) ^ d1, Round(seed ^ d0') ^ d1);
    RoundInjective(seed ^ d0, seed ^ d0');
  }

  /** Two seeded rounds with the first byte fixed map distinct second
      bytes to distinct results. */
  lemma SeededRoundsInjectiveSecond(seed: bv8, d0: bv8, d1: bv8, d1': bv8)
    requires Round(Round(seed ^ d0) ^ d1) == Round(Round(seed ^ d0) ^ d1')
    ensures d1 == d1'
  {
    RoundInjective(Round(seed ^ d0) ^ d1, Round(seed ^ d0) ^ d1');
  }

  /** With the second byte fixed, equal remainders mean equal first bytes. */
  lemma CrcInjectiveFirst(d0: bv8, d0': bv8, d1: bv8)
    requires CrcValue(d0, d1) == CrcValue(d0', d1)
    ensures d0 == d0'
  {
    SeededRoundsInjectiveFirst(Init, d0, d0', d1);
  }

  /** With the first byte fixed, equal remainders mean equal second bytes. */
  lemma CrcInjectiveSecond(d0: bv8, d1: bv8, d1': bv8)
    requires CrcValue(d0, d1) == CrcValue(d0, d1')
    ensures d1 == d1'
  {
    SeededRoundsInjectiveSecond(Init, d0, d1, d1');
  }

  /** Exactly one checksum byte is accepted for each payload. */
  lemma UniqueChecksum(d0: bv8, d1: bv8, c: bv8, c': bv8)
    ensures Accepts(d0, d1, CrcValue(d0, d1))
    ensures Accepts(d0, d1, c) && Accepts(d0, d1, c') ==> c == c'
  {
  }

  /** Corrupting any one of the three bytes, by any non-zero error pattern,
      makes an accepted triple rejected. */
  lemma SingleByteCorruptionDetected(d0: bv8, d1: bv8, c: bv8, e: bv8)
    requires Accepts(d0, d1, c)
    requires e != 0
    ensures !Accepts(d0 ^ e, d1, c)
    ensures !Accepts(d0, d1 ^ e, c)
    ensures !Accepts(d0, d1, c ^ e)
  {
    if Accepts(d0 ^ e, d1, c) {
      CrcInjectiveFirst(d0, d0 ^ e, d1);
      XorCancel(d0, e);
    }
    if Accepts(d0, d1 ^ e, c) {
      CrcInjectiveSecond(d0, d1, d1 ^ e);
      XorCancel(d1, e);
    }
    XorCancel(c, e);
  }

  /** e has exactly one bit set. */
  predicate SingleBit(e: bv8)
  {
    e != 0 && e & (e - 1) == 0
  }

  /** In particular, flipping any one bit of any of the three bytes is
      detected. */
  lemma SingleBitFlipDetected(d0: bv8, d1: bv8, c: bv8, e: bv8)
    requires Accepts(d0, d1, c)
    requires SingleBit(e)
    ensures !Accepts(d0 ^ e, d1, c)
    ensures !Accepts(d0, d1 ^ e, c)
    ensures !Accepts(d0, d1, c ^ e)
  {
    SingleByteCorruptionDetected(d0, d1, c, e);
  }
}
