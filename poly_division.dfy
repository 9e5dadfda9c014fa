/**
 An independent definition of the same checksum: the remainder of polynomial
 long division over GF(2) by the generator G(x) = x^8 + x^5 + x^4 + 1.

 A message is a sequence of bits, most significant first, read as the
 coefficients of a polynomial. Division keeps the low eight coefficients of
 the running remainder in a byte. Each next message bit is shifted in at the
 bottom, and when the coefficient of x^8 shifted out at the top is 1 the
 generator is subtracted (XOR with 0x31, the x^8 term cancelling). The
 checksum of a payload is the remainder of the payload, with its first byte
 complemented by the initial value 0xFF, multiplied by x^8, that is,
 followed by eight zero bits.
 */
module PolyDivision {
  import opened Crc8
  import opened Crc8Properties

  /** The top n bits of q, most significant first. */
  function TopBits(q: bv8, n: nat): (bits: seq<bool>)
    ensures |bits| == n
    decreases n
  {
    if n == 0 then [] else [q & 0x80 != 0] + TopBits(q << 1, n - 1)
  }

  /** The eight bits of a byte, most significant first. */
  function MsbFirst(x: bv8): (bits: seq<bool>)
    ensures |bits| == 8
  {
    TopBits(x, 8)
  }

  /** q shifted left n times, one bit at a time. */
  function ShiftedLeft(q: bv8, n: nat): bv8
    decreases n
  {
    if n == 0 then q else ShiftedLeft(q << 1, n - 1)
  }

  /** The value 0 or 1 of a bit. */
  function BitValue(b: bool): bv8
  {
    if b then 1 else 0
  }

  /** What a step adds when the bit it shifts out is b: the generator
      without its x^8 term, or nothing. */
  function Carry(b: bool): bv8
  {
    if b then Poly else 0
  }

  /** Bring down one more message bit and reduce by the generator. */
  function DivStep(rem: bv8, bit: bool): (r: bv8)
    // bringing down a bit multiplies by x, which is what Step does, and adds the bit
    ensures r == Add(Step(rem), BitValue(bit))
  {
    var shifted := (rem << 1) | BitValue(bit);
    if rem & 0x80 != 0 then shifted ^ Poly else shifted
  }

  /** Long division of the message `bits`, starting from the partial
      remainder `rem`, one bit at a time from the most significant. */
  function Divide(rem: bv8, bits: seq<bool>): bv8
    decreases bits
  {
    if bits == [] then rem else Divide(DivStep(rem, bits[0]), bits[1..])
  }

  /** The remainder of the polynomial `bits` modulo G(x). */
  function Remainder(bits: seq<bool>): bv8
  {
    Divide(0, bits)
  }

  /** The polynomial whose remainder is the checksum of (d0, d1): the
      payload with its first byte complemented, multiplied by x^8. */
  function Augmented(d0: bv8, d1: bv8): (bits: seq<bool>)
    ensures |bits| == 24
  {
    MsbFirst(Init ^ d0) + MsbFirst(d1) + MsbFirst(0)
  }

  /** The 24-bit codeword of a triple (d0, d1, c), first byte complemented. */
  function Codeword(d0: bv8, d1: bv8, c: bv8): (bits: seq<bool>)
    ensures |bits| == 24
  {
    MsbFirst(Init ^ d0) + MsbFirst(d1) + MsbFirst(c)
  }

  /** Dividing a concatenation divides the first part, then the second. */
  lemma {:induction false} DivideAppend(rem: bv8, a: seq<bool>, b: seq<bool>)
    ensures Divide(rem, a + b) == Divide(Divide(rem, a), b)
    decreases a
  {
    if a == [] {
      assert a + b == b;
    } else {
      assert (a + b)[0] == a[0];
      assert (a + b)[1..] == a[1..] + b;
      DivideAppend(DivStep(rem, a[0]), a[1..], b);
    }
  }

  /** One step commutes with n more steps. */
  lemma {:induction false} StepNCommute(y: bv8, n: nat)
    ensures StepN(Step(y), n) == Step(StepN(y, n))
  {
    if n > 0 {
      StepNCommute(y, n - 1);
    }
  }

  /** A step commutes with a round. */
  lemma RoundStepCommute(y: bv8)
    ensures Round(Step(y)) == Step(Round(y))
  {
    StepNCommute(y, 8);
  }

  /** A round of a single bit: 1 reaches x^7 after seven steps, and the
      eighth step reduces x^8 to the generator's low byte. */
  lemma RoundOfBit(b: bool)
    ensures Round(BitValue(b)) == Carry(b)
  {
    if b {
      assert StepN(1, 4) == 0x10;
      assert StepN(1, 8) == 0x31;
    } else {
      StepNZero(8);
    }
  }

  /** Addition of polynomials over GF(2): coefficient-wise XOR. The
      feeding lemmas below are stated with it, so that each of their steps
      is a substitution of equals. */
  function Add(a: bv8, b: bv8): bv8
  {
    a ^ b
  }

  /** A step distributes over polynomial addition. */
  lemma StepAdd(a: bv8, b: bv8)
    ensures Step(Add(a, b)) == Add(Step(a), Step(b))
  {
    StepXor(a, b);
  }

  /** A round distributes over polynomial addition, for operands whose
      rounds are already known. */
  lemma RoundAdd(x: bv8, y: bv8, rx: bv8, ry: bv8)
    requires rx == Round(x) && ry == Round(y)
    ensures Round(Add(x, y)) == Add(rx, ry)
  {
    RoundOfXor(x, y, rx, ry);
  }

  /** A step of q shifts it left and adds the generator exactly when the
      bit shifted out was set. */
  lemma StepSplit(q: bv8)
    ensures Step(q) == Add(q << 1, Carry(q & 0x80 != 0))
  {
  }

  /** Bringing down bit b and then taking a round is the round followed by
      a step, plus the round of the bit. */
  lemma RoundDivStep(r: bv8, b: bool)
    ensures Round(DivStep(r, b)) == Add(Step(Round(r)), Carry(b))
  {
    RoundOfBit(b);
    RoundStepCommute(r);
    RoundAdd(Step(r), BitValue(b), Step(Round(r)), Carry(b));
  }

  /** The bookkeeping of one feeding step: with lhs = s + c and
      rhs = s + (t + c), adding t to lhs gives rhs. */
  lemma FeedSum(lhs: bv8, rhs: bv8, s: bv8, c: bv8, t: bv8, st: bv8)
    requires lhs == Add(s, c)
    requires st == Add(t, c)
    requires rhs == Add(s, st)
    ensures Add(lhs, t) == rhs
  {
  }

  /** The polynomial a partial remainder r and a pending byte q stand for
      together: r times x^8 plus q, reduced modulo G(x). */
  function PairValue(r: bv8, q: bv8): bv8
  {
    Add(Round(r), q)
  }

  /** Feeding the top bit of the pending byte q into the remainder r
      multiplies the value of the pair by x. */
  lemma FeedStep(r: bv8, q: bv8)
    ensures PairValue(DivStep(r, q & 0x80 != 0), q << 1) == Step(PairValue(r, q))
  {
    RoundDivStep(r, q & 0x80 != 0);
    StepAdd(Round(r), q);
    StepSplit(q);
    FeedSum(Round(DivStep(r, q & 0x80 != 0)), Step(Add(Round(r), q)),
            Step(Round(r)), Carry(q & 0x80 != 0), q << 1, Step(q));
  }

  /** Dividing by the top n > 0 bits of q brings down its top bit first. */
  lemma DivideTopBitsUnfold(r: bv8, q: bv8, n: nat)
    requires n > 0
    ensures Divide(r, TopBits(q, n)) == Divide(DivStep(r, q & 0x80 != 0), TopBits(q << 1, n - 1))
  {
    var bits := TopBits(q, n);
    assert bits[0] == (q & 0x80 != 0) && bits[1..] == TopBits(q << 1, n - 1);
  }

  /** After dividing by the top n bits of q, the remainder and the bits of
      q still pending stand for the value of (r, q) multiplied by x^n. */
  lemma {:induction false} DivideTopBits(r: bv8, q: bv8, n: nat)
    ensures PairValue(Divide(r, TopBits(q, n)), ShiftedLeft(q, n)) == StepN(PairValue(r, q), n)
    decreases n
  {
    if n > 0 {
      DivideTopBitsUnfold(r, q, n);
      DivideTopBits(DivStep(r, q & 0x80 != 0), q << 1, n - 1);
      FeedStep(r, q);
      StepNCommute(PairValue(r, q), n - 1);
    }
  }

  /** Eight single-bit shifts clear a byte. */
  lemma ShiftedOut(q: bv8)
    ensures ShiftedLeft(q, 8) == 0
  {
    var q4 := (((q << 1) << 1) << 1) << 1;
    assert ShiftedLeft(q, 8) == ShiftedLeft(q4, 4);
    assert ShiftedLeft(q4, 4) == (((q4 << 1) << 1) << 1) << 1;
  }

  /** Adding zero changes nothing. */
  lemma AddZero(a: bv8)
    ensures Add(a, 0) == a
  {
  }

  /** Dividing by one whole byte is one round of the source's loop on the
      partial remainder, with the byte XORed in. */
  lemma DivideByte(rem: bv8, x: bv8)
    ensures Divide(rem, MsbFirst(x)) == Round(rem) ^ x
  {
    var d := Divide(rem, MsbFirst(x));
    DivideTopBits(rem, x, 8);
    ShiftedOut(x);
    AddZero(Round(d));
    RoundInjective(d, Add(Round(rem), x));
  }

  /** Dividing one byte from a zero remainder leaves the byte itself. */
  lemma RemainderOfByte(x: bv8)
    ensures Remainder(MsbFirst(x)) == x
  {
    DivideByte(0, x);
    StepNZero(8);
  }

  /** Dividing the 16 bits of (x0, x1) from a zero remainder. */
  lemma RemainderOfTwoBytes(x0: bv8, x1: bv8)
    ensures Remainder(MsbFirst(x0) + MsbFirst(x1)) == Round(x0) ^ x1
  {
    DivideAppend(0, MsbFirst(x0), MsbFirst(x1));
    RemainderOfByte(x0);
    DivideByte(x0, x1);
  }

  /** Dividing the 24 bits of (x0, x1, x2) from a zero remainder. */
  lemma RemainderOfThreeBytes(x0: bv8, x1: bv8, x2: bv8)
    ensures Remainder(MsbFirst(x0) + MsbFirst(x1) + MsbFirst(x2)) == Round(Round(x0) ^ x1) ^ x2
  {
    DivideAppend(0, MsbFirst(x0) + MsbFirst(x1), MsbFirst(x2));
    RemainderOfTwoBytes(x0, x1);
    DivideByte(Round(x0) ^ x1, x2);
  }

  /** XORing zero changes nothing. */
  lemma XorZero(s: bv8, x: bv8)
    requires s == x ^ 0
    ensures s == x
  {
  }

  /** A sum is zero exactly when its two terms are equal. */
  lemma XorIsZero(s: bv8, x: bv8, c: bv8)
    requires s == x ^ c
    ensures s == 0 <==> x == c
  {
  }

  /** The source's checksum is the remainder of the augmented payload
      modulo G(x). */
  lemma CrcIsRemainder(d0: bv8, d1: bv8)
    ensures CrcValue(d0, d1) == Remainder(Augmented(d0, d1))
  {
    RemainderOfThreeBytes(Init ^ d0, d1, 0);
    XorZero(Remainder(Augmented(d0, d1)), Round(Round(Init ^ d0) ^ d1));
  }

  /** A triple is accepted exactly when its codeword is a multiple of G(x). */
  lemma AcceptsIffDivisible(d0: bv8, d1: bv8, c: bv8)
    ensures Accepts(d0, d1, c) <==> Remainder(Codeword(d0, d1, c)) == 0
  {
    RemainderOfThreeBytes(Init ^ d0, d1, c);
    XorIsZero(Remainder(Codeword(d0, d1, c)), Round(Round(Init ^ d0) ^ d1), c);
  }
}
