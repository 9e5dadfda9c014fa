/**
 The checksum validator of src/main.c.

 `crc(data0, data1, checksum)` validates a triple of bytes: it computes an
 8-bit cyclic redundancy check over the payload bytes data0 and data1
 (generator polynomial x^8 + x^5 + x^4 + 1, written 0x31 without its x^8
 term; initial value 0xFF, folded into the first byte; no reflection, no
 final XOR) and reports whether the result equals the checksum byte. Its
 only caller is the start-up check in `main`.

 The C code keeps the running remainder in a `uint8_t`: `thisChecksum << 1`
 is computed in `int` and the bits above bit 7 are dropped when it is stored
 back. `bv8` arithmetic drops them in the same way, so the model uses `bv8`.
 */
module Crc8 {

  /** The generator polynomial without its x^8 term. */
  const Poly: bv8 := 0x31

  /** The value XORed into the first data byte before the first round. */
  const Init: bv8 := 0xFF

  /** One pass of the shift/XOR loop body: multiply the remainder by x
      and reduce it modulo the generator polynomial. */
  function Step(x: bv8): (r: bv8)
    // bit 0 of the result tells which branch was taken
    ensures (r & 1 == 1) <==> (x & 0x80 != 0)
  {
    if x & 0x80 != 0 then (x << 1) ^ Poly else x << 1
  }

  /** The inverse of Step: bit 0 says whether the polynomial was added. */
  function Unstep(y: bv8): bv8
  {
    if y & 1 == 1 then ((y ^ Poly) >> 1) | 0x80 else y >> 1
  }

  /** Step and Unstep undo each other, so Step is a bijection on bytes. */
  lemma StepUnstep(x: bv8, y: bv8)
    ensures Step(Unstep(y)) == y
    ensures Unstep(Step(x)) == x
  {
  }

  /** Step applied n times. */
  function StepN(x: bv8, n: nat): bv8
  {
    if n == 0 then x else Step(StepN(x, n - 1))
  }

  /** The inverse of StepN: Unstep applied n times. */
  function UnstepN(y: bv8, n: nat): (x: bv8)
    ensures StepN(x, n) == y
    decreases n
  {
    if n == 0 then y
    else
      StepUnstep(0, y);
      UnstepN(Unstep(y), n - 1)
  }

  /** One counted loop of the source: eight steps. */
  function Round(x: bv8): bv8
  {
    StepN(x, 8)
  }

  /** The remainder the source computes for the payload (d0, d1). */
  function CrcValue(d0: bv8, d1: bv8): bv8
  {
    Round(Round(Init ^ d0) ^ d1)
  }

  /** The checksum byte c is the one the payload (d0, d1) calls for. */
  predicate Accepts(d0: bv8, d1: bv8, c: bv8)
  {
    CrcValue(d0, d1) == c
  }

  /** The validator as the source writes it: two counted loops over a
      running remainder, with the second byte XORed in between. */
  method Crc(data0: bv8, data1: bv8, checksum: bv8) returns (r: int)
    ensures r == 0 || r == 1
    ensures r == 1 <==> Accepts(data0, data1, checksum)
  {
    var remaining: nat;
    var thisChecksum: bv8 := Init ^ data0;

    remaining := 8;
    while remaining != 0
      invariant remaining <= 8
      invariant thisChecksum == StepN(Init ^ data0, 8 - remaining)
      decreases remaining
    {
      thisChecksum := if thisChecksum & 0x80 != 0 then (thisChecksum << 1) ^ Poly else thisChecksum << 1;
      remaining := remaining - 1;
    }

    thisChecksum := thisChecksum ^ data1;
    remaining := 8;
    while remaining != 0
      invariant remaining <= 8
      invariant thisChecksum == StepN(Round(Init ^ data0) ^ data1, 8 - remaining)
      decreases remaining
    {
      thisChecksum := if thisChecksum & 0x80 != 0 then (thisChecksum << 1) ^ Poly else thisChecksum << 1;
      remaining := remaining - 1;
    }

    r := if thisChecksum == checksum then 1 else 0;
  }

  /** The start-up check in `main`: it draws "true" exactly when the
      triple (0xDE, 0xAD, 0x98) validates. */
  method SelfTest() returns (drawsTrue: bool)
    ensures drawsTrue
  {
    ReferenceVector();
    var ok := Crc(0xDE, 0xAD, 0x98);
    drawsTrue := ok != 0;
  }

  /** The vector `main` checks at start-up. */
  lemma ReferenceVector()
    ensures CrcValue(0xDE, 0xAD) == 0x98
  {
    var first := Init ^ 0xDE;
    assert first == 0x21;
    assert StepN(first, 1) == 0x42;
    assert StepN(first, 2) == 0x84;
    assert StepN(first, 3) == 0x39;
    assert StepN(first, 4) == 0x72;
    assert StepN(first, 5) == 0xE4;
    assert StepN(first, 6) == 0xF9;
    assert StepN(first, 7) == 0xC3;
    assert Round(first) == 0xB7;
    var second := Round(first) ^ 0xAD;
    assert second == 0x1A;
    assert StepN(second, 1) == 0x34;
    assert StepN(second, 2) == 0x68;
    assert StepN(second, 3) == 0xD0;
    assert StepN(second, 4) == 0x91;
    assert StepN(second, 5) == 0x13;
    assert StepN(second, 6) == 0x26;
    assert StepN(second, 7) == 0x4C;
    assert Round(second) == 0x98;
  }

  /** Step is the C expression evaluated in int and stored back into a
      uint8_t: the shift doubles the value and the store drops bit 8. */
  lemma StepTruncates(x: bv8)
    ensures x & 0x80 == 0 ==> Step(x) as int == 2 * x as int
    ensures x & 0x80 != 0 ==> (Step(x) ^ Poly) as int == 2 * x as int - 256
  {
  }
}
