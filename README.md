# CRC-8 checksum validator

`crc(data0, data1, checksum)` in src/main.c validates a triple of bytes: two payload bytes and an 8-bit checksum byte. Its only caller is `main`'s start-up check at src/main.c:33, on the constant triple (0xDE, 0xAD, 0x98), which draws "true" on the display when the triple validates. The function computes a cyclic redundancy check:

- generator polynomial x^8 + x^5 + x^4 + 1, written `0x31` without its x^8 term;
- initial value `0xFF`, XORed into the first data byte;
- no bit reflection and no final XOR.

This parameter set is catalogued as CRC-8/NRSC-5. The function returns 1 when the computed remainder equals the checksum byte, and 0 otherwise.

The model has three modules:

- `Crc8` (`crc8.dfy`) holds the specification of one shift/XOR step (`Step`), the step applied n times (`StepN`), one eight-step round (`Round`) and the remainder of a payload (`CrcValue`). It also holds the validator `Crc`, an imperative method with the source's two counted loops. Each loop's invariant ties the running remainder to `StepN`, and the method is proved to return 1 exactly when the checksum equals `CrcValue`. `SelfTest` is `main`'s start-up check on the triple (0xDE, 0xAD, 0x98).
- `Crc8Properties` (`crc8_properties.dfy`) proves what follows from the shift/XOR structure. A step and a round are linear over XOR and are bijections on bytes. So a payload has exactly one accepted checksum, an error pattern changes the remainder by an amount that does not depend on the data, and every corruption confined to one of the three bytes is detected.
- `PolyDivision` (`poly_division.dfy`) gives an independent definition of the same checksum: bitwise polynomial long division modulo G(x), one message bit at a time. Dividing by one whole byte is proved to be one round of the source's loop with the byte XORed in. So the source's byte-wise algorithm computes the remainder of the augmented payload, and a triple is accepted exactly when its 24-bit codeword is a multiple of G(x).

## Model

| member | source | states |
|---|---|---|
| `Crc8.Crc` | src/main.c:4-21 | returns 0 or 1, and returns 1 exactly when the checksum equals `CrcValue(data0, data1)`; each loop's invariant says the running remainder is the step applied 8 - remaining times to the loop's starting value, `0xFF ^ data0` for the first loop and the first round's result XOR `data1` for the second |
| `Crc8.Step` | src/main.c:10-12 | bit 0 of the stepped byte is set exactly when bit 7 of the input was, because the shift clears bit 0 and 0x31 sets it |
| `Crc8.StepUnstep` | src/main.c:10-12 | `Unstep` undoes the shift/XOR step and the step undoes `Unstep`, so the step is a bijection on bytes |
| `Crc8.UnstepN` | src/main.c:9-12 | every byte has a preimage under n steps |
| `Crc8.StepTruncates` | src/main.c:10-12 | the step is the C expression evaluated in `int` and stored back into `uint8_t`: the value is doubled, bit 8 is dropped, and 0x31 is XORed in exactly when bit 7 was set |
| `Crc8.ReferenceVector` | src/main.c:33 | the remainder of the payload (0xDE, 0xAD) that `main` checks at start-up is 0x98 |
| `Crc8.SelfTest` | src/main.c:33 | the start-up check `crc(0xDE, 0xAD, 0x98)` always passes, so the firmware draws "true" |
| `Crc8Properties.StepXor` | src/main.c:10-12 | one step is linear over XOR |
| `Crc8Properties.StepInjective` | src/main.c:10-12 | distinct bytes step to distinct bytes |
| `Crc8Properties.StepNXor` | src/main.c:9-12 | n steps are linear over XOR |
| `Crc8Properties.StepNInjective` | src/main.c:9-12 | n steps map distinct bytes to distinct bytes |
| `Crc8Properties.StepNZero` | src/main.c:9-12 | zero stays zero under any number of steps |
| `Crc8Properties.RoundXor` | src/main.c:15-18 | one eight-step round is linear over XOR |
| `Crc8Properties.RoundInjective` | src/main.c:15-18 | two bytes have the same round exactly when they are equal |
| `Crc8Properties.RoundSurjective` | src/main.c:15-18 | every byte is the round of some byte; with `RoundInjective`, a round permutes the 256 byte values |
| `Crc8Properties.RoundZero` | src/main.c:15-18 | a round maps a byte to zero exactly when the byte is zero |
| `Crc8Properties.TwoRoundsAffine` | src/main.c:9-18 | two rounds, with a seed XORed into the first byte and the second byte XORed in between, change by a term that depends only on the error pattern when error patterns are XORed into both bytes |
| `Crc8Properties.CrcAffine` | src/main.c:7-18 | XORing an error pattern (e0, e1) into the payload XORs the remainder with `Round(Round(e0) ^ e1)`, which depends only on the error pattern |
| `Crc8Properties.CrcInjectiveFirst` | src/main.c:7-18 | with the second byte fixed, distinct first bytes give distinct remainders |
| `Crc8Properties.CrcInjectiveSecond` | src/main.c:7-18 | with the first byte fixed, distinct second bytes give distinct remainders |
| `Crc8Properties.UniqueChecksum` | src/main.c:20 | each payload has exactly one accepted checksum byte, its remainder |
| `Crc8Properties.SingleByteCorruptionDetected` | src/main.c:7-20 | an accepted triple is rejected once any one of its three bytes is changed by any non-zero error pattern |
| `Crc8Properties.SingleBitFlipDetected` | src/main.c:7-20 | an accepted triple is rejected once any single bit of any of its three bytes is flipped |
| `PolyDivision.DivStep` | src/main.c:10-12 | bringing down one bit in long division is the source's step followed by adding the bit |
| `PolyDivision.DivideAppend` | src/main.c:7-18 | dividing a concatenated message divides the first part and then continues from that remainder with the second |
| `PolyDivision.StepNCommute` | src/main.c:9-12 | one more step before n steps is the same as one more step after them |
| `PolyDivision.RoundOfBit` | src/main.c:9-12 | a round of the bit value 1 is 0x31, the generator without its x^8 term, and a round of 0 is 0 |
| `PolyDivision.RoundDivStep` | src/main.c:9-12 | bringing down a bit and then taking a round equals the round stepped once plus the generator when the bit was set |
| `PolyDivision.FeedStep` | src/main.c:9-12 | feeding the top bit of the pending byte into the partial remainder multiplies the polynomial the pair stands for by x |
| `PolyDivision.DivideTopBits` | src/main.c:9-12 | after dividing by the top n bits of a byte, the remainder and the bits still pending stand for the starting pair multiplied by x^n |
| `PolyDivision.DivideByte` | src/main.c:9-14 | dividing by one whole byte is one round of the source's loop on the partial remainder, with the byte XORed in |
| `PolyDivision.RemainderOfThreeBytes` | src/main.c:7-18 | the remainder of a 24-bit message is the source's two rounds on its first two bytes with the third byte XORed in |
| `PolyDivision.CrcIsRemainder` | src/main.c:7-18 | the source's remainder is the remainder, modulo G(x), of the payload with its first byte complemented and followed by eight zero bits |
| `PolyDivision.AcceptsIffDivisible` | src/main.c:7-20 | a triple is accepted exactly when its 24-bit codeword, first byte complemented, is a multiple of G(x) |

## Left out

- `main` (src/main.c:23-36) is left out. It sets AVR data-direction registers, which is memory-mapped I/O, and calls an external display library that is not part of this model (`initController`, `setExtendedRegisters`, `clear`, `setDisplayMode`, `setPowerMode`, `drawText`). It then spins forever. Only its start-up decision at line 33 is modelled, as `SelfTest`, which returns whether "true" would be drawn.
- src/main.c contains no two-wire bus code, no failure record and no conversion of readings to temperature or humidity; none is modelled.
- `Crc8.Crc`: the loop counter `remaining` is a `uint8_t` in the source and a `nat` here. It only holds 8 down to 0 and is decremented only while it is nonzero, so it never wraps and the two types agree.
- `Crc8.Crc` returns the C `int` as an unbounded `int`. It is proved to be 0 or 1.
