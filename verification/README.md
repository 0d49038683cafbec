# Verified models of the piVCCU kernel modules and the radio module detection

This project models, in Dafny, four parts of the repository and proves what they are for:

1. **Device key check** (`kernel/devkey.inc`). Limb arrays are arrays of 32-bit words; `Limbs.Val` is the number that
   they stand for. Every routine is proved against exact integer arithmetic: addition and subtraction with carry, the
   column-wise product, the reduction modulo any modulus, the two hand-unrolled reductions (section D.2.3 of FIPS
   186-4, and secp128r1 of section 2.3.1 of SEC 2 version 1.0), the binary Euclidean inverse. On top of them stand the
   affine curve law for a = -3, the co-Z addition and the Jacobian doubling, the ladder over two scalars, the
   signature test, and the law by which whoever knows the secret number of a key makes signatures that pass it.
2. **Frame codecs and stream parser** (`hmframe.cpp`, `streamparser.cpp`, `kernel/hm.h`). The checksum with what it
   detects and its reading as a polynomial division, both codecs with their round trips and how they work together,
   and the byte-at-a-time parser with resynchronisation and the agreement of its two modes.
3. **Byte transport** (`generic_raw_uart.c`, `eq3_char_loop.c`, `hb_rf_eth.c`). Step systems over all interleavings
   for the priority transmitter, the receive ring without a lock and the send queue, and runs of locked calls for the
   loop device; each is tied to sequences of bytes or messages by an invariant. Classes with the fields of the source
   carry the calls themselves.
4. **Radio module detection** (`radiomoduledetector.cpp`). The sender loop beside the frame handler, both statement by
   statement: what a frame can change, a bound on the frames and steps of any run, the address that a finished
   detection reports, and radio modules that answer, of which everything reported is what they told.

The modules follow the source: `Bigint` to `BigintModMult`, `Fast256`, `Fast128`, `Field`, `Ecc`, `Verify`,
`DeviceKey` and `Signer` for the first part, with `Arith`, `Words`, `Endian`, `Limbs`, `Bits`, `Modular`, `Curve`,
`Jacobian` and `Ladder` for its mathematics; `Crc`, `CrcOrder`, `CrcDivision`, `Codec`, `Memory`, `HmFrame`,
`StreamParser`, `DecodeMode`, `RawMode`, `Overlong`, `KernelFrame`, `CodecInterplay` and `CodecPeers` for the second;
`Circ`, `UartTx`, `UartRx`, `Eq3Loop`, `Loopback` and `EthQueue` for the third; `Detector`, `DetectorRuns` and
`Devices` for the fourth.

Reading notes:

- Words of `kernel/devkey.inc` are bounded integers, and every wrap-around is written out. The bitwise operators of
  that file are the functions `Words.Or` and `Words.And`, which recurse over the bits. Bytes of the other parts are
  bit-vectors. A little-endian host is assumed where words are viewed as bytes.
- A pointer into a buffer is an array with an offset. Masking with a ring size minus one is the remainder.
- Where a call waits, the model has one step for each time it looks; a call that would wait returns `EAGAIN` and
  changes nothing, which is also what the non-blocking form returns. In the loop device a blocking write to a full
  ring does not sleep once the other side is gone (`kernel/eq3_char_loop.c:273-282`, `350-359`): its wait ends at once
  and it looks again. `Eq3Loop.WaitsOrSpins` says exactly when, `SlaveCanTurn` and `MasterCanTurn` that runs come
  there, and `SlaveTurnsOn` and `MasterTurnsOn` which calls alone can end it.
- Where the source can store or read outside a buffer, the method says so in a result (`inside`, `overrun`) and stops
  there; its contract says exactly for which inputs: `HmFrame.HMFrame.Encode`, `StreamParser.StreamParser.AppendByte`,
  `KernelFrame.DecodeFrameBuffer`. `RawMode.RawModeOverruns` says it of the parser for a whole input, and
  `KernelFrame.DecodeLoop` follows the last one further, with a length that wraps.
- `handleFrame` shares no lock with the sender loop. The runs of `DetectorRuns` read the state, act and give the
  semaphore in three steps, so the state can fall back once (`StateFalls`); bounds and address hold all the same.
- The binary inverse of `kernel/devkey.inc` has no case for 0, on which its loop does not end
  (`BigintMod.InverseEnds`). The point multiplication comes there exactly when generator and key share their abscissa,
  or the ladder doubles a point with ordinate 0 or adds a point with the abscissa of the running one, since the factor
  is 0 from then on: `Ladder.Regular` excludes that. A Dafny method has to end, so these methods say in a result,
  `ends`, whether the source does, and stop at 0.
- Primality of the field prime and of the group order are hypotheses (`Curve.IsField`, `Modular.IsPrime`), and so are
  associativity (`Ladder.AssociativeLaw`) where a result speaks of multiples in the group, and in `Signer` that the
  order times the generator is nothing.
- `Devices.Answer` is the answering side of the protocol, with the numbers of `detect_radio_module/hmframe.h:39-85`
  written out; it stands for the radio modules, which are not part of the repository.
- The comment in `streamparser.cpp` on the wait for a frame prefix (line 49) holds in both modes only for other bytes
  than the escape byte, which raw mode keeps also while idle; the model follows the code.
- `encodeFrameBuffer` escapes the start byte only with one byte behind it (`kernel/hm.h:159`).
  `CodecInterplay.KernelFrameSurvives` says exactly for which frames the parser of the detection program still works.

## Model

| member | source | states |
|---|---|---|
| `Bigint.IsZero` | kernel/devkey.inc:37-46 | returns true exactly when the number that the limbs stand for is 0 |
| `Bigint.Cmp` | kernel/devkey.inc:53-64 | the sign of the result is the order of the two numbers; 0 exactly for equal limbs |
| `Bigint.Set` | kernel/devkey.inc:66-69 | the limbs are copied and the rest of the destination is unchanged |
| `Bigint.Clear` | kernel/devkey.inc:71-74 | the number becomes 0 and the limbs beyond it are unchanged |
| `Bigint.LShift` | kernel/devkey.inc:76-90 | new value plus carry at the next limb is twice the old value |
| `Bigint.RShift` | kernel/devkey.inc:92-104 | the new value is half the old one, rounded down; limbs outside the range stay |
| `Bigint.ShiftedRightVal` | kernel/devkey.inc:92-104 | limbs that each take their neighbour's low bit stand for half the number |
| `Bigint.Add` | kernel/devkey.inc:106-119 | result plus carry at the next limb is the exact sum, also when the result is an operand or a limb sum equals the limb |
| `Bigint.Sub` | kernel/devkey.inc:121-134 | result minus borrow at the next limb is the exact difference, also when the result is an operand |
| `BigintMult.Accumulate` | kernel/devkey.inc:231-233 | adding a double-word product to the accumulator loses no carry |
| `BigintMult.AddColumn` | kernel/devkey.inc:228-234 | one column of the product is added exactly to the accumulator (r01, r2) |
| `BigintMult.NextColumn` | kernel/devkey.inc:235-237 | one limb is taken off the accumulator and the rest moves down exactly |
| `BigintMult.ColumnsProduct` | kernel/devkey.inc:220-241 | the weighted sum of all columns is the product of the two numbers |
| `BigintMult.LastLimb` | kernel/devkey.inc:240 | what is left after the last column fits one limb and completes the product |
| `BigintMult.Mult` | kernel/devkey.inc:220-241 | the double-width result is the exact product, for every size |
| `BigintMod.ModAdd` | kernel/devkey.inc:326-332 | for reduced operands the result is the sum modulo the modulus; aliasing allowed |
| `BigintMod.ModSub` | kernel/devkey.inc:334-340 | for reduced operands the result is the difference modulo the modulus; aliasing allowed |
| `BigintMod.HalveMod` | kernel/devkey.inc:157-163 | u is halved modulo the odd modulus: an odd u has the modulus added first and the carry comes back as the top bit |
| `BigintMod.SubWrapped` | kernel/devkey.inc:183-186 | u minus v plus the modulus when u is below v; the carry that is dropped cancels the borrow |
| `BigintMod.InverseInit` | kernel/devkey.inc:144-148 | the four numbers of the inversion start with a = u x and b = v x modulo m and a gcd of a and b that is the gcd of x and m |
| `BigintMod.HalveStep` | kernel/devkey.inc:153-176 | halving a and its factor keeps both congruences and the common divisors |
| `BigintMod.SubtractStep` | kernel/devkey.inc:177-214 | subtracting, then halving, keeps both congruences and the common divisors |
| `BigintMod.InverseDone` | kernel/devkey.inc:150-217 | when a and b meet, u x is congruent to the gcd |
| `BigintMod.InverseRound` | kernel/devkey.inc:150-215 | one round keeps the invariant and makes a + b strictly smaller |
| `BigintMod.InverseEnds` | kernel/devkey.inc:150-215 | iterating the round on an odd modulus makes the two numbers meet exactly when the input is not 0 |
| `BigintMod.ModInv` | kernel/devkey.inc:138-218 | for an odd modulus above 1 the loop ends exactly for a nonzero input; then the result is below the modulus and its product with the input is congruent to their gcd |
| `Modular.Bezout` | kernel/devkey.inc:138-218 | any two numbers have a gcd that is a combination of them, so the gcd of the inversion exists |
| `Modular.InverseExists` | kernel/devkey.inc:138-218 | a number not divisible by a prime has an inverse below it |
| `BigintModMult.TestBit` | kernel/devkey.inc:48-51 | nonzero exactly when that bit of the number is set |
| `BigintModMult.NumDwords` | kernel/devkey.inc:243-252 | one past the last nonzero limb |
| `BigintModMult.NumBits` | kernel/devkey.inc:254-272 | the bit length of the number |
| `BigintModMult.ShiftModulus` | kernel/devkey.inc:288-301 | the double-width buffer holds the modulus shifted left by any number of bits |
| `BigintModMult.RShiftWide` | kernel/devkey.inc:318-320 | the right shift in two halves is a right shift of the whole |
| `BigintModMult.ReducingStart` | kernel/devkey.inc:282-303 | the product lies below twice the shifted modulus |
| `BigintModMult.ReducingStep` | kernel/devkey.inc:307-317 | one round keeps the residue and halves the bound, whichever buffer it selects |
| `BigintModMult.ReducingDone` | kernel/devkey.inc:303-323 | below the unshifted modulus the value is the residue |
| `BigintModMult.ReduceRound` | kernel/devkey.inc:303-321 | one subtract-and-shift round: the borrow selects the buffer that keeps the invariant |
| `BigintModMult.SubtractLoop` | kernel/devkey.inc:303-321 | after the last round the selected buffer is reduced |
| `BigintModMult.ModMult` | kernel/devkey.inc:274-324 | the result is the product modulo any modulus with a nonzero top limb |
| `Fast256.FoldedSumCongruent` | kernel/devkey.inc:466-752 | s1 + 2 s2 + 2 s3 + s4 + s5 - s6 - s7 - s8 - s9 of section D.2.3 of FIPS 186-4 is congruent to the sixteen-limb product |
| `Fast256.DoubledTerms` | kernel/devkey.inc:472-532 | carry and result hold the running sum s1 + 2 s2 + 2 s3 |
| `Fast256.PlainTerms` | kernel/devkey.inc:533-600 | s4 and s5 are added to the running sum exactly |
| `Fast256.SubTerms` | kernel/devkey.inc:601-736 | s6 to s9 are subtracted from the running sum exactly, with a signed carry |
| `Fast256.Correct8` | kernel/devkey.inc:738-751 | both correction loops end, with carry and result brought to the residue |
| `Fast256.Reduce256` | kernel/devkey.inc:466-752 | a double-width number is reduced completely modulo the 256-bit prime |
| `Fast256.ModMultFast256` | kernel/devkey.inc:466-752 | the result is the product modulo the 256-bit prime for all eight-limb inputs, also when the result is an operand |
| `Fast128.JoinWord` | kernel/devkey.inc:342-464 | bytes joined by shifts over four neighbours make the shifted word, with the bits that fall out accounted for |
| `Fast128.MaskC0` | kernel/devkey.inc:342-464 | a masked shift gives the two top bits next to the shifted byte |
| `Fast128.AddendSumCongruent` | kernel/devkey.inc:342-464 | the six byte-shifted addends and the low half are congruent to the eight-limb product: no bit is lost or counted twice |
| `Fast128.Correct4` | kernel/devkey.inc:460-463 | the final loop ends below the modulus, with carry and result brought to the residue |
| `Fast128.FoldAll` | kernel/devkey.inc:348-458 | carry and result hold the exact sum of the low half and the six addends |
| `Fast128.Reduce128` | kernel/devkey.inc:342-464 | a double-width number is reduced completely modulo 2^128 - 2^97 - 1 |
| `Fast128.ModMultFast128` | kernel/devkey.inc:342-464 | the result is the product modulo 2^128 - 2^97 - 1 for all four-limb inputs |
| `Field.ModMultFast` | kernel/devkey.inc:754-765 | the reduction that goes with the size is chosen and gives the product modulo its prime |
| `Curve.AddCommutes` | kernel/devkey.inc:767-842 | the affine law is commutative on the curve |
| `Curve.AddOnCurve` | kernel/devkey.inc:767-842 | the sum of two points of the curve is on the curve |
| `Curve.ChordSum` | kernel/devkey.inc:767-787 | any slope that satisfies the chord equation gives the sum of two points with different abscissas |
| `Curve.TangentSum` | kernel/devkey.inc:799-842 | any slope that satisfies the tangent equation for a = -3 gives the double of a point |
| `Jacobian.CoZIsChord` | kernel/devkey.inc:767-787 | the co-Z formulas leave the first point as it was and make the second one the sum, both under z (x2 - x1) |
| `Jacobian.DoubledIsTangent` | kernel/devkey.inc:799-842 | the doubling formulas make the double under y z |
| `Jacobian.Rescale` | kernel/devkey.inc:789-797 | multiplying by powers of z changes the factor and not the point |
| `Ecc.XyczAdd` | kernel/devkey.inc:767-787 | on arrays: the first point keeps its value, the second becomes the sum, all four coordinates below p |
| `Ecc.ApplyZ` | kernel/devkey.inc:789-797 | on arrays: x is multiplied by z squared and y by z cubed, modulo p |
| `Ecc.PointDoubleJacobian` | kernel/devkey.inc:799-842 | on arrays: the coordinates satisfy the doubling equations, and a zero z leaves the point alone |
| `Ecc.DoubleAbscissa` | kernel/devkey.inc:818-834 | the halving with the conditional addition of p gives a number whose double is the input |
| `Verify.DoubleStep` | kernel/devkey.inc:876 | the Jacobian pair that stands for t stands for t + t afterwards, and for an ordinate 0 the factor becomes 0; a factor 0 stays |
| `Verify.AddStep` | kernel/devkey.inc:880-888 | the Jacobian pair that stands for d stands for s + d afterwards, and for equal abscissas the factor becomes 0; a factor 0 stays |
| `Verify.TableSum` | kernel/devkey.inc:854-862 | the fourth table entry is the affine sum of the generator and the key; for equal abscissas the inversion does not end |
| `Verify.Normalize` | kernel/devkey.inc:891-892 | dividing by z gives the affine point; for the factor 0 the inversion does not end |
| `Verify.LadderRound` | kernel/devkey.inc:874-889 | one round takes the value of the run at bit i + 1 to its value at bit i, or the factor is 0 from an exceptional step on |
| `Verify.LadderLoop` | kernel/devkey.inc:874-889 | the loop ends with the value of the run at bit 0, or with the factor 0 exactly when a step was exceptional |
| `Verify.TopIndex` | kernel/devkey.inc:864 | the starting bit is the highest one set in either scalar |
| `Verify.PointMultShamir` | kernel/devkey.inc:844-893 | for reduced points the inversions end exactly when the table sum and every step are regular, and then the result is the affine double-and-add over both scalars |
| `Verify.EccCurve.Curve128` | kernel/devkey.inc:17-35 | the constants loaded for the 128-bit curve are its prime, order and generator |
| `Verify.EccCurve.Curve256` | kernel/devkey.inc:17-35 | the constants loaded for the 256-bit curve are its prime, order and generator |
| `Ladder.TimesSum` | kernel/devkey.inc:844-893 | multiples of a point add up where the law is associative |
| `Ladder.LadderOnCurve` | kernel/devkey.inc:844-893 | for points of the curve the ladder gives a point of the curve |
| `Ladder.RunIsSum` | kernel/devkey.inc:866-889 | the value of the run at bit i is (u1 >> i) g + (u2 >> i) q where the law is associative |
| `Ladder.LadderIsScalarSum` | kernel/devkey.inc:844-893 | the ladder gives u1 g + u2 q where the law is associative |
| `DeviceKey.SecondScalarNonzero` | kernel/devkey.inc:916-924 | for r and s in range and a prime order the second scalar is not 0 |
| `DeviceKey.AbscissaMatches` | kernel/devkey.inc:928-931 | one conditional subtraction of the order decides congruence of the abscissa with r |
| `DeviceKey.RangeCheck` | kernel/devkey.inc:916-917 | the range test passes exactly for r and s from 1 to the order minus 1 |
| `DeviceKey.MatchAbscissa` | kernel/devkey.inc:928-931 | the last comparison is true exactly when the abscissa is congruent to r modulo the order |
| `DeviceKey.VerifyDeviceKey` | kernel/devkey.inc:895-932 | the check ends exactly when r or s is out of range or the ladder is regular; then it is true exactly when r and s are in range and the ladder point of h s and r s has an abscissa congruent to r |
| `DeviceKey.GeneratorAbscissa` | kernel/devkey.inc:854-861 | for a key with the abscissa of the generator the check does not end, whatever the signature in range |
| `DeviceKey.AcceptsInGroup` | kernel/devkey.inc:895-932 | where the law is associative that point is the group sum of the two multiples |
| `Signer.TimesTimes` | kernel/devkey.inc:844-893 | m (n q) = (m n) q where the law is associative |
| `Signer.TimesResidue` | kernel/devkey.inc:844-893 | where n q is nothing, only the residue of a factor modulo n counts |
| `Signer.NumberInBytes` | kernel/devkey.inc:898-899 | the words read from a buffer stand for its bytes, the lowest first |
| `Signer.SumIsMultiple` | kernel/devkey.inc:922-926 | for a key x g the point of the check is s (h + r x) times g |
| `Signer.AcceptedIsSigned` | kernel/devkey.inc:895-932 | for a key x g, its abscissa in the first words and its ordinate behind it, the check accepts exactly r and s in range with r congruent to the abscissa of s (h + r x) g |
| `Signer.SignerAccepted` | kernel/devkey.inc:895-932 | the law of the signer: with r the abscissa of k g and s (h + r x) congruent to k modulo the order, the signature is genuine |
| `Signer.VerifySigned` | kernel/devkey.inc:895-932 | the check on the buffers of such a signer accepts whenever it ends |
| `DeviceKey.GeneratorsOnCurve` | kernel/devkey.inc:17-35 | both generators lie on their curves |
| `DeviceKey.OrdersFit` | kernel/devkey.inc:17-35 | both orders differ from the field prime p by no more than Hasse allows: (p + 1 - n)^2 <= 4 p |
| `Crc.ShiftBijective` | detect_radio_module/hmframe.cpp:32-41 | the bit step is a bijection of the sixteen-bit register |
| `Crc.Shift8Linear` | detect_radio_module/hmframe.cpp:30-41 | eight bit steps are linear |
| `Crc.FoldInjective` | detect_radio_module/hmframe.cpp:22-45 | different registers stay different under the same bytes, however many |
| `Crc.BurstDetected` | detect_radio_module/hmframe.cpp:22-45 | equal-length messages that differ only within sixteen adjacent bits have different checksums |
| `Crc.AdjacentBytesDetected` | detect_radio_module/hmframe.cpp:22-45 | equal-length messages that differ only in two adjacent bytes have different checksums |
| `Crc.ShiftParity` | detect_radio_module/hmframe.cpp:32-41 | the bit step keeps the parity of the number of set bits |
| `Crc.OddDamageDetected` | detect_radio_module/hmframe.cpp:22-45 | equal-length messages that differ in an odd number of bits, anywhere, have different checksums |
| `CrcOrder.PeriodIff` | detect_radio_module/hmframe.cpp:32-41 | a number of bit steps brings the register 1 back exactly when it is a multiple of 32767 |
| `CrcOrder.TwoBitsDetected` | detect_radio_module/hmframe.cpp:22-45 | two changed bits change the checksum of any message exactly when their distance is not a multiple of 32767 |
| `Crc.AddByte` | detect_radio_module/hmframe.cpp:29-41 | the eight branches for one byte, which the three copies share, update the register by that byte |
| `CrcDivision.StepDivides` | detect_radio_module/hmframe.cpp:32-41 | one bit step multiplies the dividend by x and appends to the quotient the bit that falls out |
| `CrcDivision.ChecksumDivides` | detect_radio_module/hmframe.cpp:22-45 | the checksum is a remainder of 0xd77f x^(8 n) + message x^16 divided by x^16 + x^15 + x^2 + 1 |
| `CrcDivision.RemainderOnly` | detect_radio_module/hmframe.cpp:22-45 | quotient and remainder of that division are unique |
| `CrcDivision.ChecksumIsRemainder` | detect_radio_module/hmframe.cpp:22-45 | a number is the checksum exactly when it is the remainder for some quotient |
| `Crc.ResidueIsZero` | detect_radio_module/hmframe.cpp:66-67 | a message and two bytes have checksum 0 exactly when the bytes are its checksum, upper byte first |
| `HmFrame.HMFrame.ComputeCrc` | detect_radio_module/hmframe.cpp:22-45 | the loop computes the checksum of the first len bytes |
| `KernelFrame.HmCrc` | kernel/hm.h:72-95 | the kernel copy computes the same checksum |
| `EthQueue.SendQueue.CalcCrc` | kernel/hb_rf_eth.c:86-109 | the Ethernet copy computes the same checksum |
| `Codec.AcceptedIsWire` | detect_radio_module/hmframe.cpp:47-71 | the buffers that pass the tests of a parser are exactly the frames of payloads of 3 to 65535 bytes |
| `Codec.WireAccepted` | detect_radio_module/hmframe.cpp:77-102 | the frame of such a payload passes, and its payload comes back |
| `Codec.WireFields` | detect_radio_module/hmframe.cpp:81-95 | length, two header bytes, rest and checksum of a frame lie where the source puts them |
| `Codec.DamagedFrameRejected` | detect_radio_module/hmframe.cpp:64-66 | an accepted frame damaged only within sixteen adjacent bits is rejected |
| `Codec.OddlyDamagedFrameRejected` | detect_radio_module/hmframe.cpp:64-66 | an accepted frame with an odd number of damaged bits is rejected |
| `Codec.TwiceDamagedFrameRejected` | detect_radio_module/hmframe.cpp:64-66 | an accepted frame with two damaged bits is rejected, wherever they lie, unless a multiple of 32767 places apart |
| `Codec.UnstuffStuff` | detect_radio_module/hmframe.cpp:103-111 | unstuffing undoes stuffing, on any bytes |
| `Codec.StuffedPairs` | detect_radio_module/hmframe.cpp:103-111 | 0xfc goes out as 0xfc 0x7c, 0xfd as 0xfc 0x7d, any other byte as itself |
| `Codec.StuffHasNoStart` | detect_radio_module/hmframe.cpp:103-111 | the start byte does not occur in stuffed bytes |
| `HmFrame.HMFrame.TryParse` | detect_radio_module/hmframe.cpp:47-71 | true exactly for accepted buffers; then destination, counter and command are the bytes 3, 4 and 5 and the data lie behind them; else only dataLen may change, and how is stated |
| `HmFrame.HMFrame.Encode` | detect_radio_module/hmframe.cpp:77-114 | 0 and no change when the length is too small; else the buffer starts with the frame, its fields at 3 to 5 and the data behind them, and on request its stuffing; it tells exactly when a store would leave the buffer, and that the 16-bit result is 0 when the stuffed frame is longer |
| `HmFrame.FitsUnstuffed` | detect_radio_module/hmframe.cpp:103-112 | in a buffer of exactly the length of the frame no store leaves it exactly when no byte behind the first is special |
| `HmFrame.NoRoomForDestination` | detect_radio_module/hmframe.cpp:103-112 | a frame to destination 0xfd in a buffer of its own length: a store leaves it |
| `HmFrame.StuffInPlace` | detect_radio_module/hmframe.cpp:103-112 | the growing loop with its moves equals byte stuffing behind the first byte, as far as buffer and 16-bit length go, and says exactly how far that is |
| `HmFrame.MovedBytes` | detect_radio_module/hmframe.cpp:105-110 | one move and the two stores behind it replace one byte by its escape pair and keep the other bytes |
| `KernelFrame.TryParseFrame` | kernel/hm.h:105-128 | true exactly for accepted buffers; then dst and cnt are the bytes 3 and 4 and the command lies behind them; every field is stated on failure |
| `KernelFrame.EncodeFrame` | kernel/hm.h:130-149 | the negated error and no change when the buffer is too short; else the frame, with dst and cnt at 3 and 4 and the command behind them, the rest unchanged |
| `KernelFrame.EncodeFrameBuffer` | kernel/hm.h:151-170 | the loop over two pointers equals the stuffing that escapes 0xfc everywhere and 0xfd only with one byte behind it |
| `KernelFrame.DecodeFrameBuffer` | kernel/hm.h:172-191 | the loop equals unstuffing, on any input; it reads past its input exactly when an odd number of escape bytes ends it |
| `KernelFrame.CompleteExactly` | kernel/hm.h:179-185 | an escape byte stands alone at the end exactly when an odd number of them ends the bytes |
| `KernelFrame.DecodeOutcome` | kernel/hm.h:177-188 | run with the length that wraps below 0, the loop leaves the memory it points into exactly when an odd number of escape bytes ends its input, and else gives the unstuffed bytes |
| `KernelFrame.LoneEscapeRunsAway` | kernel/fake_hmrf.c:181-187 | one escape byte, which a writer may pass, is enough |
| `KernelFrame.DecodeEncode` | kernel/hm.h:151-191 | decoding undoes encoding on any bytes, and what is encoded never ends in a lone escape |
| `KernelFrame.KernelRoundTrip` | kernel/hm.h:105-191 | through both codings a frame is accepted exactly when its command has 1 to 65533 bytes, and its payload comes back |
| `KernelFrame.ReadsOtherCodec` | kernel/hm.h:105-128 | the kernel side gets back the payload bytes of a frame that the detection program stuffed, and accepts it |
| `CodecPeers.DetectorToKernel` | kernel/fake_hmrf.c:187-189 | on the objects: the destination, counter, command and data that the detection program encodes are the dst, cnt and command that the kernel side parses |
| `CodecPeers.KernelToDetector` | detect_radio_module/hmframe.cpp:47-71 | on the objects: a frame that the kernel side encodes is parsed to the same fields by the detection program |
| `CodecInterplay.KernelFrameSurvives` | kernel/hm.h:151-170 | the parser delivers a kernel-stuffed frame, and it alone, exactly when no start byte is left inside the frame |
| `CodecInterplay.FrameLost` | kernel/hm.h:151-170 | an accepted frame with the counter 0xfd that is not delivered |
| `CodecInterplay.RestartBound` | detect_radio_module/streamparser.cpp:30-34 | after a start byte no more is delivered than was stored from there on |
| `StreamParser.StreamParser.constructor` | detect_radio_module/streamparser.cpp:22-24 | an idle parser in the mode asked for |
| `StreamParser.StreamParser.AppendByte` | detect_radio_module/streamparser.cpp:26-82 | one byte takes the parser to the next state and calls the processor as the step says; it tells exactly when its store lies outside the buffer |
| `StreamParser.StreamParser.Append` | detect_radio_module/streamparser.cpp:84-91 | a buffer is the fold of its bytes, up to the first whose store finds no room |
| `StreamParser.StreamParser.Flush` | detect_radio_module/streamparser.cpp:93-98 | the state is idle and the buffer empty |
| `StreamParser.StreamParser.SetDecodeEscaped` | detect_radio_module/streamparser.cpp:104-107 | the mode changes and nothing else |
| `StreamParser.StepSound` | detect_radio_module/streamparser.cpp:67-75 | a step stays inside the buffer exactly when it has room: always in decode mode, in raw mode unless an escape byte meets a full buffer |
| `StreamParser.DecodeModeSound` | detect_radio_module/streamparser.cpp:26-82 | in decode mode, on every input, the position stays below 2048 at every store |
| `StreamParser.RawModeFillsUp` | detect_radio_module/streamparser.cpp:36-40 | a new parser in raw mode that is fed one escape byte more than the buffer holds comes to a step without room |
| `RawMode.RoomLeft` | detect_radio_module/streamparser.cpp:36-80 | a new parser in raw mode lacks room for a byte exactly when it is an escape byte and 2048 bytes were to be stored since the last start byte |
| `RawMode.RawModeOverruns` | detect_radio_module/streamparser.cpp:36-80 | on any input every store is inside the buffer exactly when no escape byte comes after 2048 such bytes |
| `RawMode.RecentIsEnd` | detect_radio_module/streamparser.cpp:30-34 | the bytes that count are those from the last start byte on |
| `DecodeMode.FeedKeeps` | detect_radio_module/streamparser.cpp:26-82 | in decode mode, on any input, the buffer of a running frame holds the values since the last start byte |
| `DecodeMode.DeliveryExact` | detect_radio_module/streamparser.cpp:26-82 | in decode mode, on any input, a byte completes a delivery exactly when the values since the last start byte are those of the frame they announce or fill the buffer, and these values are delivered |
| `StreamParser.FrameDelivered` | detect_radio_module/streamparser.cpp:26-82 | from any state, in either mode, a stuffed well-formed frame that fits is delivered once |
| `StreamParser.FrameRecovered` | detect_radio_module/streamparser.cpp:26-82 | from any decode-mode state the stuffed frame of a payload is delivered once, is accepted and carries the payload |
| `StreamParser.StreamDelivered` | detect_radio_module/streamparser.cpp:26-82 | every frame of a stream is delivered once, in order |
| `StreamParser.ModesAgree` | detect_radio_module/streamparser.cpp:26-82 | on streams of well-formed frames of at most 2048 raw bytes, unstuffing what raw mode delivers gives what decode mode delivers, one for one |
| `Overlong.LongPrefix` | detect_radio_module/streamparser.cpp:26-82 | the bytes of a frame longer than the buffer are taken in order until the buffer is full |
| `Overlong.IdleSkips` | detect_radio_module/streamparser.cpp:47-50 | outside a frame nothing comes out until a start byte does |
| `Overlong.OverlongFrame` | detect_radio_module/streamparser.cpp:26-82 | in decode mode, from any state, a well-formed frame longer than 2048 bytes comes out once, cut to 2048 bytes, or to 4 where the 16-bit length wraps to 1, and the piece is not accepted |
| `UartTx.Instance.TxQueuedUnlocked` | kernel/generic_raw_uart.c:766-795 | the next bytes of the sender go out in order and are counted; an empty sender is released |
| `UartTx.Instance.AcquireSender` | kernel/generic_raw_uart.c:651-675 | succeeds exactly when idle or against a strictly lower priority; from idle it starts sending |
| `UartTx.PassIsStep` | kernel/generic_raw_uart.c:766-795 | a pass of the transmit loop on the objects is one step of the run |
| `UartTx.AcquireIsStep` | kernel/generic_raw_uart.c:651-675 | a try for the sender on the objects is one step of the run, and succeeds exactly when the step takes it |
| `UartTx.CompletedIsStep` | kernel/generic_raw_uart.c:677-687 | a write goes on to return exactly when its last step is possible, and then with the buffer index |
| `UartTx.BeginIsStep` | kernel/generic_raw_uart.c:252-271 | the start of a write on the objects is one step of the run with the bytes of the caller, and is accepted exactly for at most 4096 of them |
| `UartTx.PriorityIsStep` | kernel/generic_raw_uart.c:491-497 | the ioctl on the objects is one step of the run |
| `UartTx.Connection.BeginWrite` | kernel/generic_raw_uart.c:252-271 | more than 4096 bytes are refused; otherwise the bytes are taken and the index is 0 |
| `UartTx.MovedAll` | kernel/generic_raw_uart.c:771-786 | a pass moves everything while the driver stays ready and the chunk is large enough |
| `UartTx.MovedBulks` | kernel/generic_raw_uart.c:771-786 | a pass hands over whole bulks, each while the driver is ready, the chunk not full and bytes left, and stops only when one of these fails |
| `UartTx.StepInv` | kernel/generic_raw_uart.c:240-291 | every atomic section keeps the invariant of the transmitter |
| `UartTx.RunSafe` | kernel/generic_raw_uart.c:240-291 | in every interleaving the wire is the concatenation, in order of acquisition, of one prefix of each write, and count_tx is its length |
| `UartTx.SendsGiven` | kernel/generic_raw_uart.c:252-282 | in every run each acquisition was made for the bytes that its connection was given by its last accepted write |
| `UartTx.ReturnedCounts` | kernel/generic_raw_uart.c:280-291 | a write returns the length of its prefix, and less than all only when a strictly higher priority took over next |
| `UartTx.PriorityRises` | kernel/generic_raw_uart.c:651-675 | while the sender stays busy each takeover raises the priority |
| `UartTx.CountTxSplits` | kernel/generic_raw_uart.c:766-795 | count_tx is the sum of the returned counts and of the indices in flight |
| `UartTx.StepKeeps` | kernel/generic_raw_uart.c:766-795 | what is on the wire and what was returned stay |
| `Circ.TwoPieceRead` | kernel/eq3_char_loop.c:146-175 | reading in two pieces across the end takes the oldest elements in order |
| `Circ.TwoPieceWrite` | kernel/eq3_char_loop.c:289-327 | writing in two pieces across the end appends |
| `UartRx.MacrosExact` | kernel/generic_raw_uart.c:724-737 | the count and space macros give the true numbers, also while an index stands at 1024 |
| `UartRx.StepInv` | kernel/generic_raw_uart.c:724-737 | every statement of the producer and of the reader keeps the invariant |
| `UartRx.RunSafe` | kernel/generic_raw_uart.c:196-231 | in every interleaving what has been read is a prefix of what was accepted, at most 1023 behind |
| `UartRx.StepRefines` | kernel/generic_raw_uart.c:196-231 | every statement is a step of a queue of 1023 places or leaves it alone |
| `UartRx.DecisionsExact` | kernel/generic_raw_uart.c:724-737 | a byte is dropped exactly when the queue is full; a read gets what it asks for up to the end of the buffer |
| `UartRx.AccessesInRange` | kernel/generic_raw_uart.c:211-231 | no store and no copy leaves the buffer |
| `UartRx.RxRing.HandleRxChar` | kernel/generic_raw_uart.c:724-737 | as one call: the byte is appended, or dropped when 1023 are held; the ring is that of the run of its statements |
| `UartRx.RxRing.Read` | kernel/generic_raw_uart.c:211-231 | as one call: a prefix of the queue is copied and removed, at least one byte when one is asked for and held; the ring and the bytes are those of the run of its statements |
| `Eq3Loop.CircBuf.Read` | kernel/eq3_char_loop.c:146-175 | min(count, held) bytes are copied in order and removed |
| `Eq3Loop.CircBuf.Write` | kernel/eq3_char_loop.c:289-327 | all bytes are appended |
| `Eq3Loop.ChannelData.ReadSlave` | kernel/eq3_char_loop.c:113-190 | the call, its errors and its effect on both rings |
| `Eq3Loop.ChannelData.ReadMaster` | kernel/eq3_char_loop.c:192-253 | the call, with 0 while no slave is open |
| `Eq3Loop.ChannelData.WriteSlave` | kernel/eq3_char_loop.c:265-340 | all bytes or none, with the order of the tests |
| `Eq3Loop.ChannelData.WriteMaster` | kernel/eq3_char_loop.c:342-410 | all bytes or none |
| `Eq3Loop.ChannelData.OpenSlave` | kernel/eq3_char_loop.c:899-936 | refused without a device or with a slave open; otherwise the ring to the slave is emptied |
| `Eq3Loop.ChannelData.CloseSlave` | kernel/eq3_char_loop.c:648-677 | the slave is closed and both rings stay |
| `Eq3Loop.ChannelData.CloseMaster` | kernel/eq3_char_loop.c:679-710 | the device is gone and both rings stay |
| `Eq3Loop.ChannelData.QueueLengths` | kernel/eq3_char_loop.c:582-588 | the two ioctls report the lengths of the queues |
| `Eq3Loop.CallConserves` | kernel/eq3_char_loop.c:113-410 | what one call adds to each queue and takes from it; a failed call changes nothing |
| `Eq3Loop.BytesConserved` | kernel/eq3_char_loop.c:113-410 | over every run, bytes written by the slave are the bytes read by the master and those still held; so are the master's since the last open; no queue exceeds 1023 |
| `Loopback.ReadsFirst` | kernel/eq3_char_loop.c:146-175 | a read of a filled ring gives the first min(count, held) bytes and removes just those, for the slave while the device is there and for the master while a slave is open |
| `Loopback.ReadsNothing` | kernel/eq3_char_loop.c:119-145 | otherwise a read waits, or gives -19 to the slave and 0 bytes to the master, and changes nothing |
| `Loopback.WritesWhole` | kernel/eq3_char_loop.c:265-340 | a write is taken in whole exactly when a byte is free, it fits 1023 bytes in all and, for the slave, the device is there; else the error is -11, -19 or -14 in this order |
| `Loopback.OpensOnce` | kernel/eq3_char_loop.c:899-936 | a created channel without a slave opens and drops the bytes on the way to the slave; else -16 or -19 |
| `Loopback.Closes` | kernel/eq3_char_loop.c:648-710 | closing either side keeps the bytes of both rings |
| `Loopback.WritesTaken` | kernel/eq3_char_loop.c:265-410 | writes that fit together are all taken, one behind the other |
| `Loopback.ReadsDeliver` | kernel/eq3_char_loop.c:113-253 | reads of any sizes give the bytes held from the front on, as far as the sizes go |
| `Loopback.Loops` | kernel/eq3_char_loop.c:113-410 | from the creation on, what one side writes in any pieces the other side reads in any pieces |
| `Eq3Loop.WaitsOrSpins` | kernel/eq3_char_loop.c:113-410 | a call that has to wait sleeps, except exactly a write to a full ring after the other side is gone: there the wait ends at once and the call turns round |
| `Eq3Loop.SlaveSpinsOn` | kernel/eq3_char_loop.c:273-282 | a write of the slave turns round until the master, which is gone, would read |
| `Eq3Loop.MasterSpinsOn` | kernel/eq3_char_loop.c:350-359 | a write of the master turns round until a slave opens or reads |
| `Eq3Loop.SlaveCanTurn` | kernel/eq3_char_loop.c:273-282 | a run from the creation to a write of the slave that turns round |
| `Eq3Loop.MasterCanTurn` | kernel/eq3_char_loop.c:350-359 | a run from the creation to a write of the master that turns round |
| `Eq3Loop.SlaveTurnsOn` | kernel/eq3_char_loop.c:273-282 | over every further run in which the master does not read, that write of the slave keeps turning round |
| `Eq3Loop.MasterTurnsOn` | kernel/eq3_char_loop.c:350-359 | over every further run in which no slave opens or reads, that write of the master keeps turning round |
| `EthQueue.StepInv` | kernel/hb_rf_eth.c:111-141 | every step of the producers and of the send thread keeps the invariant |
| `EthQueue.RunSafe` | kernel/hb_rf_eth.c:318-344 | in every interleaving accepted entries are sent once each, in order, the gpio value apart; at most 31 are held |
| `EthQueue.SentEntryUntouched` | kernel/hb_rf_eth.c:120-131 | a producer never writes the entry that the send thread holds |
| `EthQueue.RefusedWhenFull` | kernel/hb_rf_eth.c:122-138 | an entry is refused exactly when 31 are held |
| `EthQueue.DrainedGpioCurrent` | kernel/hb_rf_eth.c:519-575 | once drained, with the last change of the value accepted, the last gpio message sent carries the current value |
| `EthQueue.SendQueue.QueueMsg` | kernel/hb_rf_eth.c:111-141 | as one call: the message is appended, or dropped when 31 are held; the queue is that of the run of its steps |
| `EthQueue.SendQueue.SendNext` | kernel/hb_rf_eth.c:326-344 | as one turn: the oldest message goes out under the next counter with its checksum, a gpio message with the current value; the queue is that of the run of its steps |
| `EthQueue.SendQueue.SendMsg` | kernel/hb_rf_eth.c:198-213 | the command, the next counter, the data and the checksum go to the socket in this order |
| `EthQueue.SendQueue.GpioSet` | kernel/hb_rf_eth.c:561-575 | one bit changes and a message with the value is queued; the queue is that of the run of its steps |
| `EthQueue.SendQueue.GpioSetMultiple` | kernel/hb_rf_eth.c:586-598 | the bits under the mask change and a message with the value is queued; the queue is that of the run of its steps |
| `EthQueue.BitSet` | kernel/hb_rf_eth.c:567-570 | setting a bit sets it and leaves the others |
| `EthQueue.BitsMerged` | kernel/hb_rf_eth.c:592-593 | every bit comes from the new bits under the mask and from the old value elsewhere |
| `EthQueue.PacketChecks` | kernel/hb_rf_eth.c:160-168 | a packet passes the test of the receiver, starts with the command and the counter, and carries its data |
| `EthQueue.DamagedPacketRefused` | kernel/hb_rf_eth.c:160-168 | a packet damaged only within sixteen adjacent bits fails that test |
| `Detector.HandleRaises` | detect_radio_module/radiomoduledetector.cpp:126-326 | a change of state strictly raises its number; the semaphore is given exactly on a change or on a refusal of an address request by another module |
| `Detector.HandleKeepsMac` | detect_radio_module/radiomoduledetector.cpp:235-292 | the address invariant is kept up to the frame that finishes |
| `Detector.RequestAnswered` | detect_radio_module/radiomoduledetector.cpp:68-113 | only an answer from the destination that the sender asks in a state changes that state |
| `Detector.FrameInFields` | detect_radio_module/radiomoduledetector.cpp:126-134 | the handler sees the bytes 3, 4, 5 and those behind them of an accepted buffer |
| `Detector.TransmittedFields` | detect_radio_module/radiomoduledetector.cpp:358-373 | a request goes out with its destination, the low byte of its counter and its command at 3, 4 and 5 |
| `Devices.AddressStored` | detect_radio_module/radiomoduledetector.cpp:224-318 | the acknowledge that carries the three bytes of an address, uppermost first, stores that address, in all three states that ask for one |
| `Devices.NameTaken` | detect_radio_module/radiomoduledetector.cpp:137-205 | what the handler makes of the names of loaders and applications, asked for or not |
| `Devices.LoaderFound` | detect_radio_module/radiomoduledetector.cpp:39-55 | with a device that answers, the first loop ends in the loader, which it has started when the application runs |
| `Devices.AppFound` | detect_radio_module/radiomoduledetector.cpp:57-70 | the second loop ends in the application, which it has started |
| `Devices.LastLoop` | detect_radio_module/radiomoduledetector.cpp:72-121 | the last loop gets every answer and ends with all of them |
| `Devices.DetectsDevice` | detect_radio_module/radiomoduledetector.cpp:30-326 | from the start, every device that answers, whatever runs on it, is found out: type, firmware, SGTIN, serial number and both addresses are those it told |
| `Devices.NobodyAnswers` | detect_radio_module/radiomoduledetector.cpp:39-121 | when nobody answers, the sender stops after three turns, with six identify requests sent and no module |
| `DetectorRuns.MainStepInv` | detect_radio_module/radiomoduledetector.cpp:39-121 | every statement of the sender keeps the bounds, the counters and the address invariant |
| `DetectorRuns.ActsInv` | detect_radio_module/radiomoduledetector.cpp:126-326 | what the handler does by the state it has read keeps them, also when the sender has changed the state since |
| `DetectorRuns.StateFalls` | detect_radio_module/radiomoduledetector.cpp:70-73 | the number of the state falls exactly when the sender gave up while a frame was handled that leads on |
| `DetectorRuns.StateCanFall` | detect_radio_module/radiomoduledetector.cpp:70-73 | a run in which it does |
| `DetectorRuns.DetectionBounded` | detect_radio_module/radiomoduledetector.cpp:39-121 | in every run, the handler interleaved statement by statement, the sender sends at most 29 frames and makes at most 90 steps, plus 2 and 6 for each refusal |
| `DetectorRuns.RefusalReachable` | detect_radio_module/radiomoduledetector.cpp:282-287 | from the start a run comes to a wait that a refusal ends |
| `DetectorRuns.RefusalsUnbounded` | detect_radio_module/radiomoduledetector.cpp:282-287 | a run can have any number of refusals, and a frame of the sender for each, so the bounds need that term |
| `DetectorRuns.SenderProceeds` | detect_radio_module/radiomoduledetector.cpp:46-57 | the sender can always step or time out until it stops |
| `DetectorRuns.FinishedMacUsable` | detect_radio_module/radiomoduledetector.cpp:235-292 | when the handler has finished an RPI-RF-MOD, or an HMIP-RFUSB of version 4 on, the BidCos address is not 0 and its low half not 0xffff |
| `Detector.RadioModuleDetector.HandleFrame` | detect_radio_module/radiomoduledetector.cpp:126-326 | a buffer that is no frame changes nothing; a frame does what the state says |
| `Detector.RadioModuleDetector.SendFrame` | detect_radio_module/radiomoduledetector.cpp:358-373 | the stuffed frame under the next counter goes to the connector |

## Left out

- Ladder.AssociativeLaw: associativity of the curve law is a hypothesis of the lemmas on group multiples, not proved; the ladder itself is proved against affine double-and-add without it.
- Verify.PointMultShamir: points whose coordinates are not below the field prime, and two scalars 0, are outside the statement; the primality of the field prime is assumed.
- DeviceKey.VerifyDeviceKey: keys whose coordinates are not below the field prime are outside the statement; the primality of the prime and of the order is assumed.
- Signer.SignerAccepted: that the order times the generator is nothing is a hypothesis; the constants are held against Hasse's bound (`DeviceKey.OrdersFit`) and the curve equation (`DeviceKey.GeneratorsOnCurve`), and the chain of some 500 explicit additions is not carried out.
- Devices.DetectsDevice: the device answers at once and in order; the bounds and the address of `DetectorRuns` hold for every interleaving and every frame.
- Ecc.PointDoubleJacobian: its contract gives the doubling equations over residues; `Jacobian.DoubledIsTangent` turns them into the curve law.
- Fast256.ModMultFast256: the stores of four-byte groups are modelled as stores of words, on a little-endian host; `Fast128` works on single bytes.
- StreamParser.StreamParser.AppendByte: the callback is a log of buffers; what a store outside the buffer does is not modelled.
- KernelFrame.DecodeFrameBuffer: the method stops where the loop would read past its input, and what it would then write is not modelled.
- UartTx.RunSafe: signals, failed copies, the traffic dump and the closing of a connection in the middle of a write are not modelled; `count_tx` is unbounded; a connection changes its priority only between writes, when its semaphore is free.
- UartRx.RunSafe: sequential consistency is assumed, which the barriers of the source are there for; error flags, counters and waiting are not modelled.
- Eq3Loop.BytesConserved: a channel starts created and with the slave closed; reuse of a slot while an old slave is open, poll, termios and pending events are not modelled; counts stay below 2^31, as the kernel caps them.
- EthQueue.RunSafe: packets of other senders (keep-alive, connect, disconnect) go to the socket beside the queue and are not modelled, so the counter of the queue is that of `SendQueue.SendNext` alone; sequential consistency is assumed.
- DetectorRuns.DetectionBounded: the increments of the message counter, and what the handler does between its read of the state and the semaphore, are single steps. Time is not modelled: a wait can end in vain only when the semaphore is 0.
- The hash of the device identity, the extraction of the key from the EEPROM and the caller of `verify_device_key`: its inputs are arbitrary here.
- Liveness of transmission: it depends on drivers that call `generic_raw_uart_tx_queued`.
- Sockets, reconnection and its timing, thread creation, module references, sysfs and procfs.
- Hardware drivers (pl011, meson, dw_apb, USB), GPIO and LED drivers, the real-time clock, device trees, scripts and packaging: input and output plumbing.
- `circ_buf.h` of Linux is not part of this repository; its four macros are modelled in `Circ` by their definitions.
