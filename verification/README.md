# Big integers, multisignature ordering and key paths, verified

A Dafny model, with proofs, of three parts of the Jubiter wallet SDK.

**The big-integer library** (`deps/bigint`). `BigUnsigned` keeps a natural number in a
growing array of machine words and overwrites it in place: addition, subtraction,
shift-and-add multiplication, shift-and-subtract division, shifts, `++` and `--`, bits and
blocks. `BigInteger` adds a sign and floor division; on top come the greatest common
divisor, extended Euclid, modular inverse and modular power, conversion to and from digits
of a base, text, and raw data. Every operation is a method on real arrays, proved against
the integers: the result is the exact one, in canonical form (no leading zero block), for
every length and for every way receiver and operands may be the same object, and no access
leaves an array. Where the code relies on something being impossible (a carry that runs off
the array, a second leading zero, digits beyond the room reserved), that is proved.

**The multisignature context** (`BTCContextMultiSigExt`). Cosigners register extended keys
in their own order; the model proves that they agree on the account and on the order of the
derived keys, and that the merge of a partly signed transaction puts signatures in an order
an in-order check accepts exactly when no key has two good incoming signatures.

**Key paths** (`parsePath` and the path builders): round trip and extension.

## How it is laid out

| file | content |
|---|---|
| Powers, Bits | powers, products and division; bitwise operators on naturals of any width |
| Blocks | words, wrap-around, the value of a block sequence, canonical form, carries |
| BlockShifts, ShiftAmounts, NumberBits | shifted blocks, shift amounts, bits of a number |
| PartialProducts, TrialSubtraction | why the loops of multiplication and division are right |
| BigUnsigned | the class, one method per operation, its longer loops as methods of their own |
| ClientRuns, SignedRuns | programs of calls on many variables, against the same programs on numbers |
| BigInteger, NumberTheory, BigIntegerAlgorithms | signs, divisibility and residues, the algorithms |
| Numerals, BigUnsignedInABase, RawData, BigIntegerUtils | digits and text, the digit array, raw data, conversions |
| KeyOrder, SignatureMerge, MultiSig | sorted keys, the merge of signatures, the context |
| HDPath | derivation paths |
| Exceptions | the exceptions as values |

The width `N` of a word is a constant without a value: the proofs hold for every multiple of
8 from 32 up. Wrap-around is written out as a remainder modulo `Radix()` = 2^N. A thrown
exception is a returned `Status` or `Result`, with the receiver left as the code leaves it.
`Valid()` is the class invariant (allocated capacity, length within it, canonical form);
`Wf()` is the same without canonical form, which is all a receiver needs. `Apart` says that
two objects are the same or have different arrays, which C++ gives by construction.

## Where the code falls short of a claim

- Left-shifting zero by a whole block or more leaves zero blocks in front, so canonical form
  is lost. `BitShiftLeft` and `BitShiftRight` state when exactly; `ZeroShiftedLeavesZeroBlock`
  is the input.
- `modexp` with exponent 0 returns 1 also for modulus 1. `ModularPowerReduced` states when
  exactly the result is reduced.
- Two extended keys with the same public key make the account depend on the order of
  registration (`TwoXpubsDisagree`), and two orders give different ordered keys exactly when
  the two extended keys derive different ones (`TwoXpubsTwoOrders`).  Without such a pair
  cosigners agree (`CosignersAgree`).  Only the agreement is lost: each cosigner still gets a
  sorted permutation of its derived keys and indices that point at its own
  (`EveryCosignerOrders`).
- An in-order multisignature check rejects the merged list of an input exactly when some key
  has two good incoming signatures (`MergedPassesWalk`), for example one signature listed
  twice, which the merge keeps without an error (`RepeatedSignatureFails`).  The matched key
  positions then do not strictly increase (`MergedIncreases`).
- `dataToBigInteger` is documented for signed element types as well, but widens a negative
  piece with its sign, which overwrites the pieces above it in its block.
  `PackedAsWanted` states exactly when the number is the one wanted, `NegativePieceSpills`
  is an input for which it is not; unsigned data is always right (`NothingSpills`).
- `parsePath` accepts an 'm' anywhere and skips the next character, so a path like "1m" reads
  as no level at all and its extension reads wrongly. `ParseExtended` states when exactly an
  extension reads as the path and the levels.  The first number may also be missing, so
  "/5" and a lone quote are accepted (`PlainPathReads`, `EmptyFirstLevel`).
- The comment in `BigUnsigned.cc` promises that `subtract` leaves a predictable state after
  its exception; the early length test and an aliased call leave the receiver unchanged
  instead of zero. `Subtract` states which.

## Model

| member | source | states |
|---|---|---|
| `BigUnsigneds.BigUnsigned.Add` | deps/bigint/BigUnsigned.cc:124-182 | The receiver becomes a + b in canonical form, for every length of the operands and every aliasing of receiver and operands; no access leaves an array. |
| `BigUnsigneds.BigUnsigned.AddLonger` | deps/bigint/BigUnsigned.cc:148-182 | The three loops and the extra block together: sum of two nonzero numbers, one block dropped exactly when no carry is left. |
| `BigUnsigneds.BigUnsigned.AddBlocks` | deps/bigint/BigUnsigned.cc:151-176 | The wrapped blocks plus the leftover carry times Radix^len are the sum. |
| `BigUnsigneds.BigUnsigned.Subtract` | deps/bigint/BigUnsigned.cc:184-233 | a - b in canonical form, or the negative-result exception exactly when a < b, with the receiver then unchanged (length test, aliased call) or zero (leftover borrow). |
| `BigUnsigneds.BigUnsigned.SubtractBlocks` | deps/bigint/BigUnsigned.cc:201-230 | A leftover borrow stands for Radix^len missing from the difference. |
| `BigUnsigneds.BigUnsigned.Multiply` | deps/bigint/BigUnsigned.cc:300-369 | The receiver becomes a * b in canonical form, aliasing included (squaring in place). |
| `BigUnsigneds.BigUnsigned.MultiplyNonzero` | deps/bigint/BigUnsigned.cc:319-368 | Zeroing, all partial products and the drop of one leading block give the product. |
| `BigUnsigneds.BigUnsigned.AddBlockTimes` | deps/bigint/BigUnsigned.cc:327-365 | After block i the partial value is (the i + 1 low blocks of a) * b, because each 1-bit adds b at its place and each 0-bit nothing. |
| `BigUnsigneds.BigUnsigned.AddShifted` | deps/bigint/BigUnsigned.cc:344-363 | Adds b << (i blocks, i2 bits) in place; the unguarded carry loop stops inside the array because the sum fits. |
| `PartialProducts.PartialStep` | deps/bigint/BigUnsigned.cc:307-330 | One bit of a more adds exactly one shifted b, and every partial product stays below Radix^(a.len + b.len). |
| `PartialProducts.ProductIsLarge` | deps/bigint/BigUnsigned.cc:366-368 | The product needs all blocks but one, so at most one leading block is zero. |
| `BlockShifts.ShiftedBlockIsSum` | deps/bigint/BigUnsigned.cc:293-298 | The two parts that are or-ed do not overlap: or is plus. |
| `BlockShifts.ShiftedValue` | deps/bigint/BigUnsigned.cc:252-298 | The sequence of all shifted blocks is num * 2^y * Radix^i. |
| `BigUnsigneds.BigUnsigned.DivideWithRemainder` | deps/bigint/BigUnsigned.cc:382-538 | old dividend == q * b + remainder with remainder < b, both canonical, for every aliasing of the divisor; b = 0 gives q = 0 and leaves the dividend; the same object for both results is refused unchanged. |
| `BigUnsigneds.BigUnsigned.DivideLonger` | deps/bigint/BigUnsigned.cc:449-538 | The same for a nonzero divisor no longer than the dividend, with the scratch buffer and the extra zero block. |
| `BigUnsigneds.BigUnsigned.QuotientBlocks` | deps/bigint/BigUnsigned.cc:476-529 | From the highest block down: dividend == (quotient so far) * b + rest, with rest below b shifted by the blocks still to come. |
| `BigUnsigneds.BigUnsigned.QuotientBlock` | deps/bigint/BigUnsigned.cc:480-528 | The same bit by bit inside one quotient block, bits turned on by or. |
| `BigUnsigneds.BigUnsigned.TrySubtract` | deps/bigint/BigUnsigned.cc:486-527 | A borrow is left exactly when the rest is below the shifted divisor; then nothing changes, otherwise the shifted divisor is gone from the rest. |
| `BigUnsigneds.BigUnsigned.SubtractShifted` | deps/bigint/BigUnsigned.cc:494-510 | What the buffer holds between block i and block k, with the borrow out of it, and how far k goes. |
| `BigUnsigneds.BigUnsigned.CopyBack` | deps/bigint/BigUnsigned.cc:523-526 | Copying blocks i up to k changes the number by the difference of the two windows. |
| `TrialSubtraction.BorrowMeansTooLarge` | deps/bigint/BigUnsigned.cc:505-521 | A leftover borrow proves the shifted divisor larger although the blocks below i are not looked at. |
| `TrialSubtraction.TrialStep` | deps/bigint/BigUnsigned.cc:484-528 | One trial keeps v == q * b + r and halves the bound on r, bit set or not. |
| `TrialSubtraction.FirstTrial` | deps/bigint/BigUnsigned.cc:469-478 | Before the first trial the dividend is below b shifted by all quotient blocks. |
| `TrialSubtraction.QuotientIsLarge` | deps/bigint/BigUnsigned.cc:530-532 | The quotient needs all its blocks but one. |
| `BigUnsigneds.BigUnsigned.BitShiftLeft` | deps/bigint/BigUnsigned.cc:595-619 | a * 2^b, or a / 2^-b rounded down for negative b; throws exactly for the most negative int; the result has no leading zero unless a = 0 and b >= N, and then it has. |
| `BigUnsigneds.BigUnsigned.BitShiftRight` | deps/bigint/BigUnsigned.cc:621-654 | a / 2^b rounded down, or a left shift for negative b, with the same exception and the same exact condition on leading zeros. |
| `ShiftAmounts.ZeroShiftedLeavesZeroBlock` | deps/bigint/BigUnsigned.cc:606-618 | The input for which canonical form is lost: zero shifted left by one whole block. |
| `ShiftAmounts.RightShiftAmounts` | deps/bigint/BigUnsigned.cc:634-637 | Rounding the block count up leaves a left shift of less than a block, and the two amount to b. |
| `ShiftAmounts.RightShiftBlocks` | deps/bigint/BigUnsigned.cc:634-650 | The blocks of the left-shifted number from rightShiftBlocks on are a / 2^b rounded down; with too few blocks that is zero. |
| `ShiftAmounts.RightShiftIsLarge` | deps/bigint/BigUnsigned.cc:646-653 | One zap suffices after a right shift. |
| `BigUnsigneds.BigUnsigned.Increment` | deps/bigint/BigUnsigned.cc:659-672 | Adds one, growing by a block exactly when every block rolls over; canonical. |
| `BigUnsigneds.BigUnsigned.Decrement` | deps/bigint/BigUnsigned.cc:680-692 | Takes one away from a nonzero number, throws for zero; the unguarded borrow loop stays inside the number and one zap suffices. |
| `BigUnsigneds.BigUnsigned.CompareTo` | deps/bigint/BigUnsigned.cc:69-90 | Decides the order of the numbers: a longer canonical number is larger, otherwise the highest differing block decides. |
| `BigUnsigneds.BigUnsigned.Equals` | deps/bigint/NumberlikeArray.hh:161-175 | Blockwise equality is equality of the numbers. |
| `Blocks.CanonicalUnique` | deps/bigint/NumberlikeArray.hh:77-80 | Equal numbers have equal canonical blocks. |
| `Blocks.LongerIsLarger` | deps/bigint/BigUnsigned.cc:70-74 | A longer canonical number is larger. |
| `Blocks.HigherBlockDecides` | deps/bigint/BigUnsigned.cc:76-86 | With equal higher blocks the differing block decides. |
| `Blocks.OneZapSuffices` | deps/bigint/BigUnsigned.cc:366-368 | A value that needs all blocks but one has at most one leading zero block. |
| `Blocks.CarryStep` | deps/bigint/BigUnsigned.cc:152-165 | A column with wrap-around and the two overflow tests loses nothing but Radix times the carry. |
| `BigUnsigneds.BigUnsigned.ZapLeadingZeros` | deps/bigint/BigUnsigned.hh:29-33 | Canonical form with the same number. |
| `BigUnsigneds.BigUnsigned.SetBlock` | deps/bigint/BigUnsigned.cc:24-41 | Exactly block i changes, the number seen without end; grows or shrinks to canonical form. |
| `BigUnsigneds.BigUnsigned.BitLength` | deps/bigint/BigUnsigned.cc:46-58 | The length l with 2^(l-1) <= v < 2^l, 0 for zero. |
| `BigUnsigneds.BigUnsigned.GetBit` | deps/bigint/BigUnsigned.hh:105-107 | Bit bi of the number. |
| `BigUnsigneds.BigUnsigned.SetBit` | deps/bigint/BigUnsigned.cc:60-65 | Bit bi becomes newBit and every other bit stays; the value changes by 2^bi or not at all. |
| `NumberBits.BitsSumUp` | deps/bigint/BigUnsigned.hh:99-107 | The number is the sum of its bits below the bit length, the top one set. |
| `NumberBits.BitOfNumber` | deps/bigint/BigUnsigned.hh:105-107 | Bit bi of the number is bit bi % N of block bi / N. |
| `BigUnsigneds.BigUnsigned.Allocate` | deps/bigint/NumberlikeArray.hh:93-102 | Capacity grows when asked to; a new array may hold anything. |
| `BigUnsigneds.BigUnsigned.AllocateAndCopy` | deps/bigint/NumberlikeArray.hh:105-120 | The same with the blocks kept. |
| `BigUnsigneds.BigUnsigned.Assign` | deps/bigint/NumberlikeArray.hh:134-148 | The blocks of x, self-assignment included. |
| `BigUnsigneds.BigUnsigned.FromBlocks` | deps/bigint/BigUnsigned.hh:47-51 | The number of an array of blocks, leading zeros dropped. |
| `BigUnsigneds.BigUnsigned.ConvertToPrimitive` | deps/bigint/BigUnsigned.hh:386-402 | The number if it fits the width of the type, otherwise the exception. |
| `BigUnsigneds.BigUnsigned.Over` | deps/bigint/BigUnsigned.hh:262-268 | Quotient rounded down; division by zero throws. |
| `BigUnsigneds.BigUnsigned.Modulo` | deps/bigint/BigUnsigned.hh:269-275 | Remainder; division by zero throws. |
| `BigUnsigneds.BigUnsigned.Minus` | deps/bigint/BigUnsigned.hh:252-256 | Difference, or the exception exactly when it would be negative. |
| `BigUnsigneds.BigUnsigned.ModuloAssign` | deps/bigint/BigUnsigned.hh:320-325 | The remainder in place, also of a number by itself. |
| `ClientRuns.Run` | deps/bigint/testsuite.cc:15-33 | Every program of calls, whatever variables it names as receiver and operands and with every exception caught, returns, throws and leaves what the same run on plain numbers does, in canonical form throughout. |
| `ClientRuns.RunFromStart` | deps/bigint/testsuite.cc:15-33 | The same from the construction of the variables. |
| `SignedRuns.Run` | deps/bigint/testsuite.cc:35-42 | The same for signed integers: sign zero exactly for magnitude zero after every call. |
| `SignedRuns.RunFromStart` | deps/bigint/testsuite.cc:35-42 | The same from the construction of the variables. |
| `SignedRuns.CallDivide` | deps/bigint/BigInteger.cc:280-295 | Floor division with the divisor aliased to dividend or quotient: same result as on integers, refused for one variable as quotient and remainder. |
| `Blocks.CanonicalLength` | deps/bigint/BigUnsigned.cc:194-199 | The length of a canonical number is the number of blocks its value needs, so the early exit of a subtraction depends on the values alone. |
| `ClientRuns.CallDivide` | deps/bigint/BigUnsigned.cc:382-396 | The divisor may be the dividend or the quotient: same result as on numbers. |
| `BigIntegers.BigInteger.Add` | deps/bigint/BigInteger.cc:169-201 | Signed sum; sign zero exactly for magnitude zero; aliasing included. |
| `BigIntegers.BigInteger.Subtract` | deps/bigint/BigInteger.cc:203-241 | Signed difference, same conditions. |
| `BigIntegers.BigInteger.Multiply` | deps/bigint/BigInteger.cc:243-256 | Signed product, same conditions. |
| `BigIntegers.BigInteger.DivideWithRemainder` | deps/bigint/BigInteger.cc:280-359 | Floor division for all signs: x == y * q + r with r in [0, y) or (y, 0], q = 0 and r = x for y = 0; all aliasings. |
| `BigIntegers.SameSignDivision` | deps/bigint/BigInteger.cc:307-309 | Equal signs: dividing magnitudes is floor division. |
| `BigIntegers.DifferentSignDivision` | deps/bigint/BigInteger.cc:310-350 | Different signs: dividend less one, quotient plus one and (b - 1) - R make floor division. |
| `BigIntegers.FloorDivisionUnique` | deps/bigint/BigInteger.cc:264-279 | The documented conditions determine quotient and remainder. |
| `BigIntegers.BigInteger.CompareTo` | deps/bigint/BigInteger.cc:135-154 | Decides the order of the integers. |
| `BigIntegers.BigInteger.Equals` | deps/bigint/BigInteger.hh:97-99 | Equality of the integers. |
| `BigIntegers.BigInteger.Negate` | deps/bigint/BigInteger.cc:362-368 | The opposite integer. |
| `BigIntegers.BigInteger.Increment` | deps/bigint/BigInteger.cc:373-382 | One more, through zero included. |
| `BigIntegers.BigInteger.Decrement` | deps/bigint/BigInteger.cc:390-399 | One less, through zero included. |
| `BigIntegers.BigInteger.FromSigned` | deps/bigint/BigInteger.cc:32-49 | Sign and magnitude; sign zero with a nonzero magnitude throws; magnitude zero forces sign zero. |
| `BigIntegers.BigInteger.FromBlocks` | deps/bigint/BigInteger.cc:13-30 | The same from an array of blocks. |
| `BigIntegers.BigInteger.Modulo` | deps/bigint/BigInteger.hh:166-172 | The floor remainder; division by zero throws. |
| `BigIntegerAlgorithms.Gcd` | deps/bigint/BigIntegerAlgorithms.cc:3-14 | Terminates for all inputs and returns a common divisor that every common divisor divides. |
| `BigIntegerAlgorithms.ExtendedEuclidean` | deps/bigint/BigIntegerAlgorithms.cc:16-41 | r * m + s * n == g with g a gcd up to sign, positive for n > 0; aliased outputs throw. |
| `BigIntegerAlgorithms.EuclidHalfStep` | deps/bigint/BigIntegerAlgorithms.cc:29-39 | One half-step keeps both combinations and the common divisors, and |m| falls below |n|. |
| `BigIntegerAlgorithms.EuclidStep` | deps/bigint/BigIntegerAlgorithms.cc:21-31 | The two invariants of the loop under m %= n. |
| `BigIntegerAlgorithms.Modinv` | deps/bigint/BigIntegerAlgorithms.cc:43-51 | The inverse of x in [0, n) exactly when n > 0 and gcd(x, n) = 1; otherwise an exception, which one being told exactly. |
| `NumberTheory.InverseMeansCoprime` | deps/bigint/BigIntegerAlgorithms.cc:46-50 | Only a number prime to n has an inverse, so refusing the others is right. |
| `BigIntegerAlgorithms.Modexp` | deps/bigint/BigIntegerAlgorithms.cc:53-70 | base^exponent mod modulus for every base, exponent and nonzero modulus, with 1 for exponent 0; modulus zero throws. |
| `BigIntegerAlgorithms.ModularPowerReduced` | deps/bigint/BigIntegerAlgorithms.cc:53-70 | The result is congruent to the power, and below the modulus exactly when exponent > 0 or modulus > 1. |
| `NumberTheory.SquareAndMultiply` | deps/bigint/BigIntegerAlgorithms.cc:58-68 | Squaring, and multiplying for a 1-bit, follows the exponent modulo m. |
| `BigUnsignedInABases.BigUnsignedInABase.FromUnsigned` | deps/bigint/BigUnsignedInABase.cc:32-60 | The digits of x in any base from 2, each below the base, no leading zero; smaller bases throw. |
| `BigUnsignedInABases.BigUnsignedInABase.WriteDigits` | deps/bigint/BigUnsignedInABase.cc:45-56 | Repeated division writes those digits and never beyond the room reserved. |
| `BigUnsignedInABases.RoomSuffices` | deps/bigint/BigUnsignedInABase.cc:38-43 | Every number of that many bits has fewer digits than the room computed from the bit length of the base. |
| `BigUnsignedInABases.BigUnsignedInABase.ToUnsigned` | deps/bigint/BigUnsignedInABase.cc:62-71 | Horner evaluation gives the number of the digits. |
| `BigUnsignedInABases.BigUnsignedInABase.FromText` | deps/bigint/BigUnsignedInABase.cc:73-103 | The number of the text, or the complaint about its last offending symbol; bases over 36 throw. |
| `BigUnsignedInABases.BigUnsignedInABase.ToText` | deps/bigint/BigUnsignedInABase.cc:105-125 | The text of the number, "0" for zero and so for bases 0 and 1; bases over 36 are refused. |
| `Numerals.DigitsAreDigits` | deps/bigint/BigUnsignedInABase.cc:47-60 | The digits written are digits, without leading zero, and evaluate to the number. |
| `Numerals.DigitsUnique` | deps/bigint/BigUnsignedInABase.cc:62-71 | Digits without leading zero are the digits of their number. |
| `Numerals.ReadWrite` | deps/bigint/BigUnsignedInABase.cc:73-125 | Reading what was written gives the number, for every base from 2 to 36. |
| `Numerals.WriteRead` | deps/bigint/BigUnsignedInABase.cc:73-125 | Writing what was read gives the text in upper case without leading zeros, "0" if nothing remains. |
| `Numerals.ReadTextAccepts` | deps/bigint/BigUnsignedInABase.cc:86-101 | A text is accepted exactly when every symbol is a digit below the base. |
| `Numerals.ReadTextComplains` | deps/bigint/BigUnsignedInABase.cc:86-101 | The exception tells of the last offending symbol: no digit at all, or too large for the base. |
| `Numerals.SymbolsOfDigits` | deps/bigint/BigUnsignedInABase.cc:86-120 | The digits are 0 to 9 and A to Z, lower case accepted when read, and no other symbol. |
| `Numerals.ReadWriteInteger` | deps/bigint/BigIntegerUtils.cc:12-27 | Signed decimal text round-trips for every integer. |
| `Numerals.WriteReadInteger` | deps/bigint/BigIntegerUtils.cc:12-27 | Writing what a signed text of digits reads as: "+" goes, "-" stays except before zero, leading zeros go. |
| `Numerals.ReadIntegerAccepts` | deps/bigint/BigIntegerUtils.cc:22-27 | A signed text is accepted exactly when decimal digits, perhaps none, follow the sign, if any. |
| `BigIntegerUtils.BigUnsignedToString` | deps/bigint/BigIntegerUtils.cc:4-10 | The text of a number in a base. |
| `BigIntegerUtils.BigIntegerToString` | deps/bigint/BigIntegerUtils.cc:12-16 | The signed decimal text. |
| `BigIntegerUtils.StringToBigInteger` | deps/bigint/BigIntegerUtils.cc:22-27 | The integer of a signed text, "-0" and a lone sign being zero, or the exception. |
| `BigIntegerUtils.DataToBigInteger` | deps/bigint/BigIntegerUtils.hh:46-72 | For signed and unsigned pieces of every dividing size: the sign applied to the number of the pieces as they are packed, spills of negative pieces included; the wanted number exactly as PackedAsWanted says. |
| `RawData.PackedAsWanted` | deps/bigint/BigIntegerUtils.hh:34-46 | The packed number is the one wanted exactly when every piece above a negative one in its block is there and all ones. |
| `RawData.NothingSpills` | deps/bigint/BigIntegerUtils.hh:34-46 | Unsigned data, and pieces as wide as a block, always give the number wanted. |
| `RawData.NegativePieceSpills` | deps/bigint/BigIntegerUtils.hh:60-63 | The input that fails, for every block width: after a negative byte the whole block is ones and the number is not the one wanted. |
| `RawData.PieceIntoBlock` | deps/bigint/BigIntegerUtils.hh:60-63 | Or-ing a piece adds its bits at its place; a negative one sets every bit above, and after one nothing changes. |
| `MultiSig.CosignersAgree` | include/context/BTCContextMultiSigExt.h:61-91 | Cosigners that register the same xpubs, in any order and with any repetition, hold the same sorted keys and the same map, if no two xpubs have one key. |
| `MultiSig.TwoXpubsDisagree` | include/context/BTCContextMultiSigExt.h:85-85 | ... and with two xpubs for one key two orders of registration disagree. |
| `MultiSig.TwoXpubsTwoOrders` | src/context/BTCContextMultiSigExt.cpp:41-94 | ... and their ordered keys are the same exactly when both xpubs derive the same key. |
| `MultiSig.EveryCosignerOrders` | src/context/BTCContextMultiSigExt.cpp:41-94 | The ordered keys are a sorted permutation of the first n derived keys; a cosigner among the first n finds its own derived key at its index, another is refused; two xpubs with one key included. |
| `MultiSig.DerivedExactly` | src/context/BTCContextMultiSigExt.cpp:49-71 | The derived keys are those of the xpub registered for each sorted key, along that cosigner's path; they exist exactly when each of the first n can be derived. |
| `MultiSig.CosignerPathReads` | src/context/BTCContextMultiSigExt.cpp:23-30 | A cosigner's path reads as main path, cosigner index, change and address index, in this order, exactly when the main path ends in a level. |
| `MultiSig.OrderedExactly` | src/context/BTCContextMultiSigExt.cpp:41-94 | Ordering succeeds exactly when there is a key to derive, all can be derived and one's own is among the first n, with the index of the key one's own xpub derives; otherwise it fails with which error. |
| `MultiSig.TwoCosigners` | src/context/BTCContextMultiSigExt.cpp:41-94 | Two contexts, each configured in its own order and with its own xpub: each succeeds exactly when all keys can be derived and its own is among the first n, then both hold the same keys, each index at the key its own xpub derives; for a complete account they succeed or fail alike. |
| `MultiSig.BTCContextMultiSigExt.constructor` | include/context/BTCContextMultiSigExt.h:22-58 | Counts are checked, xpubs are registered up to the first unreadable one, and the context is valid exactly when all were. |
| `MultiSig.BTCContextMultiSigExt.AddMyMainXPub` | include/context/BTCContextMultiSigExt.h:72-86 | One's own key joins the list and the map; an unreadable xpub changes nothing. |
| `MultiSig.BTCContextMultiSigExt.SortKeys` | include/context/BTCContextMultiSigExt.h:61-70 | Sorted, without repetition; the cosigner index is the position of one's own key unless it was set before. |
| `MultiSig.BTCContextMultiSigExt.Order` | include/context/BTCContextMultiSigExt.h:88-91 | The account with one's own xpub added; a cosigner index that was set stays, otherwise it is the position of one's own key; an unreadable xpub only sorts. |
| `MultiSig.BTCContextMultiSigExt.OrderDHPublicKey` | src/context/BTCContextMultiSigExt.cpp:41-94 | The ordered derived keys and one's own position, or which error, for every account and path. |
| `MultiSig.BTCContextMultiSigExt.OrderSignatures` | src/context/BTCContextMultiSigExt.cpp:258-351 | Every input's merged signatures under its number, or the error of the first input that fails; a device signature is needed only for inputs that look at it. |
| `MultiSig.Transaction.EntryExactly` | src/context/BTCContextMultiSigExt.cpp:292-341 | A text is in input i's entry exactly when it is good, under input i's preimage, for an ordered key of input i, and came in for input i or is the device's i-th signature for a key no incoming one is good for. |
| `MultiSig.Transaction.EntryInKeyOrder` | src/context/BTCContextMultiSigExt.cpp:292-341 | The signatures of an entry are good for the ordered keys in the order of those keys. |
| `MultiSig.Transaction.OutcomeExactly` | src/context/BTCContextMultiSigExt.cpp:277-341 | How an input ends: without preimage, without ordered keys, and with an undecodable signature exactly where one is looked at. |
| `KeyOrder.SortedKeysKeep` | include/context/BTCContextMultiSigExt.h:62-64 | Sort, unique and erase keep the set of keys, sorted and distinct. |
| `KeyOrder.SortedDistinctUnique` | include/context/BTCContextMultiSigExt.h:62-64 | A sorted list without repetition is determined by its members. |
| `KeyOrder.SortOrders` | src/context/BTCContextMultiSigExt.cpp:75-75 | Sorting yields an ordered permutation. |
| `KeyOrder.AtMostIsLexicographic` | include/context/BTCContextMultiSigExt.h:62-62 | The order is that of texts: a beginning first, else the smaller symbol at the first difference. |
| `SignatureMerge.Merge` | src/context/BTCContextMultiSigExt.cpp:292-341 | The nested loops place the signatures key by key, and fail exactly when a signature that is looked at does not decode. |
| `SignatureMerge.MergedIncreases` | src/context/BTCContextMultiSigExt.cpp:292-341 | The matched key positions strictly increase exactly when no key has two good incoming signatures. |
| `SignatureMerge.MergedPassesWalk` | src/context/BTCContextMultiSigExt.cpp:292-341 | An in-order multisignature check accepts the merged list exactly when no key has two good incoming signatures. |
| `SignatureMerge.RepeatedSignatureFails` | src/context/BTCContextMultiSigExt.cpp:292-341 | The input that fails: one signature listed twice, completed by the device's, merges without error to a list with both copies, which the check rejects. |
| `SignatureMerge.WalkFindsPositions` | src/context/BTCContextMultiSigExt.cpp:292-341 | Whatever an in-order check accepts has good keys at strictly increasing positions. |
| `SignatureMerge.IncreasingPassesWalk` | src/context/BTCContextMultiSigExt.cpp:292-341 | Taking the first key that fits never spoils an in-order check. |
| `SignatureMerge.IncomingAppears` | src/context/BTCContextMultiSigExt.cpp:297-319 | An incoming signature appears once for every key it is good for, so once if that is one key and never if none. |
| `SignatureMerge.DeviceAppears` | src/context/BTCContextMultiSigExt.cpp:320-340 | The device's signature appears exactly for the keys it is good for and no incoming signature covers. |
| `HDPath.ParsePath` | src/HDKey/HDKey.cpp:19-79 | The loop reads what the step-by-step reading of the text yields, errors included. |
| `HDPath.LoneLevelReads` | src/HDKey/HDKey.cpp:33-60 | A lone number n is accepted exactly below 2^31 = 0x80000000, and reads as n, or as n + 0x80000000 with a quote. |
| `HDPath.PathRoundTrip` | src/HDKey/HDKey.cpp:19-79 | Reading the rendering of any nonempty list of levels, with or without "m/", gives the list, hardened levels plus 2^31. |
| `HDPath.ParseExtended` | src/HDKey/HDKey.cpp:19-79 | An accepted path extended by levels reads as the path followed by the levels exactly when it ends in a level. |
| `HDPath.FullPathReads` | src/context/BaseContext.cpp:116-121 | The same for main path, change and address index. |
| `HDPath.PlainPathEndsInLevel` | src/HDKey/HDKey.cpp:28-74 | Every accepted path without the letter m, after "m/" or not, ends in a level. |
| `HDPath.PlainPathReads` | src/HDKey/HDKey.cpp:19-79 | A text without the letter m is accepted exactly when all pieces between slashes are numbers below 2^31 with or without a quote, only the first without digits, and yields those numbers. |
| `HDPath.EmptyFirstLevel` | src/HDKey/HDKey.cpp:46-74 | The first level may lack its number: a leading slash and a lone quote are accepted, and read as zero. |
| `HDPath.MasterInsideLosesLevel` | src/HDKey/HDKey.cpp:30-32 | An 'm' after a digit is accepted and loses the level: the input for which the extension reads wrongly. |

## Left out

- `bitAnd`, `bitOr` and `bitXor`: blockwise loops without carries; the bitwise operators on words that the other methods use are modelled.
- Constructors from and conversions to signed primitive types: only unsigned ones and those the algorithms use are modelled.
- `BigUnsignedInABase` from an array of digits, its copy and its equality test: simpler twins of what is modelled.
- The sum, shift, compound assignment and negation operators, and the product of two `BigUnsigned`: each forwards to a modelled method with a new object or the receiver as target, which the contracts cover.
- `NumberlikeArray` as a class of its own: its fields and methods are members of the two classes that inherit it.
- Overflow of `int` and `Index` for absurd lengths: lengths and digit counts are unbounded naturals; a shift amount is a 32-bit int.
- Freeing memory, and NULL for an array of capacity zero, which is an empty array here.
- Stream output and the global stream flags.
- Reading an extended key, deriving a key, decoding and verifying a signature, serializing a preimage: function-valued parameters, so every claim holds for all of them; a key stands for its hexadecimal text.
- OrderSignatures: an input whose merge looks at the device's signature must have one, since the code would read beyond its vector; the result map starts empty, as its only caller passes it.
- `SignTX`, `BuildRedeemScript`, `GetAddress` and transaction (de)serialization: they forward to the token and to script code that is not part of this model.
- `chainCodeFromPolkadotPath` and the `hdnode` derivation loops of `HDKey.cpp`.
- Device, transport, bridge, logging and the other coins' contexts, and all cryptography.
