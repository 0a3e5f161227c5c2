# Proofs about the ciphers, codecs and curves of aes_core

This project models four components in Dafny and proves what they are for.

* **Scalar multiplication** in Crypto++ (`algebra.cpp`, `ecp.cpp`, `ec2n.cpp`). A group is a record of operations with
  the abelian group laws as a hypothesis, and k·P is repeated addition (`Groups.Times`). The signed sliding windows with
  buckets, the interleaved two-base windows, the heap-driven cascade and the projective version with batched inversion
  are each proved to compute it. For the curves of both files the hypothesis is discharged down to
  associativity: closure, identity, inverses and commutativity of the chord-and-tangent operations are proved, the
  closure by reflecting polynomial identities from the integers into an arbitrary commutative ring (`Rings.RingIdentity`).
* **AES and GCM** in `c/aes.c` and the AES bench (`bench/aes.c`). The S-box is a parameter, and Te and Td are defined
  from it. The cipher of FIPS 197 (section 5.1), its equivalent inverse (section 5.3.5) and the key schedule
  (section 5.2) are functions; the table-driven loops, the in-place schedules and the on-the-fly encryptors are
  methods proved against them. GF(2^128) is lists of 128 bits with multiplication as a sum of shifts (section 6.3 of
  NIST SP 800-38D); all four GMULTs and all four GHASHes are proved against it.
* **Streaming authentication** in Crypto++ (`authenc.cpp`, `ccm.cpp`, `eax.cpp`, `cmac.cpp`, `cbcmac.cpp`). The block
  cipher is any function on blocks. Each class carries, as ghost state, the data it has been fed, and its invariant says
  what the registers hold as a function of that data alone, so that the result cannot depend on how calls split it.
  `AuthEncRuns` puts whole messages through and back.
* **Codecs and a checksum** in Crypto++ (`basecode.cpp`, `asn.cpp`, `asn.h`, `adler32.cpp`): each printer and parser is
  proved against a specification, and the specifications against each other.

Where the source updates objects and buffers in place, the model is a class or an array, and its methods tie the new
state to a function of the old one. The lemmas are about those functions.

What an operation means is stated twice: by the function that its methods are proved against, and in a module of its own,
by a definition that shares no part with that function. The two are connected for all inputs. So are the
curve operations (`EcpLines`, `Ec2nLines`: lines meeting the curve), AES and its key schedule (`AesReference`), the product
and the modes (`Gf128Reference`, `GcmReference`, `CbcReference`), the MACs and their modes (`MacReference`,
`CcmReference`, `AuthReference`), and the codecs (`BaseNReference`, `DerReference`, `AdlerReference`).

## What the proofs found

* `ECP::SimultaneousMultiply` hands the empty window list of a zero exponent to `GeneralCascadeMultiplication`, which
  dereferences its first element. The model has no result then, and exactly then (`EcpMultiplication.SimultaneousMultiply`).
  `ECP::ScalarMultiply` avoids it, because short exponents take the generic path.
* An object identifier is read back exactly when its second arc is below 40 and the first two fit in a byte;
  2.48 comes back as 3.8 (`Der.OidRoundTripIff`, `Der.TwoFortyEight`).
* `Resynchronize` of EAX in the middle of a message does not restart the MAC object, and what is left in it goes into
  the tag of the next message. With the identity as cipher, two calls of `Resynchronize` are enough
  (`EaxRestarts.ResynchronizedTwice`). The next tag is sure to be the EAX tag exactly when a key has just been set or the
  last `TruncatedFinal` returned Done (`EaxRestarts.SureExactlyWhenIdle`). Sure means under every permutation of the
  blocks with its own subkeys; for one of them the leftover stays hidden exactly when it is whole blocks that take the
  register back to zero (`EaxLeftovers.HiddenIff`). The result is for leftovers of at most half as many blocks as there
  are blocks, 2^63 at the least, which is more than the 64-bit totals of the source count. It cannot go without a bound:
  there is a number of zero blocks that no permutation shows (`EaxLeftovers.ZeroesNeverShow`).

* For ciphers with blocks of 32 bytes `CMAC_Base` reduces by u^256 + u^10 + u^5 + u + 1, which has the factor
  u^2 + u + 1 (`MacReference.FactorFor32`): the multiplications that give the subkeys are then not those of a field.

## Layout

| files | what they hold |
|---|---|
| Bits, Groups, Witnesses | powers of two, shifts; abelian groups and multiples; instances of every hypothesis |
| WindowSlider, SimultaneousMultiply, Cascade, GeneralCascade | the four algorithms of algebra.cpp |
| Rings, Fields, Quotient | commutative rings and identities in them; fields and batched inversion; extended Euclid |
| Ecp, Ec2n, Ec2nGroup, Jacobian, EcpMultiply | curve operations and their groups; projective doubling; the multiplication of ecp.cpp |
| EcpLines, Ec2nLines | lines that meet the curves in three points |
| AesBlock, AesTables, KeySchedule, AesKey, AesRounds, Cbc, Aes | AES and CBC of c/aes.c |
| InlineAes, InlineEncrypt | the encryptors of bench/aes.c |
| Gf128, GcmBits, Gmult, ReductionTable, GmultTable, GmultWords, Ghash, Gcm | GCM of c/aes.c |
| AesReference, CbcReference | AES and CBC byte by byte |
| Gf128Reference, GcmReference | products of polynomials modulo a polynomial; GCM in closed form |
| SideBySide | alternative forms of one computation run on the same input |
| Buffers, XorBuffers, Pieces, Numerals, WordNumerals | splicing, exclusive-or, data in pieces, numbers in bytes |
| BlockCiphers, CbcMac, Cmac, Ccm, Eax, Authenc, AuthencRuns | authentication in Crypto++ |
| MacReference, CcmReference, AuthReference | the MACs byte by byte; the blocks of CCM read back; messages of CCM and EAX in closed form |
| BlockCounting, InvertibleCiphers, EaxLeftover, EaxRestart | counting blocks; permutations of blocks; EAX over a MAC object that was not empty |
| BaseBits, BaseN, BaseNDecode, BaseNSixtyFour, BaseNRuns | base-N coding |
| Der, Adler32 | DER; Adler-32 |
| BaseNReference, DerReference, AdlerReference | the codecs bit by bit and digit by digit; the checksum as sums |

## Model

| member | source | states |
|---|---|---|
| WindowSliders.RecodeValue | cryptopp561/algebra.cpp:219-246 | the signed digits, each weighted by two to the power of its position, add up to the exponent, for every exponent, width and either sign convention |
| WindowSliders.RecodeWellFormed | cryptopp561/algebra.cpp:234-246 | every digit is odd and fits the bucket table, windows do not overlap, nothing is negated unless allowed; there is no window exactly when the exponent is zero |
| WindowSliders.WindowSlider.constructor | cryptopp561/algebra.cpp:208-217 | a slider starts with all windows of the exponent ahead of it, at the width given or chosen from the exponent's length |
| WindowSliders.WindowSlider.FindNextWindow | cryptopp561/algebra.cpp:219-246 | each call drops the current window from the remaining list (the first call none); finished exactly when none is left; otherwise begin and signed digit are those of the next one |
| SimultaneousMultiplication.IndexInRange | cryptopp561/algebra.cpp:281-285 | the bucket index expWindow/2 is inside the table, and bucket j with the sign of the window stands for the window's contribution |
| SimultaneousMultiplication.AddToBucket | cryptopp561/algebra.cpp:279-287 | adding the running power or its inverse to the bucket keeps the invariant that buckets and remaining windows together stand for the exponent |
| SimultaneousMultiplication.WeightedBySuffixes | cryptopp561/algebra.cpp:302-311 | the weighted sum of the buckets is twice the sum of suffix sums and once the total |
| SimultaneousMultiplication.CollectBuckets | cryptopp561/algebra.cpp:298-312 | the suffix-sum pass yields the sum of (2j+1)·bucket[j] |
| SimultaneousMultiplication.FillBuckets | cryptopp561/algebra.cpp:270-296 | the doubling loop terminates with every slider finished and every window accounted for |
| SimultaneousMultiplication.SimultaneousMultiply | cryptopp561/algebra.cpp:254-313 | results[i] is e_i·base for every base, every list of exponents and either value of InversionIsFast |
| SimultaneousMultiplication.ScalarMultiply | cryptopp561/algebra.cpp:90-95 | the result is exponent·base |
| CascadeMultiplication.CellInjective | cryptopp561/algebra.cpp:103-128 | distinct pairs of coefficients have distinct places in the power table |
| CascadeMultiplication.FillTable | cryptopp561/algebra.cpp:105-129 | every entry with an odd coefficient is computed, and every computed entry is its combination of x and y |
| CascadeMultiplication.Normalise | cryptopp561/algebra.cpp:142-151 | halving both windows moves factors of two after the addition, ends with an odd window or with none, and squaresBefore never goes below zero |
| CascadeMultiplication.ApplyWindow | cryptopp561/algebra.cpp:142-166 | one window appends its bits to both coefficients, reading only entries that were filled |
| CascadeMultiplication.Scan | cryptopp561/algebra.cpp:131-169 | the scan over all bits ends with the combination of both exponents |
| CascadeMultiplication.CascadeScalarMultiply | cryptopp561/algebra.cpp:97-170 | the result is e1·x + e2·y for all non-negative exponents, whatever an unfilled entry holds |
| GeneralCascade.TopIsLargest | cryptopp561/algebra.cpp:184-189 | the first entry of a heap has the largest exponent |
| GeneralCascade.PushHeap | cryptopp561/algebra.cpp:198 | the last entry joins the heap; the pairs stay the same multiset |
| GeneralCascade.PopHeap | cryptopp561/algebra.cpp:185-199 | the first entry goes to the end and the rest is a heap; the pairs stay the same multiset |
| GeneralCascade.MakeHeap | cryptopp561/algebra.cpp:184 | the array becomes a heap of the same pairs |
| GeneralCascade.SumPermutation | cryptopp561/algebra.cpp:184-199 | the sum of exponent·base does not depend on the order of the pairs |
| GeneralCascade.DivideStep | cryptopp561/algebra.cpp:189-196 | replacing base b by b + q·l and exponent e_l by its remainder keeps e_b·b + e_l·l |
| GeneralCascade.DivideLargest | cryptopp561/algebra.cpp:189-196 | one pass of the loop keeps the sum over all pairs and strictly decreases the total of the exponents |
| GeneralCascade.AllZero | cryptopp561/algebra.cpp:187-202 | when the largest remaining exponent is zero, only the last pair contributes |
| GeneralCascade.GeneralCascadeMultiplication | cryptopp561/algebra.cpp:172-204 | the result is the sum of exponent_i·base_i, for one or more pairs |
| Quotients.EuclidStep | cryptopp561/algebra.cpp:77-85 | a step keeps v_i·a congruent to g_i modulo m and the remainders spanned by a and m, and makes the remainder smaller |
| Quotients.UnitWhenInvertible | cryptopp561/algebra.cpp:77-87 | if a has an inverse modulo m, every common divisor of the two is a unit |
| Quotients.QuotientIsInverse | cryptopp561/algebra.cpp:87 | dividing the coefficient by a unit remainder gives an inverse |
| Quotients.MultiplicativeInverse | cryptopp561/algebra.cpp:70-88 | in every Euclidean domain: an inverse modulo m when there is one, and zero when there is none |
| Quotients.Gcd | cryptopp561/algebra.cpp:56-68 | the result divides both arguments and every common divisor divides it |
| Fields.ProductInverse | cryptopp561/ecp.cpp:270-280 | the inverse of a nonzero product times one factor is the inverse of the other |
| Fields.InvertPair | cryptopp561/ecp.cpp:270-280 | from the inverse of the product both elements become their inverses, also when either is zero |
| Fields.ParallelInvert | cryptopp561/ecp.cpp:250-285 | every element of an array of any length becomes its inverse, zero staying zero, wherever zeros occur |
| Rings.RingIdentity | cryptopp561/ecp.cpp:225-247 | two polynomial expressions that agree on all integers agree in every commutative ring; the identities of the curve operations rest on it |
| Ecp.ChordIdentity | cryptopp561/ecp.cpp:225-232 | the defect of the third point times x2 - x1 is a combination of the defects of the two points |
| Ecp.ChordOnCurve | cryptopp561/ecp.cpp:225-232 | the sum of two points with different x is on the curve |
| Ecp.TangentOnCurve | cryptopp561/ecp.cpp:235-248 | the double of a point is on the curve |
| Ecp.Closed | cryptopp561/ecp.cpp:177-248 | Add, Double and Inverse of points that satisfy VerifyPoint satisfy it, in every case, over every field of odd characteristic |
| Ecp.AddCommutes | cryptopp561/ecp.cpp:218-233 | Add does not depend on the order of its arguments |
| Ecp.InverseCancels | cryptopp561/ecp.cpp:205-223 | a point plus its inverse is the identity |
| Ecp.CurveIsAbelian | cryptopp561/ecp.cpp:186-248 | the points form an abelian group if Add is associative |
| EcpLines.ChordMeets | cryptopp561/ecp.cpp:218-233 | what Add means: the line through two points with different x meets the curve in them and in the inverse of their sum; the equation of the curve along the line is the product of the three roots, at every x |
| EcpLines.TangentMeets | cryptopp561/ecp.cpp:235-248 | what Double means: the line with the slope of the tangent meets the curve twice in the point and once in the inverse of its double |
| EcpLines.SumIsInfinityIff | cryptopp561/ecp.cpp:218-248 | the sum of two points is the identity exactly when they have the same x and opposite y |
| Ec2n.ChordOnCurve | cryptopp561/ec2n.cpp:201-213 | the chord case of Add stays on the curve in characteristic 2 |
| Ec2n.TangentOnCurve | cryptopp561/ec2n.cpp:216-232 | Double stays on the curve in characteristic 2 |
| Ec2n.SameAbscissa | cryptopp561/ec2n.cpp:196-199 | two points of the curve with the same x are equal or inverse, so the cases before the chord are all there are |
| Ec2n.Closed | cryptopp561/ec2n.cpp:153-232 | Add, Double and Inverse keep VerifyPoint in every case, and Add divides only by a nonzero difference |
| Ec2nGroup.AddCommutes | cryptopp561/ec2n.cpp:194-214 | on the curve Add does not depend on the order of its arguments |
| Ec2nGroup.InverseCancels | cryptopp561/ec2n.cpp:181-214 | a point plus its inverse is the identity |
| Ec2nGroup.CurveIsAbelian | cryptopp561/ec2n.cpp:162-232 | the points form an abelian group if Add is associative, so that the multiplications of algebra.cpp apply |
| Ec2nLines.ChordMeets | cryptopp561/ec2n.cpp:194-214 | the line through two points with different x meets the curve in them and in the inverse of their sum |
| Ec2nLines.TangentMeets | cryptopp561/ec2n.cpp:216-232 | the tangent meets the curve twice in the point and once in the inverse of its double |
| Ec2nLines.SumIsInfinityIff | cryptopp561/ec2n.cpp:194-232 | the sum of two points is the identity exactly when they have the same x and their y differ by it |
| Jacobian.DoubledRepresents | cryptopp561/ecp.cpp:316-332 | the doubled coordinates of a Jacobian form of a point are a Jacobian form of its double, the identity and points of order two included |
| Jacobian.DoublingStep | cryptopp561/ecp.cpp:316-332 | doubling keeps aZ4·sixteenY4 = a·z^4 |
| Jacobian.ProjectiveDoubling.constructor | cryptopp561/ecp.cpp:299-314 | the start is a Jacobian form of the point with that invariant |
| Jacobian.ProjectiveDoubling.Double | cryptopp561/ecp.cpp:316-332 | the object stands for the double of the point it stood for, invariant kept |
| EcpMultiplication.RecordWindowsAt | cryptopp561/ecp.cpp:394-413 | every window that begins at this position is recorded against one base, which is added once and only if needed |
| EcpMultiplication.CollectBases | cryptopp561/ecp.cpp:389-420 | the loop terminates with all windows recorded, and bases[j] is a Jacobian form of 2^begin·P |
| EcpMultiplication.ConvertBases | cryptopp561/ecp.cpp:422-433 | after inversion and scaling each base reads as the affine point 2^begin·P, or as the identity when z is zero |
| EcpMultiplication.FinalCascade | cryptopp561/ecp.cpp:438-455 | the cascade over the recorded windows is e·P; no result exactly when the exponent is zero |
| EcpMultiplication.SimultaneousMultiply | cryptopp561/ecp.cpp:373-457 | results[i] is k_i·P for every list of positive exponents; there is a result exactly when no exponent is zero |
| EcpMultiplication.ScalarMultiply | cryptopp561/ecp.cpp:351-359 | k·P for every non-negative k |
| Witnesses.TimesIsProduct | cryptopp561/algebra.cpp:90-95 | in the additive group of the integers the multiples that the algorithms are proved to compute are products |
| Witnesses.DivisionIsEuclidean | cryptopp561/algebra.cpp:56-88 | the integers with their division satisfy what Gcd and MultiplicativeInverse assume of a domain |
| Witnesses.SmallIsAssociative | cryptopp561/ecp.cpp:218-248 | a curve with seven points over the field of three elements satisfies every hypothesis, associativity included; no point but the identity is its own inverse |
| Witnesses.SmallBinaryIsAssociative | cryptopp561/ec2n.cpp:194-232 | so does a curve with four points over the field of two elements, in characteristic 2 |
| AesBlock.InvMixUndoesMix | c/aes.c:965-989 | the inverse column transform undoes the column transform |
| AesBlock.InvMixIsLinear | c/aes.c:965-989 | the inverse column transform distributes over exclusive-or, which is why it can be moved into the round keys |
| AesBlock.InvRoundsMeetRounds | c/aes.c:1023-1308 | after n decryption rounds the state is what SubBytes and ShiftRows had produced rounds - n rounds in |
| AesBlock.DecryptUndoesEncrypt | c/aes.c:1023-1308 | for every pair of schedules that are reversed and transformed, any number of rounds and any block, decryption undoes encryption |
| AesTables.TeColumnIsRound | c/aes.c:1098-1120 | four lookups and the key word are SubBytes, ShiftRows, MixColumns and AddRoundKey of one column |
| AesTables.TdColumnIsRound | c/aes.c:1212-1265 | four lookups in Td are the inverse round of one column |
| AesTables.MaskedTe4IsWord | c/aes.c:1128-1151 | four masked lookups in Te[4] are the four substituted bytes side by side |
| AesTables.InvMixTableIsInvMix | c/aes.c:967-989 | Td indexed through Te[4] is InvMixColumns of a key word, for every permutation |
| KeySchedule.RconIsPower | c/aes.c:44-50 | rcon[n] is the nth power of x in the top byte |
| KeySchedule.Expand128 | c/aes.c:880-897 | the loop extends four key words to the 44 words of the schedule |
| KeySchedule.Expand192 | c/aes.c:899-918 | the loop extends six key words to 52 |
| KeySchedule.Expand256 | c/aes.c:920-947 | the loop extends eight key words to 60 |
| AesKeys.ReverseRoundKeys | c/aes.c:958-964 | the in-place swaps invert the order of the round keys, also when their number is odd |
| AesKeys.MixRoundKeys | c/aes.c:965-989 | InvMixColumns is applied to all round keys but the first and the last |
| AesKeys.MirroredAndMixed | c/aes.c:953-990 | expanding, reversing and mixing give the decryption schedule |
| AesKeys.SchedulesAreInverse | c/aes.c:862-993 | the two schedules of one key are related as section 5.3.5 of FIPS 197 requires |
| AesRounds.EncryptState | c/aes.c:1057-1151 | the unrolled pairs of rounds compute the cipher |
| AesRounds.DecryptState | c/aes.c:1202-1294 | the unrolled pairs of inverse rounds compute the equivalent inverse cipher |
| AesRounds.BlockRoundTrip | c/aes.c:862-1308 | for every permutation, every key of 16, 24 or 32 bytes and every block, decryption returns the block |
| AesReference.RowsAreProducts | c/aes.c:1098-1120 | MixColumns is the matrix product over polynomials modulo x^8 + x^4 + x^3 + x + 1, section 5.1.3 of FIPS 197 |
| AesReference.EncryptionAgrees | c/aes.c:1023-1165 | the cipher on words is the cipher that section 5.1 describes byte by byte, for any schedule |
| AesReference.ScheduleIsExpansion | c/aes.c:862-947 | read byte by byte, the schedule obeys the recurrence of section 5.2: each byte is the one a key length before it plus the byte of the word before, rotated, substituted and with a round constant where they are due |
| AesReference.ExpansionIsUnique | c/aes.c:862-947 | only one string of bytes obeys it |
| AesReference.KeyedEncrypts | c/aes.c:862-1165 | under the key array of AesSetKey, blocks become their encryption by FIPS 197, and the array holds the expansion |
| AesReference.EncryptionIsUnique | c/aes.c:862-1165 | key and block determine it |
| AesReference.RoundConstants | c/aes.c:44-50 | the ten round constants, literally |
| AesReference.ExpansionExample | c/aes.c:880-897 | the first word derived in appendix A.1 of FIPS 197 |
| AesCipher.Aes.SetKey | c/aes.c:862-1020 | the key array holds the schedule for the direction and reg the IV if there is one; an illegal length is an error that changes nothing |
| AesCipher.Aes.EncryptOne | c/aes.c:1023-1165 | the output block is the encryption of the input block; an object without a key writes nothing |
| AesCipher.Aes.DecryptOne | c/aes.c:1168-1308 | the same for decryption |
| Cbc.KeyedAreInverse | c/aes.c:862-1308 | the block functions under the two schedules of one key are inverse |
| Cbc.CbcRoundTrip | c/aes.c:1334-1380 | decrypting what was encrypted returns the plaintext, for every IV and number of blocks |
| Cbc.EncryptedInTwoCalls | c/aes.c:1334-1342 | encrypting in two calls from the last ciphertext block is encrypting in one |
| Cbc.DecryptedInTwoCalls | c/aes.c:1371-1380 | the same for decryption |
| AesCipher.Aes.CbcEncrypt | c/aes.c:1311-1342 | the output holds the chained encryption and reg its last block, also when the output is the input |
| AesCipher.Aes.CbcDecrypt | c/aes.c:1345-1380 | the same for decryption |
| AesCipher.EncryptInTwoCalls | c/aes.c:1311-1342 | two calls in place, reg carried between them, leave what one would |
| AesCipher.CbcThereAndBack | c/aes.c:1311-1380 | encrypting in place in two calls and decrypting in place in one restores the buffer |
| CbcReference.EncryptedIsCbc | c/aes.c:1334-1342 | every block of ciphertext is the encryption of the block of plaintext with the block of ciphertext before it, or the IV, added byte by byte |
| CbcReference.DecryptedIsCbcInverse | c/aes.c:1371-1380 | every byte of plaintext is that of the decrypted block plus that of the block of ciphertext before it, or the IV |
| CbcReference.CbcEncryptsByStandard | c/aes.c:1311-1342 | that is what a call leaves where it should, reg holds the last block of ciphertext, and no other byte changes |
| CbcReference.CbcDecryptsByStandard | c/aes.c:1345-1380 | the same for decryption |
| InlineAes.RotatedTables | bench/aes.c:32-57 | rotated, the one table gives the four tables of c/aes.c, byte-reversed |
| InlineAes.NextRconIsXTime | bench/aes.c:77-80 | the signed-char arithmetic on rcon is multiplication by x in GF(2^8) |
| InlineAes.ColumnIsRound | bench/aes.c:86-111 | the lookups into one column are one column of a round on byte-reversed words |
| InlineAes.FullRound | bench/aes.c:86-111 | a round on little-endian words is the round of the cipher |
| InlineAes.MaskedRound | bench/aes.c:41-47 | the masks of the last round leave SubBytes, ShiftRows and AddRoundKey |
| InlineAes.ByteRound | bench/aes.c:162-174 | the byte-wise last round does the same |
| InlineEncrypt.Encrypt128 | bench/aes.c:59-113 | the state is the encryption under the expanded key |
| InlineEncrypt.Encrypt128NoBranch | bench/aes.c:115-175 | the same |
| InlineEncrypt.Encrypt192 | bench/aes.c:177-300 | the same with six key words and the loop entered in the middle |
| InlineEncrypt.Encrypt256 | bench/aes.c:302-385 | the same with eight key words |
| InlineEncrypt.InlineIsExpandThenEncrypt | bench/aes.c:59-385 | the 16 bytes left are those of expanding the key first and then encrypting, for every length of key |
| InlineEncrypt.EncryptedIsUnique | bench/aes.c:59-175 | the words left are determined by key, number of rounds and block |
| SideBySide.BothForms | bench/aes.c:59-175 | run on the same key and block, the branching and the branch-free form leave the same words |
| SideBySide.OnTheFly | bench/aes.c:59-385 | run on a key of any length and a block, the on-the-fly encryptors give the encryption by FIPS 197 |
| SideBySide.ExpandedFirst | c/aes.c:862-1165 | so do AesSetKey and AesEncrypt |
| SideBySide.OnTheFlyAndExpanded | bench/aes.c:59-385 | run on the same key and block, the two give the same 16 bytes |
| GcmBits.RightShiftX | c/aes.c:1538-1551 | the byte-wise shift with its reduction is multiplication by x |
| Gf128.MulIsLinear | c/aes.c:1605-1627 | the product distributes over exclusive-or |
| Gf128.MulMulSwap | c/aes.c:1605-1627 | multiplying by y and then z is multiplying by z and then y |
| Gf128.MulIsCommutative | c/aes.c:1605-1627 | the product does not depend on the order of its factors |
| Gf128Reference.ProductModulo | c/aes.c:1605-1627 | the product is the one and only remainder of the product of polynomials modulo x^128 + x^7 + x^2 + x + 1 |
| Gf128Reference.CoefficientOfByte | c/aes.c:1538-1551 | coefficient 8 i + j of a block is the bit of weight 2^(7 - j) of byte i |
| Gmult.GmultSerial | c/aes.c:1605-1627 | X becomes X·Y |
| GmultTable.IndexOfSum | c/aes.c:1570-1575 | the row index i + j is the exclusive-or of i and j |
| GmultTable.GenerateM0 | c/aes.c:1558-1578 | row n of the table is H times the polynomial with the bits of n |
| ReductionTable.LiteralIsR | c/aes.c:1687-1751 | every entry of the literal R is the first two bytes of eight shifts with reduction |
| GmultTable.TimesX8 | c/aes.c:1764-1771 | moving all bytes up and adding R of the one that falls off is multiplication by x^8 |
| GmultTable.GmultByTable | c/aes.c:1754-1776 | x becomes x·H, for a table of H |
| GmultWords.ShiftWords | c/aes.c:1975-1992 | the shift over four words is multiplication by x |
| GmultWords.Gmult32 | c/aes.c:1957-2000 | X becomes X·Y on four words |
| GmultWords.ShiftPair | c/aes.c:1851-1861 | the shift over two long words is multiplication by x |
| GmultWords.Gmult64 | c/aes.c:1835-1867 | X becomes X·Y on two long words |
| GmultTable.ProductIsUnique | c/aes.c:1605-2000 | the bits of the product determine the bytes of the block |
| SideBySide.FourProducts | c/aes.c:1605-2000 | run on the same two blocks, the four forms of GMULT leave the same bytes |
| Ghash.FlattenIsBitCount | c/aes.c:1520-1535 | the shifts and masks give eight times the size as a 64-bit number, for every 32-bit size |
| WordNumerals.FlattenIsEightTimes | c/aes.c:1520-1535 | they write eight times the number of bytes in eight bytes, most significant first |
| Ghash.GhashBytes | c/aes.c:1630-1682 | the bit-serial build computes the hash of section 6.4 over padded data and lengths |
| Ghash.GhashWords32 | c/aes.c:2003-2097 | so does the build on 32-bit words |
| Ghash.GhashWords64 | c/aes.c:1870-1952 | so does the build on 64-bit words |
| Ghash.GhashMethod | c/aes.c:1603-2099 | whichever build is chosen, the result is that hash |
| Ghash.GhashIsUnique | c/aes.c:1603-2099 | the hash determines the block, so the builds agree |
| Gcm.IncrementGcmCounter | c/aes.c:1476-1485 | the last four bytes count up as one big-endian word that wraps around; the other twelve stay |
| Gcm.NextCounterKeepsIv | c/aes.c:1467-1485 | counting does not touch what the first counter block is made of |
| Gcm.CtrRoundTrip | c/aes.c:2120-2134 | counter mode undoes itself, for every length |
| Gcm.CtrCrypt | c/aes.c:2174-2188 | the loop and the partial block apply counter mode, also in place |
| Gcm.AesGcmSetKey | c/aes.c:1583-1600 | the key, the hash key and the table are set up and the IV is the implicit part with zeros; an illegal length changes nothing, H and the table included |
| Gcm.AesGcmEncrypt | c/aes.c:2102-2139 | out gets counter mode of the plaintext and authTag the tag of section 7.1, cut to its length; nothing else changes |
| Gcm.AesGcmDecrypt | c/aes.c:2142-2191 | success exactly when the tag is right; then out gets the plaintext, otherwise it is untouched |
| Gcm.TagIsUnique | c/aes.c:2135-2138 | the tag is determined by key, IV, associated data, ciphertext and length |
| Gcm.EncryptThenDecrypt | c/aes.c:2102-2191 | decrypting what was encrypted, with the tag that came with it, succeeds and returns the plaintext, for every length, tag size up to 16 and build |
| GcmReference.NextIsNumbered | c/aes.c:1476-1485 | counting turns the counter block of the number n into that of n + 1, modulo 2^32 |
| GcmReference.CtrIsGcmText | c/aes.c:2112-2134 | byte i of the output is byte i of the input plus byte i mod 16 of the encryption of the 96 bits of the IV and the number i / 16 + 2, modulo 2^32; the partial last block included |
| GcmReference.HashIsStandard | c/aes.c:1630-1682 | the hash is Algorithm 2 of NIST SP 800-38D over both texts, each filled up with zeros, and their lengths in bits |
| GcmReference.TagIsGcmTag | c/aes.c:2135-2138 | a tag is right exactly when each of its bytes is that of the hash plus that of the encryption of the IV and the number 1, the hash key being the encryption of the zero block |
| GcmReference.EncryptsByStandard | c/aes.c:2102-2139 | AesGcmEncrypt leaves this text and this tag, for every length, and changes nothing else |
| GcmReference.DecryptsByStandard | c/aes.c:2142-2191 | AesGcmDecrypt accepts exactly this tag and then leaves this text |
| BlockCiphers.AdvancedProcessBlocks | cryptopp561/cryptlib.cpp:159-176 | the register becomes the chaining of all whole blocks, and the result is how many bytes are left over |
| CbcMacs.ChainedInTwo | cryptopp561/cbcmac.cpp:16-41 | absorbing m and then more is absorbing more after what m left over |
| CbcMacs.CbcMacState.Update | cryptopp561/cbcmac.cpp:16-41 | after any calls the register and counter are those of the concatenated input |
| CbcMacs.CbcMacState.TruncatedFinal | cryptopp561/cbcmac.cpp:43-58 | the result is the CBC-MAC, zero-padded, of everything fed in, cut to size; then a fresh start |
| MacReference.CbcMacIsStandard | cryptopp561/cbcmac.cpp:16-58 | the CBC-MAC is the last block of cipher block chaining from zero over the message filled up with zeros |
| Cmacs.MulU | cryptopp561/cmac.cpp:11-41 | the in-place shift is multiplication by u modulo the polynomial of 8, 16 or 32 byte blocks; any other length, even or odd, is an error exactly when a bit falls off the bytes it processes |
| Cmacs.CmacState.constructor | cryptopp561/cmac.cpp:43-56 | the subkeys are u and u^2 times the encryption of zero, section 6.1 of NIST SP 800-38B |
| Cmacs.AbsorbedInTwo | cryptopp561/cmac.cpp:58-97 | with the last block held back, absorbing in two calls is absorbing at once |
| Cmacs.PrimedByBlocks | cryptopp561/cmac.cpp:81-87 | processing all but the last byte in blocks leaves between one byte and one block |
| Cmacs.HoldsFinal | cryptopp561/cmac.cpp:106-112 | a full last block takes the first subkey and a partial one, with 0x80 after it, the second |
| Cmacs.CmacState.Update | cryptopp561/cmac.cpp:58-97 | after any calls the register and counter are those of the concatenated input |
| Cmacs.CmacState.TruncatedFinal | cryptopp561/cmac.cpp:99-118 | the MAC of section 6.2 of NIST SP 800-38B of everything fed in, cut to size; then a fresh start |
| MacReference.MacIsCmac | cryptopp561/cmac.cpp:58-118 | the MAC is the last block of cipher block chaining over the message with the first subkey added to a last block that is whole, and otherwise a one bit, zeros and the second subkey, byte by byte |
| MacReference.TimesUBit | cryptopp561/cmac.cpp:11-41 | the subkeys bit by bit: every bit moves up by one, and the one that falls off comes back at the exponents of the polynomial |
| MacReference.FactorFor32 | cryptopp561/cmac.cpp:33-36 | the polynomial for blocks of 32 bytes has the factor u^2 + u + 1 |
| Numerals.BigEndianRoundTrip | cryptopp561/ccm.cpp:63-88 | the length fields can be read back |
| Numerals.BigEndianByte | cryptopp561/ccm.cpp:63-88 | byte i of k is the digit of weight 256^(k - 1 - i) |
| CcmMode.OpenCbc | cryptopp561/ccm.cpp:62-65 | the CBC buffer is the encryption of B0 of section 2.2 of RFC 3610, the nonce covering the unused length bytes |
| CcmMode.OpenHeader | cryptopp561/ccm.cpp:67-90 | the buffer starts with the header length in one of its three encodings |
| CcmMode.PartsAreT | cryptopp561/ccm.cpp:51-130 | B0, the padded header and the padded message processed one after the other are the CBC-MAC of the formatted blocks |
| CcmReference.B0IsFirstBlock | cryptopp561/ccm.cpp:62-65 | read back by section 2.2 of RFC 3610, the first block says whether there is a header, the tag length, the size of the length field, the nonce and the length of the message |
| CcmReference.FirstBlockIsUnique | cryptopp561/ccm.cpp:62-65 | no other block says so |
| CcmReference.PrefixReadBack | cryptopp561/ccm.cpp:67-90 | the length in front of the header can be told from its first two bytes, in all three encodings |
| CcmReference.TIsStandard | cryptopp561/ccm.cpp:51-130 | T is the last block of cipher block chaining over the first block, the header behind its length and the message, each filled up with zeros |
| CcmReference.FormattedIsInjective | cryptopp561/ccm.cpp:51-130 | these blocks determine tag length, nonce, header and message |
| CcmReference.CounterBlockIsFirst | cryptopp561/ccm.cpp:28-48 | the first counter block is A_0 of section 2.3: the size of the counter, the nonce and the number 0 |
| EaxMode.CleanTag | cryptopp561/eax.cpp:14-57 | with nothing left in the MAC object the tag is OMAC_0(nonce) xor OMAC_1(header) xor OMAC_2(ciphertext) |
| MacReference.EaxTagByte | cryptopp561/eax.cpp:14-57 | byte i of the tag is the sum of the bytes i of three CMACs: of the nonce behind the number 0 in a block, of the header behind 1 and of the ciphertext behind 2 |
| EaxLeftovers.MacsAgreeIff | cryptopp561/cmac.cpp:58-118 | under a permutation two registers lead to the same MAC of the rest of a message only if they are equal |
| EaxLeftovers.WholeBlocksShow | cryptopp561/eax.cpp:14-57 | whole blocks left in the MAC object show in the tag, for every nonce, header and ciphertext, unless they take the register back to zero |
| EaxLeftovers.PartOfBlockShows | cryptopp561/eax.cpp:14-57 | with part of a block left over the tag is wrong for one of the nonces 0 and 1, under every permutation |
| EaxLeftovers.HiddenIff | cryptopp561/eax.cpp:14-57 | for every permutation and any keys: a leftover never shows exactly when it is whole blocks whose chain ends in zero |
| EaxLeftovers.LeftoverShows | cryptopp561/eax.cpp:14-57 | for every leftover within the bound there is a permutation, with its own subkeys, under which it shows |
| EaxLeftovers.AlwaysEaxIffClean | cryptopp561/eax.cpp:14-57 | within the bound, the tag is the EAX tag for every permutation, nonce, header and ciphertext exactly when nothing is left over |
| EaxLeftovers.ZeroesNeverShow | cryptopp561/eax.cpp:14-57 | the bound is needed: a certain positive number of zero blocks shows under no permutation |
| EaxRestarts.SureExactlyWhenIdle | cryptopp561/authenc.cpp:62-73 | the next tag is sure to be the EAX tag exactly when a key has just been set or the last TruncatedFinal returned Done |
| EaxRestarts.Interrupted | cryptopp561/authenc.cpp:62-102 | the tag after a message abandoned in its header, and for a header of whole blocks exactly when it is the EAX tag |
| EaxRestarts.ResynchronizedTwice | cryptopp561/eax.cpp:14-27 | with the identity as cipher, two calls of Resynchronize lead to a tag that is not the EAX tag, whatever the nonces |
| AuthEnc.FilledBlock | cryptopp561/authenc.cpp:17-28 | filling up the buffered block and processing it is chaining the two pieces together |
| AuthEnc.AuthenticatedCipher.AuthenticateData | cryptopp561/authenc.cpp:11-46 | what is buffered and the new input are chained as if they had come at once; EAX passes everything on |
| AuthEnc.CcmHeaderEnds | cryptopp561/ccm.cpp:100-114 | closing the header leaves the register of the padded header |
| AuthEnc.CcmTextEnds | cryptopp561/ccm.cpp:116-130 | closing the text leaves the CBC-MAC of all formatted blocks |
| AuthEnc.AuthenticatedCipher.CloseHeader | cryptopp561/ccm.cpp:100-114 | an error exactly when CCM's declared header length is wrong; otherwise the hook fires once and the message starts |
| AuthEnc.AuthenticatedCipher.CloseText | cryptopp561/ccm.cpp:116-130 | the same at the end of the message |
| AuthEnc.AuthenticatedCipher.constructor | cryptopp561/authenc.cpp:48-60 | a key is set, no IV, and the MAC object is empty |
| AuthEnc.AuthenticatedCipher.Resynchronize | cryptopp561/authenc.cpp:62-73 | a new session with this nonce and nothing fed in, over whatever the MAC object of EAX still held; an error exactly for a CCM nonce outside 7 to 13 bytes |
| AuthEnc.AuthenticatedCipher.SpecifyDataLengths | cryptopp561/ccm.cpp:51-91 | the lengths are declared, with every error case; they count for the tag exactly when the nonce is still in the buffer for B0 |
| AuthEnc.AuthenticatedCipher.Update | cryptopp561/authenc.cpp:75-102 | the input is appended to the header, or after the message to the footer; empty input does nothing; the errors exactly |
| AuthEnc.AuthenticatedCipher.ProcessData | cryptopp561/authenc.cpp:104-134 | the output is the next stretch of keystream over the input, and plaintext (CCM) or ciphertext (EAX) is appended to what is authenticated; the errors exactly |
| AuthEnc.AuthenticatedCipher.TruncatedFinal | cryptopp561/authenc.cpp:136-176 | in a run without errors the three hooks have fired once each and in order, and the tag is that of the session, whatever the split; then the MAC object is empty |
| AuthEnc.AuthenticatedCipher.Restart | cryptopp561/authenc.h:20 | the message is abandoned and the MAC object keeps what it holds |
| AuthEnc.StreamedTwice | cryptopp561/authenc.cpp:123-130 | the keystream applied twice from one position gives the data back |
| AuthEncRuns.Run | cryptopp561/authenc.cpp:62-176 | a whole message in any pieces, either mode, either direction: no call fails exactly when nonce and lengths are admissible, and output and tag are functions of nonce, header and text |
| AuthEncRuns.ThereAndBack | cryptopp561/authenc.cpp:62-176 | decryption of what encryption produced returns the text and computes the same tag, however header, text and ciphertext are cut on either side |
| AuthReference.RunByStandard | cryptopp561/authenc.cpp:62-176 | whatever the pieces and the direction, plaintext, ciphertext and tag are those of RFC 3610, with the text under the keystream from one block after A_0 and the tag under its first block, or those of EAX, with the MACs spelled out |
| BaseNEncoding.CharsInTwo | cryptopp561/basecode.cpp:73-84 | what a full block sends on comes first in the encoding of the whole |
| BaseNEncoding.BaseNEncoder.BlockBits | cryptopp561/basecode.cpp:31-34 | the block is the smallest number of bits that is whole bytes and whole characters |
| BaseNEncoding.BaseNEncoder.PlaceByte | cryptopp561/basecode.cpp:47-70 | the inner loop appends the eight bits of the byte to those in the block, inside the buffer |
| BaseNEncoding.BaseNEncoder.Put2 | cryptopp561/basecode.cpp:39-104 | after any calls with a message end the output is the encoding of the concatenated input, padding included |
| BaseNDecoding.DecodedInTwo | cryptopp561/basecode.cpp:124-132 | the bits of two texts are those of their concatenation |
| BaseNDecoding.BaseNDecoder.Put2 | cryptopp561/basecode.cpp:124-167 | after any calls with a message end the output is the whole bytes of the characters that are not skipped |
| BaseNDecoding.InitializeDecodingLookupArray | cryptopp561/basecode.cpp:169-188 | for an injective alphabet no entry is set twice, and an entry is set exactly when its character stands for a member, to that member's place |
| BaseNDecoding.FilledInverts | cryptopp561/basecode.cpp:169-188 | such a table inverts the alphabet and skips every other character |
| BaseNDecoding.GroupedInTwo | cryptopp561/basecode.cpp:208-224 | grouping two texts one after the other is grouping their concatenation |
| BaseNDecoding.Grouper.Put2 | cryptopp561/basecode.cpp:205-234 | after any calls the output is the concatenated input with separators, and at a message end the terminator |
| BaseNDecoding.DecodedOfGrouped | cryptopp561/basecode.cpp:130-132 | separators that are skipped do not change what a text stands for |
| BaseNDecoding.BaseNRoundTrip | cryptopp561/basecode.cpp:39-234 | every message comes back from its encoding, grouped or not, padded or not, for 1 to 7 bits per character |
| BaseNRuns.ThereAndBack | cryptopp561/basecode.cpp:31-234 | encoder, grouper, table and decoder together, each fed in any pieces, return the message for every injective alphabet with foreign padding, separator and terminator |
| Base64.ValuesAgree | cryptopp561/basecode.cpp:47-70 | with six bits per character the values are those of section 4 of RFC 4648 |
| Base64.EncodedIsBase64 | cryptopp561/basecode.cpp:39-104 | with 64 characters and padding the output is Base 64 of RFC 4648 |
| Base64.BlocksOfFour | cryptopp561/basecode.cpp:31-34 | six bits per character make blocks of four characters |
| BaseNReference.EncodedBit | cryptopp561/basecode.cpp:39-104 | bit j of the n bits of character k is bit n k + j of the message, zero beyond its end, and there are as few characters as hold all the bits |
| BaseNReference.PadCompletes | cryptopp561/basecode.cpp:86-101 | the padding is the least that completes a block |
| BaseNReference.DecodedBit | cryptopp561/basecode.cpp:124-167 | bit 8 i + j of the output is the bit with that number of the characters that are not skipped |
| BaseNReference.DecodedSize | cryptopp561/basecode.cpp:124-167 | as many whole bytes come out as those characters have bits for |
| BaseNReference.GroupedIsSeparated | cryptopp561/basecode.cpp:205-224 | grouping cuts the text into pieces of the size with the separator between them |
| BaseNReference.LettersMatch | cryptopp561/basecode.cpp:169-188 | without regard to case a letter also stands for the one that differs from it in the case bit of ASCII alone |
| Der.BytePrecision | cryptopp561/misc.h:217-235 | the bisection finds the number of bytes |
| Der.BitPrecision | cryptopp561/misc.h:237-255 | the bisection finds the number of bits |
| Der.DERLengthEncode | cryptopp561/asn.cpp:16-35 | the length in its shortest form is appended, and the count of bytes returned |
| Der.BERLengthDecode | cryptopp561/asn.cpp:37-73 | the length, or each kind of failure, as a function of the bytes; exactly its bytes are consumed |
| Der.LengthRoundTrip | cryptopp561/asn.cpp:16-73 | every 64-bit length is read back and nothing after it consumed; the overflow check never fires |
| Der.EncodeValue | cryptopp561/asn.cpp:218-223 | the base-128 digits, all but the last marked, are appended |
| Der.DecodeValue | cryptopp561/asn.cpp:225-242 | the value, or failure, as a function of the bytes |
| Der.ArcRoundTrip | cryptopp561/asn.cpp:218-242 | every 32-bit arc is read back from its own bytes |
| Der.Oid.DEREncode | cryptopp561/asn.cpp:244-254 | the tag, the length and the body are appended |
| Der.Oid.BERDecode | cryptopp561/asn.cpp:256-283 | success and arcs as a function of the bytes; arcs must end exactly where the declared length does |
| Der.OidDecoded | cryptopp561/asn.cpp:244-283 | what comes back has the first two arcs replaced by quotient and remainder of their byte |
| Der.OidRoundTripIff | cryptopp561/asn.cpp:244-283 | an identifier is read back exactly when its second arc is below 40 and the first two fit in a byte |
| Der.TwoFortyEight | cryptopp561/asn.cpp:248-272 | 2.48 is read back as 3.8 |
| Der.ContentsAreMinimal | cryptopp561/asn.h:307-314 | the contents are non-negative and in the fewest bytes, section 8.3 of X.690 |
| Der.DEREncodeUnsigned | cryptopp561/asn.h:295-320 | tag, length and minimal contents are appended, 0xff or 0 for a BOOLEAN |
| Der.BERDecodeUnsigned | cryptopp561/asn.h:325-356 | the value, or failure, as a function of the bytes |
| Der.UnsignedRoundTrip | cryptopp561/asn.h:295-356 | every 32-bit value within the bounds is read back and exactly its bytes are consumed |
| DerReference.ParsedIsLength | cryptopp561/asn.cpp:37-73 | what is accepted as a definite length is one of the two forms of section 8.1.3 of X.690, below 2^64 |
| DerReference.LengthIsParsed | cryptopp561/asn.cpp:37-73 | and every such length is accepted, with leading zeros or without |
| DerReference.DerLengthIsLength | cryptopp561/asn.cpp:16-35 | the printed length has as many bytes as it declares and its number does not start with a zero |
| DerReference.DerLengthIsShortest | cryptopp561/asn.cpp:16-35 | it is the shortest of all strings that parse to the number, and the only one that short |
| DerReference.ArcIsArc | cryptopp561/asn.cpp:218-223 | the printed subidentifier is its number to the base 128 with the marks of section 8.19.2, and does not start with 0x80 |
| DerReference.ArcIsShortest | cryptopp561/asn.cpp:218-223 | it is the shortest of all that stand for the number, and the only one that short |
| DerReference.ParsedIsArc | cryptopp561/asn.cpp:225-242 | what is accepted as a value is a subidentifier of 32 bits |
| DerReference.ArcIsParsed | cryptopp561/asn.cpp:225-242 | and every such subidentifier is accepted |
| DerReference.RsaIdentifier | cryptopp561/asn.cpp:244-254 | 1.2.840.113549 is 06 06 2a 86 48 86 f7 0d |
| DerReference.ContentsAreShortest | cryptopp561/asn.h:307-314 | the contents are the shortest that are the number in binary and not negative, and the only ones that short |
| DerReference.ParseUnsignedIff | cryptopp561/asn.h:325-356 | exactly a number of 32 bits within the bounds is accepted, however many zeros are in front of it, the first bit not taken for a sign |
| Adler32.BoundIsBelowWord | cryptopp561/adler32.cpp:29-47 | reducing s2 only at multiples of 0x8000 remaining bytes keeps it below 2^32, for every length |
| Adler32.Adler.Update | cryptopp561/adler32.cpp:8-54 | after any calls s1 and s2 are the reduced sums of section 2.2 of RFC 1950 of the concatenated input; no addition leaves 32 bits and both final assertions hold |
| Adler32.Adler.TruncatedFinal | cryptopp561/adler32.cpp:56-75 | the first size bytes of the checksum, most significant first; then a fresh start; more than four are refused and change nothing |
| AdlerReference.SumsInClosedForm | cryptopp561/adler32.cpp:8-54 | s1 is 1 plus the sum of the bytes, and s2 their number plus the sum of each byte as often as there are bytes from it on, both modulo 65521 |
| AdlerReference.BytesOfChecksum | cryptopp561/adler32.cpp:56-75 | the four bytes write s2 times 2^16 plus s1 |
| AdlerReference.ChecksumOfAbc | cryptopp561/adler32.cpp:8-75 | the checksum of abc is 024d0127 |

## Left out

* The literal S-box, Te, Td and table_0: the S-box is a parameter and the tables are defined from it. The literal rcon and R are checked.
* AES-NI, `AesCtrEncrypt`, the direct single-block interface and the explicit-IV helpers of c/aes.c.
* `AesCbcEncrypt`, `AesCbcDecrypt` and GCM on an object whose key was never set: a key is a precondition there.
* Montgomery representation, `Integer`, `ModularArithmetic` and `GF2NP`: exact arithmetic in an arbitrary field, and naturals for exponents.
* Results returned by reference to the member m_R, and the aliasing that goes with it: curve operations return values.
* Associativity of the additions of ecp.cpp and ec2n.cpp: a hypothesis of the multiplication results.
* `std::make_heap`, `push_heap` and `pop_heap`: modelled by a binary heap on an array, with the promises of the library.
* The ZIterator view: the z coordinates are copied to an array, inverted and copied back.
* The keystream of CTR mode in Crypto++: any function of the IV and the position. modes.cpp is not part of this model.
* Byte totals of 64 bits that wrap around: they are naturals.
* In and out buffers of `ProcessData` that overlap: input and output are values.
* `State_Start` and the parsing of parameters: a constructed object has its key, and parameter checks are preconditions.
* Blocking and continuation of filters: output is always accepted, and is collected in order.
* `isalpha`, `toupper` and `tolower` outside ASCII.
* Indefinite lengths of BER: `BERDecodeUnsigned` and `OID::BERDecode` treat them as errors, where the source leaves the length unset.
* 64-bit instances of `DEREncodeUnsigned`, and the round trip of BOOLEAN.
* Camellia, DES and the other ciphers: they repeat the round trip of AES with less difficulty.
- AuthEnc.AuthenticatedCipher.SpecifyDataLengths: after header data, or after an earlier call that declared a header, nothing is promised about the tag of CCM, because the nonce in the buffer has been overwritten; nor is anything before the first call.
- AuthEnc.AuthenticatedCipher.TruncatedFinal: promises a tag only in runs without an error since Resynchronize, and no more than the block size of tag bytes.
- BlockCiphers.AdvancedProcessBlocks: has only the flags that the MACs use (exclusive-or of the input, one block of output).
- EcpMultiplication.SimultaneousMultiply: says nothing of what an empty cascade would read when an exponent is zero.
- Der.ParseUnsigned: 32-bit values only.
- BaseNDecoding.InitializeDecodingLookupArray: alphabets that assign a character twice, on which the source asserts, are excluded.
