# Verified model of the cryptographic arithmetic

This project models the hand-written arithmetic of the repository and proves what it computes:
two Edwards-curve engines, two characteristic-two curve engines over GF(2^571), two GF(2^128)
fields, AES, SHA-256 with HMAC, Twofish, the encrypted-file format that composes AES and SHA, and
two number-theory loops. `dafny verify dfyconfig.toml` checks all of it.

Each engine is a tower, and each level is proved against the one below it.

| part | modules, from the bottom |
|---|---|
| Curve1174, p = 2^251 - 9 | Bits, PrimeField, Limbs1174, Codec1174, Field1174; Edwards, Formulas, Multiples; Branchless, Recoding; Points1174, Scalar1174, Interface1174 |
| Ed3363, p = 2^336 - 3 | Limbs3363, Field3363, Codec3363; Points3363, Scalar3363, Interface3363 |
| binary fields | Gf2, Gf2Field, GfRing, Buffers, ByteOps, Words, WordOps; Gf571, Gf571Bytes, Gf571Words, Gf571Layouts; Gf128, Gf128Words |
| binary curves | BinaryLaw, BinaryGroup, BinaryCurve (Jacobian), LopezDahab |
| SHA-256 | Word32, Sha256Spec, Sha2; Sha256Reference |
| AES | PackedBytes, Gf256, AesSpec, AesColumns, AesCipher, AesTables, AesBytes, Aes, AesStandard, AesCbc |
| file format | FileFormat |
| Twofish | GfByte, TwofishRs, TwofishH, Twofish; TwofishReference |
| number theory | Bootstrap |

## How to read it

Limbs, bytes and words are arrays and the methods write them in place; each method's `ensures`
equates the new contents with a function of the old ones. What the source promises is then proved
about that function. The stored element types carry the widths (`int64`, `int128`, `uint64`,
`word32`, `byte`), so that a verified store is also a proof that nothing overflows. `Bits` gives
two's-complement `&`, `|` and `^` on integers of either sign, and the masks of the source are shown
to be those operators.

The functions that the methods are proved against are proved equal in turn to a second account,
written apart from the code. `AesBytes`, `Sha256Reference` and `TwofishReference` tell the
standards in their own indices: AES on bytes, with the S-box bit by bit; SHA-256 as two sequences of
registers, with constants that are roots of primes; Twofish as sixteen rounds, with q0 and q1 undone.
`CurveIs` and `SumIs` state the Edwards curves and their law in numbers, `BinaryGroup.SumOnLine` the
binary law by lines, and `FileFormat.FileBytes` the file byte by byte.

Equal(x, y) modulo p is written `Eq(x, y, p)`. Polynomials over GF(2) are natural numbers whose bits
are the coefficients, `Plus` is exclusive-or and `Times` is the carry-less product.

## Hypotheses

Three facts are taken as hypotheses of the lemmas that need them and are not proved here.

- `Edwards.Sound`: the modulus is prime and the curve constant is not a square modulo it.
- `Multiples.Associative` and `BinaryGroup.Associative`: the group laws are associative. Everything
  else about the laws (closure, neutral element, inverses, commutativity, uniqueness of the sum) is
  proved.
- `Gf571.Irreducible`: the field polynomial has no divisors but 1 and itself. The field inverses
  themselves ask only for an operand coprime to the polynomial.

## Where the code and its promises differ

The model follows the code. These differences are theorems.

- The Ed3363 store normalises into a local array and then packs the limbs it was given. On reduced
  limbs the stored words are congruent to the element exactly when limb 0 is non-negative and either
  fits 56 bits or meets an even limb 1 (`Codec3363.StoredIff`); `Codec3363.StoreSlips` is a product of
  two canonical elements for which they are not. The entry points of the engine compute the right
  point; what they store denotes it under that condition (`Interface3363.AffineMul` and the methods
  beside it).
- The word-level `integer_length` is 24 short, because a 32-bit mask is shifted out
  (`Gf571Words.IntegerLength`, `Gf128Words.IntegerLength`). The inverse in GF(2^571) uses only
  differences of lengths and is right. The word-level inverse in GF(2^128) starts with a length itself:
  it is right for the operand 1 and for no other operand (`Gf128Words.Inv`, with an operand for which
  it ends in `Gf128Words.InverseSlips`). Its first shift is by 128 places or more exactly for operands
  of at most 25 bits (`Gf128Words.FirstShiftOutside`), and such a shift writes a third word
  (`Gf128Words.ShiftL`).
- The checks for operands without an inverse are commented out. The four inverses end exactly on the
  operands coprime to their modulus (`Gf571Bytes.Inv`, `Gf571Words.Inv`, `Gf128.Inv`, and
  `Gf128Words.Inv` with its own modulus): every turn keeps a divisor that the two rows share
  (`Gf2Field.RunStep`, `Gf2Field.SharedNotOne`), zero operands included.
- The affine `ecc_add` takes any point with x = 0 for the point at infinity, although (0, sqrt b) is a
  finite point of order two. `LopezDahab.PairAddIff` gives exactly the operands for which the result
  is the group sum, and `LopezDahab.OrderTwoFails` an operand on every curve for which it is not.
- The projective `ecc_add` reads the x and y of its second operand as affine coordinates whatever its
  Z is (`LopezDahab.LopezAdd`). `LopezDahab.MixedSumIff` gives exactly the operands for which the
  result is the group sum. The projective `ecc_mul` is right for Z = 1 and at infinity
  (`LopezDahab.LopezMul`), for powers of two (`LopezDahab.MixedPowers`) and for the point of order two
  (`LopezDahab.MixedOrderTwo`); otherwise an odd bit goes right exactly under that condition
  (`LopezDahab.MixedStepIff`, `LopezDahab.MixedTriple`), and three times the point (1, 2) on the curve
  with b = 6 is wrong for every other Z (`LopezDahab.MixedSlips`). The affine `ecc_mul` passes Z = 1
  and is right, the infinite point included (`LopezDahab.AffineMul`).
- The signed recoding represents a scalar of n bytes exactly when it is at most
  7 (16^(2 n) - 1) / 15 (`Recoding.Win4`). The documented range 0 <= n < q lies inside
  (`Recoding.ScalarsRecodable`).
- The branch-free comparison of ints answers 1 on almost all pairs of opposite sign too
  (`Branchless.EqualWord`). The look-up gives it no negative operand, and there it is exact.
- A comment in the file tool says that the HMAC is of the ciphertext; both branches compute it over the
  zero-padded plaintext (Crypto/C-Code/AES256/main.cpp:239, Crypto/C-Code/AES256/main.cpp:346). The
  decrypt branch writes the plaintext before it compares.
- The closing assertion of `mpz_invert_2exp` uses a truncating remainder, so it fails for negative odd
  numbers and for n = 0 although the inverse is right (`Bootstrap.InvertTwoExp`).

## Model

| member | source | states |
|---|---|---|
| Interface1174.AffineMul | Crypto/Crypto-Libraries/Ed3363-C-Code/curve1174_intf.cpp:989-1017 | The whole entry point: for every scalar in the recodable range and every point of the curve given by its affine words, the stored words are the canonical residues of projective coordinates of exactly n times the point. |
| Interface1174.ProjectiveMul | Crypto/Crypto-Libraries/Ed3363-C-Code/curve1174_intf.cpp:1029-1061 | The same for a point given projectively by any words below 2^251, which is normalised first. |
| Interface1174.ProjectiveAdd | Crypto/Crypto-Libraries/Ed3363-C-Code/curve1174_intf.cpp:1104-1137 | For any coordinate words below 2^251, the first point's words become projective coordinates of the sum, each in [0, p). |
| Interface1174.ToAffine | Crypto/Crypto-Libraries/Ed3363-C-Code/curve1174_intf.cpp:1139-1163 | For any coordinate words below 2^251, the stored x and y are exactly the affine coordinates, and the stored z is an inverse of the old z. |
| Interface1174.Sqrt | Crypto/Crypto-Libraries/Ed3363-C-Code/curve1174_intf.cpp:1165-1176 | True exactly when the input is a square modulo p, p prime; and then the stored word is a root. |
| Points1174.CurveIs | Crypto/Crypto-Libraries/Ed3363-C-Code/curve1174_intf.cpp:54 | The points are the residues modulo 2^251 - 9 with x^2 + y^2 = 1 - 1174 x^2 y^2, both ways. |
| Points1174.SumIs | Crypto/Crypto-Libraries/Ed3363-C-Code/curve1174_intf.cpp:580-612 | The affine sum is the one pair of residues with x3 (1 - 1174 k) = x1 y2 + x2 y1 and y3 (1 + 1174 k) = y1 y2 - x1 x2, k = x1 x2 y1 y2. |
| Recoding.Recode | Crypto/Crypto-Libraries/Ed3363-C-Code/curve1174_intf.cpp:920-945 | Recoding a recodable scalar of any width gives signed digits that denote it, with a top digit that is a legal table index. |
| Recoding.TopDigit | Crypto/Crypto-Libraries/Ed3363-C-Code/curve1174_intf.cpp:912 | The index w[PANES-1] of the first table access is never negative when the digits denote a non-negative number. |
| Scalar1174.MulToProj | Crypto/Crypto-Libraries/Ed3363-C-Code/curve1174_intf.cpp:905-918 | The window loop multiplies the point by the Horner value of its 64 signed digits; the invariant is that P holds the value of the digits consumed so far. |
| Scalar1174.Turn | Crypto/Crypto-Libraries/Ed3363-C-Code/curve1174_intf.cpp:913-917 | One turn replaces m a by (d + 16 m) a, for every digit -8 to 8. |
| Scalar1174.Precomp | Crypto/Crypto-Libraries/Ed3363-C-Code/curve1174_intf.cpp:683-708 | Entry k of the table stands for k times the point, with T premultiplied by the curve constant. |
| Scalar1174.SixteenthTimes | Crypto/Crypto-Libraries/Ed3363-C-Code/curve1174_intf.cpp:710-718 | Four doublings and an addition, in the group, are the multiple d + 16 m. |
| Scalar1174.SelectedEntry | Crypto/Crypto-Libraries/Ed3363-C-Code/curve1174_intf.cpp:752-772 | The negated table entry of a negative digit stands for the negative multiple, and its T is still premultiplied. |
| Recoding.Win4 | Crypto/Crypto-Libraries/Ed3363-C-Code/curve1174_intf.cpp:920-945 | The 2 n digits lie in -8..7 and denote the scalar of n bytes exactly when it is at most 7 (16^(2 n) - 1) / 15; otherwise they denote the scalar less 16^(2 n). |
| Recoding.BytesAppend | Crypto/Crypto-Libraries/Ed3363-C-Code/curve1174_intf.cpp:920-945 | The scalar is the little-endian number of its bytes: byte k weighs 16^(2 k). |
| Recoding.HornerRange | Crypto/Crypto-Libraries/Ed3363-C-Code/curve1174_intf.cpp:920-945 | The range of what signed digits can denote, both ends. |
| Recoding.Digit | Crypto/Crypto-Libraries/Ed3363-C-Code/curve1174_intf.cpp:930-943 | The branch-free carry: digit + 16 carry = nibble + carry in, with the digit in -8..7. |
| Recoding.ScalarsRecodable | Crypto/Crypto-Libraries/Ed3363-C-Code/curve1174_intf.cpp:1000-1001 | The documented scalars lie inside: every scalar below 2^252 is recodable in 64 digits, and every scalar below 2^334 in 84. |
| Points1174.ECp.Double1 | Crypto/Crypto-Libraries/Ed3363-C-Code/curve1174_intf.cpp:526-543 | From Z = 1 and a valid T: twice the affine point under the Edwards law, with T valid again. |
| Points1174.ECp.Double2 | Crypto/Crypto-Libraries/Ed3363-C-Code/curve1174_intf.cpp:545-559 | Twice the point without reading or writing T. |
| Points1174.ECp.Double3 | Crypto/Crypto-Libraries/Ed3363-C-Code/curve1174_intf.cpp:561-578 | Twice the point, with T valid afterwards although it was not before. |
| Points1174.ECp.Add1 | Crypto/Crypto-Libraries/Ed3363-C-Code/curve1174_intf.cpp:580-595 | The sum with a table entry of Z = 1 whose T holds d T, with T valid afterwards. |
| Points1174.ECp.Add2 | Crypto/Crypto-Libraries/Ed3363-C-Code/curve1174_intf.cpp:597-612 | The sum with a table entry of any Z; T is left stale. |
| Points1174.ECp.AddProj | Crypto/Crypto-Libraries/Ed3363-C-Code/curve1174_intf.cpp:1075-1102 | The sum computed without either T. |
| Points1174.ECp.Inf | Crypto/Crypto-Libraries/Ed3363-C-Code/curve1174_intf.cpp:616-624 | The neutral element, with a T valid under every scale. |
| Points1174.ECp.Init | Crypto/Crypto-Libraries/Ed3363-C-Code/curve1174_intf.cpp:626-639 | The point with the given affine coordinates, T valid and Z = 1. |
| Points1174.ECp.NegOf | Crypto/Crypto-Libraries/Ed3363-C-Code/curve1174_intf.cpp:655-667 | X and T change sign, Y and Z do not. |
| Points1174.ECp.Norm | Crypto/Crypto-Libraries/Ed3363-C-Code/curve1174_intf.cpp:669-681 | The coordinates become affine: Z is 1 and T, if it was valid, is x y. |
| Points1174.ECp.Cmov | Crypto/Crypto-Libraries/Ed3363-C-Code/curve1174_intf.cpp:736-742 | The branch-free move is a conditional copy of all four coordinates. |
| Points1174.ECp.Select | Crypto/Crypto-Libraries/Ed3363-C-Code/curve1174_intf.cpp:752-772 | The look-up that reads every entry returns sign(b) times entry abs(b) for b in -8..8. |
| Points1174.ECp.Window | Crypto/Crypto-Libraries/Ed3363-C-Code/curve1174_intf.cpp:710-718 | Sixteen times the point plus the table entry; T is valid exactly where it is next read. |
| Branchless.EqualCorrect | Crypto/Crypto-Libraries/Ed3363-C-Code/curve1174_intf.cpp:744-750 | The arithmetic comparison returns 1 exactly on equal operands, for all operands that are not negative. |
| Branchless.EqualWord | Crypto/Crypto-Libraries/Ed3363-C-Code/curve1174_intf.cpp:744-750 | On every pair of 32-bit operands: 1 for equal ones, and also for those of opposite sign, unless only the sign bit differs. |
| Branchless.AbsBySign | Crypto/Crypto-Libraries/Ed3363-C-Code/curve1174_intf.cpp:755-756 | The sign mask and the absolute value of a digit. |
| Formulas.AddFormulas | Crypto/Crypto-Libraries/Ed3363-C-Code/curve1174_intf.cpp:580-612 | Any integers congruent to the source's intermediate products give projective and T coordinates of the affine sum. |
| Formulas.DoubleFormulas | Crypto/Crypto-Libraries/Ed3363-C-Code/curve1174_intf.cpp:526-578 | The doubling formulas give projective and T coordinates of twice the point. |
| Formulas.ProjFormulas | Crypto/Crypto-Libraries/Ed3363-C-Code/curve1174_intf.cpp:1075-1102 | The T-free formulas give projective coordinates of the sum. |
| Formulas.RepSame | Crypto/Crypto-Libraries/Ed3363-C-Code/ed3363_intf.cpp:865-887 | Where Z is kept up to congruence, other X and Y give the same point exactly if they are congruent. |
| Edwards.Complete | Crypto/Crypto-Libraries/Ed3363-C-Code/curve1174_intf.cpp:580-612 | Completeness: with d a non-square the denominators 1 + k and 1 - k never vanish on the curve, so no addition needs a case split. |
| Edwards.AddUnique | Crypto/Crypto-Libraries/Ed3363-C-Code/curve1174_intf.cpp:580-612 | The affine sum is the only point satisfying the two fraction equations. |
| Edwards.AddOn | Crypto/Crypto-Libraries/Ed3363-C-Code/curve1174_intf.cpp:580-612 | Closure: the sum of two points of x^2 + y^2 = 1 + d x^2 y^2 is on the curve. |
| Multiples.TimesAdd | Crypto/Crypto-Libraries/Ed3363-C-Code/curve1174_intf.cpp:905-918 | Multiples add: m a + n a = (m + n) a for integers of either sign. |
| Multiples.TimesUnits | Crypto/Crypto-Libraries/Ed3363-C-Code/curve1174_intf.cpp:905-918 | The multiples by 0, 1 and -1 are the neutral element, the point and its negative. |
| Multiples.TimesNeg | Crypto/Crypto-Libraries/Ed3363-C-Code/curve1174_intf.cpp:655-667 | The negative of a multiple is the multiple by the negative. |
| Multiples.AddNeg | Crypto/Crypto-Libraries/Ed3363-C-Code/curve1174_intf.cpp:655-667 | A point and its negative sum to the neutral element. |
| Limbs1174.GMul | Crypto/Crypto-Libraries/Ed3363-C-Code/curve1174_intf.cpp:218-247 | Schoolbook multiplication: the limbs of the folded convolution, tight, congruent to the product, with every store in 64 and every accumulator in 128 bits. |
| Limbs1174.GMulGranger | Crypto/Crypto-Libraries/Ed3363-C-Code/curve1174_intf.cpp:253-298 | Granger's multiplication has the same postcondition, so the two forms agree limb for limb. |
| Limbs1174.GSqr | Crypto/Crypto-Libraries/Ed3363-C-Code/curve1174_intf.cpp:192-217 | Squaring returns the limbs that multiplying by itself returns. |
| Limbs1174.GMuli | Crypto/Crypto-Libraries/Ed3363-C-Code/curve1174_intf.cpp:166-190 | Multiplication by a small constant: tight limbs congruent to the product. |
| Limbs1174.Scr | Crypto/Crypto-Libraries/Ed3363-C-Code/curve1174_intf.cpp:142-164 | The carry pass turns limbs up to 2^62 into tight limbs of a congruent value. |
| Limbs1174.ScrValue | Crypto/Crypto-Libraries/Ed3363-C-Code/curve1174_intf.cpp:142-164 | The carry pass subtracts exactly the quotient by 2^251, times p. |
| Limbs1174.MulFeCorrect | Crypto/Crypto-Libraries/Ed3363-C-Code/curve1174_intf.cpp:192-298 | Loose operands, eight reduced elements in magnitude, give a tight product. |
| Limbs1174.GrangerColumns | Crypto/Crypto-Libraries/Ed3363-C-Code/curve1174_intf.cpp:253-298 | The difference products equal the nine columns of the convolution, folded at 2^251 = 9. |
| Limbs1174.SquareColumns | Crypto/Crypto-Libraries/Ed3363-C-Code/curve1174_intf.cpp:192-217 | The doubled cross terms equal the columns of the product with itself. |
| Limbs1174.NormCorrect | Crypto/Crypto-Libraries/Ed3363-C-Code/curve1174_intf.cpp:395-403 | Negate, carry, negate, carry, carry gives the digit form of the residue in [0, p) for every limb vector up to 2^62. |
| Limbs1174.GNorm | Crypto/Crypto-Libraries/Ed3363-C-Code/curve1174_intf.cpp:395-403 | The in-place form of the same. |
| Limbs1174.DigitsUnique | Crypto/Crypto-Libraries/Ed3363-C-Code/curve1174_intf.cpp:405-416 | A number has one digit form. |
| Limbs1174.GEq | Crypto/Crypto-Libraries/Ed3363-C-Code/curve1174_intf.cpp:405-416 | True exactly when the two values are congruent modulo p. |
| Limbs1174.FeCmov | Crypto/Crypto-Libraries/Ed3363-C-Code/curve1174_intf.cpp:724-734 | The exclusive-or masking is a conditional copy. |
| Limbs1174.MasksAreAnd | Crypto/Crypto-Libraries/Ed3363-C-Code/curve1174_intf.cpp:52-56 | The residues used for masks are the source's `&` on operands of either sign. |
| Limbs1174.GAdd | Crypto/Crypto-Libraries/Ed3363-C-Code/curve1174_intf.cpp:76-85 | Limbwise sum. |
| Limbs1174.GSub | Crypto/Crypto-Libraries/Ed3363-C-Code/curve1174_intf.cpp:87-96 | Limbwise difference. |
| Limbs1174.GNeg | Crypto/Crypto-Libraries/Ed3363-C-Code/curve1174_intf.cpp:386-393 | Limbwise negation. |
| Field1174.GInv | Crypto/Crypto-Libraries/Ed3363-C-Code/curve1174_intf.cpp:305-384 | The chain computes x^(p-2); for p prime and x not congruent to 0, x times the result is congruent to 1. |
| Field1174.GSqrt | Crypto/Crypto-Libraries/Ed3363-C-Code/curve1174_intf.cpp:418-512 | The chain computes x^((p+1)/4) = x^(2^249-2); the flag says exactly whether its square is x, and for p prime exactly whether x is a square. |
| Field1174.SquareRun | Crypto/Crypto-Libraries/Ed3363-C-Code/curve1174_intf.cpp:336-340 | The squaring loops: k double squarings raise to the power 4^k. |
| Field1174.MagSum | Crypto/Crypto-Libraries/Ed3363-C-Code/curve1174_intf.cpp:76-96 | Magnitudes add under sums and differences, which bounds every limb of a whole run. |
| PrimeField.Fermat | Crypto/Crypto-Libraries/Ed3363-C-Code/curve1174_intf.cpp:305-384 | a^(p-1) = 1 modulo a prime p for a not 0. |
| PrimeField.EuclidLemma | Crypto/Crypto-Libraries/Ed3363-C-Code/curve1174_intf.cpp:405-512 | A prime dividing a product divides a factor. |
| Codec1174.GFetch | Crypto/Crypto-Libraries/Ed3363-C-Code/curve1174_intf.cpp:947-966 | Four words become digits of their value modulo 2^251. |
| Codec1174.GStore | Crypto/Crypto-Libraries/Ed3363-C-Code/curve1174_intf.cpp:968-987 | The stored words are the canonical residue, whatever loose limbs represented it. |
| Codec1174.WordsValue | Crypto/Crypto-Libraries/Ed3363-C-Code/curve1174_intf.cpp:947-987 | The number that the four words denote is that of the buffer, least significant word first. |
| Codec1174.FetchAfterStore | Crypto/Crypto-Libraries/Ed3363-C-Code/curve1174_intf.cpp:947-987 | Fetching what was stored is normalising. |
| Codec1174.StoreAfterFetch | Crypto/Crypto-Libraries/Ed3363-C-Code/curve1174_intf.cpp:947-987 | Storing what was fetched reduces every 251-bit input modulo p. |
| Codec1174.Splice | Crypto/Crypto-Libraries/Ed3363-C-Code/curve1174_intf.cpp:955-964 | Shifting one word and or-ing the top of the other splices bits with none lost but those above 64. |
| Limbs3363.GMul6 | Crypto/Crypto-Libraries/Ed3363-C-Code/ed3363_intf.cpp:243-288 | Granger's multiplication gives the limbs of the schoolbook convolution folded by 3, tight and congruent to the product modulo 2^336 - 3, with no signed overflow. |
| Limbs3363.GSqr6 | Crypto/Crypto-Libraries/Ed3363-C-Code/ed3363_intf.cpp:211-238 | Squaring returns the limbs that multiplying by itself returns. |
| Limbs3363.GrangerColumns6 | Crypto/Crypto-Libraries/Ed3363-C-Code/ed3363_intf.cpp:243-288 | The difference products are the eleven columns of the convolution, folded at 2^336 = 3. |
| Limbs3363.SquareColumns6 | Crypto/Crypto-Libraries/Ed3363-C-Code/ed3363_intf.cpp:211-238 | The doubled and tripled operands give the columns of the product with itself. |
| Limbs3363.MulFeCorrect6 | Crypto/Crypto-Libraries/Ed3363-C-Code/ed3363_intf.cpp:211-288 | Loose operands give a tight product. |
| Limbs3363.MaskIsAnd | Crypto/Crypto-Libraries/Ed3363-C-Code/ed3363_intf.cpp:28-28 | The residue used for the 56-bit mask is the source's `&` on operands of either sign. |
| Limbs3363.Scr6 | Crypto/Crypto-Libraries/Ed3363-C-Code/ed3363_intf.cpp:120-143 | Tight limbs of a congruent value. |
| Limbs3363.ScrValue6 | Crypto/Crypto-Libraries/Ed3363-C-Code/ed3363_intf.cpp:120-143 | The carry pass subtracts the quotient by 2^336, times p. |
| Limbs3363.GMuli6 | Crypto/Crypto-Libraries/Ed3363-C-Code/ed3363_intf.cpp:182-207 | Multiplication by a constant up to 2^14 in magnitude, tight and congruent. |
| Limbs3363.NormCorrect6 | Crypto/Crypto-Libraries/Ed3363-C-Code/ed3363_intf.cpp:155-163 | The digit form of the residue in [0, p). |
| Limbs3363.GNorm6 | Crypto/Crypto-Libraries/Ed3363-C-Code/ed3363_intf.cpp:155-163 | The in-place form of the same. |
| Limbs3363.GEq6 | Crypto/Crypto-Libraries/Ed3363-C-Code/ed3363_intf.cpp:165-177 | True exactly when the two values are congruent. |
| Limbs3363.DigitsUnique6 | Crypto/Crypto-Libraries/Ed3363-C-Code/ed3363_intf.cpp:165-177 | A number has one digit form. |
| Limbs3363.FeCmov6 | Crypto/Crypto-Libraries/Ed3363-C-Code/ed3363_intf.cpp:592-603 | The exclusive-or masking is a conditional copy. |
| Field3363.GInv6 | Crypto/Crypto-Libraries/Ed3363-C-Code/ed3363_intf.cpp:294-381 | The chain computes x^(p-2) = x^(2^336-5); for p prime and x not congruent to 0 it is the inverse. |
| Codec3363.GFetch6 | Crypto/Crypto-Libraries/Ed3363-C-Code/ed3363_intf.cpp:840-862 | Six words become digits of their value modulo 2^336. |
| Codec3363.GStore6 | Crypto/Crypto-Libraries/Ed3363-C-Code/ed3363_intf.cpp:864-887 | The words the code really packs, from the limbs as they are; on reduced limbs they are congruent to the element exactly when it is storable, and canonical exactly when the limbs also denote a number below p. |
| Codec3363.WordsValue6 | Crypto/Crypto-Libraries/Ed3363-C-Code/ed3363_intf.cpp:840-887 | The number that the six words denote is that of the buffer, least significant word first. |
| Codec3363.StoredIff | Crypto/Crypto-Libraries/Ed3363-C-Code/ed3363_intf.cpp:873-886 | The exact condition: limb 0 is non-negative and either fits 56 bits or meets an even limb 1. |
| Codec3363.PackCorrect6 | Crypto/Crypto-Libraries/Ed3363-C-Code/ed3363_intf.cpp:873-886 | How far the stored number is from the limbs' value, for every reduced element. |
| Codec3363.StoreSlips | Crypto/Crypto-Libraries/Ed3363-C-Code/ed3363_intf.cpp:873-886 | A product of two canonical elements, reduced as gmul leaves it, whose stored words denote another residue. |
| Codec3363.FetchAfterStore6 | Crypto/Crypto-Libraries/Ed3363-C-Code/ed3363_intf.cpp:840-887 | On canonical digits, fetching what was stored gives them back. |
| Codec3363.StoreAfterFetch6 | Crypto/Crypto-Libraries/Ed3363-C-Code/ed3363_intf.cpp:840-887 | Storing what was fetched gives every 336-bit input back, without reducing it. |
| Interface3363.AffineMul | Crypto/Crypto-Libraries/Ed3363-C-Code/ed3363_intf.cpp:889-917 | The whole entry point: the limbs that are stored stand for exactly n times the point; and, the word of Z being faithful, the stored words are coordinates of that point exactly when the limbs of X and Y are storable. |
| Interface3363.ProjectiveMul | Crypto/Crypto-Libraries/Ed3363-C-Code/ed3363_intf.cpp:929-959 | The same for a point given projectively, which is normalised first. |
| Interface3363.ProjectiveAdd | Crypto/Crypto-Libraries/Ed3363-C-Code/ed3363_intf.cpp:1004-1037 | The same for the sum of two points. |
| Interface3363.ToAffine | Crypto/Crypto-Libraries/Ed3363-C-Code/ed3363_intf.cpp:1039-1063 | The stored x and y are the affine coordinates exactly where the limbs of the quotients are storable and denote numbers below p; the stored z is an inverse of the old z exactly where its limbs are storable. |
| Interface3363.StoredPoint | Crypto/Crypto-Libraries/Ed3363-C-Code/ed3363_intf.cpp:865-887 | A point whose three coordinates are storable is stored as words that denote it; where Z is storable, only such a point is. |
| Interface3363.StoredResidue | Crypto/Crypto-Libraries/Ed3363-C-Code/ed3363_intf.cpp:865-887 | A stored element reads as its canonical residue exactly when it is storable and its limbs denote a number below p. |
| Points3363.CurveIs | Crypto/Crypto-Libraries/Ed3363-C-Code/ed3363_intf.cpp:30 | The points are the residues modulo 2^336 - 3 with x^2 + y^2 = 1 + 11111 x^2 y^2, both ways. |
| Points3363.SumIs | Crypto/Crypto-Libraries/Ed3363-C-Code/ed3363_intf.cpp:448-480 | The affine sum is the one pair of residues with x3 (1 + 11111 k) = x1 y2 + x2 y1 and y3 (1 - 11111 k) = y1 y2 - x1 x2. |
| Scalar3363.MulToProj | Crypto/Crypto-Libraries/Ed3363-C-Code/ed3363_intf.cpp:799-812 | The window loop multiplies the point by the Horner value of its 84 signed digits and leaves reduced coordinates. |
| Scalar3363.Turn | Crypto/Crypto-Libraries/Ed3363-C-Code/ed3363_intf.cpp:807-811 | One turn replaces m a by (d + 16 m) a. |
| Scalar3363.Precomp | Crypto/Crypto-Libraries/Ed3363-C-Code/ed3363_intf.cpp:551-574 | Entry k of the table stands for k times the point, with T premultiplied by the curve constant. |
| Scalar3363.SelectedEntry | Crypto/Crypto-Libraries/Ed3363-C-Code/ed3363_intf.cpp:621-639 | The negated table entry of a negative digit stands for the negative multiple, with T premultiplied. |
| Points3363.ECp.Double1 | Crypto/Crypto-Libraries/Ed3363-C-Code/ed3363_intf.cpp:394-411 | From Z = 1 and a valid T: twice the affine point, with T valid again. |
| Points3363.ECp.Double2 | Crypto/Crypto-Libraries/Ed3363-C-Code/ed3363_intf.cpp:413-427 | Twice the point without reading or writing T. |
| Points3363.ECp.Double3 | Crypto/Crypto-Libraries/Ed3363-C-Code/ed3363_intf.cpp:429-444 | Twice the point, with T valid afterwards. |
| Points3363.ECp.Add1 | Crypto/Crypto-Libraries/Ed3363-C-Code/ed3363_intf.cpp:448-463 | The sum with an entry of Z = 1 whose T holds d T. |
| Points3363.ECp.Add2 | Crypto/Crypto-Libraries/Ed3363-C-Code/ed3363_intf.cpp:465-480 | The sum with an entry of any Z; T is left stale, X, Y and Z are reduced. |
| Points3363.ECp.AddProj | Crypto/Crypto-Libraries/Ed3363-C-Code/ed3363_intf.cpp:975-1002 | The sum computed without either T. |
| Points3363.ECp.Select | Crypto/Crypto-Libraries/Ed3363-C-Code/ed3363_intf.cpp:621-639 | The look-up returns sign(b) times entry abs(b) for b in -8..8. |
| Points3363.ECp.Window | Crypto/Crypto-Libraries/Ed3363-C-Code/ed3363_intf.cpp:578-586 | Sixteen times the point plus the table entry. |
| Field3363.MagSum6 | Crypto/Crypto-Libraries/Ed3363-C-Code/ed3363_intf.cpp:48-69 | Magnitudes add under sums and differences, which bounds every limb of a whole run. |
| Gf571Bytes.Multiply | Crypto/C-Code/ECC/ecc.cpp:151-182 | The product modulo x^571 + x^10 + x^5 + x^2 + 1, also when the output is an input. |
| Gf571Bytes.Inv | Crypto/C-Code/ECC/ecc.cpp:198-240 | The Euclidean loop ends exactly on the operands coprime to the field polynomial, within 1143 turns, loses no bit in its fixed-width buffers, and then returns the reduced inverse; where it has not ended, the output is as it was. |
| Gf571Bytes.Step | Crypto/C-Code/ECC/ecc.cpp:108-121 | Multiplication by x with reduction. |
| Gf571Bytes.Prim | Crypto/C-Code/ECC/ecc.cpp:89-95 | The bytes are the field polynomial. |
| Gf571.FieldPolynomial | Crypto/C-Code/ECC/ecc.cpp:89-95 | That polynomial is x^571 + x^10 + x^5 + x^2 + 1. |
| Gf571.ElemCoprime | Crypto/C-Code/ECC/ecc.cpp:198-240 | With an irreducible field polynomial every non-zero element has an inverse. |
| Gf571.DivIs | Crypto/C-Code/ECC/ecc.cpp:243-248 | A quotient is the one element that multiplies back. |
| ByteOps.ShiftL | Crypto/C-Code/ECC/ecc.cpp:279-306 | Shifting is multiplication by 2^n modulo the buffer width. |
| ByteOps.AddTo | Crypto/C-Code/ECC/ecc.cpp:62-70 | Addition is exclusive-or of the values, with any aliasing. |
| ByteOps.FirstBit | Crypto/C-Code/ECC/ecc.cpp:123-135 | The index and mask of the highest set bit, or -1 exactly for zero. |
| ByteOps.IntegerLength | Crypto/C-Code/ECC/ecc.cpp:137-149 | The bit length of the value. |
| ByteOps.IsOne | Crypto/C-Code/ECC/ecc.cpp:97-106 | True exactly for the value one. |
| Gf2Field.EuclidStep | Crypto/C-Code/ECC/ecc.cpp:209-236 | One turn keeps g1 op = u, g2 op = v, deg g1 + deg v <= m and deg g2 + deg u <= m, and shortens u: the measure and the reason no shift loses a bit. |
| Gf2Field.CoprimeStep | Crypto/C-Code/ECC/ecc.cpp:209-236 | The turn keeps u and v coprime, so u never becomes zero. |
| Gf2Field.RunStep | Crypto/C-Code/ECC/ecc.cpp:209-236 | A turn keeps either the invariant of coprime rows, with the two lengths and the turns made bounded together, or a common divisor other than 1, zero rows and short length functions included. |
| Gf2Field.RunEnds | Crypto/C-Code/ECC/ecc.cpp:209-236 | So u becomes 1 only for coprime operands, and for these within the bound. |
| Gf2Field.SharedNotOne | Crypto/C-Code/ECC/ecc.cpp:209-236 | Rows that share a divisor are never 1: the loop does not end. |
| Gf2Field.TurnFits | Crypto/C-Code/ECC/ecc.cpp:220-236 | No shift of a turn loses a bit of u or v, whether the length function is exact or short. |
| Gf2Field.EuclidEnd | Crypto/C-Code/ECC/ecc.cpp:209-236 | When u is one, g1 is the reduced inverse. |
| Gf2Field.InverseUnique | Crypto/C-Code/ECC/ecc.cpp:198-240 | There is one reduced inverse. |
| Gf2Field.ProductStep | Crypto/C-Code/ECC/ecc.cpp:151-182 | One bit of multiply-and-reduce extends the product by that bit. |
| Gf2Field.ProductUnique | Crypto/C-Code/ECC/ecc.cpp:151-182 | There is one reduced product. |
| Gf2.LenTimes | Crypto/C-Code/ECC/ecc.cpp:137-149 | Degrees add under multiplication. |
| Gf2.TimesPow | Crypto/C-Code/ECC/ecc.cpp:151-182 | Multiplying by x^k shifts by k places; with distribution that determines the product. |
| Gf2.TimesPlusRight | Crypto/C-Code/ECC/ecc.cpp:151-182 | The product distributes over exclusive-or. |
| Gf128.Multiply | Crypto/C-Code/ECC/eccl.cpp:166-197 | The product modulo x^128 + x^7 + x^2 + x + 1, on buffers read both as bytes at exchanged indices and as words, also when the output is an input. |
| Gf128.FieldTerms | Crypto/C-Code/ECC/eccl.cpp:109-123 | The field polynomial is x^128 + x^7 + x^2 + x + 1. |
| Gf128.Inv | Crypto/C-Code/ECC/eccl.cpp:213-262 | The reduced inverse, for exactly the operands coprime to the field polynomial, in a buffer that cannot hold that polynomial: the first turn loses its top bit on purpose. It ends within 256 turns or never. |
| Gf128.FirstTurn | Crypto/C-Code/ECC/eccl.cpp:213-262 | The truncated first turn is an exact Euclidean turn. |
| Gf128.ShiftL | Crypto/C-Code/ECC/eccl.cpp:294-333 | Multiplication by 2^n modulo 2^128, for shifts up to 191: words by memmove, bytes at exchanged indices, bits across words. |
| Gf128.MoveBytes | Crypto/C-Code/ECC/eccl.cpp:308-320 | The whole-byte part of the shift, in place, at the index exclusive-or 7. |
| Gf128.Step | Crypto/C-Code/ECC/eccl.cpp:113-123 | Multiplication by x with reduction: the shift on words, the top bit and the correction on bytes. |
| Gf128.AddTo | Crypto/C-Code/ECC/eccl.cpp:70-79 | Addition of two words is exclusive-or of the values, with any aliasing. |
| Gf128.FirstBit | Crypto/C-Code/ECC/eccl.cpp:125-146 | The logical index and mask of the highest set bit, found by words and then by exchanged bytes. |
| Gf128.ValueOfWords | Crypto/C-Code/ECC/eccl.cpp:70-79 | The two words of a buffer denote the number that its bytes denote in logical order. |
| Gf128.LaneApart | Crypto/C-Code/ECC/eccl.cpp:8-8 | The exchange of indices is one to one. |
| Gf128Words.Inv | Crypto/C-Code/ECC/eccl_le.cpp:221-270 | The word-level inverse returns the inverse of 1, and for no other operand an inverse. It ends on 1 and exactly on the operands coprime to Modulus(op), within 256 turns, and returns the low 128 bits of the inverse modulo that polynomial. |
| Gf128Words.NeverInverse | Crypto/C-Code/ECC/eccl_le.cpp:221-270 | Those low bits are never the inverse in the field. |
| Gf128Words.InverseSlips | Crypto/C-Code/ECC/eccl_le.cpp:221-270 | An operand of 128 bits for which the loop ends, with the value returned, which is not its inverse. |
| Gf128Words.FirstTurn | Crypto/C-Code/ECC/eccl_le.cpp:236-243 | The first turn, which shifts by 153 less the length where 129 is meant, is an exact Euclidean turn modulo a polynomial of degree 152. |
| Gf128Words.Multiply | Crypto/C-Code/ECC/eccl_le.cpp:179-205 | The product modulo the field polynomial on two words, also when the output is an input. |
| Gf128Words.Step | Crypto/C-Code/ECC/eccl_le.cpp:121-131 | Multiplication by x with reduction, the carry between the words read as a byte. |
| Gf128Words.ShiftL | Crypto/C-Code/ECC/eccl_le.cpp:309-360 | Below 128 places, multiplication by 2^n modulo 2^128; from there on the low word stays and zeros are written above it, one of them in a third word. |
| Gf128Words.FirstShiftOutside | Crypto/C-Code/ECC/eccl_le.cpp:236-243 | The first shift of the inverse is such a one exactly for operands of at most 25 bits. |
| Gf128Words.FirstRun | Crypto/C-Code/ECC/eccl_le.cpp:236-243 | The rows after the first turn, for every operand of 26 bits and more: those of a run modulo Modulus(op), coprime or with a common divisor. |
| Gf128Words.IntegerLength | Crypto/C-Code/ECC/eccl_le.cpp:152-164 | The length returned is 24 less than the true length. |
| Gf571Words.Multiply | Crypto/C-Code/ECC/eccl_le.cpp:563-589 | The product modulo the field polynomial on nine words, also when the output is an input. |
| Gf571Words.Inv | Crypto/C-Code/ECC/eccl_le.cpp:605-643 | The same on nine words, although the length function it uses is 24 short on both sides: it ends exactly on the operands coprime to the field polynomial. |
| Gf571Words.ShiftL | Crypto/C-Code/ECC/eccl_le.cpp:686-976 | The nine cases together are multiplication by 2^n modulo 2^576, for every n. |
| Gf571Words.IntegerLength | Crypto/C-Code/ECC/eccl_le.cpp:528-541 | The length returned is 24 less than the true length, because the shifted mask is 32 bits wide. |
| Gf571Words.FirstBit | Crypto/C-Code/ECC/eccl_le.cpp:508-526 | The byte and mask of the highest set bit. |
| WordOps.LengthFrom | Crypto/C-Code/ECC/eccl_le.cpp:528-541 | The closing loop of the length function, where the 32-bit mask costs 24. |
| Gf571Words.Step | Crypto/C-Code/ECC/eccl_le.cpp:485-506 | Multiplication by x with reduction. |
| Gf571Words.AddTo | Crypto/C-Code/ECC/eccl_le.cpp:411-427 | Addition is exclusive-or of the values. |
| Gf571Words.IsOne | Crypto/C-Code/ECC/eccl_le.cpp:469-483 | True exactly for the value one. |
| Gf571Words.Prim | Crypto/C-Code/ECC/eccl_le.cpp:460-467 | The words are the field polynomial. |
| Gf571Layouts.SameBytesIff | Crypto/C-Code/ECC/eccl_le.cpp:686-976 | A byte buffer and a word buffer denote one number exactly when they hold the same bytes in opposite orders. |
| Gf571Layouts.ShiftsAgree | Crypto/C-Code/ECC/ecc.cpp:279-306 | The byte-level and word-level shifts leave buffers with the same bytes. |
| Gf571Layouts.ProductsAgree | Crypto/C-Code/ECC/ecc.cpp:151-182 | So do the byte-level and word-level multiplications. |
| BinaryCurve.AffineMul | Crypto/C-Code/ECC/eccl_le.cpp:1357-1365 | The affine result is n times the point for every non-zero blinding value, hence independent of it, and infinite multiples for the infinite point. |
| BinaryCurve.JacobianMul | Crypto/C-Code/ECC/eccl_le.cpp:1325-1355 | The double-and-add loop multiplies by the number in the word buffer. |
| BinaryCurve.JacobianDouble | Crypto/C-Code/ECC/eccl_le.cpp:1225-1255 | Doubling commutes with projection to the affine tangent law, infinity and x = 0 included. |
| BinaryCurve.JacobianAdd | Crypto/C-Code/ECC/eccl_le.cpp:1257-1323 | Addition commutes with projection to the affine chord-and-tangent law, in the doubling, inverse and infinity branches too. |
| BinaryCurve.Blind | Crypto/C-Code/ECC/eccl_le.cpp:1162-1181 | The blinded coordinates stand for the same affine point. |
| BinaryCurve.ToAffine | Crypto/C-Code/ECC/eccl_le.cpp:1183-1202 | Dividing by Z^2 and Z^3 returns the point. |
| BinaryCurve.AffineDouble | Crypto/C-Code/ECC/eccl_le.cpp:1062-1087 | The tangent law, also when the output is the input. |
| BinaryCurve.AffineAdd | Crypto/C-Code/ECC/eccl_le.cpp:1089-1132 | The chord-and-tangent law, also when the output is an input. |
| BinaryCurve.AffineSub | Crypto/C-Code/ECC/eccl_le.cpp:1053-1060 | The sum with the negative, also when the output is an input. |
| BinaryLaw.NegSum | Crypto/C-Code/ECC/eccl_le.cpp:1046-1051 | A point and the point with y replaced by x + y sum to infinity, in both orders. |
| BinaryGroup.SubUndone | Crypto/C-Code/ECC/eccl_le.cpp:1053-1060 | Adding back what was subtracted, associativity given. |
| BinaryCurve.MultipleStep | Crypto/C-Code/ECC/eccl_le.cpp:1325-1355 | Reading one more bit of the scalar doubles and perhaps adds. |
| BinaryLaw.DoubleScaled | Crypto/C-Code/ECC/eccl_le.cpp:1225-1255 | The Jacobian doubling formulas, over any field element Z. |
| BinaryLaw.AddScaled | Crypto/C-Code/ECC/eccl_le.cpp:1257-1323 | The Jacobian addition formulas, with the exact meaning of their two zero tests. |
| BinaryGroup.AddOnCurve | Crypto/C-Code/ECC/eccl_le.cpp:1089-1132 | Closure of y^2 + x y = x^3 + a x^2 + b under the law. |
| BinaryGroup.SumOnLine | Crypto/C-Code/ECC/eccl_le.cpp:1089-1132 | Two points and the negative of their sum lie on one line, the tangent where they are one point, and its slope gives the sum of the three abscissas. |
| BinaryCurve.CurveIs | Crypto/C-Code/ECC/eccl_le.cpp:988 | The curve is y^2 + x y = x^3 + x^2 + b. |
| LopezDahab.CurveIs | Crypto/C-Code/ECC/ecc.cpp:500-530 | The curve is y^2 + x y = x^3 + x^2 + b here too. |
| BinaryGroup.MultipleIsSum | Crypto/C-Code/ECC/eccl_le.cpp:1325-1355 | Double-and-add is n-fold addition, associativity given. |
| BinaryGroup.AlongLine | Crypto/C-Code/ECC/eccl_le.cpp:1089-1132 | How the curve equation changes along a line of slope l: the polynomial identity behind closure. |
| LopezDahab.LopezDouble | Crypto/C-Code/ECC/ecc.cpp:500-530 | The result is what the formula makes of the affine coordinates of any point; on points of the curve, and on (0, 0), that is the double. |
| LopezDahab.DoubleFormIs | Crypto/C-Code/ECC/ecc.cpp:500-530 | The formula is the tangent law on the curve, and for x = 0 anywhere. |
| LopezDahab.LopezAdd | Crypto/C-Code/ECC/ecc.cpp:532-587 | In every branch, and whatever the Z of the second operand is, the result is the sum that its x and y taken as affine coordinates make. |
| LopezDahab.LopezMul | Crypto/C-Code/ECC/ecc.cpp:589-625 | For points with any Z the loop forms the multiple with those sums, by the number in the byte buffer: the multiple in the group for Z = 1 and at infinity. |
| LopezDahab.AffineMul | Crypto/C-Code/ECC/ecc.cpp:627-635 | The affine entry point is n times the point, infinite points included. |
| LopezDahab.MixedSumIff | Crypto/C-Code/ECC/ecc.cpp:532-587 | The projective ecc_add returns the group sum exactly if Z = 1, the first point is infinite, the sum is infinite and that point has x = 0, or the sum is the negative of that point and the chord read leads back above it. |
| LopezDahab.MixedStepIff | Crypto/C-Code/ECC/ecc.cpp:589-625 | Where half the multiple is right, an even multiple is, and an odd one exactly if Z = 1 or the addition made is one of those cases. |
| LopezDahab.MixedTriple | Crypto/C-Code/ECC/ecc.cpp:589-625 | Three times a point is right exactly if Z = 1 or its one addition is one of those cases. |
| LopezDahab.MixedPowers | Crypto/C-Code/ECC/ecc.cpp:589-625 | Multiples by powers of two are right for every Z. |
| LopezDahab.MixedOrderTwo | Crypto/C-Code/ECC/ecc.cpp:589-625 | So is every multiple of the point of order two. |
| LopezDahab.MixedSlips | Crypto/C-Code/ECC/ecc.cpp:589-625 | Three times the point (1, 2) of the curve with b = 6 is wrong for every Z but 1. |
| LopezDahab.ToAffine | Crypto/C-Code/ECC/ecc.cpp:336-351 | Dividing by Z and Z^2 returns the point. |
| LopezDahab.DoubleLopez | Crypto/C-Code/ECC/ecc.cpp:500-530 | The doubling formulas, where the curve equation is needed. |
| LopezDahab.AddLopez | Crypto/C-Code/ECC/ecc.cpp:532-587 | The mixed addition formulas, with the exact meaning of their two zero tests. |
| LopezDahab.PairAddIff | Crypto/C-Code/ECC/ecc.cpp:411-460 | The affine ecc_add, which tests only x for infinity, returns the group sum exactly when the first point is infinity or has x not 0 and the second, if finite, has x not 0. |
| LopezDahab.OrderTwoFails | Crypto/C-Code/ECC/ecc.cpp:411-460 | For every curve coefficient b = y^2 not 0, doubling the point (0, y) by ecc_add is not the group sum. |
| LopezDahab.PairTangent | Crypto/C-Code/ECC/ecc.cpp:384-409 | The affine doubling of a point with x not 0 is the tangent law. |
| Sha2.HashPieces | Crypto/C-Code/AES256/sha2.c:66-314 | For every way of cutting a message of fewer than 2^61 bytes into updates, the output is the one-shot hash. |
| Sha2.HashBuffer | Crypto/C-Code/AES256/sha2.c:319-329 | The one-call form, SHA-224 included. |
| Sha2.Context.Starts | Crypto/C-Code/AES256/sha2.c:66-96 | The context has absorbed the empty message. |
| Sha2.Context.Update | Crypto/C-Code/AES256/sha2.c:233-272 | A context that absorbed m absorbs m followed by the input, for every partial-block state. |
| Sha2.Context.Count | Crypto/C-Code/AES256/sha2.c:244-248 | The two-word length with carry, modulo 2^64. |
| Sha2.Context.PadMessage | Crypto/C-Code/AES256/sha2.c:287-302 | Padding and length block leave the fold of the padded message. |
| Sha2.Context.Finish | Crypto/C-Code/AES256/sha2.c:285-314 | The digest bytes, and nothing beyond them. |
| Sha2.Context.HmacStarts | Crypto/C-Code/AES256/sha2.c:405-431 | Keys of any length, hashed when over 64 bytes; the context has absorbed the inner pad. |
| Sha2.Context.HmacFinish | Crypto/C-Code/AES256/sha2.c:444-459 | The outer hash: HMAC as in section 2 of RFC 2104. |
| Sha2.Process | Crypto/C-Code/AES256/sha2.c:99-228 | The register-renamed, unrolled rounds are the textbook compression function. |
| Sha2.P | Crypto/C-Code/AES256/sha2.c:139-144 | The macro's two assignments are one round with the registers rotated. |
| Sha2.ChForm | Crypto/C-Code/AES256/sha2.c:131 | The choice function in three operations. |
| Sha2.MajForm | Crypto/C-Code/AES256/sha2.c:130 | The majority function in four operations. |
| Sha2.LengthField | Crypto/C-Code/AES256/sha2.c:291-296 | The two shifted counters are the 64-bit length in bits. |
| Sha256Spec.Field64Value | Crypto/C-Code/AES256/sha2.c:291-296 | The length field denotes the length in bits, as a big-endian number. |
| Sha2.PadForm | Crypto/C-Code/AES256/sha2.c:298-302 | 56 - last or 120 - last bytes of padding make the standard's padded message. |
| Sha256Spec.FoldAppend | Crypto/C-Code/AES256/sha2.c:260-265 | Compressing blocks in two runs is compressing them in one. |
| Sha256Reference.KIs | Crypto/C-Code/AES256/sha2.c:155-218 | The 64 constants are the first 32 bits of the fractions of the cube roots of the first 64 primes. |
| Sha256Reference.PrimesAre | Crypto/C-Code/AES256/sha2.c:155-218 | The primes meant are all the primes up to 311, in order. |
| Sha256Reference.InitialIs | Crypto/C-Code/AES256/sha2.c:71-82 | The initial state of SHA-256 is the first 32 bits of the fractions of the square roots of the first eight primes. |
| Sha256Reference.Initial224Is | Crypto/C-Code/AES256/sha2.c:83-94 | That of SHA-224 is the second 32 bits, for the ninth to sixteenth primes. |
| Sha256Reference.BigBits | Crypto/C-Code/AES256/sha2.c:127-128 | Bit i of the two large sigmas is the sum of bits i + 2, i + 13, i + 22 and of bits i + 6, i + 11, i + 25, modulo 32. |
| Sha256Reference.SmallBits | Crypto/C-Code/AES256/sha2.c:124-125 | Likewise the small ones, where the third bit comes from a shift and may be 0. |
| Sha256Reference.ChoiceBits | Crypto/C-Code/AES256/sha2.c:130-131 | The choice and majority functions bit by bit. |
| Sha256Reference.RoundsAre | Crypto/C-Code/AES256/sha2.c:132-144 | After t rounds the eight registers are four consecutive terms of each of two sequences, one for register a and one for register e. |
| Sha256Reference.CompressIs | Crypto/C-Code/AES256/sha2.c:155-228 | Terms 64 to 67 of both are added to the state. |
| Sha256Reference.PaddedIs | Crypto/C-Code/AES256/sha2.c:287-302 | The padded message is the message, a byte 80, the fewest zeros, and eight bytes that denote the length in bits. |
| Sha256Reference.HashIs | Crypto/C-Code/AES256/sha2.c:66-314 | The digest words, as big-endian numbers, are the registers after the chain of all blocks. |
| Sha256Reference.HmacIs | Crypto/C-Code/AES256/sha2.c:405-459 | HMAC is the hash of the outer pad and the hash of the inner pad and the message, the pads byte by byte. |
| Aes.BlockRoundTrip | Crypto/C-Code/AES256/aes.c:652-754 | Decrypting under the inverse key schedule undoes encrypting, for every block and every 128, 192 or 256-bit key. |
| Aes.EncryptBlock | Crypto/C-Code/AES256/aes.c:652-754 | Encrypt mode is the cipher of FIPS 197 under the held round keys, from any offset into any offset, in place or not. |
| Aes.DecryptBlock | Crypto/C-Code/AES256/aes.c:652-754 | Decrypt mode is the equivalent inverse cipher of section 5.3.5. |
| Aes.SetKeyEnc | Crypto/C-Code/AES256/aes.c:444-544 | The key expansion of section 5.2 for the three sizes, on the words of the buffer byte by byte, for keysize / 32 + 6 rounds; any other size is refused with -0x0800 and nothing changed. |
| Aes.SetKeyDec | Crypto/C-Code/AES256/aes.c:549-601 | The reversed round keys, InvMixColumns-transformed except for the first and last. |
| Aes.UnmixWord | Crypto/C-Code/AES256/aes.c:586-589 | Looking the S-box up before the reverse tables leaves InvMixColumn alone. |
| Aes.ForwardRound | Crypto/C-Code/AES256/aes.c:603-624 | Four tables and a key word make SubBytes, ShiftRows, MixColumns and AddRoundKey. |
| Aes.ReverseRound | Crypto/C-Code/AES256/aes.c:626-647 | The reverse tables make a round of the equivalent inverse cipher. |
| Aes.ForwardFinal | Crypto/C-Code/AES256/aes.c:723-745 | The last round has no MixColumns. |
| Aes.Expand4 | Crypto/C-Code/AES256/aes.c:478-492 | The 128-bit schedule. |
| Aes.Expand6 | Crypto/C-Code/AES256/aes.c:494-510 | The 192-bit schedule. |
| Aes.Expand8 | Crypto/C-Code/AES256/aes.c:512-536 | The 256-bit schedule, with the extra S-box word. |
| AesStandard.EncryptionIs | Crypto/C-Code/AES256/aes.c:652-754 | Encryption on columns is encryption on bytes: 16 bytes in and out, rows r + 4 c, expanded key as a string of bytes, for the three key sizes. |
| AesStandard.RoundIs | Crypto/C-Code/AES256/aes.c:603-624 | A full round byte by byte: rows shifted, S-box, 2, 3, 1, 1, key byte. |
| Aes.KeyBytes | Crypto/C-Code/AES256/aes.c:478-536 | The columns of the expanded key are its bytes: rotated, substituted and with the round constant every nk words. |
| AesBytes.SboxIs | Crypto/C-Code/AES256/aes.c:398-402 | Bit i of the S-box is the sum of bits i, i + 4 to i + 7 of the inverse and of bit i of 63, the inverse being the one byte whose product with x is 1. |
| AesBytes.FieldIs | Crypto/C-Code/AES256/aes.c:359 | Bytes multiply as polynomials modulo x^8 + x^4 + x^3 + x + 1. |
| AesBytes.RconIs | Crypto/C-Code/AES256/aes.c:382-386 | The ten round constants. |
| AesCipher.CipherUndone | Crypto/C-Code/AES256/aes.c:652-754 | The equivalent inverse cipher inverts the cipher, for any round keys of at least two. |
| AesCipher.RoundsUndone | Crypto/C-Code/AES256/aes.c:681-687 | After r rounds each way the two states meet. |
| AesColumns.MixInverse | Crypto/C-Code/AES256/aes.c:409-436 | InvMixColumn inverts MixColumn. |
| AesColumns.InvMixAdd | Crypto/C-Code/AES256/aes.c:582-591 | InvMixColumn is additive, which is why round keys can be transformed. |
| AesSpec.SboxInverse | Crypto/C-Code/AES256/aes.c:389-406 | The two S-boxes are inverse permutations. |
| AesSpec.AffineInverse | Crypto/C-Code/AES256/aes.c:398-402 | The rotations by 1, 3 and 6 with 05 undo the affine map. |
| AesTables.Tables.Generate | Crypto/C-Code/AES256/aes.c:363-437 | All tables hold what the standard defines. |
| AesTables.GenPowLog | Crypto/C-Code/AES256/aes.c:372-377 | Every non-zero byte is a power of 3, so the logarithm table is complete. |
| AesTables.GenBoxes | Crypto/C-Code/AES256/aes.c:391-406 | The loop fills both boxes, although it writes the reverse one out of order. |
| AesTables.GenRcon | Crypto/C-Code/AES256/aes.c:382-386 | The round constants are the powers of x. |
| AesTables.MulTable | Crypto/C-Code/AES256/aes.c:359 | The log-and-power product is multiplication in GF(2^8), zero included. |
| AesTables.GenForward | Crypto/C-Code/AES256/aes.c:411-424 | The four forward tables, each a rotation of the last. |
| AesTables.GenReverse | Crypto/C-Code/AES256/aes.c:426-436 | The four reverse tables. |
| Gf256.Logarithm | Crypto/C-Code/AES256/aes.c:372-377 | Every non-zero byte has a logarithm to base 3. |
| Gf256.Pow3Order | Crypto/C-Code/AES256/aes.c:372-377 | 3 has order exactly 255. |
| Gf256.XtIsTwo | Crypto/C-Code/AES256/aes.c:358 | The shift-and-reduce macro is multiplication by x. |
| AesCbc.CbcRoundTrip | Crypto/C-Code/AES256/aes.c:759-818 | CBC decryption undoes CBC encryption for every number of blocks. |
| AesCbc.EncryptedBlock | Crypto/C-Code/AES256/aes.c:803-814 | Block i of the output is the encrypted sum of block i of the input and block i - 1 of the output. |
| AesCbc.DecryptedBlock | Crypto/C-Code/AES256/aes.c:786-799 | Block i of the output is the decrypted block i plus block i - 1 of the input. |
| AesCbc.CryptCbc | Crypto/C-Code/AES256/aes.c:759-818 | Both modes follow section 6.2 of NIST SP 800-38A, leave the last cipher block in the vector and the rest of the output untouched, work in place, and refuse every other length, negative ones too, with nothing changed. |
| AesCbc.CbcBuffers | Crypto/C-Code/AES256/aes.c:759-818 | Two calls, encrypt then decrypt with the same vector, restore the data. |
| AesCbc.EncryptAppend | Crypto/C-Code/AES256/aes.c:803-814 | Encrypting one more block appends one block. |
| AesCbc.DecryptAppend | Crypto/C-Code/AES256/aes.c:786-799 | Decrypting one more block appends one block. |
| FileFormat.FileRoundTrip | Crypto/C-Code/AES256/main.cpp:169-375 | For every plaintext, name and key, decrypting what the encrypt branch wrote passes the HMAC comparison and returns exactly the original bytes. |
| FileFormat.EncryptFile | Crypto/C-Code/AES256/main.cpp:169-265 | The encrypt branch writes the vector, the CBC blocks of the zero-padded plaintext, and the HMAC of that padded plaintext. |
| FileFormat.DecryptFile | Crypto/C-Code/AES256/main.cpp:267-375 | The decrypt branch, with its three failures; bytes are written before the HMAC is compared. |
| FileFormat.FileBytes | Crypto/C-Code/AES256/main.cpp:169-265 | An encrypted file is the vector, blocks each of which is the AES encryption, on bytes, of the sum of a block of the zero-padded plaintext and the 16 file bytes before it, and the HMAC of that plaintext; fewer than 16 zeros are added. |
| FileFormat.DecryptedBytes | Crypto/C-Code/AES256/main.cpp:267-375 | What decryption makes of a file of whole blocks: the text, cut by the low four bits of byte 15, with the HMAC compared before it is cut. |
| FileFormat.DeriveKey | Crypto/C-Code/AES256/main.cpp:205-217 | There are 8193 digests, the first the vector and zeros, each next one the hash of the one before and the secret key, and the derived key is the last. |
| FileFormat.VectorBytes | Crypto/C-Code/AES256/main.cpp:175-193 | The vector is the hash of eight size bytes, least significant first, and the name, but for the low four bits of its last byte, the size modulo 16. |
| FileFormat.EncryptBlocks | Crypto/C-Code/AES256/main.cpp:226-253 | The block loop with its zero-padded last block. |
| FileFormat.DecryptBlocks | Crypto/C-Code/AES256/main.cpp:331-356 | The block loop with its trimmed last block. |
| FileFormat.StretchKey | Crypto/C-Code/AES256/main.cpp:211-217 | 8192 hashes of the digest and the key. |
| FileFormat.MakeVector | Crypto/C-Code/AES256/main.cpp:175-193 | The vector is the hash of size and name, with the size modulo 16 in its last nibble. |
| FileFormat.TagBits | Crypto/C-Code/AES256/main.cpp:191-193 | The nibble and the rest of the byte do not disturb each other. |
| FileFormat.TrimPadded | Crypto/C-Code/AES256/main.cpp:348 | Trimming the padded plaintext by the length modulo 16 gives it back, at exact multiples and for the empty file too. |
| Twofish.CipherInverse | Crypto/C-Code/Twofish/Twofish.cpp:476-518 | Decryption inverts encryption and encryption inverts decryption over all eight double rounds, for any round keys. |
| Twofish.Encrypt | Crypto/C-Code/Twofish/Twofish.cpp:476-492 | The block operations in place are the cipher. |
| Twofish.Decrypt | Crypto/C-Code/Twofish/Twofish.cpp:502-518 | The block operations in place are the inverse cipher. |
| Twofish.RoundUndone | Crypto/C-Code/Twofish/Twofish.cpp:468-500 | One double round is undone, in both orders. |
| Twofish.HalfUndone | Crypto/C-Code/Twofish/Twofish.cpp:468-500 | Each half round is undone whatever the h function is. |
| Twofish.SetKey | Crypto/C-Code/Twofish/Twofish.cpp:427-466 | The S-box key from the Reed-Solomon code in reverse order, the forty round keys, and the key-dependent tables, for the three key sizes. |
| TwofishReference.CipherIs | Crypto/C-Code/Twofish/Twofish.cpp:468-492 | Eight double rounds in place are the sixteen rounds of section 4.1 of the Twofish paper, each exchanging the halves, the last exchange undone. |
| TwofishReference.SubKeysAre | Crypto/C-Code/Twofish/Twofish.cpp:447-462 | Subkeys 2 i and 2 i + 1 are a + b and the rotation by 9 of a + 2 b, from h of the bytes 2 i and 2 i + 1 four times each. |
| TwofishReference.HIs | Crypto/C-Code/Twofish/Twofish.cpp:238-279 | h is the matrix 01 EF 5B 5B, 5B EF EF 01, EF 5B 01 EF, EF 01 EF 5B on four bytes, each through its own q0 and q1 in turn, for 2, 3 and 4 key words. |
| TwofishReference.QUndone | Crypto/C-Code/Twofish/Twofish.cpp:150-160 | q0 and q1 are permutations: the inverse nibble tables undo them. |
| TwofishReference.FieldsAre | Crypto/C-Code/Twofish/Twofish.cpp:115-118 | The matrix multiplies modulo x^8 + x^6 + x^5 + x^3 + 1, the code modulo x^8 + x^6 + x^3 + x^2 + 1. |
| TwofishReference.GeneratorIs | Crypto/C-Code/Twofish/Twofish.cpp:364-391 | The generator polynomial is x^4 + A4 x^3 + 2 x^2 + A4 x + 1, A4 being 2 + 1/2. |
| TwofishReference.MessageIs | Crypto/C-Code/Twofish/Twofish.cpp:370-374 | The message bytes are the coefficients 4 to 11, those of the low word first. |
| Twofish.Data.GenTables | Crypto/C-Code/Twofish/Twofish.cpp:166-199 | The static tables: both permutations (TwofishReference.QUndone) and the four MDS columns. |
| Twofish.G0 | Crypto/C-Code/Twofish/Twofish.cpp:346-347 | Four table look-ups equal h on the S-box key. |
| Twofish.G1 | Crypto/C-Code/Twofish/Twofish.cpp:348-349 | The rotated look-ups equal h of the word rotated by 8. |
| Twofish.GenMkTab | Crypto/C-Code/Twofish/Twofish.cpp:298-343 | The key-dependent tables for 2, 3 and 4 key words. |
| Twofish.HFun | Crypto/C-Code/Twofish/Twofish.cpp:238-279 | The fall-through switch is h for every key length. |
| TwofishH.Ffm5b | Crypto/C-Code/Twofish/Twofish.cpp:120-124 | The shift-and-table form is multiplication by 5B. |
| TwofishH.FfmEf | Crypto/C-Code/Twofish/Twofish.cpp:121-125 | The shift-and-table form is multiplication by EF. |
| TwofishH.GenQtab | Crypto/C-Code/Twofish/Twofish.cpp:166-175 | Both q tables. |
| TwofishH.GenMtab | Crypto/C-Code/Twofish/Twofish.cpp:185-199 | The four MDS tables. |
| TwofishH.NibbleTables | Crypto/C-Code/Twofish/Twofish.cpp:127-128 | The two nibble tables are a rotation and an exclusive-or with a shift. |
| TwofishRs.MdsRem | Crypto/C-Code/Twofish/Twofish.cpp:393-423 | For every eight message bytes the result is the remainder of M(x) x^4 by g(x). |
| TwofishRs.PartialStep | Crypto/C-Code/Twofish/Twofish.cpp:397-420 | The invariant of synthetic division: quotient so far times g plus what is left is the message. |
| TwofishRs.RemStep | Crypto/C-Code/Twofish/Twofish.cpp:399-419 | One turn on packed words is one step of the division, with a, 1/a and a + 1/a formed by shifts. |
| TwofishRs.RemainderUnique | Crypto/C-Code/Twofish/Twofish.cpp:393-423 | There is one remainder of degree below 4. |
| TwofishRs.DividedIs | Crypto/C-Code/Twofish/Twofish.cpp:413-417 | The shift with its correction is multiplication by 1/a. |
| Bootstrap.TestPrime | Crypto/var/src/gmp-6.1.2/bootstrap.c:40-75 | Non-zero exactly for primes, over every unsigned long. |
| Bootstrap.Wheel | Crypto/var/src/gmp-6.1.2/bootstrap.c:57-74 | The wheel loop, with no overflow of the divisor. |
| Bootstrap.SmallPrimes | Crypto/var/src/gmp-6.1.2/bootstrap.c:45-46 | The mask's bits are exactly the primes below 32. |
| Bootstrap.WheelStep | Crypto/var/src/gmp-6.1.2/bootstrap.c:57-73 | The divisors skipped cannot divide. |
| Bootstrap.InvertTwoExp | Crypto/var/src/gmp-6.1.2/bootstrap.c:109-136 | r a = 1 modulo 2^n for odd a of either sign; the closing assertion holds exactly for n > 0 and a > 0. |
| Bootstrap.HenselStep | Crypto/var/src/gmp-6.1.2/bootstrap.c:119-124 | Setting bit i corrects the product modulo 2^(i+1). |
| Bootstrap.InverseUnique | Crypto/var/src/gmp-6.1.2/bootstrap.c:109-136 | There is one inverse below 2^n. |

## Left out

- Points1174.ECp: the coordinates X, Y, Z and T are limb values and not arrays; the limb methods they call are proved on arrays in Limbs1174. Sharing of limb storage between points is not modelled.
- Points3363.ECp: as Points1174.ECp; its norm, which only the self-test calls, is not modelled.
- BinaryCurve.Affine: coordinates are field elements and not word buffers; the field methods are proved on buffers, with aliasing. Sharing of buffers between points is not modelled.
- BinaryCurve.Projective: as BinaryCurve.Affine.
- LopezDahab.Projective: as BinaryCurve.Affine.
- LopezDahab.PairAddIff: the affine pair operations are functions on values, so the aliasing of their buffers is not modelled.
- LopezDahab.MixedStepIff: says when the first wrong bit occurs; whether a later bit can turn a wrong intermediate result into the right multiple again is not decided.
- Field1174.GInv: works on limb values; each step is the limb method's function, so the in-place swaps between its temporaries are not modelled.
- Field3363.GInv6: as Field1174.GInv.
- Limbs1174.GMulGranger: its additions of 128-bit products are split over two methods.
- Limbs3363.GMul6: its additions of 128-bit products are split over three methods.
- BinaryCurve.JacobianAdd: its last assignments are a method of their own, and so are parts of LopezDahab.LopezAdd, Limbs1174.GSqr and Limbs3363.GSqr6.
- Gf571Bytes.Inv: the loop is cut off after a given number of turns, which the source does not do; the result says whether it ended.
- Gf571Words.Inv: as Gf571Bytes.Inv.
- Gf128.Inv: as Gf571Bytes.Inv.
- Gf128.Store: words are read and written as on a little-endian machine with 64-bit words, for which the mask of the source is made.
- Gf128Words.Inv: as Gf571Bytes.Inv; operands of at most 25 bits, save for 1, are excluded, because their first shift writes outside the operand.
- Gf128Words.ShiftL: a third word must be there for shifts of 128 places and more, which the operands of gf128_inv do not have.
- Sha2.Process: takes the 64-byte block as a sequence, and groups the 64 macro calls by eight.
- Sha2.Context.Finish: for messages of 2^61 bytes or more the length field wraps; the model stops below.
- AesTables.Tables.Generate: the loop that fills the forward and reverse tables is two loops.
- Twofish.SetKey: the tables are always generated, as on the first call, and the three compile-time tables of Twofish_data.h are on.
- AesCbc.CryptCbc: the chaining vector is a buffer of its own, which shares no storage with input or output.
- FileFormat.EncryptFile: files are byte sequences, and read or write errors do not occur; wiping of the key is not modelled.
- FileFormat.DecryptFile: as FileFormat.EncryptFile.
- Bootstrap.InvertTwoExp: the multi-precision integers are unbounded.
- gcopy, gdec, gmul2 and gsb2 of the curve engines appear as limb sums and differences, not as members of their own.
- The AES variants aesx.c and padlock.c, the CTR tool, Serpent, SipHash and decrypt.cpp.
- The pairing wrappers pbc_intf.cpp, whose library is not part of this model.
- The Actor machine, the serializer and the channel library: their deciding code is not in C.
- ldb-dpb.c and the rest of bootstrap.c, which prints tables.
- Key-text parsing, argument and file handling of the programs.
- Timing: that the table look-ups do not branch on the digit is a property of the code's shape, not of its results.
