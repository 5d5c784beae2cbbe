# Iterative (product) parity code

A model of the `IterativeCode` class of the iterative-code demo. The class does three things:

- It turns a text into bits: each UTF-16 code unit in base 2, most significant bit first, left-padded with zeros to at least eight digits.
- It lays a bit list row-major into a `rows` by `cols` payload block. Missing cells are 0 and bits past the capacity are dropped.
- It adds an even-parity bit to every payload row, a parity row below the payload columns, and a corner bit that is the parity of the parity row.

The model also covers the matrix part of the demo's `toggleCell`, the one-bit flip used to show error detection.

Modules:

- `Bits` (`bits.dfy`): the `Bit` type, the left-fold `Sum`, `calculateParity` and the algebra of parity.
- `Matrices` (`matrices.dfy`): matrices as lists of rows, `createMatrix`, columns, row-major flattening and the predicate `IsCodeword`. A codeword has every row and every column even.
- `Encoding` (`encoding.dfy`): `Encode`, the function that states what `encodeMessage` computes, and the properties of the encoded matrix.
- `BinaryText` (`binary_text.dfy`): `toString(2)` and `padStart(8, '0')` on bit lists, and `stringToBinary` as the function `TextBits`.
- `IterativeCoding` (`iterative_code.dfy`): the class `IterativeCode` with its constructor and the two loop-based methods; `EncodeMessage` runs its loop phases through one method each. Each method is proved equal to its specification function. The file also holds the encoding step of the demo's `handleEncode`.
- `CellToggle` (`cell_toggle.dfy`): `toggleCell` on a copy of the matrix, and single-error detection.

The source builds the matrix by assigning cells of a freshly allocated array of arrays. Nothing else holds that array, and `toggleCell` copies it before writing. The model therefore keeps the matrix as a value (`seq<seq<Bit>>`) that the loops update cell by cell.

Two behaviours of the code are kept as written:

- `padStart` never shortens, so a code unit of 256 or more gives its full binary width rather than eight bits. `CodeUnitBitsSpec` states this, and `WideCodeUnitCollides` shows the ambiguity it causes.
- The constructor does not validate its dimensions. The model's constructor requires `rows >= 1 && cols >= 1`, which the only use, `new IterativeCode(4, 8)`, meets. `Encode` itself is defined for all natural dimensions.

## Model

| member | source | states |
|---|---|---|
| Bits.Sum | src/app/components/IterativeCodeDemo.tsx:39 | the left fold of `+` from 0 over a bit list is a natural number no larger than the list's length |
| Bits.CalculateParity | src/app/components/IterativeCodeDemo.tsx:38-40 | the result is a bit, and it is the even-parity check bit: added to the sum of the input it gives an even total (so it is 0 for the empty list) |
| Bits.ParitySnoc | src/app/components/IterativeCodeDemo.tsx:38-40 | the fold step: parity(s + [b]) is the exclusive or of parity(s) and b |
| Bits.EvenIffCheckBit | src/app/components/IterativeCodeDemo.tsx:38-40 | s + [b] has even parity exactly when b is the parity of s, in both directions |
| Bits.ParityConcat | src/app/components/IterativeCodeDemo.tsx:38-40 | the parity of a concatenation is the exclusive or (sum mod 2) of the parts' parities |
| Bits.ParityZeros | src/app/components/IterativeCodeDemo.tsx:38-40 | a list of zeros has parity 0 |
| Bits.ParityXor | src/app/components/IterativeCodeDemo.tsx:38-40 | the parity of the pointwise exclusive or of two lists is the exclusive or of their parities |
| Bits.ParityFlip | src/app/components/IterativeCodeDemo.tsx:38-40 | flipping any single bit of a list flips its parity |
| Matrices.CreateMatrix | src/app/components/IterativeCodeDemo.tsx:10-12 | the matrix has exactly `height` rows of `width` cells, all 0 |
| Encoding.Encode | src/app/components/IterativeCodeDemo.tsx:14-36 | the encoded matrix has exactly rows + 1 rows of cols + 1 cells |
| Encoding.PayloadOfEncode | src/app/components/IterativeCodeDemo.tsx:17-23 | the payload block of the encoded matrix is the block filled row-major from the input, with 0 past its end |
| Encoding.EncodePayload | src/app/components/IterativeCodeDemo.tsx:17-23 | read row-major, the payload of the encoded matrix is the input cut to rows * cols bits when longer, or zero-padded to rows * cols bits when shorter |
| Encoding.EncodeRoundTrip | src/app/components/IterativeCodeDemo.tsx:17-23 | an input of exactly rows * cols bits is read back unchanged from the payload |
| Encoding.EncodeDependsOnFit | src/app/components/IterativeCodeDemo.tsx:17-23 | two inputs that agree on their first rows * cols bits, with 0 past their ends, give the same matrix |
| Encoding.EncodeTruncates | src/app/components/IterativeCodeDemo.tsx:19-21 | bits past the capacity are ignored: encoding `data` equals encoding `data[..rows * cols]` |
| Encoding.EncodePads | src/app/components/IterativeCodeDemo.tsx:19-21 | appending zeros to the input does not change the matrix, so a short input is encoded as if zero-padded |
| Encoding.RowParitiesParity | src/app/components/IterativeCodeDemo.tsx:25-27 | the parity of the row check bits equals the parity of all payload bits |
| Encoding.ColumnParitiesParity | src/app/components/IterativeCodeDemo.tsx:29-31 | the parity of the column check bits equals the parity of all payload bits |
| Encoding.CornerConsistency | src/app/components/IterativeCodeDemo.tsx:25-33 | the corner equals the parity of the parity row, the parity of the row-parity column, and the parity of all payload bits |
| Encoding.EncodeRowsEven | src/app/components/IterativeCodeDemo.tsx:25-33 | every row of the encoded matrix has even parity, check bit and corner included |
| Encoding.EncodeColumnsEven | src/app/components/IterativeCodeDemo.tsx:29-33 | every column of the encoded matrix has even parity, parity-row bit and corner included |
| Encoding.EncodeIsCodeword | src/app/components/IterativeCodeDemo.tsx:14-36 | the encoded matrix has the right shape and every row and every column is even |
| Encoding.CodewordUnique | src/app/components/IterativeCodeDemo.tsx:14-36 | any codeword whose payload block is the one filled from `data` is the encoded matrix, so the parity cells are determined by the payload |
| Encoding.EncodeExample | src/app/components/IterativeCodeDemo.tsx:14-36 | a 2 by 2 code with input 1,0,1,1 gives [[1,0,1],[1,1,0],[0,1,1]] |
| BinaryText.BinaryDigits | src/app/components/IterativeCodeDemo.tsx:46 | `charCode.toString(2)` as a bit list of at least one digit; that the digits write the number with no leading zero is `BinaryDigitsSpec` |
| BinaryText.BinaryDigitsSpec | src/app/components/IterativeCodeDemo.tsx:46 | `toString(2)` as bits: at least one digit, the digits write the number, there is no leading zero for a positive number, and zero gives the single digit 0 |
| BinaryText.PadStart | src/app/components/IterativeCodeDemo.tsx:46 | the padded length is the larger of the list's length and the width, so padding never shortens |
| BinaryText.PadStartSpec | src/app/components/IterativeCodeDemo.tsx:46 | padding only puts zeros in front: the original list is the tail, and the value is unchanged |
| BinaryText.DigitsWidth | src/app/components/IterativeCodeDemo.tsx:46 | a number below 256 has at most eight binary digits, and one of 256 or more has more than eight |
| BinaryText.CodeUnitBits | src/app/components/IterativeCodeDemo.tsx:45-46 | the block of one code unit has at least eight bits; its value, exact width and leading bit are `CodeUnitBitsSpec` |
| BinaryText.CodeUnitBitsSpec | src/app/components/IterativeCodeDemo.tsx:45-46 | a code unit's block writes its value, most significant bit first; it is eight bits for a code unit below 256, and the full binary width (more than eight bits, starting with 1) from 256 on; never more than 16 bits |
| BinaryText.CodeUnitBitsOfA | src/app/components/IterativeCodeDemo.tsx:45-46 | code unit 65 ("A") gives 0,1,0,0,0,0,0,1 |
| BinaryText.TextBits | src/app/components/IterativeCodeDemo.tsx:42-50 | `stringToBinary` as a function: at least eight bits per code unit; the order of the blocks is `TextBitsConcat`, their positions `NarrowTextBits` |
| BinaryText.TextBitsConcat | src/app/components/IterativeCodeDemo.tsx:42-50 | the bits of a concatenated text are the concatenation of the two texts' bits, in order |
| BinaryText.NarrowTextBits | src/app/components/IterativeCodeDemo.tsx:42-50 | for text of code units below 256 the output has eight bits per code unit, and bits 8k to 8k + 8 are the block of code unit k |
| BinaryText.NarrowRoundTrip | src/app/components/IterativeCodeDemo.tsx:42-50 | for text of code units below 256 the conversion is lossless: reading the bits back eight at a time gives the text |
| BinaryText.WideCodeUnitCollides | src/app/components/IterativeCodeDemo.tsx:45-47 | any code unit of 0x8000 or more gives the same bits as the two code units of its high and low byte, so unmasked wide code units make the output ambiguous |
| IterativeCoding.IterativeCode.constructor | src/app/components/IterativeCodeDemo.tsx:5-8 | the encoder keeps the given dimensions |
| IterativeCoding.IterativeCode.EncodeMessage | src/app/components/IterativeCodeDemo.tsx:14-36 | the four in-place loop phases (payload, row parities, parity row, corner) yield exactly `Encode(rows, cols, data)`, which is a codeword whose payload is the input cut or zero-padded to rows * cols bits |
| IterativeCoding.IterativeCode.CopyPayload | src/app/components/IterativeCodeDemo.tsx:15-23 | after the zero matrix and the payload loops, the payload cells hold the encoded matrix's payload and every other cell is still 0 |
| IterativeCoding.IterativeCode.CopyPayloadRow | src/app/components/IterativeCodeDemo.tsx:18-22 | one pass of the inner loop copies payload row i (input bits i * cols to i * cols + cols - 1, 0 past the input) and leaves every other cell as it was |
| IterativeCoding.IterativeCode.WriteRowParities | src/app/components/IterativeCodeDemo.tsx:25-27 | the row-parity loop fills the last column of the payload rows with their check bits and leaves the parity row at 0 |
| IterativeCoding.IterativeCode.WriteParityRow | src/app/components/IterativeCodeDemo.tsx:29-31 | the column-parity loop fills the parity row below the payload columns with the columns' check bits, leaving only the corner at 0 |
| IterativeCoding.IterativeCode.StringToBinary | src/app/components/IterativeCodeDemo.tsx:42-50 | the loop of pushes yields exactly the concatenated blocks of the code units; for text below 256 that is eight bits per code unit, and the bits read back as the text |
| IterativeCoding.HandleEncode | src/app/components/IterativeCodeDemo.tsx:58-61 | a 4 by 8 encoder applied to the text's bits gives a codeword; up to four code units below 256 fill the 32 payload cells with the text's bits followed by zeros |
| CellToggle.InRange | src/app/components/IterativeCodeDemo.tsx:66 | the bounds test of `toggleCell`: the row against the row count, the column against the first row's length; what the toggle does on each side of it is `ToggleCell` |
| CellToggle.ToggleCell | src/app/components/IterativeCodeDemo.tsx:65-68 | inside the bounds checked (row below the row count, column below the first row's length) only cell (row, col) changes, to 1 minus its value; outside them the matrix is returned unchanged; the shape is kept |
| CellToggle.ToggleTwice | src/app/components/IterativeCodeDemo.tsx:65-68 | flipping the same cell twice restores the matrix |
| CellToggle.FlipDetected | src/app/components/IterativeCodeDemo.tsx:65-68 | after one cell of a codeword is flipped, the rows that fail their parity check are exactly the flipped cell's row and the failing columns exactly its column |
| CellToggle.EncodedFlipDetected | src/app/components/IterativeCodeDemo.tsx:65-68 | the same for a matrix straight from the encoder, for any cell in the matrix, payload or parity |

## Left out

- The React component `IterativeCodeDemo` (lines 53-140) is not modelled: its state hooks, `setEncodedMatrix`, `setSelectedCell`, the selection highlight and all rendering. `HandleEncode` models only the encoding step of `handleEncode`.
- The `maxLength={4}` limit on the text field is a presentation rule. `HandleEncode` states what happens within it.
- The `encodedMatrix &&` guard of `toggleCell` is not modelled, because it only tests whether anything has been encoded yet, which is UI state.
- CellToggle.ToggleCell: requires a rectangular matrix, so it does not model the source's write past the end of a short row. The source checks the column against the first row only, and every matrix it toggles comes from `encodeMessage`, which is rectangular.
- CellToggle.ToggleCell: takes natural-number indices, so it does not model negative indices. Line 66 checks only the upper bounds. With a negative row, `newMatrix[row]` is `undefined` and reading `undefined[col]` throws a `TypeError`; with a negative column, `1 - undefined` is `NaN`, which is stored in the row under the key "-1" rather than in any cell.
- Data bits and matrix cells are of type `Bit` (0 or 1). JavaScript's behaviour on non-bit array elements, and `%` on negative sums, are not modelled.
- The text is a sequence of UTF-16 code units (integers below 0x10000). Decoding a JavaScript string into code units is not modelled.
- `toString(2).padStart(8, '0').split('').map(Number)` is modelled directly on bits: the digit characters in between are not represented.
- Idempotence of encoding has no lemma of its own: `Encode` is a function, and `EncodeMessage` is proved equal to it for every input.

