# Verification of the polynomial commitment and the encoded store

This project models the repository in Dafny and proves what it is for: that evaluations proved
with the two-dimensional linear-code commitment are the true ones, that the expander code the
commitment is used with really is a linear code, and that the store kept in that code always holds
the file it stands for. `dafny verify dfyconfig.toml` checks everything.

## What is modelled

**Arithmetic.** The repository is generic over a prime field. `Fields` keeps it so: the field is an
arbitrary finite one with at least 256 elements, and the residues of every prime are shown to satisfy
its laws. The hash function, the challenges of the transcript and the packing of bytes into field
elements are arbitrary too, each constrained only by what the code relies on. No theorem about the
protocol or the store assumes that the hash has no collisions: where it matters, the theorem says
which two inputs would collide, and that they are among those hashed in the case at hand.

**The commitment (lcpc-2d).** `Merkle`, `Commitment`, `Transcripts` and `Protocol` follow the code:
buffers are arrays that are split in halves down to 32 entries and written in place, `rayon::join`
is two calls on disjoint slices, the Merkle tree is one flat array, prover and verifier move a
transcript object. Each method is proved against a specification, and `Completeness` and
`Soundness` prove the protocol theorems about the specifications. `Acceptance` says exactly what is
accepted and what each rejection means, `RunHistories` what the transcript of a run holds. `Openings` proves that accepted
openings of a commitment are the committed ones, `PathLengths` which pairs of path lengths keep
openings binding where there is no commitment.

**The Brakedown code.** `ExpanderCode` proves the in-place two-pass encoder equal to the recursive
encoding of the reference, for any number of levels; `ReedSolomon` and `SparseMatrices` its parts,
`UnitMessages` what stands in a codeword behind the message;
`CodeDimensions` the sizes for the six codes of the table and the reference's own; `CodeGeneration` the
matrices. `Brakedown` puts them together with the commitment: the protocol theorems hold for every generated code.
`ReedSolomonCode` draws a consequence for the base code alone, whose distance says how many columns
are enough; it is no encoding of the repository, which commits with this code only as the base of the
expander code.

**The store (proof-of-storage).** `EncodedFiles` says what a store must hold: each row of the raw
file converted, padded and encoded. `EncodedFileWriters`, `EncodedFileReaders`, `RowStreams`,
`ColumnDigests` and `FileHandlers` are classes with the source's fields; files are sequences of field
elements (or raw bytes) that the methods rewrite. The invariant of `FileHandler` is that the store is
the encoding from scratch, that the counters agree and that the kept tree is the tree of the store;
every operation keeps it, so every run does. `EditRoutes` shows that editing the decoded store and
editing the file leave one store, `StoreGrowth` what the writer's growth does. `CommitmentRoutes`
shows that all ways of hashing a file give one commitment.

**Checks on the store.** `PolynomialEvaluation` proves that the value of a file's polynomial does not
depend on the shape it is stored in, `ClientChecks` that the client's append and edit checks are
exact, `StorageAudits` what a passed audit establishes.

## Findings

- A conversion leaves rows in memory. Only a row cut short makes finalizing write the buffers, so a
  file of more than 1024 full rows whose number is not a multiple of 1024 does not reach the disk
  whole. The conversion then fails its closing assertion; `reencode_unencoded_file` has no such
  assertion and leaves handler and store disagreeing. `ConvertUnencodedFile`, `Reshape` and
  `ReencodeUnencodedFile` state the exact condition and the exact number of rows that arrive,
  `SomeRowsAreNotWritten` a concrete file.
- `edit_decoded_bytes` panics on an empty edit exactly when it does not start at a row boundary
  (`EditDecodedBytes`, `EmptyEditEntersLoop`; `EmptyEditFails` is an input).
- `verify_column_path` accepts paths of any length. Two arbitrary openings with paths of different
  lengths bind exactly when the last turns of the longer climb are those of the shorter one
  (`BindingIsDecidedByTurns`); column 1 with paths of one and two digests does not
  (`ColumnOneDoesNotBind`). Against a commitment the length does no harm: an accepted opening of a
  committed column with a path of another length always gives a collision with the tree
  (`CommittedOpeningBinds`), so soundness holds for proofs with paths of any length.
- `verify` indexes the list of random combinations without checking its length: it panics exactly on
  the proofs of the right shape that hold fewer than there are degree tests
  (`PanicsExactlyWhenShort`, `NoCombinationsPanic`).
- A row appended to a full store is written over the next columns (`ReplaceEncodedRow`;
  `OneRowOverrun` is such a store). Only a direct call on the reader does that: every operation of the
  handler makes room first. A store cannot be shrunk to a capacity that still holds its rows
  (`SetNewCapacity`).
- A writer that is given as many rows as its capacity grows its store the wrong way round, which leaves
  the first column and zeros over those after it, and then fails an assertion at the next row
  (`PushBytes`, `SetNewCapacity`, `TwoRowsOvergrow`). Bytes up to the size declared never get there.
- `merkleize_ser` agrees with `merkleize` for power-of-two widths; for every other width it has a node
  where `merkleize` has padding (`SerialTreeIsFlatTree`).
- `get_full_columns` returns the columns in reverse order.
- `client_verify_commitment` refuses more columns than are required and accepts fewer
  (`AuditPassesExactlyWhen`).
- The length of a random combination is not checked; one that is shorter than a row is read as padded
  with zeros (`AcceptedCombinationIsTrue`).
- `MerkleTree::from_bytes` ignores bytes after the last whole digest (`TreeFromBytesExactlyWhen`).

## Model

| member | source | states |
|---|---|---|
| Completeness.HonestProofIsAccepted | lcpc-2d/src/lib.rs:862-982 | for every non-empty coefficient list, linear code, tensors and transcript, the verifier accepts the honest proof against the honest root, returns exactly the double sum outer * M * inner and leaves the transcript where the prover left it |
| Completeness.Lockstep | lcpc-2d/src/lib.rs:895-929 | after any number of degree tests prover and verifier have drawn the same tensors and their transcripts are equal |
| Soundness.AcceptedEvaluationIsTrue | lcpc-2d/src/lib.rs:952-981 | whatever the prover sent, with paths of any length: when the draws hit more columns than two codewords can share, acceptance means the true collapsed row and the true evaluation, or a message hashed to check the proof collides with one hashed for the commitment |
| Soundness.AcceptedCombinationsAgree | lcpc-2d/src/lib.rs:952-971 | whatever the prover sent: in an accepted proof every random combination encodes, at every column drawn, like the true combination of the committed rows with a tensor drawn after the combinations before it; or a collision with the commitment is revealed |
| Soundness.AcceptedCombinationIsTrue | lcpc-2d/src/lib.rs:952-971 | with draws past the distance, a combination no longer than a row is the true one, up to zeros left out at its end, or a collision is revealed |
| Acceptance.AcceptedExactlyWhen | lcpc-2d/src/lib.rs:862-982 | for a linear code the verifier accepts exactly the proofs of the right shape whose columns, drawn after every claim, weigh right in every degree test and in the evaluation and climb to the root; it returns the inner product with the claimed row |
| Acceptance.RejectionNamesTheFault | lcpc-2d/src/lib.rs:952-979 | a proof of the right shape that is not accepted has a first column that fails a check, and the error names the first check it fails |
| Acceptance.ShapeVerdicts | lcpc-2d/src/lib.rs:876-893 | which of the four shape errors is returned, each if and only if |
| Acceptance.ProverVerdicts | lcpc-2d/src/lib.rs:1044-1048 | the prover refuses exactly commitments whose sizes do not fit and tensors of another length |
| RunHistories.VerifiersHeardTheSame | lcpc-2d/src/lib.rs:895-938 | two verifier runs from one history that come to the columns and end in one history were given the same claimed row and the same combinations, whatever their roots, tensors and codes |
| RunHistories.ProversSaidTheSame | lcpc-2d/src/lib.rs:1069-1104 | two honest runs from one history that end in one history made the same claims |
| RunHistories.VerifierHeardTheProver | lcpc-2d/src/lib.rs:895-938 | a verifier whose transcript ends where the prover's did was given exactly what the prover claimed |
| RunHistories.ProverSays | lcpc-2d/src/lib.rs:1069-1110 | an honest run's history holds every combination and the claimed row; each combination collapses with a tensor drawn after those before it, and the columns opened are drawn from the whole history |
| RunHistories.VerifierHears | lcpc-2d/src/lib.rs:895-938 | the history of a run that comes to the columns holds the combinations tested and the claimed row, in order |
| Soundness.HonestProofMeetsHypotheses | lcpc-2d/src/lib.rs:1034-1123 | an honest proof has the right width, full-length paths, a combination for every test and no collision in it: the soundness theorem applies to it as soon as its draws cover enough columns |
| Soundness.InjectiveHasDistanceOne | proof-of-storage/src/networking/server.rs:1167-1169 | an injective code has distance one, so testing all columns is enough |
| Soundness.DrawingAllColumnsIsEnough | proof-of-storage/src/networking/server.rs:1167-1169 | draws that cover every column meet the hypothesis of the soundness theorem |
| Openings.OpeningBinds | lcpc-2d/src/lib.rs:985-1012 | two accepted openings of one column number under one root with equal path lengths are identical or give a collision among the messages hashed for them |
| PathLengths.BindingIsDecidedByTurns | lcpc-2d/src/lib.rs:985-1012 | openings of a column with paths of lengths m <= n under one root bind (same column, or a collision among the messages hashed for them) if and only if the last m turns of the longer climb are the turns of the shorter one, for every hash without a collision among the messages of one pair of crossed openings |
| PathLengths.SameTurnsCollide | lcpc-2d/src/lib.rs:985-1012 | with the same turns, two accepted openings of different columns, or of different path lengths, hand over a collision among the messages hashed for them |
| PathLengths.Crossed | lcpc-2d/src/lib.rs:985-1012 | with a differing turn any two columns have openings of these lengths that are accepted under one root, for every hash function |
| PathLengths.ColumnOneDoesNotBind | lcpc-2d/src/lib.rs:985-1012 | column 1, paths of one and of two digests: two different columns are accepted under one root |
| PathLengths.LongerPathsBindColumnZeroOnly | lcpc-2d/src/lib.rs:985-1012 | of two openings without a tree, one with a path as long as a tree of that width has and one longer, the turns are the same for column 0 and for no other column |
| Openings.ColumnsBind | lcpc-2d/src/lib.rs:952-973 | every column of an accepted proof is the committed one with its full path, or a message hashed to check one of them collides with one hashed for the commitment |
| Openings.CommittedOpeningBinds | lcpc-2d/src/lib.rs:985-1012 | an opening of a committed column that leads to the root, with a path of any length, is the committed opening or hands over a collision between what is hashed to check it and what is hashed for the commitment |
| Openings.ShortCollides | lcpc-2d/src/lib.rs:985-1012 | a path that is too short for the tree: a node of the tree collides with the column, or two nodes further up collide |
| Openings.LongCollides | lcpc-2d/src/lib.rs:985-1012 | a path that is too long: it passes the place of a committed column, never of padding, with a node there that collides with the column, or two nodes further up collide |
| Commitment.Commit | lcpc-2d/src/lib.rs:651-700 | the in-place computation returns the commitment of the specification, and its errors: a row that fails to encode, a width too large |
| Commitment.EncodeMatrix | lcpc-2d/src/lib.rs:677-683 | the rows encoded in place, slot by slot, are the encodings of the padded rows in order; any failing row fails the whole |
| Commitment.CheckComm | lcpc-2d/src/lib.rs:703-718 | true exactly when the three sizes and both dimensions fit, and the width is a power of two where the code asks for one |
| Commitment.TooBigExactlyWhen | lcpc-2d/src/lib.rs:684-687 | with a linear code, committing fails exactly when the next power of two of the width is 2^64 or more, and always with that error |
| Commitment.RowCountIsLeast | lcpc-2d/src/lib.rs:655-661 | the rows hold the coefficients and one row less does not |
| Commitment.HashColumns | lcpc-2d/src/lib.rs:736-774 | the recursive split writes at each place of its slice the hash of its column and touches nothing outside the slice, for every size and offset |
| Commitment.CollapseColumns | lcpc-2d/src/lib.rs:1126-1154 | the recursive split adds to each entry of its slice the weighted sum of its column and touches nothing outside |
| Commitment.CollapseFresh | lcpc-2d/src/lib.rs:1090-1101 | collapsing into zeros gives the weights times the coefficient matrix |
| Commitment.Merkleize | lcpc-2d/src/lib.rs:720-734 | the array ends up as the flat tree over the column hashes, padded with empty digests to a power of two |
| Commitment.OpenColumn | lcpc-2d/src/lib.rs:818-855 | the column's values and the siblings on its way up the flat tree, or an error past the last column |
| Commitment.HonestOpeningClimbs | lcpc-2d/src/lib.rs:818-855 | for every width, padded or not, and every column, the path opened leads from the column's hash to the last element of the array |
| Commitment.EncodedColumnDot | lcpc-2d/src/lib.rs:1015-1030 | the weights applied to an encoded column give the entry of the encoded collapsed row: collapsing commutes with encoding |
| Commitment.EncodeRowsSucceeds | lcpc-2d/src/lib.rs:677-683 | with a linear code the encoded matrix exists and its rows are the codewords of the coefficient rows |
| Commitment.CollapseIsCombine | lcpc-2d/src/lib.rs:1140-1146 | the column sums the loops build are the entries of the linear combination of the rows |
| LinearCode.EncodingCommutesWithCombine | lcpc-2d/src/lib.rs:89-92 | encoding a combination of rows is combining the encoded rows |
| LinearCode.CodewordLinear | lcpc-2d/src/lib.rs:89-92 | padding and encoding is linear on messages |
| Merkle.MerkleLevels | lcpc-2d/src/lib.rs:777-790 | level after level in place, the output slice becomes every level above the input, for any power of two |
| Merkle.MerkleLayer | lcpc-2d/src/lib.rs:792-815 | the recursive split writes the parents of its input slice and nothing else |
| Merkle.WalkPath | lcpc-2d/src/lib.rs:839-852 | walking the flat array, dropping the lower half each time, collects the siblings of the specification |
| Merkle.ClimbPath | lcpc-2d/src/lib.rs:996-1010 | hashing up a path computes the climb of the specification |
| Merkle.FlatPathIsPath | lcpc-2d/src/lib.rs:839-852 | the path read off the flat array is the path of the level-by-level tree |
| Merkle.PathClimbsToRoot | lcpc-2d/src/lib.rs:985-1012 | climbing from a leaf with its path gives the root, for every leaf of every tree |
| Merkle.LastIsRoot | lcpc-2d/src/lib.rs:289-296 | the last element of the flat array is the root |
| Merkle.ClimbBinds | lcpc-2d/src/lib.rs:985-1012 | two climbs of equal length to one digest start equal with equal paths, or the function returns two node inputs that collide |
| Protocol.Prove | lcpc-2d/src/lib.rs:1034-1123 | proof and transcript are those of the specification, including both argument errors |
| Protocol.Verify | lcpc-2d/src/lib.rs:862-982 | for every proof, result and transcript are those of the specification, with every error in the order of the checks and the panic when a combination is missing |
| Protocol.PanicsExactlyWhenShort | lcpc-2d/src/lib.rs:895-929 | with a linear code the verifier panics if and only if the proof has the right shape and holds fewer combinations than there are degree tests |
| Protocol.NoCombinationsPanic | lcpc-2d/src/lib.rs:895-929 | a proof of the right shape without any combination is such a proof |
| Protocol.NoColumnError | lcpc-2d/src/lib.rs:952-973 | no column error is reported if and only if every opened column passes all three checks |
| Protocol.CheckColumn | lcpc-2d/src/lib.rs:952-972 | the three verdicts on a column: in every degree test the word's entry is the product of tensor and column, the same for the evaluation, and the column's hash climbs to the root |
| Protocol.VerifyColumnPath | lcpc-2d/src/lib.rs:985-1012 | true exactly when the column's hash climbs to the root |
| Transcripts.Transcript.ChallengeTensor | lcpc-2d/src/lib.rs:898-907 | entry i of a challenge is entry i of the stream after everything appended and asked before |
| Transcripts.Transcript.ChallengeColumns | lcpc-2d/src/lib.rs:929-938 | draw i is draw i of the stream after the whole history, reduced below the width |
| SerialForms.MerkleizeSer | lcpc-2d/src/lib.rs:1159-1189 | for every width and whatever the array held before, the serial loops leave the leaves and above them the recursively defined serial levels |
| SerialForms.SerialTreeIsFlatTree | lcpc-2d/src/lib.rs:1159-1189 | for power-of-two widths those levels are the flat tree of the recursive form; for every other width the array has the parent of the first two leaves where the flat tree has padding |
| SerialForms.EvalOuterSer | lcpc-2d/src/lib.rs:1236-1257 | the serial double loop computes the same collapsed row, and rejects a tensor of the wrong length |
| ExpanderCode.Encode | lcpc-brakedown-pc/src/encode.rs:36-94 | with any number of levels, the two in-place passes with moving offsets leave the recursive encoding of the first n entries, whatever the rest of the buffer held; all slices are in range and both closing assertions hold |
| ExpanderCode.EncodedLinear | lcpc-brakedown-pc/src/encode.rs:36-94 | encode(x + k*y) = encode(x) + k*encode(y) |
| ExpanderCode.Systematic | lcpc-brakedown-pc/src/encode.rs:36-94 | a codeword starts with its message |
| ExpanderCode.ExpanderCodeIsLinear | lcpc-brakedown-pc/src/lib.rs:140-170 | the code, as the commitment uses it, is linear and injective: the assumption of the protocol theorems is met |
| ExpanderCode.CodewordLengthIsCodeLength | lcpc-brakedown-pc/src/encode.rs:18-33 | the sum of matrix dimensions is the length of the recursive encoding |
| ReedSolomon.RsHorner | lcpc-brakedown-pc/src/encode.rs:97-110 | Horner's rule in place evaluates the message at 1, 2, ..., m and writes only its slice |
| ReedSolomon.RsVandermonde | doc/encoding.py:85-95 | the Vandermonde loop of the reference computes the same word |
| ReedSolomon.RsLinear | lcpc-brakedown-pc/src/encode.rs:97-110 | the base code is linear |
| ReedSolomon.NonzeroWordHasFewZeros | lcpc-brakedown-pc/src/encode.rs:97-110 | a nonzero message of length l gives at most l-1 zeros when the points are nonzero |
| ReedSolomon.RsDistance | lcpc-brakedown-pc/src/encode.rs:97-110 | different messages of length l agree in at most l-1 places |
| ReedSolomonCode.RsCodeIsLinear | lcpc-brakedown-pc/src/encode.rs:97-110 | as the code of a commitment, n symbols evaluated at len points are a linear code |
| ReedSolomonCode.RsCodeHasDistance | lcpc-brakedown-pc/src/encode.rs:97-110 | of distance len - n + 1 when the points are nonzero |
| ReedSolomonCode.ManyColumnsAreEnough | lcpc-2d/src/lib.rs:952-981 | with that code an accepted proof whose draws hit n different columns carries the value of the polynomial, or reveals a collision with the commitment |
| ReedSolomon.ResiduesHaveNonzeroPoints | doc/encoding.py:85-89 | modulo a prime p the points 1..m are nonzero for every m below p |
| Polynomials.FewRoots | lcpc-brakedown-pc/src/encode.rs:97-110 | a polynomial with n coefficients, not all zero, has fewer than n roots |
| SparseMatrices.Multiply | doc/encoding.py:31-37 | the entry-by-entry product is the vector-matrix product |
| SparseMatrices.ApplyLinear | doc/encoding.py:31-37 | the product is linear |
| SparseMatrices.ApplyUnit | doc/encoding.py:31-37 | the product with the message that is one at place i holds, at each output, the sum of the entries of line i for it |
| SparseMatrices.EntryIsSum | doc/encoding.py:31-37 | what a line holds at an output is the sum of its values for that output, repeated or not |
| SparseMatrices.EntryOfLine | lcpc-brakedown-pc/src/matgen.rs:126-182 | for a line with outputs in order that sum is the value at its output and zero at all others |
| SparseMatrices.ApplyIsSumOfLines | doc/encoding.py:31-37 | every product is the sum of those lines weighted with the message |
| UnitMessages.CodewordParts | lcpc-brakedown-pc/src/encode.rs:36-94 | a codeword is its message, the codeword of the shrunk message, and check symbols that are the sums of that codeword's symbols weighted with the entries of the postcode |
| UnitMessages.UnitCodeword | lcpc-brakedown-pc/src/encode.rs:36-94 | with two levels or more, right behind a unit message come the values of its line at their places and zeros between them |
| UnitMessages.UnitCodewordOneLevel | lcpc-brakedown-pc/src/encode.rs:36-94 | with one level, the values at 1, 2, ... of the polynomial whose coefficients are the line |
| UnitMessages.GeneratedUnitCodeword | lcpc-brakedown-pc/src/matgen.rs:28-52 | in a generated code every unit message has a codeword with the nonzero values of its line behind it |
| CodeDimensions.EveryLevelFits | lcpc-brakedown-pc/src/matgen.rs:63-106 | for the six codes of the table and the reference's own, and every n above 20, a level shrinks and leaves at least one check symbol: no subtraction goes below zero |
| CodeDimensions.DimensionsFit | lcpc-brakedown-pc/src/matgen.rs:56-111 | at every level sizes chain, no row is denser than its matrix is wide, and the last size is at most 20 |
| CodeDimensions.PrecodesOfThousand | lcpc-brakedown-pc/src/matgen.rs:63-90 | sizes and densities of the first precode for a thousand symbols, in numbers, for each of the seven codes |
| CodeDimensions.PostcodesOfThousand | lcpc-brakedown-pc/src/matgen.rs:92-106 | sizes and densities of the first postcode for a thousand symbols, in numbers, for two codes |
| CodeDimensions.DenserPostcodesOfThousand | lcpc-brakedown-pc/src/matgen.rs:92-106 | the same for two more codes |
| CodeDimensions.DensestPostcodesOfThousand | lcpc-brakedown-pc/src/matgen.rs:92-106 | the same for the last two codes of the table |
| CodeDimensions.ReferencePostcodeOfThousand | lcpc-brakedown-pc/src/matgen.rs:92-106 | the same for the parameters of the reference |
| CodeDimensions.FirstLevelOfHundred | lcpc-brakedown-pc/src/matgen.rs:75-87 | two precodes for a hundred symbols, where the additive bound on the density is the larger one |
| CodeDimensions.DensitiesArePositive | lcpc-brakedown-pc/src/matgen.rs:63-106 | at every level both matrices have entries in every line, when the floating-point terms are positive |
| CodeDimensions.GeneratedCodeFits | lcpc-brakedown-pc/src/matgen.rs:56-111 | matrices of these shapes chain for encode, and the total length telescopes to r*n rounded up, more than n |
| CodeDimensions.EncodersAgree | doc/encoding.py:155-165 | on these matrices, for the six codes and the reference's own alpha and r, the reference encoder meets none of its assertions and is the same function as the levelled encoding |
| CodeGeneration.GenCode | lcpc-brakedown-pc/src/matgen.rs:114-188 | the compressed matrix has, in every line, exactly d nonzero entries at different columns in increasing order: the first d different draws, with the values drawn in order |
| CodeGeneration.SampleRow | lcpc-brakedown-pc/src/matgen.rs:126-182 | the columns of a line are the first d different draws, sorted, and its k-th value is the k-th value drawn |
| CodeGeneration.Generate | lcpc-brakedown-pc/src/matgen.rs:28-52 | the generated matrices have the computed dimensions and densities, so every generated code is valid for the theorems below |
| CodeGeneration.DecodesToLines | lcpc-brakedown-pc/src/matgen.rs:182-187 | the compressed form stands for exactly the lines that were sampled |
| Brakedown.GeneratedCodeIsLinear | lcpc-brakedown-pc/src/lib.rs:69-100 | every generated code is a linear injective code from n symbols to r*n rounded up |
| Brakedown.HonestValueIsAccepted | lcpc-brakedown-pc/src/lib.rs:140-185 | with any generated code the honest proof of any polynomial's value at any point is accepted with that value |
| Brakedown.AcceptedValueIsTrue | lcpc-brakedown-pc/src/lib.rs:140-185 | with any generated code, an accepted proof whose draws hit every column carries the true value, or a message hashed to check it collides with one hashed for the commitment |
| DataFields.BytesRoundTrip | proof-of-storage/src/fields/data_field.rs:38-60 | bytes go into the field and back unchanged, padded with zeros to a whole element |
| DataFields.FromBytesSplit | proof-of-storage/src/fields/data_field.rs:38-46 | whole chunks convert on their own |
| DataFields.FromPaddedBytes | proof-of-storage/src/fields/data_field.rs:36-46 | padding the bytes with zeros pads the elements with zeros |
| DataFields.FromBytesLength | proof-of-storage/src/fields/data_field.rs:36-46 | the number of elements is the byte count divided by the capacity, rounded up |
| DataFields.LimbPackingWorks | proof-of-storage/src/fields/writable_ft63.rs:31-47 | filling the limbs of a scaled representation and reading them back is lossless, and zero bytes are zero, as long as the bytes stay below the modulus |
| Bytes.LittleEndianConcat | proof-of-storage/src/fields/writable_ft63.rs:31-47 | in the number a run of bytes stands for, later bytes weigh 256 to the number of bytes before them |
| DataFields.SevenBytesFit | proof-of-storage/src/fields/writable_ft63.rs:7-11 | seven bytes are below the modulus of the 63-bit field and eight are not |
| Fields.ResiduesFormField | proof-of-storage/src/fields/writable_ft63.rs:7-11 | the residues of every prime satisfy the field laws the model relies on |
| MerkleTrees.New | proof-of-storage/src/lcpc_online/merkle_tree.rs:14-26 | the flat tree, or an error when the width is not a power of two or is below two |
| MerkleTrees.GetPath | proof-of-storage/src/lcpc_online/merkle_tree.rs:37-55 | the path of the specification, or nothing past the width |
| MerkleTrees.TreePathLeadsToRoot | proof-of-storage/src/lcpc_online/merkle_tree.rs:33-55 | every path handed out leads to the root of the tree |
| MerkleTrees.TreeBytesRoundTrip | proof-of-storage/src/lcpc_online/merkle_tree.rs:61-86 | every tree that can be built comes back from its bytes |
| MerkleTrees.TreeFromBytesExactlyWhen | proof-of-storage/src/lcpc_online/merkle_tree.rs:65-87 | bytes are taken for a tree exactly when they hold one digest less than a power of two and at least three; the tree's bytes are those bytes, without what is left over after the last digest |
| MerkleTrees.TreeOfFour | proof-of-storage/src/lcpc_online/merkle_tree.rs:14-26 | the tree over four leaves and a path in it, hash by hash |
| MerkleTrees.TreeOfTwo | proof-of-storage/src/lcpc_online/merkle_tree.rs:14-26 | the tree over two leaves, hash by hash |
| MerkleTrees.SmallHashes | lcpc-2d/src/lib.rs:756-770 | what is hashed for a column of two entries: a block of zeros and the entries |
| MerkleTrees.SameTreeIsEquality | proof-of-storage/src/lcpc_online/merkle_tree.rs:111-123 | comparing widths and common digests decides equality of trees |
| EncodedFiles.RowRoundTrip | proof-of-storage/src/lcpc_online/encoded_file_reader.rs:59-77 | decoding an encoded row gives the padded message back |
| EncodedFiles.FileRowsConcat | proof-of-storage/src/lcpc_online/encoded_file_writer.rs:212-241 | a file that starts with whole rows is encoded in two parts as in one |
| EncodedFiles.DecodedBytesUpdate | proof-of-storage/src/lcpc_online/encoded_file_reader.rs:119-194 | replacing one row of the store replaces exactly its bytes in the decoded file |
| EncodedFiles.StoreColumn | proof-of-storage/src/lcpc_online/encoded_file_reader.rs:317-326 | a column lies contiguously in the file |
| EncodedFileReaders.EncodedFileReader.GetEncodedRow | proof-of-storage/src/lcpc_online/encoded_file_reader.rs:214-253 | the row's cell of every column, or a failed read past the capacity |
| EncodedFileReaders.EncodedFileReader.ReplaceEncodedRow | proof-of-storage/src/lcpc_online/encoded_file_reader.rs:255-315 | the row is replaced or appended and every other row is unchanged; a row further out is refused; a row appended to a full store goes over the first cells of the following columns and past the end, and the store is no longer one |
| EncodedFileReaders.WriteCells | proof-of-storage/src/lcpc_online/encoded_file_reader.rs:290-310 | one write per column at a fixed stride: below the capacity exactly the cells of the row change; at the capacity every column after the first loses its first cell |
| EncodedFileReaders.OneRowOverrun | proof-of-storage/src/lcpc_online/encoded_file_reader.rs:255-315 | a full store of one row of zeros to which a row of ones is appended: the stored row is no longer zeros and one cell lies past the end |
| EncodedFileReaders.EncodedFileReader.GetEncodedColumn | proof-of-storage/src/lcpc_online/encoded_file_reader.rs:317-326 | the column of the stored rows; past the width a failed read, or no cells when no row is stored |
| EncodedFileReaders.EncodedFileReader.ProcessToMerkleTree | proof-of-storage/src/lcpc_online/encoded_file_reader.rs:328-346 | the tree of the stored rows' column hashes |
| EncodedFileReaders.EncodedFileReader.SetNewCapacity | proof-of-storage/src/lcpc_online/encoded_file_reader.rs:348-381 | moving overlapping columns from last to first keeps every cell and leaves the new rows zero, for any width and growth; less than the rows written is refused; any other smaller capacity cuts the file off and panics |
| EncodedFileReaders.EncodedFileReader.ReplaceRowWithDecodedBytes | proof-of-storage/src/lcpc_online/encoded_file_reader.rs:196-207 | for any bytes and target: more elements than a codeword panics, a row past the next is refused, otherwise the row becomes the encoding of the bytes, or overruns a full store |
| EncodedFileReaders.EncodedFileReader.GetUnencodedRowBytes | proof-of-storage/src/lcpc_online/encoded_file_reader.rs:59-77 | the bytes the stored row decodes to, or an error past the last row |
| EncodedFileReaders.EncodedFileReader.EditDecodedBytes | proof-of-storage/src/lcpc_online/encoded_file_reader.rs:119-194 | for every edit, across any number of rows: the decoded store is the old one with the range spliced, rows outside it are untouched, and the replaced bytes are returned; when rows are missing, exactly the part that fits is written and an error returned; it panics, with nothing changed, if and only if the edit is empty and starts inside a row |
| EncodedFileReaders.EncodedFileReader.EditRow | proof-of-storage/src/lcpc_online/encoded_file_reader.rs:146-190 | one row of an edit: the window computed with remainders is the intersection of edit and row |
| EncodedFileReaders.EmptyEditEntersLoop | proof-of-storage/src/lcpc_online/encoded_file_reader.rs:119-149 | an empty edit enters the loop, whose assertion then fails, if and only if it starts off a row boundary |
| EncodedFileReaders.EmptyEditFails | proof-of-storage/src/lcpc_online/encoded_file_reader.rs:119-149 | an empty edit at byte 1 is one for every code with more than one byte in a row |
| EditRoutes.EditRoutesAgree | proof-of-storage/src/lcpc_online/encoded_file_reader.rs:119-194 | on a store of a file, whatever an edit of the decoded bytes within the file leaves is the from-scratch encoding of the edited file, as after the handler's edit, and the bytes returned are the file's |
| EditRoutes.EditPastTheEnd | proof-of-storage/src/lcpc_online/encoded_file_reader.rs:119-194 | an edit that reaches past the last row writes the part that fits and reports the missing row; one that starts past it changes nothing |
| EditRoutes.StoreDecodesToFile | proof-of-storage/src/lcpc_online/encoded_file_reader.rs:59-77 | the store of a file decodes to the file, padded with zeros to whole rows |
| ColumnDigests.ColumnDigestAccumulator.constructor | proof-of-storage/src/lcpc_online/column_digest_accumulator.rs:24-42 | every hasher starts with a block of zeros |
| ColumnDigests.ColumnDigestAccumulator.Update | proof-of-storage/src/lcpc_online/column_digest_accumulator.rs:62-87 | after a row of the right length every hasher has absorbed its column of the rows so far; another length is refused |
| ColumnDigests.ColumnDigestAccumulator.GetColumnDigests | proof-of-storage/src/lcpc_online/column_digest_accumulator.rs:89-96 | the leaf hashes of the rows absorbed |
| ColumnDigests.ColumnDigestAccumulator.FinalizeToMerkleTree | proof-of-storage/src/lcpc_online/column_digest_accumulator.rs:109-117 | the tree of the rows absorbed |
| RowStreams.FieldGeneratorIter.Next | proof-of-storage/src/fields/field_generator_iter.rs:36-56 | the next element of the conversion of the whole stream, taking exactly its bytes |
| RowStreams.CollectElements | proof-of-storage/src/fields/field_generator_iter.rs:36-56 | iterating to the end gives what converting all bytes at once gives |
| RowStreams.RowGeneratorIter.Next | proof-of-storage/src/lcpc_online/row_generator_iter.rs:138-164 | the next row of the from-scratch encoding, leaving the rest |
| RowStreams.RowGeneratorIter.GetColumnDigests | proof-of-storage/src/lcpc_online/row_generator_iter.rs:29-41 | the leaf hashes of the from-scratch encoding of the bytes streamed |
| RowStreams.RowGeneratorIter.GetSpecifiedColumnDigests | proof-of-storage/src/lcpc_online/row_generator_iter.rs:43-66 | those leaf hashes at the columns asked for, in that order |
| RowStreams.RowGeneratorIter.ConvertToCommitRoot | proof-of-storage/src/lcpc_online/row_generator_iter.rs:68-77 | the root of the tree over them |
| RowStreams.RowGeneratorIter.GetFullColumns | proof-of-storage/src/lcpc_online/row_generator_iter.rs:79-107 | columns and paths of the from-scratch encoding, in the reverse of the order asked for |
| CommitmentRoutes.OneCommitment | proof-of-storage/src/lcpc_online/row_generator_iter.rs:286-329 | committing to the elements, streaming the bytes and re-reading the store give one tree, one root, the same leaves and the same opened columns, for every file and shape |
| CommitmentRoutes.CommittedRows | proof-of-storage/src/lcpc_online/row_generator_iter.rs:189-235 | the committed matrix has the rows of the streamed encoding |
| CommitmentRoutes.ConvertToLeaves | proof-of-storage/src/lcpc_online.rs:81-190 | the leaf branch computes the hashes of the requested columns, which are the leaves of every commitment to the same elements; it fails over empty data and over dimensions exactly as stated, and when a row does not encode |
| CommitmentRoutes.StoreColumnsVerify | proof-of-storage/src/lcpc_online/file_handler.rs:671-676 | a column of the store with its path passes the verifier's path check against the root of the file's encoding |
| EncodedFileWriters.EncodedFileWriter.constructor | proof-of-storage/src/lcpc_online/encoded_file_writer.rs:54-109 | an empty store of twice the rows the file needs |
| EncodedFileWriters.EncodedFileWriter.PushBytes | proof-of-storage/src/lcpc_online/encoded_file_writer.rs:212-241 | for any bytes in any chunking: below the capacity the writer's invariant holds and less than a row of bytes is left over; at the capacity only the first column and what the moving runs did not reach are left of the store; past it an assertion has failed; which of the three is decided by the whole rows received |
| EncodedFileWriters.EncodedFileWriter.SetNewCapacity | proof-of-storage/src/lcpc_online/encoded_file_writer.rs:429-462 | the writer's own growth moves a run for each row where the file has one for each column: with at least twice the capacity the first run stays, everything after it up to the last run is zeros and the rest is untouched; the new capacity is not recorded; a capacity below the rows is refused, another smaller one panics |
| StoreGrowth.MoveRuns | proof-of-storage/src/lcpc_online/encoded_file_writer.rs:445-459 | run after run, with reads that overlap what has been written: all runs but the first carry zeros |
| StoreGrowth.WritePastCapacity | proof-of-storage/src/lcpc_online/encoded_file_writer.rs:325-366 | a row written past the capacity goes to one cell after each column and changes nothing else |
| EncodedFileWriters.TwoRowsOvergrow | proof-of-storage/src/lcpc_online/encoded_file_writer.rs:380-386 | a writer made for one byte that is given two full rows has grown, for every code |
| EncodedFileWriters.EncodedFileWriter.ColumnSoFar | proof-of-storage/src/lcpc_online/encoded_file_writer.rs:309-389 | what the invariant says of a column: its part on disk followed by its buffer is that column of the encoded whole rows received, and its hasher has absorbed just that |
| EncodedFileWriters.EncodedFileWriter.BufferedWriteRow | proof-of-storage/src/lcpc_online/encoded_file_writer.rs:309-389 | a row joins the buffers, and the buffers join the file exactly when they are full, the capacity is reached or on finalizing; at the capacity the store grows and only its first column is left, past it the row is written one cell after each column and the assertion fails |
| EncodedFileWriters.EncodedFileWriter.EncodeCurrentRow | proof-of-storage/src/lcpc_online/encoded_file_writer.rs:277-307 | the next row's bytes are taken and encoded |
| EncodedFileWriters.EncodedFileWriter.FinalizeToMerkleTree | proof-of-storage/src/lcpc_online/encoded_file_writer.rs:493-507 | the tree is that of all bytes received; the rows on disk are all of them if bytes were left over, else the whole buffers only; growth and the failing assertion as for pushing |
| EncodedFileWriters.ConvertUnencodedFile | proof-of-storage/src/lcpc_online/encoded_file_writer.rs:134-210 | a file that ends in a short row is stored whole; k full rows are stored whole if and only if k is at most 1024 or a multiple of 1024; otherwise the closing assertion fails and the file holds exactly k - k % 1024 rows |
| EncodedFileWriters.RowsThatReach | proof-of-storage/src/lcpc_online/encoded_file_writer.rs:82-86 | of k full rows all reach the file when k is at most 1024, else k - k % 1024; a short last row brings all of them along |
| EncodedFileWriters.SomeRowsAreNotWritten | proof-of-storage/src/lcpc_online/encoded_file_writer.rs:205-208 | 1025 full rows are such a failing file, for every code |
| FileHandlers.FileHandler.constructor | proof-of-storage/src/lcpc_online/file_handler.rs:73-143 | a handler attached to a store of the file agrees with it |
| FileHandlers.CreateFromUnencodedFile | proof-of-storage/src/lcpc_online/file_handler.rs:145-199 | a handler that agrees with its files, exactly for the files whose conversion succeeds |
| FileHandlers.AttachToExistingFiles | proof-of-storage/src/lcpc_online/file_handler.rs:73-143 | attaching always succeeds on a store with its tree's bytes |
| FileHandlers.FileHandler.EditBytes | proof-of-storage/src/lcpc_online/file_handler.rs:279-333 | the file is spliced, the old bytes are returned, and the handler still agrees; an edit past the end changes nothing |
| FileHandlers.FileHandler.AppendBytes | proof-of-storage/src/lcpc_online/file_handler.rs:335-366 | the file grows by the bytes, the store doubles when it must, and the handler still agrees |
| FileHandlers.FileHandler.ReencodeRow | proof-of-storage/src/lcpc_online/file_handler.rs:380-402 | the row becomes the encoding of the file's row, refused past the last |
| FileHandlers.FileHandler.ReencodeUnencodedFile | proof-of-storage/src/lcpc_online/file_handler.rs:406-462 | afterwards handler and reader count exactly the rows that reached the file and the store holds those; the handler agrees with its files if and only if that is every row |
| FileHandlers.FileHandler.Reshape | proof-of-storage/src/lcpc_online/file_handler.rs:224-276 | in the new shape the handler agrees with the same file, if and only if every row was written; otherwise it panics and the old store is gone, the rows of the new shape up to the last multiple of 1024 in its place |
| FileHandlers.FileHandler.GetUnencodedRow | proof-of-storage/src/lcpc_online/file_handler.rs:585-602 | the row's bytes of the file, the last one short |
| FileHandlers.FileHandler.RecalculateMerkleTree | proof-of-storage/src/lcpc_online/file_handler.rs:474-481 | the kept tree is the tree of the store |
| FileHandlers.FileHandler.ReadFullColumns | proof-of-storage/src/lcpc_online/file_handler.rs:566-583 | the columns of the from-scratch encoding with their paths, if and only if all numbers are in range |
| FileHandlers.FileHandler.VerifyAllFilesAgree | proof-of-storage/src/lcpc_online/file_handler.rs:505-541 | true exactly when the tree of the store and the tree of the file both are the kept tree and the byte count is right |
| FileHandlers.FileHandler.VerifiedFilesAgree | proof-of-storage/src/lcpc_online/file_handler.rs:505-541 | passing that check, with handler and reader counting the same rows, means that the handler agrees with its files, or that a column of the store collides with the same column of the file's encoding |
| FileHandlers.Run | proof-of-storage/src/lcpc_online/file_handler.rs:224-481 | after any run of edits, appends, row re-encodings, recalculations, re-encodings of the whole file and changes of shape that write every row, the store is the from-scratch encoding of the resulting file in the resulting shape, handler and reader agree on the rows, and the kept tree is the store's |
| PolynomialEvaluation.EvaluateAtPoint | proof-of-storage/src/fields.rs:162-170 | the loop over growing powers evaluates the polynomial |
| PolynomialEvaluation.EvaluateAtPointWithElevatedDegree | proof-of-storage/src/fields.rs:174-186 | it evaluates the polynomial times x to the offset |
| PolynomialEvaluation.FormSideVectors | proof-of-storage/src/lcpc_online.rs:603-627 | by accumulation: the powers of x, and the powers of x to the row width |
| PolynomialEvaluation.SideVectorsEvaluate | proof-of-storage/src/lcpc_online.rs:603-627 | left * M * right is the value of the polynomial whose coefficients are the matrix row after row |
| PolynomialEvaluation.ShapeIndependent | proof-of-storage/src/networking/client.rs:817-827 | for every row width, with the padding of the last row, that value is the value of the coefficient list: any two shapes of one file evaluate equally |
| PolynomialEvaluation.HonestPolynomialValue | proof-of-storage/src/lcpc_online.rs:630-672 | in every shape the protocol accepts the honest proof with that value |
| PolynomialEvaluation.AcceptedPolynomialValue | proof-of-storage/src/lcpc_online.rs:519-543 | and an accepted value is that value, or a message hashed to check the proof collides with one hashed for the commitment |
| ClientChecks.CheckAppend | proof-of-storage/src/networking/client.rs:1062-1125 | for any old file, length and appended bytes, also inside a coefficient, the check passes exactly when the two results differ as the values of the two files do |
| ClientChecks.CheckEdit | proof-of-storage/src/networking/client.rs:1304-1414 | for any edit within the rows received it passes exactly when some byte changed and the results differ as the files do; rows that are not whole are refused |
| ClientChecks.OnlyTrueValuePasses | proof-of-storage/src/networking/client.rs:1120-1125 | next to the true old value only the true new value differs as the files do |
| ClientChecks.PartialCoefficient | proof-of-storage/src/networking/client.rs:1071-1080 | the coefficient the append starts in begins with the bytes the old file ended with |
| StorageAudits.VerifyCommitment | proof-of-storage/src/lcpc_online.rs:370-398 | the error of the specification: numbers, then leaves, then paths |
| StorageAudits.HonestServerPasses | proof-of-storage/src/lcpc_online.rs:370-398 | a server that holds the store of the file passes, whatever columns are asked for |
| StorageAudits.PassingServerHoldsColumns | proof-of-storage/src/lcpc_online.rs:321-356 | a server that passes sent the true columns of the file's encoding, or an explicit collision |
| StorageAudits.AuditPassesExactlyWhen | proof-of-storage/src/lcpc_online.rs:370-398 | the audit passes exactly when there are as many leaves and columns as asked for and no more than required, every column hashes to its leaf and every column climbs to the root; which of the two errors it gives otherwise |
| StorageAudits.PassingServerOpensStore | proof-of-storage/src/lcpc_online.rs:251-278 | against the root of the file's encoding, whatever leaves were compared with: every column received is the store's with its full path, or its check hashes a message that collides with one hashed for the file |
| StorageAudits.OtherRootFails | proof-of-storage/src/lcpc_online.rs:251-278 | against a root that one of the columns does not climb to, the audit fails |
| StorageAudits.HashFieldVecToDigest | proof-of-storage/src/lcpc_online.rs:439-452 | the leaf hash of the column |
| StorageAudits.VerifiablePolynomialEvaluation | proof-of-storage/src/lcpc_online.rs:454-484 | entry j weighs column j of the encoded matrix |
| StorageAudits.EvaluationIsCodeword | proof-of-storage/src/lcpc_online.rs:454-484 | for a linear code those entries are the encoding of the collapsed row |

## Left out

- The FFT and its inverse, `sprs`, Blake3, Merlin, ChaCha: foreign code. Encoders for the store are any code with a decoder that undoes it; hash and challenges are arbitrary functions.
- Hash inputs are digests and field elements rather than their bytes, so two different inputs with the same bytes are outside the model.
- Field elements in files are kept as elements; writing them as raw bytes and reading them back is not modelled.
- Networking, the database, paths, metadata files and tracing. Reads and writes at an offset are taken to be complete; the server's slicing of rows for an evaluation is replaced by the assumption that the client receives the right rows.
- Machine integers: sizes do not overflow, except for the check on the next power of two in `commit`.
- Floating point: the entropy and field-size terms of the densities are arbitrary numbers, and the number of columns opened and degree tests are parameters. Statistical soundness is not stated, only soundness relative to the columns drawn.
- Sampling: the draws of the random generator are parameters that contain enough different columns; that a fair generator gets there is not proved. The two nested streams of one generator are separate parameters.
- Protocol.Verify: when several columns fail, the first error is returned; the source, which checks them in parallel, returns one of them.
- EncodedFileWriters.EncodedFileWriter.SetNewCapacity: states the whole file for capacities of at least twice the old one, as its only caller asks for; for those in between only that the place after the first run is zeros.
- EncodedFileReaders.EncodedFileReader.ReplaceEncodedRow: writes the cells one after the other, the source in parallel. The order shows only in a store of capacity zero, where all of them go to one place; there the contract says that one of them remains, not which.
- `finalize_to_column_digest` and `finalize_to_commit` run the same loop as `finalize_to_merkle_tree` and would add only easy members; so would `consume_byte_iterator`, `resize_to_target_file` and `decode_to_target_file`.
- `ColumnsToCareAbout::Only` in the digest accumulator, which the source marks as unsuitable for `update`.
- `verifiable_full_polynomial_evaluation` and its wrapper, whose body uses a name that is not a parameter, and `verify_proper_partial_polynomial_evaluation`, which pairs values and columns in different orders.
- `left_multiply_unencoded_matrix_by_vector`, which zips over a vector that never gets elements.
- `Ft253_192`, whose byte packing fills limbs without reduction.
- The square-shape choice of dimensions, serialization wrappers, and the `Ligero` code itself.
