# Verified model of the certificate verifier, the lattice chain and the bytecode typing

This project models, in Dafny, the parts of the repository whose correctness rests on more than one function,
and proves what they are for.

* **Exact integer verifier** (`Sums`, `Matrices`, `RightInverse`, `LeastSquares`, `Budgets`, `Verifier`,
  `VerifyCalls`, `VerdictLaws`, `Decisions`, `BudgetRuns`). Products over row-major int64 buffers with
  overflow-checked accumulation, the resource budget, and the three calls that certify `A * X = I`, `A * x = b` and
  `A^T (A x - b) = 0`. The methods work in place on arrays and on a mutable budget. `VerifyCalls` pins down the
  complete verdict of every call, error cases included; `VerdictLaws` proves what an OK is worth: least-squares
  optimality, two-sided and unique inverses, unique solutions, and how verdicts of different calls constrain each
  other. `Decisions` says in plain arithmetic, on any budget, exactly when each verdict is given and what is charged.
  `BudgetRuns` serves any sequence of calls on one budget and bounds the work they do.
* **Lattice commitment chain** (`Bytes`, `GF256`, `Polynomials`, `LatticeRing`, `Lattice`, `LatticeChain`,
  `LatticeTip`, `LatticeBytes`). Bytes are records of eight bits. The multiplication loop is proved to be the product
  in GF(2^8) of section 4.2 of FIPS 197, as the unique remainder modulo x^8 + x^4 + x^3 + x + 1; cyclic convolution is
  proved to be a commutative ring product; append, tip and verify are proved against a chain of records of any length.
  `LatticeChain` holds for any commitment function, `LatticeTip` for this one; `LatticeBytes` says bit for bit what an
  append writes and which files verification accepts.
* **Two kernel handles** (`HandleRuns`, `SegmentKernel`, `WalKernel`). The in-memory handles as state machines over
  arbitrary runs of append and rotate calls, refined to the file that `seb_lattice_verify` accepts; what both share is
  proved once. Each reply is characterised, and every well-formed run that fits is proved to be accepted whole.
* **Bytecode type inference** (`Obligations`, `TypeInference`, `InferenceLaws`, `TypedMachine`, `Bytecode`). The
  engine as imperative code over a fixed array and a doubling one, its specification as one typing rule per
  instruction, the laws of that specification, and soundness and exactness against a machine that runs the bytecode.
  `Bytecode` gives the effect of every opcode by its number and of every literal by its bytes.
* **Trace cycles** (`TraceCycles`, `TraceEdges`). The recursive search with one shared visited set, and the exact
  condition under which it answers true, both over what the search follows and over edges read off the four relations.
* **Artifact index** (`ArtifactIndex`). The store with its three indexes, against the history of additions.
* **Canonical certificate text** (`CertificateText`, `CertificateMembers`, `Certificate`). The printer into its
  buffer, the unambiguity of the text, its exact size, exactly when printing stays within the buffer, and a reader
  that finds every member of the text by its quoted name.

Conventions. `size_t` is 64 bits wide, `int64_t`, `uint32_t` and `uint64_t` are subset types of `int` (`Widths`), and every
wrap-around, truncation or overflow check in the code is written out. Sizes that could not be multiplied without
overflow are modelled with the guards that the code has. A C file or binary is a sequence of bytes. `snprintf` is taken
to accept any size, as the common C libraries do; POSIX also lets it fail for a size above INT_MAX, which here only a
position behind the buffer produces.

## Findings

Where a natural expectation fails, the code is kept and the exact condition is proved.

* A budget refusal bars every later charge exactly when the counter did not wrap or had passed the limit before
  (`Budgets.RefusalPermanentIff`): a charge refused for wrapping leaves the count as it was.
* `has_cycles` answers true exactly when two different walks meet (`TraceCycles.ReportedIffTwoWalksMeet`), which
  includes shared ancestors; `TraceCycles.ReportedWithoutCycle` is an input with no cycle at all.
* A query by tier, language or invariant returns only matches exactly when no addition under the key was replaced by
  a version without it (`ArtifactIndex.OnlyMatchesIffNoneStale`, with `ArtifactIndex.ReplacedArtifactStaysListed` as
  an input that fails), and returns an artifact as often as its identifier was entered under the key. All queries by
  tier are exactly the filtered store if and only if no identifier was added twice (`ArtifactIndex.ExactIffDistinct`).
  Loading a saved map therefore gives exact queries if and only if no two of its keys hold artifacts with one
  identifier, and the same store if and only if it keeps artifacts under their own identifiers
  (`ArtifactIndex.RebuildIsExactIff`); the maps that a universe saves do both.
* Inference accepts five bytes that announce 2^29 vector elements, because the payload size is computed modulo 2^32
  (`TypedMachine.WrappedLiteralIsAccepted`). An accepted program of fewer than 2^32 bytes runs to its end if and only if
  no literal on its path has a payload of 2^32 bytes or more (`TypedMachine.AcceptedRunsIffNoWrap`). Of longer programs
  only one half holds (`TypedMachine.RunIsSound`): `TypedMachine.LongProgramRunsThoughItWraps` is one of 2^32 + 5 bytes
  that is accepted and runs although its literal wraps.
* Changing one payload of a sealed chain goes unnoticed exactly when the deltas of its two halves cancel
  (`LatticeTip.ChangedPayloadAccepted`). For every payload and every other first half there is exactly one such change
  (`LatticeTip.CancellingPayload`, `LatticeTip.UnnoticedChange`). Verification started inside a chain succeeds exactly
  when the preceding commitment is zero (`LatticeTip.VerifyFromMiddleAccepts`).
* `PHASE2_COMPLETE.md:50-51` lists VERIFY_SOL and VERIFY_LSTSQ as typed instructions; the code rejects both as unknown
  opcodes, and so does the model. `seb/kernel/c/seb_kernel_nif.c:4-5` describes another commitment circuit than
  `seb/kernel/c/seb_kernel_nif.c:23` and the included file; the model follows the included file.
* `sov_cert_canonicalize` never compares the text with its buffer. The text fits if and only if its size, computed from
  digit counts and list lengths, is below the buffer's (`CertificateText.FitsIffSize`); with at most 383 stack values it
  always does, and from 4050 values (and 43 more per obligation) on it never does; from 4052 on, every text goes astray
  (`CertificateText.LongStacksGoAstray`). A text as long as the buffer
  or up to three characters longer is cut off inside it, with a recorded length that is not less than the buffer's; for
  longer texts, and only for them, bytes are written behind the buffer (`Certificate.Certificate.Canonicalize`).

## Model

| member | source | states |
|---|---|---|
| Budgets.ResourceBudget.AddOperationCost | src/verifier/sov_verifier.c:130-151 | A charge updates the budget exactly as the specification says: a wrapping sum leaves the count alone, an excessive one is still recorded, and both raise the flag; also field by field |
| Budgets.ResourceBudget.constructor | src/verifier/sov_verifier.c:153-166 | A fresh budget is the default one |
| Budgets.GrantedWithinLimit | src/verifier/sov_verifier.c:130-151 | Over any run of charges, what is granted in all stays within the limit |
| Budgets.ExceededIffRefused | src/verifier/sov_verifier.c:136-148 | The flag is up after a run if and only if some charge of the run was refused |
| Budgets.RefusalPermanentIff | src/verifier/sov_verifier.c:136-148 | A refusal is final for every later run if and only if the sum did not wrap or the count was past the limit already |
| Verifier.CheckedMulAdd | src/verifier/sov_verifier.c:204-214 | One accumulation step succeeds if and only if product and sum both fit int64, and is then exact |
| Verifier.Accumulate | src/verifier/sov_verifier.c:294-304 | The inner loop succeeds if and only if every term and every left-to-right partial sum fits int64; the cell then holds the mathematical dot product, and otherwise what the first overflowing step leaves in it; no other cell changed |
| Verifier.ChargeProduct | src/verifier/sov_verifier.c:227-237 | The prologue refuses a cost that wraps without charging it, and otherwise charges m n |
| Verifier.VecMultRow | src/verifier/sov_verifier.c:240-249 | One row succeeds if and only if it fits; it then holds its product, otherwise what its first overflowing step left, and no later row is touched |
| Verifier.VecMultLoops | src/verifier/sov_verifier.c:239-252 | The loops succeed if and only if every row fits and stop in the first that does not: rows before it hold the product, it holds what its first overflowing step left, and everything behind it is untouched |
| Verifier.MatrixVecMultWithBudget | src/verifier/sov_verifier.c:216-253 | Complete verdict of the matrix-vector product; on OK the result is A x over the integers, and steps taken are covered by what the budget granted |
| Verifier.ChargeMatrixProduct | src/verifier/sov_verifier.c:276-290 | The same prologue for m n p, whose two guards are told apart |
| Verifier.MultLoops | src/verifier/sov_verifier.c:292-308 | The triple loop succeeds if and only if every cell fits; on success it stores the product and leaves what lies behind it |
| Verifier.MatrixMultWithBudget | src/verifier/sov_verifier.c:264-309 | Complete verdict of the matrix product; on OK every cell is the mathematical product, nothing beyond m p cells changed, and steps are covered by the grant |
| Verifier.MatrixTranspose | src/verifier/sov_verifier.c:321-337 | The output holds the transpose, element by element, and is unchanged behind it |
| Verifier.MatrixEqual | src/verifier/sov_verifier.c:339-354 | True if and only if both buffers are present and agree on all elements |
| VerifyCalls.SizesCannotOverflow | src/verifier/sov_verifier.c:105-128 | Once the dimension check has passed, no later size computation can overflow, so those branches are dead |
| VerifyCalls.IsIdentityMatrix | src/verifier/sov_verifier.c:415-424 | The double loop with its early exit decides whether the product is the identity |
| VerifyCalls.CheckSystem | src/verifier/sov_verifier.c:459-483 | The opening checks of a system give the specified verdict, in the code's order |
| VerifyCalls.SubtractChecked | src/verifier/sov_verifier.c:576-582 | The residual is computed if and only if every difference fits int64 |
| VerifyCalls.TransposedLoops | src/verifier/sov_verifier.c:600-614 | The strided loops succeed if and only if every column product fits, and then hold A^T r |
| VerifyCalls.AllZero | src/verifier/sov_verifier.c:616-622 | The last loop decides whether the vector is zero |
| VerifyCalls.SecondPass | src/verifier/sov_verifier.c:584-628 | From the residual on: the second charge, the strided product and the answer, with steps covered by the grant |
| VerifyCalls.VerifyInv | src/verifier/sov_verifier.c:356-428 | The answer is exactly the specified verdict for all inputs and budgets, and the budget ends charged exactly as specified |
| VerifyCalls.VerifySol | src/verifier/sov_verifier.c:430-501 | The same for A x = b |
| VerifyCalls.VerifyLstsq | src/verifier/sov_verifier.c:503-629 | The same for the normal equations, with the second charge made only if the residual was computed |
| VerdictLaws.OkIsLeastSquares | src/verifier/sov_verifier.c:503-629 | After OK every integer y has a squared residual at least that of x, the excess being the squared length of A (y - x), with equality only when A y = A x |
| VerdictLaws.StridedPassIsTransposedProduct | src/verifier/sov_verifier.c:600-614 | The strided pass has the same values and the same overflow verdict as transposing first and multiplying row by row |
| VerdictLaws.SolutionPassesLstsq | src/verifier/sov_verifier.c:430-629 | An exact solution passes the least-squares call with a NULL budget, or exceeds its operations, and nothing else |
| VerdictLaws.InverseBothWays | src/verifier/sov_verifier.c:409-427 | A right inverse accepted over the integers is a left inverse too |
| VerdictLaws.SwappedInverseNeverFails | src/verifier/sov_verifier.c:356-428 | Swapping the matrices of an accepted inverse gives OK, an overflow or an exceeded budget, never FAIL |
| VerdictLaws.InversesAgree | src/verifier/sov_verifier.c:356-428 | Two accepted inverses of one matrix are equal, whichever side each was checked on |
| VerdictLaws.SolutionIsUnique | src/verifier/sov_verifier.c:356-501 | An accepted inverse and an accepted solution force x = X b, and x is the only solution |
| VerdictLaws.BoundedLstsqIsDecided | src/verifier/sov_verifier.c:564-628 | With entries bounded so that both passes have head room, the call never overflows and decides the normal equations |
| Decisions.SolutionDecided | src/verifier/sov_verifier.c:430-501 | On any budget: each of the nine verdicts if and only if, in sizes, lengths, room left and sums of products; OK exactly when the sizes are admitted, every row is computed in range and A x = b |
| Decisions.LstsqDecided | src/verifier/sov_verifier.c:503-629 | The same for the normal equations: OK exactly when admitted, both charges granted, both passes in range and every sum over j of A(j,i) (A x - b)(j) is 0 |
| Decisions.InverseDecided | src/verifier/sov_verifier.c:356-428 | The same for A X = I: OK exactly when admitted, n^3 granted, every cell in range and every cell that of the identity, otherwise FAIL or a named refusal |
| Decisions.ChargesOnce | src/verifier/sov_verifier.c:216-290 | An admitted inverse charges n^3 and an admitted system m n; anything else charges nothing |
| Decisions.ChargesTwice | src/verifier/sov_verifier.c:564-598 | A least-squares call charges m n a second time if and only if the first charge was granted and A x - b was computed in range |
| Decisions.ChargeDecided | src/verifier/sov_verifier.c:136-150 | What a charge leaves: it is added unless the sum exceeds 2^64 - 1, and the flag is raised by a wrap or a sum past the limit |
| Decisions.SolutionDecidedWithHeadRoom | src/verifier/sov_verifier.c:430-501 | On a fresh budget, within the limits, at most 100000000 operations and with head room: OK if A x = b, FAIL otherwise |
| Decisions.LstsqDecidedWithHeadRoom | src/verifier/sov_verifier.c:503-629 | On a fresh budget, within the limits, 2 m n at most 100000000 and with head room: OK if every sum over j of A(j,i) (A x - b)(j) is 0, FAIL otherwise |
| Decisions.InverseDecidedWithHeadRoom | src/verifier/sov_verifier.c:356-428 | On a fresh budget, with n^3 at most 100000000 and head room: OK if A X = I, FAIL otherwise |
| BudgetRuns.Call | src/verifier/sov_verifier.c:356-629 | Each kind of call answers and charges as specified, and its multiply-adds are covered by what it was granted |
| BudgetRuns.Serve | src/verifier/sov_verifier.c:130-151 | Any sequence of verify calls on one initialised budget: every answer, the final budget, at most max_operations multiply-adds in all, and the flag up if and only if some charge was refused |
| BudgetRuns.EachAnswered | src/verifier/sov_verifier.c:356-629 | Each call of a run is answered in its place with the verdict of its kind on the budget that the calls before it left, NULL_INPUT for a null pointer |
| BudgetRuns.SharedBudget | src/verifier/sov_verifier.c:130-151 | From any state with the flag down, what a run of calls is granted stays within what was left, and the flag ends up if and only if a charge was refused |
| BudgetRuns.ExhaustedNeverDecides | src/verifier/sov_verifier.c:144-148 | Once the count has passed the limit, no later call of any run answers OK or FAIL |
| RightInverse.HomogeneousSolution | src/verifier/sov_verifier.c:409-427 | More integer unknowns than homogeneous equations: a non-zero integer solution exists (the step behind two-sided inverses) |
| RightInverse.RightInverseIsLeftInverse | src/verifier/sov_verifier.c:409-427 | A X = I over the integers implies X A = I |
| LeastSquares.ResidualSplits | src/verifier/sov_verifier.c:576-628 | At a solution of the normal equations the squared residual of any y splits by Pythagoras |
| Matrices.MulVecAssociative | src/verifier/sov_verifier.c:292-306 | (A B) x = A (B x) for the products that the loops compute |
| GF256.GfMul | seb/kernel/c/seb_lattice.c:57-67 | The eight-round shift-and-reduce loop computes the sum of shifted multiples selected by the bits of y |
| GF256.ShiftAndReduce | seb/kernel/c/seb_lattice.c:61-63 | The shift with its conditional reduction multiplies by x |
| GF256.MulCommutative | seb/kernel/c/seb_lattice.c:57-67 | The product is commutative although the loop treats its arguments differently |
| GF256.MulAssociative | seb/kernel/c/seb_lattice.c:57-67 | The product is associative |
| GF256.MulAdditive | seb/kernel/c/seb_lattice.c:57-67 | The product distributes over XOR on both sides |
| GF256.MulOne | seb/kernel/c/seb_lattice.c:57-67 | 1 is the identity on both sides and 0 absorbs |
| GF256.MulByTwo | seb/kernel/c/seb_lattice.c:57-67 | Multiplying by {02}, bit by bit; with the ring laws this determines every product |
| GF256.ExampleProduct | seb/kernel/c/seb_lattice.c:56-67 | {57} times {83} is {c1}, the example of section 4.2 of FIPS 197 |
| Polynomials.MulIsRemainder | seb/kernel/c/seb_lattice.c:56-67 | The product is a remainder of the carry-less polynomial product modulo x^8 + x^4 + x^3 + x + 1, section 4.2 of FIPS 197 |
| Polynomials.MulIsOnlyRemainder | seb/kernel/c/seb_lattice.c:56-67 | It is the only such remainder |
| Polynomials.RemainderUnique | seb/kernel/c/seb_lattice.c:56-67 | Quotient and remainder by the modulus are unique |
| LatticeRing.CyclicConvolve | seb/kernel/c/seb_lattice.c:70-77 | The loops fill c with the product in GF(2^8)[x]/(x^32 + 1) |
| LatticeRing.ConvolveAt | seb/kernel/c/seb_lattice.c:72-75 | The inner loop computes one coefficient of the cyclic product |
| LatticeRing.ConvCommutative | seb/kernel/c/seb_lattice.c:69-77 | Cyclic convolution over any commutative ring of bytes commutes |
| LatticeRing.ConvAssociative | seb/kernel/c/seb_lattice.c:69-77 | and is associative |
| LatticeRing.ConvDistributive | seb/kernel/c/seb_lattice.c:69-77 | and distributes over XOR |
| LatticeRing.RingLaws | seb/kernel/c/seb_lattice.c:69-77 | So the code's convolution is commutative, associative and distributive on all 32-byte vectors |
| LatticeRing.TimesPowerOfX | seb/kernel/c/seb_lattice.c:79-82 | Convolving with K0, K1 or K2 rotates by 0, 1 or 2 places |
| Lattice.RingIdentity | seb/kernel/c/seb_lattice.c:79-80 | K0 is the identity of the ring, on both sides |
| Lattice.LatticeCommit | seb/kernel/c/seb_lattice.c:84-94 | Three convolutions and the XOR loop compute the commitment |
| Lattice.XorThree | seb/kernel/c/seb_lattice.c:92-93 | The last loop XORs the three convolutions |
| Lattice.CommitIsXor | seb/kernel/c/seb_lattice.c:84-94 | A commitment is the previous one XOR a contribution of the payload alone |
| Lattice.LatticeFile.Append | seb/kernel/c/seb_lattice.c:96-106 | The file grows by the record that extends the stored tip, or is unchanged and -1 is returned for a file shorter than a tip |
| Lattice.LatticeFile.Tip | seb/kernel/c/seb_lattice.c:108-114 | The last 32 bytes, zero for an empty file, -1 for a file shorter than that |
| Lattice.Differ | seb/kernel/c/seb_lattice.c:127-129 | Or-ing the byte differences detects exactly the unequal blocks |
| Lattice.CheckRecord | seb/kernel/c/seb_lattice.c:125-130 | A record is accepted if and only if its commitment follows from the expected one, which then becomes it |
| Lattice.LatticeFile.Verify | seb/kernel/c/seb_lattice.c:116-135 | The loop returns what replaying the records returns, for every start, count and file, torn or not |
| LatticeChain.ChainPointwise | seb/kernel/c/seb_lattice.c:116-135 | A chain holds if and only if every commitment follows from its predecessor |
| LatticeChain.ReplayRecords | seb/kernel/c/seb_lattice.c:116-135 | Exact answer of the verifier on whole records followed by a torn tail |
| LatticeChain.VerifyAcceptsChains | seb/kernel/c/seb_lattice.c:116-135 | On whole records it returns 1 if and only if each of the first min(count, N) commitments follows from its predecessor |
| LatticeChain.AppendRunSeals | seb/kernel/c/seb_lattice.c:96-106 | N appends to an empty file lay N sealed records end to end |
| LatticeChain.AppendThenVerify | seb/kernel/c/seb_lattice.c:96-135 | After N appends the length is 96 N, the tip is the last commitment, and verification of any count succeeds |
| LatticeChain.ChangedCommitmentRejected | seb/kernel/c/seb_lattice.c:116-135 | One changed commitment within reach is always rejected |
| LatticeChain.ChainGrows | seb/kernel/c/seb_wal_nif.c:168-172 | Committing a record that follows from the tip keeps tip, event count and chain in agreement |
| LatticeChain.VerifyFromMiddle | seb/kernel/c/seb_lattice.c:116-135 | Exact answer when verification starts inside a chain, for any commitment function |
| LatticeTip.ContributionAt | seb/kernel/c/seb_lattice.c:79-94 | Byte k of a contribution is payload byte (k-1) mod 32 XOR byte 32 + (k-2) mod 32 |
| LatticeTip.CommitLinear | seb/kernel/c/seb_lattice.c:84-94 | Commitment is linear over XOR |
| LatticeTip.CommitBijective | seb/kernel/c/seb_lattice.c:84-94 | For a fixed payload every commitment has exactly one predecessor |
| LatticeTip.CommitCollides | seb/kernel/c/seb_lattice.c:84-94 | For a fixed predecessor two payloads collide if and only if they contribute the same |
| LatticeTip.TipClosedForm | seb/kernel/c/seb_lattice.c:84-114 | Byte k of the tip after any appends, as one XOR over all payloads |
| LatticeTip.TipIgnoresOrder | seb/kernel/c/seb_lattice.c:84-114 | The tip does not depend on the order of the payloads |
| LatticeTip.ChangedPayloadAccepted | seb/kernel/c/seb_lattice.c:116-135 | One changed payload is accepted if and only if its byte deltas cancel at every k |
| LatticeTip.CancellingPayload | seb/kernel/c/seb_lattice.c:84-94 | For every payload and every first half exactly one second half makes the deltas cancel, and it is named |
| LatticeTip.UnnoticedChange | seb/kernel/c/seb_lattice.c:116-135 | Every payload of a sealed chain can be replaced by a different one that the verifier accepts, with any other first half |
| LatticeTip.OneHalfNeverCancels | seb/kernel/c/seb_lattice.c:84-94 | A change confined to one 32-byte half never cancels |
| LatticeTip.VerifyFromMiddleAccepts | seb/kernel/c/seb_lattice.c:116-135 | From record i >= 1 of a chain the answer is 1 if and only if the preceding commitment is zero |
| LatticeBytes.CommitIffLinks | seb/kernel/c/seb_lattice.c:84-94 | A block is the commitment of a predecessor and a payload if and only if each of its bits is the parity of three named bits |
| LatticeBytes.AppendWrites | seb/kernel/c/seb_lattice.c:96-106 | The bytes of a file after an append: 64 payload bytes and 32 commitment bytes behind the old ones, or none for a file of 1 to 31 bytes |
| LatticeBytes.VerifyDecided | seb/kernel/c/seb_lattice.c:116-135 | On any file, from any start within it and any count: 0 if and only if a whole record in reach does not link, -1 if and only if all do and a torn one is reached, 1 otherwise |
| LatticeBytes.VerifyOutside | seb/kernel/c/seb_lattice.c:122-124 | A start behind the end answers 1, one before the beginning -1 |
| HandleRuns.LegalSnoc | seb/kernel/c/seb_kernel_nif.c:132-136 | A legal run followed by an event that its end allows is legal and leads one step further |
| HandleRuns.LegalRunKeepsChain | seb/kernel/c/seb_kernel_nif.c:108-136 | Over any run in which each record follows from the tip, the records form a chain from zero that ends in the tip |
| HandleRuns.LegalRunRefinesFile | seb/kernel/c/seb_kernel_nif.c:108-136 | Such records laid end to end are a file that verifies and whose tip is the handle's |
| HandleRuns.LegalRunIncreasesSequence | seb/kernel/c/seb_kernel_nif.c:155-163 | Segments opened with a greater number each have strictly increasing numbers |
| SegmentKernel.KernelHandle.constructor | seb/kernel/c/seb_kernel_nif.c:46-67 | A new handle has a zero tip, offset 0 and no events |
| SegmentKernel.KernelHandle.CheckCommitment | seb/kernel/c/seb_kernel_nif.c:118-130 | True if and only if the footer's commitment is that of the tip and the first 64 header bytes |
| SegmentKernel.KernelHandle.AppendEvent | seb/kernel/c/seb_kernel_nif.c:78-140 | Reply and new state for every handle and input, each refusal in the code's order and leaving the handle unchanged |
| SegmentKernel.KernelHandle.RotateSegment | seb/kernel/c/seb_kernel_nif.c:143-166 | Rotation is accepted only with a greater sequence and keeps tip and event count |
| SegmentKernel.StepIsAllowed | seb/kernel/c/seb_kernel_nif.c:78-166 | A call seals a record that follows from the tip, opens a segment with a greater number, or leaves both alone |
| SegmentKernel.RunIsLegal | seb/kernel/c/seb_kernel_nif.c:78-166 | Every run of the handle is a run of records that follow and of increasing segments, and leaves the handle where they lead |
| SegmentKernel.HandleRefinesFile | seb/kernel/c/seb_kernel_nif.c:46-166 | After any run, the accepted events laid end to end verify and end in the handle's tip, across rotations |
| SegmentKernel.RunTilesSegment | seb/kernel/c/seb_kernel_nif.c:102-136 | The offset never passes 2^30, so the room never wraps, and the accepted events of a segment tile [0, offset) |
| SegmentKernel.RunIncreasesSequence | seb/kernel/c/seb_kernel_nif.c:155-163 | Segment sequence numbers strictly increase over any run |
| SegmentKernel.AppendDecided | seb/kernel/c/seb_kernel_nif.c:78-140 | Each reply if and only if, in lengths, offset, event count and the two halves of the footer |
| SegmentKernel.AppendFits | seb/kernel/c/seb_kernel_nif.c:92-140 | Wherever nothing wraps, an append is accepted at the current offset if and only if header and footer have their lengths, the event fits the room, the first half is the tip once an event is sealed and the second half is the commitment |
| SegmentKernel.AppendEffect | seb/kernel/c/seb_kernel_nif.c:132-136 | What an accepted append changes; a rejected one changes nothing |
| SegmentKernel.RotateDecided | seb/kernel/c/seb_kernel_nif.c:155-165 | A rotation is accepted if and only if the number grows, and what it changes |
| SegmentKernel.WellFormedAccepted | seb/kernel/c/seb_kernel_nif.c:78-140 | A well-formed event that fits is accepted whatever was sealed before |
| SegmentKernel.WellFormedRunAccepted | seb/kernel/c/seb_kernel_nif.c:78-140 | Any list of headers and payloads that fits one segment, with footers from the running tip, is sealed whole: final tip, offset and event count |
| SegmentKernel.EachIsCommitted | seb/kernel/c/seb_kernel_nif.c:78-140 | Each event of such a list is told the offset at which those before it end |
| WalKernel.ReadLittleEndian | seb/kernel/c/seb_wal_nif.c:152-162 | The byte loops read the little-endian value |
| WalKernel.LittleEndianInjective | seb/kernel/c/seb_wal_nif.c:152-154 | Different header fields of one width have different values |
| WalKernel.WalHandle.constructor | seb/kernel/c/seb_wal_nif.c:62-83 | A new handle has a zero tip, offset 0 and no events |
| WalKernel.WalHandle.CheckCommitment | seb/kernel/c/seb_wal_nif.c:135-149 | True if and only if the footer's hash is the commitment of the tip and the first 64 header bytes |
| WalKernel.WalHandle.AppendEvent | seb/kernel/c/seb_wal_nif.c:96-176 | Reply and new state for every handle and input, each refusal in the code's order and leaving the handle unchanged |
| WalKernel.WalHandle.RotateSegment | seb/kernel/c/seb_wal_nif.c:179-199 | Rotation is accepted only with a greater sequence and keeps tip and event count |
| WalKernel.StepIsAllowed | seb/kernel/c/seb_wal_nif.c:96-199 | A call seals a record that follows from the tip, opens a segment with a greater number, or leaves both alone |
| WalKernel.RunIsLegal | seb/kernel/c/seb_wal_nif.c:96-199 | Every run of the handle is a run of records that follow and of increasing segments, and leaves the handle where they lead |
| WalKernel.HandleRefinesFile | seb/kernel/c/seb_wal_nif.c:62-199 | After any run, the accepted events laid end to end verify and end in the handle's tip, across rotations |
| WalKernel.RunKeepsOffsets | seb/kernel/c/seb_wal_nif.c:151-172 | Accepted offsets strictly increase within a segment and each append returns the previous one, 0 at its start |
| WalKernel.RunIncreasesSequence | seb/kernel/c/seb_wal_nif.c:189-196 | Segment sequence numbers strictly increase over any run |
| WalKernel.OffsetDecoded | seb/kernel/c/seb_wal_nif.c:151-154 | The offset is the little-endian sum of header bytes 0 to 7, each byte by its bits |
| WalKernel.SizeDecoded | seb/kernel/c/seb_wal_nif.c:159-163 | The event size is the little-endian sum of header bytes 24 to 27 plus 196, modulo 2^32 |
| WalKernel.AppendDecided | seb/kernel/c/seb_wal_nif.c:96-176 | Each reply if and only if, in lengths, footer hashes and those two sums |
| WalKernel.AppendEffect | seb/kernel/c/seb_wal_nif.c:168-172 | What an accepted append changes; a rejected one changes nothing |
| WalKernel.RotateDecided | seb/kernel/c/seb_wal_nif.c:189-198 | A rotation is accepted if and only if the number grows, and what it changes |
| WalKernel.WellFormedAccepted | seb/kernel/c/seb_wal_nif.c:96-176 | A well-formed event of admissible size and greater offset is accepted, any offset being greater than none |
| WalKernel.WellFormedRunAccepted | seb/kernel/c/seb_wal_nif.c:96-176 | Any list of such events with increasing offsets, with footers from the running tip, is sealed whole: final tip, offset and event count |
| Obligations.ObligationSet.Grow | src/obligations/sov_obligations.c:43-50 | Doubling makes room and loses nothing |
| Obligations.ObligationSet.AddInv | src/obligations/sov_obligations.c:35-67 | Appends one obligation numbered by its position and returns that number as a signed 32-bit value |
| Obligations.ObligationSet.Get | src/obligations/sov_obligations.c:217-225 | Finds the first obligation with the identifier, which is the one at that position, or none |
| Obligations.ObligationSet.At | src/obligations/sov_obligations.c:227-231 | Answers by position, within range only |
| Obligations.DenseLookup | src/obligations/sov_obligations.c:217-225 | In a densely numbered set, looking up an identifier is indexing |
| TypeInference.Step | src/typecheck/sov_types.c:194-454 | The position strictly increases on every accepted step, even when a payload size wraps |
| TypeInference.SwitchIsEffect | src/typecheck/sov_types.c:214-451 | Every branch of the switch is one typing rule applied to the operands, with the stack below them kept and the depth limit of 256 |
| TypeInference.TypeStack.PushValue | src/typecheck/sov_types.c:111-130 | Pushes unless 256 values are there, and changes nothing otherwise |
| TypeInference.TypeStack.Duplicate | src/typecheck/sov_types.c:263-279 | Doubles the top, refused on an empty or a full stack |
| TypeInference.TypeStack.Swap | src/typecheck/sov_types.c:281-294 | Exchanges the two top values and nothing else |
| TypeInference.TypeStack.Pop | src/typecheck/sov_types.c:296-306 | Drops the top, refused on an empty stack |
| TypeInference.TypeStack.Combine | src/typecheck/sov_types.c:308-371 | ADD and SUB: two scalars, or two vectors of one shape, become the lower one; anything else is refused unchanged |
| TypeInference.TypeStack.Multiply | src/typecheck/sov_types.c:373-405 | Matrices of matching inner dimension become rows of the lower by columns of the upper; anything else is refused unchanged |
| TypeInference.InferPush | src/typecheck/sov_types.c:215-261 | The three literals with their bounds, wrapped payload sizes and pushed shapes |
| TypeInference.InferVerifyInv | src/typecheck/sov_types.c:407-437 | A square matrix is popped for one obligation; refused otherwise, and when the number is negative as a signed value |
| TypeInference.InferInstruction | src/typecheck/sov_types.c:194-454 | One step agrees with the specification on success, next position, stack and obligations; a refusal leaves the stack |
| TypeInference.CopyStack | src/typecheck/sov_types.c:490-504 | The working stack is a separate copy, or the copy is refused for depth |
| TypeInference.InferProgramLoop | src/typecheck/sov_types.c:462-561 | The engine succeeds exactly when the specification does, with its final stack and obligation identifiers |
| InferenceLaws.ObligationsAreDense | src/typecheck/sov_types.c:418-427 | Identifiers are 0, 1, 2, ...; positions strictly increase and each names a VERIFY_INV of the program; depth stays within 256 |
| InferenceLaws.OutcomeIsLocal | src/typecheck/sov_types.c:215-256 | Although operands are read before the length check, the outcome depends only on bytes below the length |
| InferenceLaws.InferConcatenation | src/typecheck/sov_types.c:516-545 | If p runs exactly to its end, inferring p followed by q is inferring q from p's final stack, with q's obligations renumbered and moved behind p's |
| InferenceLaws.DeeperStack | src/typecheck/sov_types.c:516-545 | Values below the initial stack stay untouched and change nothing else, unless the peak depth then passes 256 |
| TypedMachine.PerformTyped | src/typecheck/sov_types.c:171-183 | The typing rules describe the machine exactly: refused where it is stuck, otherwise the types of its results |
| TypedMachine.RunIsSound | src/typecheck/sov_types.c:516-548 | An accepted program none of whose literals wraps runs to its end with values of exactly the final types |
| TypedMachine.RunsAreAccepted | src/typecheck/sov_types.c:516-548 | A program of at most 1,000,000 bytes that runs to its end is accepted |
| TypedMachine.AcceptedRunsIffNoWrap | src/typecheck/sov_types.c:234-255 | An accepted program of fewer than 2^32 bytes runs to its end if and only if no literal on its path wraps |
| TypedMachine.LongProgramRunsThoughItWraps | src/typecheck/sov_types.c:234-236 | A program of 2^32 + 5 bytes is accepted and runs to its end although its literal wraps |
| TypedMachine.InferenceIsExact | src/typecheck/sov_types.c:462-561 | Up to the sanity bound, a program runs if and only if it is accepted and no literal wraps |
| TypedMachine.WrappedLiteralIsAccepted | src/typecheck/sov_types.c:234-236 | Five bytes announcing 2^29 elements are accepted and do not run |
| Bytecode.VectorProgram | src/typecheck/sov_types.c:226-242 | For every n that fits 1,000,000 bytes: byte 2, the four bytes of n from the lowest on and 8 n bytes are inferred to exactly a vector of n elements |
| Bytecode.MatrixProgram | src/typecheck/sov_types.c:244-261 | The same for byte 3 with m and n: exactly an m by n matrix |
| Bytecode.ScalarLiteral | src/typecheck/sov_types.c:215-224 | Byte 1 and eight bytes push a scalar |
| Bytecode.VectorLiteral | src/typecheck/sov_types.c:226-242 | A vector literal pushes its shape on any stack below the depth limit |
| Bytecode.MatrixLiteral | src/typecheck/sov_types.c:244-261 | A matrix literal pushes its shape on any stack below the depth limit |
| Bytecode.DupInstruction | src/typecheck/sov_types.c:263-279 | The effect of DUP by its number, refusals included |
| Bytecode.SwapInstruction | src/typecheck/sov_types.c:281-294 | The effect of SWAP by its number, refusals included |
| Bytecode.PopInstruction | src/typecheck/sov_types.c:296-306 | The effect of POP by its number, refusals included |
| Bytecode.AddSubInstruction | src/typecheck/sov_types.c:308-371 | The effect of ADD and SUB by their numbers, refusals included |
| Bytecode.MatMulInstruction | src/typecheck/sov_types.c:373-405 | The effect of MATMUL by its number, refusals included |
| Bytecode.VerifyInvInstruction | src/typecheck/sov_types.c:407-437 | The effect of VERIFY_INV by its number, refusals included |
| Bytecode.HaltInstruction | src/typecheck/sov_types.c:439-442 | HALT by its number ends the program with the stack as it is |
| Bytecode.UnknownInstruction | src/typecheck/sov_types.c:444-449 | Every other number is refused |
| TraceCycles.FindTrace | seb/reasoning/src/trace.rs:251-254 | The first trace with the identifier, or none |
| TraceCycles.HasCyclesInternal | seb/reasoning/src/trace.rs:239-279 | The recursion with its two loops and the shared visited set returns and visits what the specification says, and terminates |
| TraceCycles.HasCycles | seb/reasoning/src/trace.rs:235-237 | The check started with an empty set |
| TraceCycles.NothingFound | seb/reasoning/src/trace.rs:239-279 | A search that finds nothing has met every walk once, outside what was visited before |
| TraceCycles.SomethingFound | seb/reasoning/src/trace.rs:239-279 | A positive answer comes with a walk back into visited or with two walks that meet |
| TraceCycles.VisitedIsReached | seb/reasoning/src/trace.rs:248-279 | Whatever is newly visited is the end of some walk |
| TraceCycles.ReportedIffTwoWalksMeet | seb/reasoning/src/trace.rs:234-279 | The answer is true if and only if some trace ends two different walks from the start |
| TraceCycles.ReachableCycleReported | seb/reasoning/src/trace.rs:234-279 | Every reachable cycle is reported |
| TraceCycles.SharedAncestorReported | seb/reasoning/src/trace.rs:234-279 | So is a parent shared by the ends of two different walks |
| TraceCycles.NotReportedIsTree | seb/reasoning/src/trace.rs:234-279 | After a negative answer the reachable graph is a tree |
| TraceCycles.ReportedWithoutCycle | seb/reasoning/src/trace.rs:234-279 | One trace naming a missing parent twice is reported although no walk returns |
| TraceEdges.EdgeHasPosition | seb/reasoning/src/trace.rs:251-275 | Every edge read off the four relations of the first trace with an identifier is followed by the search |
| TraceEdges.PositionHasEdge | seb/reasoning/src/trace.rs:251-275 | And the search follows nothing but those edges |
| TraceEdges.ReportedIffChoicesMeet | seb/reasoning/src/trace.rs:234-279 | The answer is true if and only if two different sequences of choices among the relations lead from the start to one trace |
| TraceEdges.ReturningPathReported | seb/reasoning/src/trace.rs:234-279 | Every path of edges from the start that returns to one of its own traces is reported |
| TraceEdges.DoubleEdgeReported | seb/reasoning/src/trace.rs:234-279 | Two different choices of relation and position with one target, at any trace that choices reach, are reported |
| ArtifactIndex.Universe.constructor | seb/universe/src/search_substrate.rs:50-57 | An empty universe has an empty history |
| ArtifactIndex.Universe.IndexInvariants | seb/universe/src/search_substrate.rs:81-87 | Every name's list grows by the identifier as often as the artifact has an invariant of that name |
| ArtifactIndex.Universe.AddArtifact | seb/universe/src/search_substrate.rs:60-87 | Store and all three indexes stay in agreement with the history, which grows by the artifact |
| ArtifactIndex.Universe.QueryByTier | seb/universe/src/search_substrate.rs:102-111 | The answer is determined by the history of additions |
| ArtifactIndex.Universe.QueryByLanguage | seb/universe/src/search_substrate.rs:114-123 | The same for a language name |
| ArtifactIndex.Universe.QueryByInvariant | seb/universe/src/search_substrate.rs:90-99 | The same for an invariant name |
| ArtifactIndex.Rebuild | seb/universe/src/search_substrate.rs:170-173 | The load loop adds every saved artifact once, in some order, to an empty universe |
| ArtifactIndex.QueryGivesCurrentVersions | seb/universe/src/search_substrate.rs:60-123 | A query lists, in order of addition, the current version of the identifier of every addition made with the key; no entry dangles |
| ArtifactIndex.ListedIffAdded | seb/universe/src/search_substrate.rs:70-86 | An identifier is indexed under a key if and only if some addition of it had the key |
| ArtifactIndex.LiveMatchIsFound | seb/universe/src/search_substrate.rs:60-123 | Whatever the store holds with the key is found |
| ArtifactIndex.OnlyMatchesIffNoneStale | seb/universe/src/search_substrate.rs:60-123 | A query gives only matches if and only if no addition with the key was replaced by one without it |
| ArtifactIndex.QueryMultiplicity | seb/universe/src/search_substrate.rs:60-123 | Each live artifact is given as often as its identifier was entered under the key |
| ArtifactIndex.DistinctAddsAreExact | seb/universe/src/search_substrate.rs:60-123 | If no identifier was added twice, a query is exactly the store filtered by the key |
| ArtifactIndex.ExactIffDistinct | seb/universe/src/search_substrate.rs:60-123 | The queries by tier give every live artifact exactly as the store has it if and only if no identifier was added twice, and then all queries do |
| ArtifactIndex.RebuildIsExactIff | seb/universe/src/search_substrate.rs:165-176 | After loading any saved map: the same store if and only if artifacts are under their own identifiers, exact queries if and only if no two keys share one |
| ArtifactIndex.RebuildIsExact | seb/universe/src/search_substrate.rs:165-188 | After a rebuild from the store of any universe, the store is the same and every query is exact |
| ArtifactIndex.ReplacedArtifactStaysListed | seb/universe/src/search_substrate.rs:60-111 | An artifact moved to another tier is still given for the old one |
| ArtifactIndex.GivenIffAdded | seb/universe/src/search_substrate.rs:60-123 | A query gives exactly the last additions of those identifiers that were ever added with the tier, the invariant or the language so named |
| ArtifactIndex.FoundByLanguage | seb/universe/src/manifest.rs:63-73 | A current artifact is found under rust, lean4, ada, pl1, prolog, haskell or its own tag, by its language |
| ArtifactIndex.OccurrencesCount | seb/universe/src/search_substrate.rs:81-87 | An identifier is entered once for every invariant of the name |
| Certificate.Certificate.constructor | src/certificate/sov_cert.c:11-20 | A new certificate has version 1, the given time and nothing else |
| Certificate.Certificate.SetProgram | src/certificate/sov_cert.c:37-45 | Takes over hash and size together, and nothing without a hash |
| Certificate.Certificate.SetStacks | src/certificate/sov_cert.c:47-66 | The two stacks become the initial and the final stack |
| Certificate.Certificate.AddObligation | src/certificate/sov_cert.c:68-91 | Appends an obligation numbered by its position, up to 256 of them |
| Certificate.Print | src/certificate/sov_cert.c:102-104 | One formatted print, told the unsigned rest of the buffer: the text as far as it fits and a zero byte; a byte goes behind the buffer if and only if the print begins behind it |
| Certificate.PrintListing | src/certificate/sov_cert.c:106-112 | The loop adds the items separated by commas to the printed text, wherever the buffer ends |
| Certificate.PrintAll | src/certificate/sov_cert.c:101-130 | All prints together make up the canonical text, the last of them its final three characters |
| Certificate.Certificate.Canonicalize | src/certificate/sov_cert.c:93-136 | For every certificate: bytes go behind the buffer if and only if the text exceeds it by more than three; otherwise the buffer holds as much of the text as fits, all of it if it fits, and then each member of the buffer, found by its quoted name, is the field of the certificate; the recorded length is the text's, modulo 2^64 |
| CertificateText.DecimalRoundTrip | src/certificate/sov_cert.c:102-104 | A printed number denotes that number |
| CertificateText.ItemThen | src/certificate/sov_cert.c:106-120 | An item is read back from the front of any text that goes on with a non-digit |
| CertificateText.ListingThen | src/certificate/sov_cert.c:106-130 | A list is read back from the front of any text in which its closing bracket follows |
| CertificateText.PrintedNumbers | src/certificate/sov_cert.c:102-120 | Numbers with all ten digits and a sign, as they are printed |
| CertificateMembers.VersionRead | src/certificate/sov_cert.c:102-104 | The member named version of the text, found by its quoted name, is the version |
| CertificateMembers.TimestampRead | src/certificate/sov_cert.c:102-104 | The same for timestamp |
| CertificateMembers.ProgramSizeRead | src/certificate/sov_cert.c:102-104 | The same for program_size |
| CertificateMembers.ObligationsRead | src/certificate/sov_cert.c:106-112 | The list named obligations holds every obligation in order, each with its id, kind, start_pc and end_pc found by name |
| CertificateMembers.InitialRead | src/certificate/sov_cert.c:114-120 | The list named initial is the initial stack |
| CertificateMembers.FinalRead | src/certificate/sov_cert.c:122-128 | The list named final is the final stack |
| CertificateText.CanonicalUnambiguous | src/certificate/sov_cert.c:93-136 | Equal canonical texts agree on version, time, program size, all obligations and both stacks |
| CertificateText.SizeIsLength | src/certificate/sov_cert.c:101-130 | The length of the text, from digit counts and list lengths alone |
| CertificateText.FitsIffSize | src/certificate/sov_cert.c:97-130 | The text fits the buffer if and only if that size is below 8192 and 128 per obligation |
| CertificateText.ObligationsFit | src/certificate/sov_cert.c:97-112 | Obligations need 42 to 79 of their 128 bytes each |
| CertificateText.ShortStacksFit | src/certificate/sov_cert.c:97-131 | With at most 383 stack values the text of any certificate fits the buffer |
| CertificateText.LongStacksDoNotFit | src/certificate/sov_cert.c:97-131 | From 4050 values, and 43 more per obligation, it never fits |
| CertificateText.LongStacksGoAstray | src/certificate/sov_cert.c:97-131 | From 4052 values, and 43 more per obligation, every text exceeds the buffer by more than three characters |

## Left out

- Verifier.MatrixMultWithBudget: requires that the result buffer is not one of the operands and that the buffers are as long as the sizes say, as the C code does of its callers; the effect of aliased buffers is not modelled. The same holds for Verifier.MatrixVecMultWithBudget and Verifier.MatrixTranspose.
- WalKernel.RunKeepsOffsets: for runs of fewer than 2^64 calls, after which the event counter could wrap to zero.
- SegmentKernel.RunTilesSegment: tiling assumes payloads whose event size does not wrap a 64-bit size; the bound on the offset does not.
- WalKernel.WalHandle.AppendEvent: the event size is the 32-bit sum that the code computes from the announced payload size; it is not tied to the payload itself, and no bound on real sizes follows.
- InferenceLaws.InferConcatenation: for programs of at most 1,000,000 bytes together, where the engine's bound on positions cannot interfere.
- TypedMachine.AcceptedRunsIffNoWrap: for programs of fewer than 2^32 bytes; of longer ones the condition is sufficient only, with a program that shows it.
- Certificate.Certificate.Canonicalize: what the buffer holds once bytes have been written behind it is not described.
- BudgetRuns.Serve: the calls share one budget and may share buffers, which none of them changes while the run lasts.
- Input buffers that C receives as const pointers (lattice blocks, payloads, initial stacks, bytecode) are values; output buffers and handles are mutable.
- The commitment circuit that both handles call is not defined in the repository; it is modelled as the lattice commitment of the tip and the first 64 header bytes. The run theorems hold for every circuit.
- The machine of TypedMachine is not in the repository. Its rules follow the comments of the opcode table; its arithmetic is over unbounded integers, since only types are at stake.
- Budget fields for dimensions and cells, which no code reads; the safe-wrapper products and matrix allocation; result strings.
- I/O errors, flushing and the Windows file calls: a file is a byte sequence with short reads at its end.
- Erlang resource and term handling, argument decoding, and the calls that only return or ignore state.
- Allocation failure, freeing, type environments, ownership flags, witness pointers, obligation descriptions, error texts.
- Obligation kinds that inference never produces, and the JSON dump of obligations.
- Certificate hashing, signing, receipts and CBOR.
- Trace identifiers by hash, signatures, timestamps, JSON-LD and S-expression rendering of traces.
- Search by name, statistics, reading and writing the repository file, and the manifest checks of artifacts.
- Everything else in the repository: agents, ingestion scripts, rendering, and design documents.
