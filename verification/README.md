# Lambda VM: verified models

A Dafny model of the parts of Lambda VM whose correctness rests on arithmetic,
on interleavings or on data-structure invariants, with proofs of what they
promise. `dafny verify dfyconfig.toml` checks everything.

| files | what they model |
|---|---|
| `Modular`, `Curve` | integers modulo a prime, the curve y^2 = x^3 + 7 with chord-and-tangent addition, scalar multiples as repeated addition |
| `Schedule`, `Replay` | the double-and-add schedule and its Jacobian replay with two batched inversions |
| `Limbs`, `Relations`, `Witness` | byte limbs, convolutions and carry chains; the five ECSM/ECDAS relations; the whole witness |
| `Hints`, `LinearCombination` | untrusted hints with software fallback; k1·P1 + k2·P2 from x-only answers |
| `Pipeline` | the continuation prover's threads, channels and sticky first error, as a step function per thread |
| `GlobalMemory` | the cross-epoch memory bus, its ordering check, its page set, and the honest prover's rows |
| `Lanes`, `Keccak` | the three Keccak-256 sponges |
| `GuestMemory`, `Allocator` | memcpy/memmove/memset over the DMA ecalls; the bump allocator |
| `Words`, `PagedMemory`, `ElfImage` | the paged store with its occupancy bitmap; the ELF image and its page classification |
| `Symbols`, `Flamegraph` | symbol lookup with duplicates; the call trie |
| `Statement`, `ProgramId` | transcript statements and the program identity preimage |
| `ChipTypes`, `VirtualColumns` | the chip description language's interval checker and virtual-column coverage |

**Hypotheses.** Field and curve results hold for every odd prime modulus. The
results about secp256k1 itself (`Witness.ReplayReaches` and what uses it) take
`Witness.CurveFacts` as hypothesis: p is prime, n is odd, and every curve point
obeys the group law on its own multiples and has order n. Nothing else about the
curve is taken for granted; in particular closure of the addition law, negation,
and the absence of vanishing denominators are proved. Most of `Witness` keeps p
and n as names; `Witness.Tables` pins p to the value of the byte tables, and
`Witness.ComputeWitness` instantiates both with the secp256k1 constants.

**Errors.** A Rust `assert!` or `expect` is either an explicit `None` in the
result (and the contract says exactly when) or, where it can never trip, a
proof obligation discharged at that point.

**Where the code and a stronger reading of it part.**

- `limb_carries` is meant to accept 64 limbs exactly when they spell zero. It
  casts each carry to `i64` before the closing test, so 63 zeros followed by
  2^72 are accepted (`Limbs.CastHidesACarry`). For all limbs within ±b the
  promise holds if and only if b <= 255 · 2^64 (`Limbs.DecidesZeroIff`), which
  covers all five relations. Its sums are modelled as wrapping i128 sums, as in
  a build without overflow checks; `Limbs.CarriesAcceptedIff` says exactly what
  is accepted then, `Limbs.OverflowHidesAValue` gives limbs that pass only by
  wrapping, and `Limbs.AcceptedInRoom` rules overflow out for limbs within
  2^127 − 2^119, where checked and unchecked builds agree.
- A chip constraint flagged "0 not in range" has no integer solution, but it can
  hold modulo the prime (`ChipTypes.FlaggedButSatisfiable`). What rules out
  solutions in the field is a range without a multiple of the prime
  (`ChipTypes.NoMultipleIsUnsatisfiable`, tight by `ChipTypes.ColumnVanishesIff`).
- The comment on `lookup_range` says every address of the range resolves to the
  returned function. With duplicated starts that can fail at the start address
  itself (`Symbols.DuplicateStart`). For a non-empty range it holds, whichever
  duplicate the binary search picks, if and only if no other symbol has the
  function's address (`Symbols.RangeResolvesIff`). The start address always
  agrees, which is all the flamegraph cache needs.
- `elf_page_has_data` also answers yes for an empty segment strictly inside the
  page; `Elf::load` never produces one (`ElfImage.HasDataIff`).
- The bump cursor can move down when aligning it wraps around 2^64
  (`Allocator.CursorMonotoneIff` says exactly when, `Allocator.CursorMovesDown`
  gives an input). The heap bounds the guest passes exclude this.
- The program identity does not depend on the order in which pages are supplied
  if and only if no base carries two different pages
  (`ProgramId.OrderIndependentIff`; `ProgramId.TwoOrders` is an input where it
  does). Repeating one page unchanged is harmless.
- The chip checker types `^` by a power modulo the prime, so the range of 2^3
  modulo 5 is {3} (`ChipTypes.PowerWraps`). The range is that of the integer
  power if and only if the power lies in [0, prime) (`ChipTypes.PowerIsIntegerIff`).

## Model

| member | source | states |
|---|---|---|
| Modular.InvCorrect | crypto/ecsm/src/curve.rs:117-118 | modulo a prime every nonzero residue has an inverse, the one the extended Euclid computes |
| Curve.AddClosed | crypto/ecsm/src/curve.rs:155-161 | the textbook sum of two curve points is a curve point or infinity |
| Curve.AddCommutes | crypto/ecsm/src/curve.rs:155-161 | a + b = b + a |
| Curve.AddCancels | crypto/ecsm/src/curve.rs:155-161 | (a + b) − b = a for all curve points and infinity, tangencies and vertical lines included |
| Curve.MulClosed | crypto/ecsm/src/curve.rs:155-161 | scalar multiples stay on the curve |
| Curve.MulNeg | crypto/ecsm/src/lib.rs:8-9 | k·(−P) = −(k·P) for all k and P, so x(k·P) does not depend on the root taken for y |
| Curve.OrbitAbscissa | crypto/ecsm/src/curve.rs:272-283 | for 2 <= m < order − 1 the abscissa of m·g differs from g's, and the chord through them gives (m+1)·g |
| Curve.OrbitNoVerticalTangent | crypto/ecsm/src/curve.rs:272-283 | below an odd order no multiple of g has a vertical tangent, and the tangent gives its double |
| Schedule.MsbMeaning | crypto/ecsm/src/curve.rs:55-58 | 2^msb <= k < 2^(msb+1) |
| Schedule.BuildSchedule | crypto/ecsm/src/curve.rs:130-150 | the loop produces exactly the rows of the scalar and terminates by 2·round + 1 − op |
| Schedule.ScheduleRounds | crypto/ecsm/src/curve.rs:135-141 | each row's round is its bit position: before a double the accumulator is the scalar shifted right by round + 1, before an add twice that; a double announces the bit at its round, an add stands for a set bit |
| Schedule.ShrMeaning | crypto/ecsm/src/curve.rs:136-137 | the shift used to read bits is division by the power of two |
| Schedule.ScheduleComputesScalar | crypto/ecsm/src/curve.rs:130-150 | folding the rows from 1 (double on op 0, add one on op 1) gives k, for every k >= 1 |
| Schedule.ScheduleShape | crypto/ecsm/src/curve.rs:130-150 | length msb + popcount − 1, each next_op is the next row's op |
| Schedule.AccumulatorRange | crypto/ecsm/src/curve.rs:130-150 | before each row the accumulator is positive, doubling it stays within k, and an add meets an accumulator of at least 2 and below k |
| Replay.JacDoubleRepresents | crypto/ecsm/src/curve.rs:170-188 | the Jacobian double stands for the affine tangent sum, and z vanishes exactly when the tangent is vertical |
| Replay.JacMaddRepresents | crypto/ecsm/src/curve.rs:192-212 | the mixed add stands for the affine chord sum, and z vanishes exactly when the abscissae agree |
| Replay.ToAffineCorrect | crypto/ecsm/src/curve.rs:256-263 | normalizing with the inverse of z gives back the affine point |
| Replay.BatchInvert | crypto/ecsm/src/curve.rs:109-125 | every element's inverse, and failure exactly when some element is zero |
| Replay.LadderRepresents | crypto/ecsm/src/curve.rs:232-246 | the ladder stands for the affine run point by point as long as no denominator vanishes |
| Replay.LadderNonzero | crypto/ecsm/src/curve.rs:232-255 | no z is zero if and only if no affine slope denominator is |
| Replay.NormalizePoints | crypto/ecsm/src/curve.rs:248-270 | one batched inversion normalizes the whole ladder to the affine run |
| Replay.BuildSteps | crypto/ecsm/src/curve.rs:272-304 | one batched inversion yields every slope, so the steps are the affine run's |
| Replay.ReplayDoubleAndAdd | crypto/ecsm/src/curve.rs:223-308 | returns the affine double-and-add run step for step, and fails exactly when that run has a vanishing denominator |
| Replay.RefStepsSatisfyRelations | crypto/ecsm/src/curve.rs:285-304 | each lambda times its denominator is its numerator, each r is the double or add of a, consecutive steps chain |
| Replay.OrbitRun | crypto/ecsm/src/curve.rs:272-283 | row i of the run is Accumulator(i)·g, and no denominator up to it vanishes |
| Replay.OrbitRunIsRegular | crypto/ecsm/src/curve.rs:223-308 | for every k below an odd order the replay succeeds and ends at k·g |
| Limbs.Ext64 | crypto/ecsm/src/witness.rs:89-95 | zero extension to 64 limbs |
| Limbs.Conv | crypto/ecsm/src/witness.rs:98-104 | the i-th convolution coefficient |
| Limbs.ConvIsProduct | crypto/ecsm/src/witness.rs:98-104 | truncated convolutions are exact integer products whenever the limb lengths add up to at most 65 (32×32 and 33×32 included) |
| Limbs.LimbCarries | crypto/ecsm/src/witness.rs:110-130 | the loop returns the cast carries of the wrapping i128 sums, or fails at the first non-multiple of 256 or a nonzero last carry |
| Limbs.OnlyResiduesMatter | crypto/ecsm/src/witness.rs:110-130 | terms that agree modulo 2^128 give the same carries, so integer terms stand for i128 ones |
| Limbs.CarriesAcceptedIff | crypto/ecsm/src/witness.rs:110-130 | accepted if and only if the value the i128 sums see vanishes modulo 256^n · 2^64; that is the value itself if and only if no partial sum leaves i128 |
| Limbs.AcceptedInRoom | crypto/ecsm/src/witness.rs:110-130 | for limbs within 2^127 − 2^119 no sum overflows, and acceptance is that the value vanishes modulo 256^n · 2^64 |
| Limbs.DecidesZeroIff | crypto/ecsm/src/witness.rs:105-130 | all 64-limb arrays within ±b are accepted exactly when they spell zero, if and only if b <= 255 · 2^64 |
| Limbs.CastHidesACarry | crypto/ecsm/src/witness.rs:123-128 | 64 limbs with a nonzero value that are accepted because the cast drops a final carry of 2^64 |
| Limbs.OverflowHidesAValue | crypto/ecsm/src/witness.rs:114 | 64 limbs worth 2^136 that are accepted because a sum wraps, and whose sums do not fit i128 |
| Limbs.CarriesAcceptedIffZero | crypto/ecsm/src/witness.rs:110-130 | for limbs below 2^63: accepted if and only if the value is zero, and no cast loses anything |
| Limbs.CarriesBounded | crypto/ecsm/src/witness.rs:110-130 | terms in [−lo, hi] keep every carry in [−lo/255, hi/255] |
| Limbs.BytesRoundTrip | crypto/ecsm/src/lib.rs:90-97 | byte strings and their values correspond |
| Relations.CarriesX2 | crypto/ecsm/src/witness.rs:137-143 | builds the carries of the x2 terms |
| Relations.CarriesYg | crypto/ecsm/src/witness.rs:146-159 | builds the carries of the yG terms |
| Relations.CarriesLambda | crypto/ecsm/src/witness.rs:164-195 | builds the carries of the slope terms, chord or tangent |
| Relations.CarriesXr | crypto/ecsm/src/witness.rs:200-217 | builds the carries of the abscissa terms |
| Relations.CarriesYr | crypto/ecsm/src/witness.rs:221-240 | builds the carries of the ordinate terms |
| Relations.ChainCloses | crypto/ecsm/src/witness.rs:110-130 | terms of the size the relations reach have a closed chain with carries in [−2^15, 2^15) exactly when they spell zero |
| Relations.X2Decided | crypto/ecsm/src/witness.rs:136-143 | for all bytes the chain closes iff xG² = x2 + q0·p, and every carry is a halfword after its offset |
| Relations.YgDecided | crypto/ecsm/src/witness.rs:145-159 | for all bytes the chain closes iff yG² + p² = xG·x2 + 7 + q1·p, carries in range |
| Relations.LambdaDecided | crypto/ecsm/src/witness.rs:161-195 | for all bytes the chain closes iff numerator + r·p = q0·p for the step's op, carries in range |
| Relations.XrDecided | crypto/ecsm/src/witness.rs:197-217 | the same for the abscissa relation |
| Relations.YrDecided | crypto/ecsm/src/witness.rs:219-240 | the same for the ordinate relation |
| Witness.ConstantsAgree | crypto/ecsm/src/lib.rs:33-49 | the byte tables hold p and r = 3p |
| Witness.GeneratorOnCurve | crypto/ecsm/src/tests/curve_tests.rs:11-19 | the standard generator satisfies the curve equation for the modelled modulus and constant |
| Witness.ShiftedQuotientMeaning | crypto/ecsm/src/witness.rs:261-273 | a quotient exists iff p divides the numerator and it is at least −r·p; then numerator + r·p = q·p |
| Witness.QuotientExists | crypto/ecsm/src/witness.rs:247-273 | between −3p² and 2p² divisibility alone decides, and the quotient fits 33 bytes |
| Witness.StepNumeratorRange | crypto/ecsm/src/witness.rs:399-419 | for field elements all three numerators lie between −3p² and 2p² |
| Witness.StepQuotients | crypto/ecsm/src/witness.rs:399-419 | three 33-byte quotients, failing exactly when a congruence fails |
| Witness.StepCarries | crypto/ecsm/src/witness.rs:421-451 | the three carry arrays of a row |
| Witness.SlopeChainDecided | crypto/ecsm/src/witness.rs:421-431 | for every byte-shaped row the slope chain closes iff its quotient is the right one, and then the carries close it |
| Witness.AbscissaChainDecided | crypto/ecsm/src/witness.rs:432-441 | the same equivalence for the abscissa chain |
| Witness.OrdinateChainDecided | crypto/ecsm/src/witness.rs:442-451 | the same equivalence for the ordinate chain |
| Witness.BuildStep | crypto/ecsm/src/witness.rs:365-471 | for field elements a row is built iff the three congruences modulo p hold; its bytes, quotients and chains satisfy the chip |
| Witness.ReplayedStepCongruences | crypto/ecsm/src/witness.rs:399-419 | every replayed step satisfies the congruences, so no assertion in build_step trips |
| Witness.PrepareMeaning | crypto/ecsm/src/lib.rs:103-120 | accepted iff 1 <= k < N and xG is the abscissa of a curve point; the base point is that point with even ordinate; each reason for refusal has its exact condition |
| Witness.BuildBase | crypto/ecsm/src/witness.rs:297-318 | x2 and yG relations for every curve point: x2 quotient in 32 bytes, byte 32 of the yG quotient 0 or 1, both chains close |
| Witness.BuildScalar | crypto/ecsm/src/witness.rs:320-324 | xG − p and k − N modulo 2^256 and the msb position, none truncated |
| Witness.ReplayReaches | crypto/ecsm/src/witness.rs:326-330 | for every k in [1, N) the replay succeeds and its result is k·g |
| Witness.BuildAllSteps | crypto/ecsm/src/witness.rs:332-343 | every replayed step becomes a row the chip accepts |
| Witness.ComputeWitness | crypto/ecsm/src/witness.rs:281-362 | every input is refused with prepare's reason or gets a complete witness; no assertion, inversion or bound can fail |
| Witness.StepsChain | crypto/ecsm/src/witness.rs:281-362 | the rows chain byte for byte from the base point to the result |
| Witness.StepMeaning | crypto/ecsm/src/witness.rs:453-470 | row i holds, in bytes, the multiple of g given by the scalar's bits above its round (twice that for an add), the next multiple, g, its round, op and the announced bit |
| Witness.EntryPointsAgree | crypto/ecsm/src/lib.rs:3-9 | executor and prover write the same x-coordinate, whichever root was taken for yG |
| Hints.HintedInverseIgnoresHint | crypto/ethrex-crypto/src/lib.rs:119-135 | for every hint the hinted inverse (scalar or field) equals the software one, defined exactly for nonzero inputs |
| Hints.DecompressMeaning | crypto/ethrex-crypto/src/lib.rs:174-177 | software decompression yields exactly the curve point of that abscissa and parity, and none only if there is none |
| Hints.HintedDecompressIgnoresHint | crypto/ethrex-crypto/src/lib.rs:167-220 | for every hint the hinted decompression equals the software one |
| Hints.HonestHintIsUsed | crypto/ethrex-crypto/src/lib.rs:185-220 | a verified root always takes the fast path |
| LinearCombination.SolveYSound | crypto/ethrex-crypto/src/lib.rs:466-482 | whatever the oracle said, a returned ordinate puts (xa, y) on the curve and its chord with P has third abscissa xc |
| LinearCombination.SolveYComplete | crypto/ethrex-crypto/src/lib.rs:466-482 | true abscissae are always solved, with the true ordinate |
| LinearCombination.SolveYExact | crypto/ethrex-crypto/src/lib.rs:466-482 | solve_y returns y if and only if (xa, y) is a curve point whose sum with P has abscissa xc |
| LinearCombination.SharedInverse | crypto/ethrex-crypto/src/lib.rs:439-445 | one inverse of the product yields the inverse of each factor |
| LinearCombination.LastChordIsSum | crypto/ethrex-crypto/src/lib.rs:450-453 | the closing formulas are the chord sum |
| LinearCombination.TruthfulForEitherSign | crypto/ethrex-crypto/src/lib.rs:399-400 | an oracle that lifts to the even ordinate answers correctly for both signs of the point |
| LinearCombination.Lincomb2Correct | crypto/ethrex-crypto/src/lib.rs:405-460 | with a truthful oracle and any hints the result is k1·P1 + k2·P2 exactly when both scalars lie in 2..order − 2 and no chord or tangent involved degenerates, and none otherwise |
| LinearCombination.Lincomb2Decided | crypto/ethrex-crypto/src/lib.rs:485-492 | for points of the given odd order the scalar guard refuses only what is degenerate anyway: Some iff the points are apart, iff both scalars avoid 0, 1, −1 and the multiples' abscissae differ |
| LinearCombination.EdgeDegenerates | crypto/ethrex-crypto/src/lib.rs:483-492 | the scalars 0, 1 and order − 1 give infinity or the base's own abscissa |
| LinearCombination.UntrustedOracleOnCurve | crypto/ethrex-crypto/src/lib.rs:405-460 | for every field-valued oracle a surviving candidate is already on the curve, so the closing check never rejects |
| Pipeline.StepKeepsInv | prover/src/continuation.rs:1164-1532 | every step of every thread keeps queue bounds, lock exclusion, shutdown order, conservation of epochs, and that failures are recorded or on their way |
| Pipeline.RunKeepsInv | prover/src/continuation.rs:1164-1532 | so does every run, for every interleaving and every choice of failing stages |
| Pipeline.RememberedKept | prover/src/continuation.rs:1204-1207 | an executed stage's failure is never lost between the threads |
| Pipeline.ConservedKept | prover/src/continuation.rs:1177-1242 | while nothing has failed every published epoch is in exactly one place |
| Pipeline.NeverStuck | prover/src/continuation.rs:1164-1333 | no reachable non-final state is stuck, for every number of builders K >= 1 |
| Pipeline.RunIsBounded | prover/src/continuation.rs:1342-1532 | a measure drops at every step, so every run is finite |
| Pipeline.FinalProofs | prover/src/continuation.rs:1537-1540 | without failures the proofs are the published epochs once each, and sorting lists them as 0..n−1 |
| Pipeline.FinalError | prover/src/continuation.rs:1488-1548 | at the end the first error is set iff an executed stage failed, it names such a stage, and its absence implies a global result |
| Pipeline.ErrorIsSticky | prover/src/continuation.rs:1204-1207 | a recorded error is never replaced, and the first one recorded is the fault met in that step |
| Pipeline.FirstErrorReported | prover/src/continuation.rs:1199-1241 | along every run the recorded error is the first fault the prover met, from its queue or its own proving |
| Pipeline.ErrorOnlyDrains | prover/src/continuation.rs:1195-1213 | once an error is recorded no thread starts a stage again |
| Pipeline.HaltsAtFirstStop | prover/src/continuation.rs:1342-1470 | the number of epochs of a plan is the first point at which the guest is done |
| Pipeline.FinalResult | prover/src/continuation.rs:1534-1571 | Ok iff no executed stage failed; it delivers epochs and boundaries 0..n−1 in order of a plan that succeeds, or a failure the plan contains of one that does not |
| Pipeline.PipelineCorrect | prover/src/continuation.rs:1164-1571 | for every K, every stage behaviour and every interleaving: bounded, never stuck, the final result is one the stages allow, and an error is the first fault the prover met, an epoch's before the global prove's |
| Pipeline.DeliveryUnique | prover/src/continuation.rs:1534-1571 | whether a run succeeds and the bundle it then returns depend on the stages alone |
| Pipeline.OccupancyBound | prover/src/continuation.rs:1177-1180 | at most 1 queued + K building + 1 queued + 1 proving epochs past the producer |
| GlobalMemory.NewestIsFinal | prover/src/tables/local_to_global.rs:17-26 | under the ordering check the newest fini token can only be taken by the final state |
| GlobalMemory.BusIsChain | prover/src/continuation.rs:902-908 | the tokens balance if and only if the rows form one chain per address from genesis to the final state, each init the previous toucher's fini |
| GlobalMemory.UnorderedBusBalances | prover/src/tables/local_to_global.rs:17-26 | without the ordering check a self-justifying row balances with any value |
| GlobalMemory.OrderingCheck | prover/src/tables/local_to_global.rs:442-458 | for a 32-bit init epoch the 20-bit lookup in the Goldilocks field is exactly init_epoch < fini_epoch |
| GlobalMemory.CanonicalIsSet | prover/src/continuation.rs:283-294 | canonicalization keeps the set of bases, ascending, once each |
| GlobalMemory.CanonicalDependsOnSet | prover/src/continuation.rs:283-294 | wire order and repetitions do not matter |
| GlobalMemory.CheckedCellsDistinct | prover/src/continuation.rs:1750-1767 | accepted iff all bases are aligned, and then every cell of the pages has exactly one genesis/final pair |
| GlobalMemory.ClaimedRowsShape | prover/src/tables/local_to_global.rs:417-458 | untrusted tables labelled by the verifier, every row passing its lookups, are in epoch order and rise at every row |
| GlobalMemory.AcceptedBusIsChain | prover/src/continuation.rs:1750-1767 | accepted page bases and such tables: the tokens balance if and only if the rows form one chain per address |
| GlobalMemory.EpochBoundary | prover/src/tables/local_to_global.rs:166-191 | one row per touch with its value under the epoch's label, each init from the last writer, and the provenance keeps tracking it |
| GlobalMemory.EpochBoundaries | prover/src/tables/local_to_global.rs:143-160 | the same over a whole run, labels 1-based |
| GlobalMemory.InitIsLastWriter | prover/src/tables/local_to_global.rs:143-191 | the first touch of a cell finds the initial image, every later one the previous toucher's fini |
| GlobalMemory.RunRowsShape | prover/src/tables/local_to_global.rs:143-191 | an honest run is in epoch order and meets the ordering check iff no epoch lists a cell twice |
| GlobalMemory.ComputeFinalState | prover/src/continuation.rs:917-929 | the loop keeps the last fini per address, cut to a byte |
| GlobalMemory.TouchedPagesCover | prover/src/continuation.rs:273-281 | the touched page set is aligned, has distinct cells and covers every row |
| GlobalMemory.TouchedPagesExact | prover/src/continuation.rs:273-281 | it holds the pages of the rows and no others |
| GlobalMemory.HonestBusBalances | prover/src/continuation.rs:902-929 | the honest bus balances exactly when every touched cell ends up holding a byte |
| GlobalMemory.HonestClaimsAccepted | prover/src/tables/local_to_global.rs:417-458 | an honest run of at most 2^20 epochs that lists no cell twice passes every lookup, and the verifier reads its rows back from the columns |
| Keccak.PaddingIsPad101 | syscalls/src/keccak.rs:43-51 | the padding bytes spell pad10*1 of section 5.1 of FIPS 202 at rate 1088, for every message length |
| Keccak.DigestIsSponge | syscalls/src/keccak.rs:43-51 | the byte-level reference is the bit-level sponge of section 4 of FIPS 202 with capacity 512 and 256 output bits, for every permutation and message |
| Keccak.XorIntoUndoes | crypto/ethrex-crypto/src/lib.rs:561-567 | XORing a block in twice takes it out again |
| Lanes.ShiftedByte | syscalls/src/keccak.rs:158-163 | shifting a lane up by eight bits moves each byte one place up, so byte 0 is the least significant |
| Keccak.AbsorbBlock | crypto/ethrex-crypto/src/lib.rs:561-567 | XORs the block into the bytes of the first 17 lanes and nothing else |
| Keccak.Squeeze32 | syscalls/src/keccak.rs:159-163 | the first 32 state bytes |
| Keccak.Keccak256WithPermute | crypto/ethrex-crypto/src/lib.rs:524-552 | equals the reference sponge for every permutation and message, with len/136 + 1 permutations |
| Keccak.Keccak256Pair | syscalls/src/keccak.rs:184-203 | equals the reference sponge on the concatenated nodes, with one permutation |
| Keccak.Hasher.AbsorbByte | syscalls/src/keccak.rs:76-91 | absorbs one byte, permuting when the rate fills |
| Keccak.Hasher.AbsorbLanes | syscalls/src/keccak.rs:103-124 | the whole-lane path absorbs the same bytes |
| Keccak.Hasher.Update | syscalls/src/keccak.rs:93-135 | for every split and every pointer alignment the absorbed message is the concatenation |
| Keccak.Hasher.Finalize | syscalls/src/keccak.rs:138-147 | the digest of the absorbed message, after len/136 + 1 permutations in all |
| Keccak.Keccak256 | syscalls/src/keccak.rs:166-172 | one-shot hashing equals the reference sponge at any address |
| GuestMemory.SeedPropagates | executor/src/vm/instruction/execution.rs:761-764 | eight equal bytes propagate across the whole range of a forward walk |
| GuestMemory.Machine.DmaMemcpy | executor/src/vm/instruction/execution.rs:708-733 | snapshot copy, refused exactly for more than 256 bytes or a wrapping range |
| GuestMemory.Machine.DmaMemset | executor/src/vm/instruction/execution.rs:734-767 | forward byte walk, refused also unless dst = src + 8 |
| GuestMemory.Machine.Memcpy | syscalls/src/entrypoint.rs:62-90 | right on disjoint ranges and wherever a forward copy does not clobber; nothing else changes; dst returned; ecalls of 1 to 256 bytes |
| GuestMemory.Machine.Memmove | syscalls/src/entrypoint.rs:110-158 | right under every overlap; nothing else changes; dst returned; ecalls of 1 to 256 bytes |
| GuestMemory.Machine.Memset | syscalls/src/entrypoint.rs:185-237 | exactly n bytes take the low byte of c; nothing else changes; dst returned; ecalls of 1 to 256 bytes |
| Allocator.CursorMonotoneIff | syscalls/src/allocator.rs:138-152 | the cursor moves down exactly when aligning it wraps around 2^64 and the block fits below |
| Allocator.CursorMovesDown | syscalls/src/allocator.rs:138-152 | a heap ending at 2^64 − 1 where one more byte moves the cursor down to 1 |
| Allocator.BumpAlloc.Init | syscalls/src/allocator.rs:117-128 | the first call places the heap, which is sound if it is zero, off null and within isize; later calls change nothing |
| Allocator.BumpAlloc.InitAllocator | syscalls/src/allocator.rs:827-833 | the heap runs from the linker's end symbol to the memory ceiling |
| Allocator.BumpAlloc.Alloc | syscalls/src/allocator.rs:138-152 | null iff the aligned block does not fit; otherwise an aligned block inside the heap, disjoint from all owned ones, all zero |
| Allocator.BumpAlloc.AllocZeroed | syscalls/src/allocator.rs:158-162 | zeros without a memset, because all heap memory at or above the cursor is zero |
| Allocator.BumpAlloc.Dealloc | syscalls/src/allocator.rs:154-156 | gives the block up and touches nothing |
| Allocator.BumpAlloc.Write | syscalls/src/allocator.rs:158-162 | guest writes inside owned blocks keep every invariant |
| Allocator.BumpAlloc.Realloc | syscalls/src/allocator.rs:164-198 | the topmost block is resized in place and null exactly when it would pass the heap's end; any other block moves and is null exactly when a fresh one would be; the first min(old, new) bytes are kept, null changes nothing |
| Words.OrSetsBit | prover/src/paged_mem.rs:96-97 | or-ing 1 << k sets exactly bit k |
| Words.ClearLowest | prover/src/paged_mem.rs:204-205 | w & (w − 1) removes the lowest set bit |
| Words.SetBitsMember | prover/src/paged_mem.rs:194-209 | the iteration lists exactly the set bits |
| Words.BitIter.Next | prover/src/paged_mem.rs:200-208 | yields the lowest set bit and leaves the others |
| PagedMemory.PagedMem.Get | prover/src/paged_mem.rs:66-72 | the value last set, or the fill value |
| PagedMemory.PagedMem.Set | prover/src/paged_mem.rs:76-97 | updates the map at that address, keeping pages sorted, aligned and dense |
| PagedMemory.PagedMem.PageBases | prover/src/paged_mem.rs:102-104 | ascending, exactly the bases of set cells |
| PagedMemory.PagedMem.PageData | prover/src/paged_mem.rs:110-123 | present iff the page has a set cell; each offset holds the cell's value or fill |
| PagedMemory.PagedMem.Iter | prover/src/paged_mem.rs:146-159 | exactly the set addresses, once each, ascending, with current values |
| PagedMemory.PagedMem.IsEmpty | prover/src/paged_mem.rs:139-143 | true iff nothing was set |
| PagedMemory.PagedMem.Length | prover/src/paged_mem.rs:126-136 | the number of set addresses |
| ElfImage.BuildInitialImage | prover/src/tables/trace_builder.rs:2478-2498 | the image holds exactly the segments' bytes, the last covering segment winning, with the length-prefixed private input written over them |
| ElfImage.LastSegmentWins | prover/src/tables/trace_builder.rs:2480-2489 | where segments overlap the last one decides the byte |
| ElfImage.WordSpelled | prover/src/tables/trace_builder.rs:2482-2487 | the four bytes of a word spell it, least significant first |
| ElfImage.InputSpelled | prover/src/tables/trace_builder.rs:2441-2448 | a non-empty input is preceded by its length in four bytes and follows unchanged |
| ElfImage.HasDataIff | prover/src/continuation.rs:347-357 | yes exactly for pages with a segment byte or an empty segment strictly inside |
| ElfImage.ClassificationMatchesImage | prover/src/continuation.rs:347-357 | for a loaded ELF the built image's pages are those the classification names and those of the private input |
| ElfImage.EmptySegmentDisagrees | prover/src/continuation.rs:347-357 | an empty segment makes the two differ |
| Symbols.LookupMeaning | executor/src/elf.rs:594-612 | a lookup finds the last symbol at or before the address; a sized one covers exactly its bytes, and none when they run past 2^64 |
| Symbols.LookupsAgree | executor/src/elf.rs:596-636 | both lookups return the same function, except that a sizeless one does not reach the last address |
| Symbols.RangeResolvesAlike | executor/src/elf.rs:614-636 | every address of a returned range resolves to a symbol at its start, and past the start to exactly that symbol, duplicates included |
| Symbols.RangeResolvesIff | executor/src/elf.rs:614-636 | a non-empty range resolves to the returned function under every valid search if and only if no other symbol has its address |
| Symbols.RangeIsMaximal | executor/src/elf.rs:614-636 | past the end of a range no address resolves to its function, the last address apart |
| Symbols.DuplicateStart | executor/src/elf.rs:614-618 | at a duplicated start the function itself can differ |
| Flamegraph.PathsDistinct | executor/src/flamegraph.rs:119-134 | distinct trie nodes have distinct paths |
| Flamegraph.CacheIsTransparent | executor/src/flamegraph.rs:181-192 | a jump inside the cached range would not have moved the stack anyway |
| Flamegraph.RangeIsSound | executor/src/flamegraph.rs:194-197 | every range the generator caches has that property |
| Flamegraph.Generator.PushFrame | executor/src/flamegraph.rs:119-134 | the trie's path grows by the frame, counts unchanged |
| Flamegraph.Generator.PopFrame | executor/src/flamegraph.rs:137-141 | the path loses its last frame, never the entry point |
| Flamegraph.Generator.MaybeTailCall | executor/src/flamegraph.rs:181-209 | same stack as without any cache |
| Flamegraph.Generator.UpdateStack | executor/src/flamegraph.rs:144-172 | the plain stack's move for each instruction |
| Flamegraph.NestedRun | executor/src/flamegraph.rs:144-209 | a well-nested trace of logs, calls with body and return, and tail calls ends on the stack it began with, apart from the activation's own frame, and each log is counted at its activation's stack |
| Flamegraph.CallReturns | executor/src/flamegraph.rs:144-209 | a call, its body and its return leave the caller's stack as it was, also when the body leaves by a tail call |
| Flamegraph.BalancedRun | executor/src/flamegraph.rs:144-209 | without a tail call of its own an activation leaves the whole stack as it was, the entry point's included |
| Flamegraph.BodyStacks | executor/src/flamegraph.rs:144-209 | everything a body counts lies above the caller, and above the callee's frame when it makes no tail call |
| Flamegraph.Generator.ProcessLogs | executor/src/flamegraph.rs:92-108 | stack and per-stack counts equal a plain simulated run, also when an instruction is missing |
| Flamegraph.Generator.PathTo | executor/src/flamegraph.rs:249-260 | the root-to-node chain |
| Flamegraph.Generator.Fold | executor/src/flamegraph.rs:268-287 | per rendered stack the sum of its nodes' counts, in order, adding up to total_counted |
| Flamegraph.SplitJoin | executor/src/flamegraph.rs:275-281 | a rendered stack can be read back, root first |
| Flamegraph.LessMeaning | executor/src/flamegraph.rs:284-285 | the order of the entries is the lexicographic one |
| Statement.AbsorbStatement | prover/src/statement.rs:72-188 | appends exactly the encoding of a monolithic or epoch statement |
| Statement.AbsorbGlobalStatement | prover/src/statement.rs:204-228 | appends exactly the encoding of a global statement |
| Statement.DecodeEncode | prover/src/statement.rs:72-228 | every statement followed by anything decodes to itself and what followed |
| Statement.UniquelyDecodable | prover/src/statement.rs:72-228 | equal streams bind equal statements, across kinds as well as within one |
| Statement.PrefixFree | prover/src/statement.rs:72-228 | no encoding is a proper prefix of another |
| Statement.Layout | prover/src/statement.rs:72-228 | every field of every statement kind is at a stated offset with a stated width, the twenty table counts by name, and nothing else is encoded |
| ProgramId.FeedProgramId | prover/src/recursion.rs:202-222 | the hasher receives the sorted, count-prefixed preimage |
| ProgramId.PreimageDetermines | prover/src/recursion.rs:202-222 | equal preimages bind equal digest, entry point, decode commitment and pages |
| ProgramId.PreimageLayout | prover/src/recursion.rs:202-222 | tag, digest, entry point, decode commitment, page count and pages by ascending base, each at a stated offset |
| ProgramId.PreimageInvariant | prover/src/recursion.rs:202-222 | when no two different pages share a base the supplied order does not matter |
| ProgramId.OrderIndependentIff | prover/src/recursion.rs:202-222 | every order of the pages gives the same preimage if and only if no base carries two different pages |
| ProgramId.RepeatedBaseDependsOnOrder | prover/src/recursion.rs:208-209 | two different pages on one base, among any others: some order of the pages changes the preimage |
| ProgramId.TwoOrders | prover/src/recursion.rs:208-209 | two concrete pages on one base whose order changes the preimage |
| ChipTypes.MulRangeSound | spec/tooling/chip.py:185-195 | products stay within the four corner products |
| ChipTypes.MulRangeTight | spec/tooling/chip.py:185-195 | both ends of a product's range are attained |
| ChipTypes.MulMatchSound | spec/tooling/chip.py:185-195 | scalar-array products stay within the matched type |
| ChipTypes.AddMatchSound | spec/tooling/chip.py:209-246 | sums and differences stay within the matched type, leaf by leaf |
| ChipTypes.AddRangeTight | spec/tooling/chip.py:209-246 | both ends of a sum's and a difference's range are attained |
| ChipTypes.AddMatchOkIff | spec/tooling/chip.py:209-246 | types add up exactly when they have the same shape |
| ChipTypes.TypecheckSound | spec/tooling/chip.py:108-338 | if no error is reported every cast-free expression has an integer value within its computed range, for every assignment within the declared types; `^` denotes the canonical residue of the power |
| ChipTypes.PolynomialsAccepted | spec/tooling/chip.py:108-283 | sums, differences and products over declared scalars and numbers are never rejected |
| ChipTypes.ScalarMeaning | spec/tooling/chip.py:108-338 | what the operators mean on numbers |
| ChipTypes.SumMeaning | spec/tooling/chip.py:304-325 | a sum runs over start..stop inclusive, one iteration at a time |
| ChipTypes.PowModIsPower | spec/tooling/chip.py:289-301 | the checker's power is the residue `^` denotes: congruent to the integer power, or inverse to the opposite power for a negative exponent |
| ChipTypes.PowerExistsIff | spec/tooling/chip.py:289-301 | `^` has no value exactly for a negative exponent of a base without inverse |
| ChipTypes.PowerIsIntegerIff | spec/tooling/chip.py:289-301 | for exponents >= 0 `^` is the integer power if and only if that lies in [0, prime) |
| ChipTypes.PowerWraps | spec/tooling/chip.py:289-301 | modulo 5 the range of 2^3 is {3} |
| ChipTypes.ConstraintUnsatisfiable | spec/tooling/chip.py:819-836 | a constraint flagged in any iteration has no integer solution |
| ChipTypes.FlaggedButSatisfiable | spec/tooling/chip.py:819-836 | a flagged constraint that holds in the field, for every modulus |
| ChipTypes.NoMultipleIsUnsatisfiable | spec/tooling/chip.py:819-836 | a range without a multiple of the prime rules out solutions in the field |
| ChipTypes.ColumnVanishesIff | spec/tooling/chip.py:819-836 | for a single column it can vanish iff its range has such a multiple |
| VirtualColumns.HandleIters | spec/tooling/chip.py:673-737 | records the visited elements and stays error-free iff bounds are constant and in range, structures match and no two visits overlap |
| VirtualColumns.AllVisitsMember | spec/tooling/chip.py:673-737 | the visited elements are exactly those some definition's iterators select, each index within its bounds once the outer ones are fixed |
| VirtualColumns.TypecheckVirtual | spec/tooling/chip.py:755-779 | accepts iff bounds and structure are right, no visits overlap and every leaf is covered; without empty arrays, iff every leaf is defined exactly once |
| VirtualColumns.ScalarColumn | spec/tooling/chip.py:755-769 | the special case for scalars decides what the general check would |
| VirtualColumns.AcceptedIffOnce | spec/tooling/chip.py:739-753 | no overlap and full coverage together mean that every leaf is defined exactly once |
| VirtualColumns.ExactlyOnce | spec/tooling/chip.py:739-753 | accepted definitions define every scalar leaf exactly once |
| VirtualColumns.ExactlyOncePasses | spec/tooling/chip.py:739-753 | conversely, leaves defined exactly once pass |

## Left out

- CUDA wrappers, STARK proving and verification, FRI, Merkle commitments and hashing: outside code or plumbing; hashes and proofs do not appear in the model.
- Epoch and global verification (`verify_continuation_view`): beyond its page-base check it composes abstract verifications.
- Thread panics and environment tuning of the pipeline: the model has K >= 1 builders and stages that return.
- Content of epochs in the pipeline: an epoch is its index; register and memory hand-over between epochs is modelled only as the boundary rows of `GlobalMemory`.
- Local memory bus, timestamps and table internals of `local_to_global`, `global_memory`, `page` and `register`: only the tokens and the ordering check are modelled.
- k256's lazy magnitudes and its scalar multiplication: field elements are values and k·P is repeated addition.
- The dlmalloc arm of the allocator: it wraps a third-party allocator.
- CastExpr of the chip language: its value is not determined by the checker, so expressions are cast-free; `build_expr` parsing and error texts are not modelled either.
- Node indices of the flamegraph are unbounded, so the 32-bit index cast is not modelled; demangling and file output are not modelled.
- Masks and shifts on addresses (page split, align-up) are written as remainders by the power of two.
- GuestMemory.Machine.Memmove: address ranges that wrap around 2^64 are not covered, since no object can span them.
