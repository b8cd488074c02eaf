# Verification of the Ed25519 cores

A Dafny 4.11 model of the arithmetic, the scheduling and the shared state of this Ed25519 verifier, with proofs
of what its comments promise. `dafny verify dfyconfig.toml` checks the whole project. Every file is one module;
the imports give the reading order.

## What is modelled

1. **Scalar halving modulo 8L** (`words` ... `selectors`). The five selectors of `internal/heea8l` on 256- and
   320-bit words, each proved against a choice function on integers, and those functions against each other:
   Lehmer batches make the choice of plain Euclid, the 256-bit search the choice of the unbounded search. The
   search is optimal over every semiconvergent (`optimal`). Overflow reports, iteration caps and defensive branches
   are decided, except for the approximate-quotient schedule (see "Left out").
2. **The four-term equation** (`group`, `equation*`, `heea_*`). From a selected `(rho, tau)` through coefficient
   preparation, recoding and the shared doubling chain to the theorem that the transformed check accepts exactly
   what `[s]B - R - [k]A = 0` accepts, and exactly which multipliers have that property.
3. **Scalars and multiplication schedules** (`scalar_*`, `recoding`, `schedules`, `fixed_*`, `shared_table`,
   `comb_split`, `merged_*`, `edwards_*`). Reduction modulo L in two forms, balanced and non-adjacent recoding,
   combs and merged chains in an arbitrary abelian group, and the batch-inverted affine table (`edwards_table`).
4. **The field of 2^255 - 19** (`field_*`, `fermat`, `batch_invert`, `batch_compare`). Lazy u52 arithmetic with
   exact bounds, canonical reduction, inversion, cross-group Montgomery inversion and the y-first comparator.
5. **The two-tier cache** (`cache_*`). A state machine of atomic steps, one per atomic operation or critical
   section action of the Go code; the theorems are about every interleaving of any number of goroutines, and about what
   one goroutine's whole operation leaves behind (`cache_trace`).
6. **Batch plumbing** (`sha_*`, `batch_world` ... `batch_dispatch`). Block feeding to SHA-512, decode-miss
   compaction and scatter, the two finalizer layouts, warm, cold and tail dispatch: every verdict is the
   single-item verdict.

## Conventions

- Machine words are integers in their Go range (`u8`, `u64`, `u128`, `int64`); wrap-around, truncating shifts and
  Go's truncating division are written out.
- A Go array of limbs is a `seq` of words, least significant first; a vector is a `seq` of lanes; a lane mask is
  the set of its lane numbers.
- The curve is an abelian group given by its operations. Where the equation needs it, the group has exponent 8L
  and B has order L (`Equation.CyclicSetting` shows these hypotheses are consistent).
- The primality of L and of p is a hypothesis (`IsPrime`) of exactly the lemmas that use it. Fermat's theorem is
  proved from it, not assumed.
- SHA-512 compression, point decoding, point encoding and the byte checks of `internal/sigprep` are parameters.
  What is required of them is stated in `BatchWorld.Sound`. The packed one- and two-signature kernels, the warm
  verifier and its builder are parameters that may fault (`BatchDispatch.Agrees`); the warm verifier is relied on
  only over tables built for the lanes' own keys.
- A panic or an error return is an explicit outcome, or is proved unreachable from what the callers guarantee.

## Where the code and its comments differ

The model follows the code.

- `lehmer.go:158` says matrix entries are capped below 2^31. That holds for a, b and c; d stays below 2^32 but
  exceeds 2^31 exactly when the last quotient times the previous |d| is at least 2^31 - |b|
  (`LehmerBatch.CapExactly`), and a challenge below L makes it happen (`LehmerCap.CapReached`). The guard is exact
  all the same (`LehmerSelect.GuardHolds`).
- `lehmer.go:133-141`: besides `u+a`, also `v+d` leaves int64 at `u = v = 2^63-1` on the first pass; both give a
  batch of zero steps, which the caller treats as "take an exact step".
- `heea_base_split.go:106-113` says a false return means the product needs more than 512 bits. It means the bit
  lengths add up to more than 512 (`HeeaProduct.ReduceSignedProduct` gives the condition in both directions,
  `HeeaProduct.FallbackMayFit` a product that fits). It also names a Barrett reducer; the code calls the
  radix-2^21 one. Both are proved equal (`ScalarBarrett`).
- A quotient of 2^64 or more is reachable on valid challenges (`LehmerCap.WideQuotient`: k = 2^180); both
  principal selectors then report the width fallback, and the model keeps that branch.
- `heea_base_split_ifma.go:187` asks only for an odd tau, while the equation needs a unit modulo 8L. Behind the
  other gate, |tau| < L, the two are the same when L is prime (`EquationExact.AdmittedUnit`), so the test as placed
  is enough (`EquationExact.LaneDecides`); for unrestricted tau exactly the odd multipliers that L does not divide
  preserve the equation (`EquationExact.ExactlyUnits`).
- `double_stage2_ifma_other.go`: 535p is the least multiple of p that covers the raw products
  (`FieldStage.BiasMinimal`).
- The y-first finalizer combined with the eight-lane encoder buffers and the wide core would reject every lane
  stored as a whole group of eight: `BatchPipeline.Pipeline.VerifyChunk` states the verdict of every lane in
  that configuration too, and `Lost` is exactly the set of lanes affected. No constructor in the repository
  combines the three.

## Model

| member | source | states |
|---|---|---|
| Words.BitLenLimbs | internal/heea8l/fixed.go:161-168 | the word scan returns the exact bit length, zero for zero |
| Words.MulWord | internal/heea8l/euclid_principal.go:129-146 | product by one word: the intermediate carry never overflows, and what leaves the top limb is exactly the reported excess |
| Fixed256.ShlLimbs | internal/heea8l/fixed.go:226-240 | a left shift is x*2^s modulo 2^256 for every shift |
| Fixed256.ShlExact | internal/heea8l/shift_subtract.go:97-123 | the 320-bit shift is exact, and it reports overflow exactly when bits are lost |
| Divide256.Add128 | internal/r51x5/heea_base_split.go:155-170 | adding a 128-bit word pair at an index adds its weighted value; false exactly when the sum leaves the words |
| Divide256.MulWide | internal/heea8l/fixed.go:299-321 | the accumulated double-width product is the exact product, so its overflow branch is dead |
| Divide256.Mul256 | internal/heea8l/fixed.go:299-321 | the low half of the product, and whether the high half is nonzero |
| Divide256.DivMod256 | internal/heea8l/fixed.go:193-224 | exact quotient and remainder for every nonzero divisor, on both the one-word and the shift-subtract path |
| Signed320.SubMul | internal/heea8l/euclid_principal.go:174-213 | x - y*m in one pass; overflow is reported exactly when the result needs more than five words |
| Signed320.SubMulReference | internal/heea8l/euclid_principal.go:217-223 | the two-step form meets the same contract as the one-pass form |
| Signed320.SubShifted | internal/heea8l/shift_subtract.go:128-156 | x - y*2^s in sign and magnitude, overflow reported exactly |
| Signed320.AddProducts | internal/heea8l/lehmer.go:264-290 | the sum of two signed products, exact overflow report, never a negative zero |
| Euclid.ReduceLinked | internal/heea8l/fixed.go:397-445 | any step x - q*y with q*rho_y <= rho_x keeps r0*|t1| + r1*|t0| = 8L, opposite signs and both relations rho = tau*k |
| Euclid.TauBound | internal/heea8l/fixed.go:397-445 | coefficients stay at most 8L in magnitude while the other remainder is positive |
| Euclid.FibonacciGrowth | internal/heea8l/euclid_principal.go:29-44 | n divisions need operands at least as large as Fibonacci numbers |
| Euclid.LengthBelowCap | internal/heea8l/euclid_principal.go:29-44 | Euclid on 256-bit operands ends in fewer than 382 divisions, below the 384-iteration cap |
| Euclid.AdvanceByMatrix | internal/heea8l/lehmer.go:117-150 | the cofactor matrix of the first n divisions maps remainders and coefficients onto the rows Euclid reaches |
| Euclid.Recover | internal/heea8l/lehmer.go:117-150 | an alternating unimodular matrix is inverted by its own magnitudes |
| LehmerMatrix.AgreementProduct | internal/heea8l/lehmer.go:126-150 | agreeing bracketing quotients force (v+c)(v+d) > u0+v0+1 |
| LehmerMatrix.EntryBounds | internal/heea8l/lehmer.go:126-150 | after an agreed step 2c^2 <= v0 (or |c| <= 1) and d^2 <= u0 |
| LehmerMatrix.TrueQuotient | internal/heea8l/lehmer.go:126-150 | a quotient on which both brackets of the leading words agree is the full-width Euclidean quotient |
| LehmerBatch.FirstPassWrap | internal/heea8l/lehmer.go:133-141 | u+a wraps int64 on the first pass exactly at u = 2^63-1, and then the two quotients disagree |
| LehmerBatch.CapExactly | internal/heea8l/lehmer.go:157-163 | an accepted step leaves |d| at 2^31 or more exactly when its quotient times |d| is at least 2^31 - |b| |
| LehmerCap.CapReached | internal/heea8l/lehmer.go:157-163 | a concrete challenge below L: after one exact step the second batch the selector forms, on rows wide enough to be batched, has an entry d above 2^31, so the comment that entries stay below 2^31 is false |
| LehmerBatch.TrialQuotient | internal/heea8l/lehmer.go:126-150 | a trial succeeds exactly when some quotient is accepted by both brackets, and returns it |
| LehmerBatch.StepExact | internal/heea8l/lehmer.go:141-146 | no product or difference of an accepted step leaves int64 |
| LehmerBatch.LehmerMatrixOf | internal/heea8l/lehmer.go:126-150 | the loop on the leading words, nothing more and nothing less; steps > 0 gives the matrix of exactly that many Euclidean divisions of the full-width pair, one-word quotients, alternating and unimodular, |a|,|b|,|c| < 2^31 and |d| < 2^32 |
| Lehmer.Products | internal/heea8l/lehmer.go:168-222 | the fused limb pass computes all eight products and fails exactly when one needs more than five words |
| Lehmer.ApplyMatrix | internal/heea8l/lehmer.go:156-245 | both transformed rows are exact; failure is reported exactly when some value is not representable |
| Lehmer.ApplyMatrixReference | internal/heea8l/lehmer.go:294-318 | four independent combines meet the very same contract, so the fused form and the reference agree on every input |
| LehmerSelect.BatchApplies | internal/heea8l/lehmer.go:54-115 | on linked rows the application of a batch never fails and lands on the rows Euclid reaches |
| LehmerSelect.GuardHolds | internal/heea8l/lehmer.go:31-52 | with more than 32 bits to spare every row before the one a batch lands on is still wider than the limit |
| LehmerSelect.BatchSkips | internal/heea8l/lehmer.go:54-115 | skipping a whole batch never steps past an admissible row |
| LehmerSelect.SelectLehmerCore | internal/heea8l/lehmer.go:54-115 | the batched loop, exact fallback steps included, makes the choice of plain principal Euclid |
| Principal.QuotientLookahead.Next | internal/heea8l/fixed.go:457-474 | whatever the queue of proposed quotients holds, the answer is the exact quotient and remainder |
| Principal.AdvanceRow | internal/heea8l/euclid_principal.go:53-100 | on linked rows the update fails exactly on a quotient wider than one word; the coefficient test never fires |
| Principal.SelectEuclidPrincipalMode | internal/heea8l/euclid_principal.go:53-100 | with or without lookahead: the first admissible principal row of Euclid on (8L,k), and the iteration cap is never what ends the search |
| Principal.PrincipalSound | internal/heea8l/euclid_principal.go:53-115 | a used candidate satisfies rho = tau*k (mod 8L), fits the width and passes the unit table |
| LehmerCap.WideQuotient | internal/heea8l/euclid_principal.go:78-100 | k = 2^180 is below L, its first quotient needs more than a word, and every width then reports the width fallback |
| Semiconvergent.BetterOrder | internal/heea8l/heea8l.go:246-264 | the candidate order is a strict weak order, so replacing the best never loses ground |
| Semiconvergent.MultipliersIn | internal/heea8l/heea8l.go:185-228 | at most thirteen multipliers, all between 0 and the quotient |
| Semiconvergent.BestForModulus | internal/heea8l/heea8l.go:139-177 | the loop over big integers computes the recursive search of the oracle |
| Semiconvergent.BestIsBest | internal/heea8l/heea8l.go:139-177 | no unit principal row and no unit intermediate row the search visits is better than the result |
| Optimal.Nearest | internal/heea8l/heea8l.go:179-228 | for any intermediate row with odd coefficient, anywhere between 0 and the quotient, some multiplier the window visits is at least as good |
| Optimal.NonUnitLoses | internal/heea8l/heea8l.go:104-133 | an odd coefficient that is no unit is at least L wide, and loses to (k, 1) |
| Optimal.AlwaysFinds | internal/heea8l/heea8l.go:139-177 | for 0 < k < L the search always ends with a candidate, at least as good as (k, 1) |
| Optimal.NothingBeats | internal/heea8l/heea8l.go:179-228 | no unit row of Euclid and no unit semiconvergent at any multiplier of any row beats the result: the small window loses nothing |
| Optimal.NothingBeatsOracle | internal/heea8l/heea8l.go:139-228 | the same of the search with the gcd test, for every multiplier (L prime) |
| Semiconvergent.SelectSound | internal/heea8l/heea8l.go:104-133 | what Select admits is an exact unit relation inside the width |
| SelectFixedWidth.BetterFixed | internal/heea8l/fixed.go:610-631 | the limb comparison decides the oracle's order |
| SelectFixedWidth.ParityShortcut | internal/heea8l/fixed.go:577-586 | the low bits of sign-and-magnitude coefficients decide the parity of t0 - q*t1 |
| SelectFixedWidth.AddFixed | internal/heea8l/fixed.go:556-575 | the fixed array of thirteen slots adds exactly what the unbounded list adds |
| SelectFixedWidth.StepBounds | internal/heea8l/fixed.go:397-445 | no sum formed around one pass leaves 256 bits, so the overflow panics are unreachable |
| SelectFixedWidth.SelectFixedMode | internal/heea8l/fixed.go:102-115 | the 256-bit search returns the oracle's choice, fallbacks included, in both division modes |
| Unit.TableIsGcd | internal/heea8l/fixed.go:588-608 | for every coefficient up to 8L the odd-multiples table passes exactly the units modulo 8L (L prime) |
| Unit.UnitInverse | internal/heea8l/fixed.go:588-608 | a coefficient that passes the table has an inverse modulo 8L |
| Unit.SelectAgrees | internal/heea8l/heea8l.go:104-133 | the search with the gcd test and the search with the table choose the same candidate and fallback for every k and width |
| ShiftSubtract.CancelLosesBit | internal/heea8l/shift_subtract.go:187-229 | one update loses at least one bit of the larger remainder |
| ShiftSubtract.CancelRow | internal/heea8l/shift_subtract.go:187-229 | on linked rows every defensive test passes and the update is exact |
| ShiftSubtract.AlignUnder | internal/heea8l/shift_subtract.go:187-229 | aligning, backing off one bit if needed, always succeeds |
| ShiftSubtract.CapUnreached | internal/heea8l/shift_subtract.go:187-229 | the sum of bit lengths never lets the counter reach 512 steps |
| ShiftSubtract.SelectShiftSubtractCore | internal/heea8l/shift_subtract.go:163-229 | the in-place loop computes the uncapped schedule: no defensive fallback, no exhausted step count |
| ShiftSubtract.ShiftSound | internal/heea8l/shift_subtract.go:163-258 | a used candidate of the schedule is an exact unit relation inside the width |
| ApproxQuotient.ApproxUpdate | internal/heea8l/approx_quotient.go:60-90 | one checked signed update succeeds exactly when everything it forms is representable |
| ApproxQuotient.SelectApproxQuotientCore | internal/heea8l/approx_quotient.go:39-102 | the in-place loop computes the signed schedule with its iteration cap |
| ApproxQuotient.ApproxSound | internal/heea8l/approx_quotient.go:39-133 | a used candidate of the signed schedule is an exact unit relation inside the width |
| Selectors.SelectEuclidPrincipal | internal/heea8l/euclid_principal.go:17-27 | argument checks in order, then the principal choice |
| Selectors.SelectLehmer | internal/heea8l/lehmer.go:19-29 | for every 32-byte challenge and width exactly the selection of SelectEuclidPrincipal |
| Selectors.SelectFixed | internal/heea8l/fixed.go:81-90 | for every challenge and width the oracle's selection |
| Selectors.SelectShiftSubtract | internal/heea8l/shift_subtract.go:19-28 | argument checks, then the shift-subtract choice |
| Selectors.SelectApproxQuotient | internal/heea8l/approx_quotient.go:15-25 | argument checks, then the approximate-quotient choice |
| Selectors.SelectorsSound | internal/heea8l/fixed.go:58-90 | every used candidate of any selector: rho = tau*k (mod 8L), both magnitudes inside the width, tau invertible modulo 8L |
| Selectors.FixedCoversPrincipal | internal/heea8l/fixed.go:397-445 | whenever the principal selectors find a candidate the exhaustive search finds one too |
| Equation.BaseTerms | internal/r51x5/heea_base_split.go:34-74 | [lambda0]B + [lambda1][2^128]B is [tau*s]B although only tau*s mod L was kept |
| Equation.FourTermIsScaled | internal/r51x5/heea_base_split.go:34-74 | the four-term sum is exactly [tau]([s]B - R - [k]A) |
| Equation.EquationPreserved | internal/r51x5/heea_base_split.go:34-104 | with tau a unit modulo 8L the four-term sum is the identity exactly when [s]B - R - [k]A is |
| Equation.CyclicSetting | internal/r51x5/heea_base_split.go:34-47 | the group hypotheses (exponent 8L, B of order L) have a model |
| EquationExact.ExactlyUnits | internal/r51x5/heea_base_split.go:34-104 | a multiplier preserves the equation for all points and relations exactly when it is odd and not divisible by L (L prime) |
| EquationExact.UnitsPreserve | internal/r51x5/heea_base_split.go:34-104 | such a multiplier preserves the equation in every group of the setting, for either sign epsilon and every relation |
| EquationExact.AdmittedUnit | internal/r51x5/heea_base_split_ifma.go:75-132 | the lane gates admit only odd tau of magnitude below L, so every admitted tau is a unit: the oddness test suffices where it stands |
| EquationExact.LaneDecides | internal/r51x5/heea_base_split_ifma.go:75-163 | every admitted lane with a true relation, epsilon of either sign: the four prepared terms vanish exactly when [s]B - R - [k]A does |
| HeeaProduct.View | internal/r51x5/heea_base_split.go:194-203 | dropping leading zero bytes keeps the exact signed value; zero is never negative |
| HeeaProduct.LoadMagnitudeWords | internal/r51x5/heea_base_split.go:148-153 | byte i lands in word i/8, and the words denote the magnitude |
| HeeaProduct.MultiplyWords | internal/r51x5/heea_base_split.go:114-146 | the row products accumulate to the exact product; the rippled carry never leaves the eight words |
| HeeaProduct.NegateCanonicalScalar | internal/r51x5/heea_base_split.go:172-189 | -x mod L in place, zero kept, the borrow panic unreachable |
| HeeaProduct.ReduceSignedProduct | internal/r51x5/heea_base_split.go:114-146 | the signed product modulo L; a fallback exactly when both factors are nonzero and their bit lengths add to more than 512 |
| HeeaProduct.FallbackMayFit | internal/r51x5/heea_base_split.go:106-127 | 2^256 * 2^255 is refused although it fits 512 bits |
| HeeaPrepare.PrepareLane | internal/r51x5/heea_base_split_ifma.go:134-163 | an admitted lane always gets lambda0, lambda1 < 2^128 recombining to tau*s mod L and the exact coefficients -tau and -epsilon*rho |
| HeeaPrepare.BaseSplitCoefficients.Prepare | internal/r51x5/heea_base_split_ifma.go:75-132 | usable lanes are exactly the admitted active ones, prepared exactly; every other lane is blank; usable and fallback partition active |
| HeeaEvaluate.FixedScalarBitLen | internal/r51x5/heea_base_split_ifma.go:310-317 | the byte scan returns the exact bit length |
| HeeaEvaluate.RecodeLane | internal/r51x5/heea_base_split_ifma.go:240-308 | a canonical lane is always recoded, its signed digits installed and nothing above its own length; other lanes untouched |
| HeeaEvaluate.RecodeTerm | internal/r51x5/heea_base_split_ifma.go:207-238 | the digits of all canonical lanes, and a common length past which every digit is zero |
| HeeaEvaluate.Chain | internal/r51x5/heea_base_split_ifma.go:586-635 | the shared doubling chain with four injections a round ends in the four-term sum of the exact integers, identity in the other lanes |
| HeeaEvaluate.Workspace.PrepareFixedBase | internal/r51x5/heea_base_split_ifma.go:354-396 | the second fixed base is [2^128] of the first, by doubling, and the variable-base state is invalidated |
| HeeaEvaluate.Workspace.PrepareVariableBases | internal/r51x5/heea_base_split_ifma.go:400-500 | the two fixed bases are kept, R and A installed, the decode mask recorded |
| HeeaEvaluate.Workspace.Evaluate | internal/r51x5/heea_base_split_ifma.go:586-688 | usable lanes carry exactly the four-term equation's left side, every other lane the identity, usable and fallback partition active, and nothing is usable without the kernel |
| HeeaVerify.TransformedDecides | internal/r51x5/heea_base_split.go:34-104 | any used selection, prepared for (s,k), accepts exactly what [s]B - R - [k]A = 0 accepts (L prime) |
| HeeaVerify.UsedCandidateAdmitted | internal/r51x5/heea_base_split_ifma.go:134-163 | the preparation gates never turn away a used candidate of a canonical signature |
| Recoding.DigitsHold | internal/r51x5/scalar_fixed.go:63-126 | balanced digits plus the weighted carry are the low w*n bits of the scalar |
| Recoding.DigitsExact | internal/r51x5/scalar_fixed.go:63-126 | with two spare top bits the last carry is zero and the digits sum to the scalar |
| Recoding.CanonicalDigits | internal/r51x5/scalar_fixed.go:193-204 | a canonical scalar leaves no carry in any schedule of at least 255 bits |
| Recoding.BalancedUnique | internal/r51x5/scalar_fixed.go:63-126 | balanced digits are determined by their number and their sum |
| Recoding.FixedScalarBits | internal/r51x5/scalar_fixed.go:235-246 | the two-byte load reads the bit field, also at the last byte |
| Recoding.WordBits | internal/r51x5/asymmetric_fixed_b_dsm.go:33-41 | the word form of the extractor reads the same bit field, straddling windows included |
| Schedules.ColumnSum | internal/r51x5/scalar_fixed.go:218-233 | the signed digits a lane receives sum to the signed scalar |
| Schedules.BuildTable | internal/r51x5/heea_base_split_ifma.go:537-561 | the full table holds every multiple 1..2^(w-1) of every lane's point |
| Schedules.Inject | internal/r51x5/heea_base_split_ifma.go:586-635 | one injection adds [d]base to usable lanes and changes no other |
| FixedRecode.RecodeScalars | internal/r51x5/fixed_base_comb.go:349-403 | the round-major recoder yields the balanced schedule of every canonical active lane, zero elsewhere, no final carry |
| FixedRecode.RecodeFull | internal/r51x5/fixed_base_comb.go:411-449 | the radix-256 all-lanes specialization (and the negated radix-32 one) returns the generic recoder's schedule and mask on every input |
| SharedTable.BuildSigned | internal/r51x5/fixed_base_comb.go:129-144 | entry e is [e+1]B together with its negation |
| SharedTable.InjectShared | internal/r51x5/fixed_base_comb.go:595-682 | one transposed selection and addition adds [d]B to usable lanes and changes no other |
| CombSplit.EvenOdd | internal/r51x5/fixed_base_comb.go:222-316 | even and odd digits, the odd half raised once, sum to the whole |
| FixedBaseComb.BuildComb | internal/r51x5/fixed_base_comb.go:78-107 | position i serves the multiples of [2^(2wi)]B |
| FixedBaseComb.CombScalarMult | internal/r51x5/fixed_base_comb.go:222-316 | the two-way comb gives [s]B in every usable lane and the identity in the others, for widths 4, 5 and 8 |
| MergedChain.RecodeWide | internal/r51x5/asymmetric_fixed_b_niels_x8_experiment.go:44-80 | the width 6 to 10 recoder yields the balanced schedule of every canonical active lane |
| MergedChain.EvaluateB10 | internal/r51x5/asymmetric_fixed_b_niels_x8_experiment.go:113-177 | 26 width-10 and 51 radix-32 digits in one 250-doubling chain give [s]B - [k]A in every usable lane, the identity elsewhere |
| MergedTimeline.AboveStep | internal/r51x5/asymmetric_fixed_b_dsm.go:298-354 | lowering the exponent by one doubles what is above and injects exactly the digit of that weight |
| MergedTimeline.EvaluateTimeline | internal/r51x5/asymmetric_fixed_b_dsm.go:298-354 | for B widths 6 to 10 and A radix 64 the timeline consumes every digit of both signed scalars |
| EdwardsScalar.NegativeDigit | internal/edwards25519/scalar.go:998-1004 | int8 arithmetic gives window - 2^w also where 128 and 256 wrap |
| EdwardsScalar.NonAdjacentForm | internal/edwards25519/scalar.go:949-1011 | below 2^255 the digits sum to the scalar, nonzero ones are odd, below 2^(w-1), at most one in any w consecutive places |
| EdwardsScalar.SignedRadix16 | internal/edwards25519/scalar.go:1013-1034 | 64 digits in [-8,8], only the last may be 8, summing to the scalar |
| EdwardsMult.BuildOdd | internal/edwards25519/tables.go:74-106 | entry i is [2i+1]Q |
| EdwardsMult.NafChain | internal/edwards25519/scalarmult.go:178-227 | the NAF chain computes [a]A + [b]B |
| EdwardsMult.BuildBasepointTable | internal/edwards25519/scalarmult.go:11-31 | row i holds [j+1][256^i]B |
| EdwardsTable.PrefixProducts | internal/edwards25519/comb.go:45-51 | the forward pass leaves before each point the product of the Z before it, and a nonzero total (p prime) |
| EdwardsTable.ToAffine | internal/edwards25519/comb.go:45-66 | one inversion serves all points: the running inverse stays correct through the backward loop, every 1/Z is one, and the stored triple is the affine (y+x, y-x, 2dxy) of its own point |
| EdwardsTable.NewPubkeyTable | internal/edwards25519/comb.go:24-68 | 256 projective multiples made affine together: row i holds [j+1][256^i]P |
| EdwardsMult.CombMult | internal/edwards25519/comb.go:89-132 | odd digits, four doublings, even digits compute [a]A + [b]B |
| EdwardsTable.Agree | internal/edwards25519/comb.go:24-132 | the NAF chain and the comb over its batch-inverted table give the same point for every pair of scalars and every public point |
| ScalarReduce.FoldConstant | internal/r51x5/scalar_reduce.go:168-178 | 2^252 is congruent to the six-limb combination the folds use |
| ScalarReduce.Fold | internal/r51x5/scalar_reduce.go:168-178 | one fold, all products and sums inside int64 |
| ScalarReduce.FinalFolds | internal/r51x5/scalar_reduce.go:81-158 | after two floor passes the value is the canonical representative |
| ScalarMod.ReduceUniformScalar | internal/r51x5/scalar_reduce.go:81-158 | every 64-byte string goes to the representative of its value in [0,L), no int64 overflow anywhere; scReduce performs the same folds and carries written out |
| ScalarBarrett.BarrettBound | internal/r51x5/scalar_reduce.go:196-205 | the estimate q3 is never above floor(x/L) and at most two below it |
| ScalarBarrett.MulLow | internal/r51x5/scalar_reduce.go:245-274 | the truncated product is x*y modulo 2^320 |
| ScalarBarrett.ReduceUniformScalarBarrett | internal/r51x5/scalar_reduce.go:206-232 | the Barrett form returns the same canonical representative as the radix-2^21 form on every input |
| ScalarMod.MulAdd | internal/edwards25519/scalar.go:195-618 | a*b + c modulo L in [0,L) for every three 32-byte strings, no int64 overflow |
| FieldIfma.LooseProduct | internal/r51x5/ifma_model.go:8-32 | on u52 limbs the model is congruent to x*y with limbs below [267,213,159,105,51]*2^52, no word overflow |
| FieldStage.NormalizeLane | internal/r51x5/ifma_composable.go:389-408 | normalization succeeds exactly below 2^61, keeps the residue and returns u52 limbs; its closing range check never fires |
| FieldStage.MultiplyComposable | internal/r51x5/ifma_composable.go:218-260 | the composable product is defined exactly on u52 operands and closed over them |
| FieldStage.Add | internal/r51x5/ifma_composable.go:84-123 | the lazy sum is a u52 representative of x+y |
| FieldStage.Subtract | internal/r51x5/ifma_composable.go:127-168 | with the 4p bias no limb underflows and the result is a u52 representative of x-y |
| FieldStage.Negate | internal/r51x5/ifma_composable.go:171-212 | the biased negation is a u52 representative of -x |
| FieldStage.DoubleStage2 | internal/r51x5/double_stage2_ifma_other.go:17-91 | with biases 535p, 1068p, 1069p no limb underflows or wraps, and the four outputs are u52 representatives of 2XY, Y^2-X^2-2Z^2, Y^2-X^2, -X^2-Y^2 |
| FieldStage.BiasMinimal | internal/r51x5/double_stage2_ifma_other.go:17-53 | n*p keeps the first difference from underflowing for all raw products exactly when n >= 535 |
| FieldStage.DoubleStage2SquareTrick | internal/r51x5/double_stage2_ifma_other.go:93-130 | the variant entered with (X+Y)^2 gives the same four values |
| FieldStage.NielsStage2 | internal/r51x5/niels_stage2_ifma_other.go:8-85 | raw or composable operands: u52 representatives of B-A, 2D-C, 2D+C, B+A |
| FieldStage.DoublingValues | internal/r51x5/double_stage2_ifma_other.go:17-53 | raw products into stage 2 give the projective doubling values of any u52 point |
| FieldReduce.ReducePass | internal/r51x5/arithmetic.go:146-175 | one pass subtracts carry*p from the value, so a pass with a carry strictly decreases it |
| FieldReduce.ReduceAccumulators | internal/r51x5/arithmetic.go:146-175 | the loop ends with the canonical residue |
| FieldReduce.Multiply | internal/r51x5/arithmetic.go:43-59 | the canonical residue of the product of reduced elements |
| FieldInvert.Invert | internal/r51x5/arithmetic.go:66-83 | the addition chain is x^(p-2) mod p, the reciprocal of a nonzero x (p prime), zero for zero |
| FieldInvert.InvertComposable | internal/r51x5/batch_encode_ifma.go:253-292 | the same chain on u52 representatives |
| Fermat.LittleTheorem | internal/r51x5/arithmetic.go:64-83 | a^(p-1) = 1 modulo a prime p not dividing a |
| FieldLimbs.SubtractLimbs | internal/r51x5/element.go:166-180 | the borrow chain computes the exact difference of carried limbs |
| FieldLimbs.CompareLimbs | internal/r51x5/element.go:152-162 | limb order from the top is integer order |
| FieldBytes.UnpackLow255 | internal/r51x5/element.go:100-112 | the five fields denote the string's value modulo 2^255 |
| FieldBytes.SetCanonicalBytes | internal/r51x5/element.go:81-91 | accepted exactly below p, and then the value itself |
| FieldBytes.EncodeDecode | internal/r51x5/element.go:115-128 | unpacking the packed bytes of a reduced element gives the element back |
| BatchInvert.ChainZero | internal/r51x5/batch_encode_ifma.go:139-213 | a product of sanitized Z is zero exactly when an active Z is (p prime) |
| BatchInvert.Prefixes | internal/r51x5/batch_encode_ifma.go:139-213 | forward pass: inclusive prefix products from the first nonempty group |
| BatchInvert.Recover | internal/r51x5/batch_encode_ifma.go:139-213 | backward pass: the reciprocal of every active Z, empty groups skipped |
| BatchInvert.BatchInvertZ | internal/r51x5/batch_encode_ifma.go:139-219 | the true reciprocal in every active lane whatever inactive lanes and empty groups hold; an error exactly when an active Z is zero |
| BatchCompare.EncodingUnique | internal/r51x5/batch_encode_ifma.go:221-246 | a point with nonzero Z has exactly one encoding |
| BatchCompare.BatchEncode | internal/r51x5/batch_encode_ifma.go:78-133 | the section 5.1.2 encoding of RFC 8032 in every active lane, zeros elsewhere |
| BatchCompare.SignDecides | internal/r51x5/batch_compare_ifma.go:54-147 | once y matches projectively the sign of the recovered x decides literal equality |
| BatchCompare.CompareYFirst | internal/r51x5/batch_compare_ifma.go:54-172 | an error exactly when an active lane that survives the y test has Z = 0 mod p; otherwise the mask is Encode(Q) == bytes for every 32-byte string in every active lane with nonzero Z, and no other lane |
| CacheSafety.StepInv | ed25519/cache.go:209-499 | one atomic step of any goroutine keeps the whole invariant |
| CacheSafety.RunInv | ed25519/cache.go:209-499 | the invariant holds after every finite interleaving of any number of goroutines |
| CacheSafety.TotalsSafe | ed25519/cache.go:429-499 | bytes are exactly installed sizes plus outstanding reservations and never exceed the budget; slots never exceed their limit; counts match the table |
| CacheSafety.BuiltOnce | ed25519/cache.go:209-268 | each key is built at most once, only after exactly eight successful sightings, and its entry is its own |
| CacheSafety.UpgradedOnce | ed25519/cache.go:274-423 | each key is upgraded at most once, and then its status is final when the lock is free |
| CacheSafety.QueueSafe | ed25519/cache.go:303-358 | fewer than four candidates wait whenever the lock is free, each under its own key with pending status |
| CacheSafety.FinalForever | ed25519/cache.go:465-481 | a negative counter stays negative, a final status never moves and no entry disappears through any continuation |
| CacheSafety.OnlyUpgrades | ed25519/cache.go:384-423 | an installed entry changes only by its own first upgrade to a larger entry of the same key, by the lock holder |
| CacheTrace.TracesHold | ed25519/cache.go:209-423 | over every interleaving each goroutine's own account is right: bytes it added, whether it wrote an entry, whether it took a failure path |
| CacheTrace.FailureChangesNothing | ed25519/cache.go:209-423 | a build or promotion that fails, from its start through every Disable step and the lock release to its return, has added no bytes and written no entry, and holds no reservation |
| CacheTrace.DisablingGroup | ed25519/cache.go:384-423 | while a group is being disabled every candidate is still the installed entry, never upgraded, and disabled or still held according to its place |
| CacheTrace.UnupgradedUntouched | ed25519/cache.go:384-423 | an entry whose key was never upgraded is the entry that was installed, through any continuation |
| CacheTrace.DisabledUntouched | ed25519/cache.go:384-423 | a key whose promotion ended disabled was never upgraded and keeps its pre-promotion entry, at every later point of every run |
| ShaFeed.LengthHalves | sha512mb/native.go:163-170 | totalBytes>>61 and totalBytes<<3 are the two halves of the 128-bit bit length |
| ShaFeed.NativeLane.constructor | sha512mb/native.go:132-145 | the block count is the padded message's, and the lane stands before block 0 |
| ShaFeed.NativeLane.Fill | sha512mb/native.go:147-171 | filling block k copies across any segmentation and pads: exactly block k of the padded message of section 5.1.2 of FIPS 180-4 |
| ShaFeed.NativeLane.TakeDirectBlock | sha512mb/native.go:176-187 | a direct slice, when offered, is block k of the padded message; otherwise the lane has not moved |
| ShaDrive.SumLanes | sha512mb/native.go:353-385 | every lane's digest is the fold over its own padded message, read after its own last block while longer lanes run on |
| ShaDrive.FixedBlocks | sha512mb/native.go:428-482 | the fixed 64/200/1232 schedule feeds the blocks of the padded message |
| ShaDrive.SumFixed3 | sha512mb/native.go:428-482 | taken exactly for eight messages of a registered shape, with the same digests |
| ShaDrive.SumGroup3 | sha512mb/native.go:401-416 | the digests do not depend on which path is taken |
| ShaDrive.SumBatch | sha512mb/native.go:192-207 | groups of four or eight and a short last group: every digest in its place |
| BatchWorld.PutAt | ed25519/backend_r51batchq.go:883-921 | writing one lane of a grouped array changes that lane and no other |
| BatchWorld.CompactSegments | ed25519/backend_r51experiment.go:742-754 | the live lanes in order, each with its own R, A and message |
| BatchWorld.ReduceChallenges | ed25519/backend_r51experiment.go:693-740 | packed hashing and reduction in either width put SHA-512(R,A,M) mod L into every live lane |
| BatchPrepare.DecodeMisses | ed25519/backend_r51batchq.go:883-921 | each decoded miss lands in its own lane, no other lane changes, and exactly the decodable ones become live |
| BatchPrepare.PrepareRange | ed25519/backend_r51batchq.go:731-881 | for every hit and validity pattern exactly the lanes that parse and decode are live, each with its own point and scalar |
| VariableBase.EvaluateVariable | internal/r51x5/variable_base_ifma_composable.go:276-345 | the exact signed multiple of the lane's own point in every usable lane, the identity elsewhere, rounds without digits skipped |
| BatchEvaluate.Comb | ed25519/backend_r51batchq.go:1171-1228 | the radix-32 term and the radix-256 comb term add up to [s]B - [k]A in exactly the live lanes |
| BatchEvaluate.EvaluateGroup | ed25519/backend_r51batchq.go:575-650 | either kernel width and either wide evaluator gives [s]B - [k]A in exactly the live lanes |
| BatchEvaluate.ColdLanes | ed25519/backend_r51batchq.go:514-560 | the cold front end marks exactly the lanes that parse and decode |
| BatchStore.WideAdvances | ed25519/backend_r51batchq.go:632-650 | storing eight results whole or split keeps every earlier result and places the new ones |
| BatchStore.HalvesAdvance | ed25519/backend_r51batchq.go:1020-1066 | storing two groups of four, skipping an empty one, does the same |
| BatchFinalize.JoinGroups | ed25519/backend_r51batchq.go:379-397 | joined halves and directly stored groups give the wide encoder every lane's own result |
| BatchFinalize.CompareGroups | ed25519/backend_r51batchq.go:398-428 | the literal comparison decides every lane of the chunk from its own group and lane, in either width |
| BatchFinalize.AcceptsVerdict | ed25519/backend_r51batchq.go:379-460 | a lane's stored result accepts exactly when the single-item verdict does |
| BatchPipeline.Pipeline.Reset | ed25519/backend_r51batchq.go:287-308 | clearing only this chunk's groups leaves no result of an earlier chunk visible |
| BatchPipeline.Pipeline.Prepare | ed25519/backend_r51batchq.go:731-881 | both table widths together hold every usable lane's point and scalar, whatever the scratch held before |
| BatchPipeline.Pipeline.EvaluateColdWide | ed25519/backend_r51batchq.go:464-512 | full groups of eight and the tail, partial-wide or two halves, evaluate every lane of the chunk |
| BatchPipeline.Pipeline.EvaluatePrepared | ed25519/backend_r51batchq.go:923-959 | so do the prepared groups of either width |
| BatchPipeline.Pipeline.VerifyChunk | ed25519/backend_r51batchq.go:287-462 | every verdict is the single-item verdict, except lanes the y-first finalizer never reads (`Lost`); a kernel fault changes no verdict slot |
| BatchPipeline.Pipeline.VerifyBatch | ed25519/backend_r51batchq.go:256-285 | any batch length, hit pattern and validity pattern; a fault clears every verdict, earlier chunks included |
| BatchDispatch.WarmWidth | ed25519/backend_r51.go:573-592 | widths 0, 4 or 8, always inside the full groups, only over lanes with their own warm tables, pairs aligned to eight |
| BatchDispatch.ResolveDecodedA | ed25519/backend_r51.go:428-450 | only entries of the item's own raw key, with the point those bytes decode to |
| BatchDispatch.VerifyWarmGroups | ed25519/backend_r51.go:478-521 | refuses exactly wrong widths and lanes without their own warm table, hands the warm verifier every item with the comb of its own key, and writes no verdict on a refusal or a fault |
| BatchDispatch.BuildWarmGroup | ed25519/backend_r51.go:523-556 | four decoded entries of the keys asked for become warm entries of the same keys, which form a warm group for items with those keys |
| BatchDispatch.Backend.VerifyOne | ed25519/backend_r51.go:210-247 | a missing key is refused before activation; faults come exactly from an inactive backend or the strict packed kernel |
| BatchDispatch.Backend.Verify | ed25519/backend_r51.go:187-208 | a fault is answered by the generic check, so the verdict is the single-item verdict |
| BatchDispatch.WarmRun | ed25519/backend_r51.go:331-353 | a warm run advances, stays inside one chunk and consists of warm groups |
| BatchDispatch.ColdRun | ed25519/backend_r51.go:355-363 | a cold run advances and stays inside one chunk |
| BatchDispatch.Backend.VerifyPrecomputed | ed25519/backend_r51.go:292-426 | warm runs, cold runs and tail partition the indices and every kernel fault is reported; a worker is present wherever one is used; without a fault every verdict is the single-item verdict |
| BatchDispatch.Backend.VerifyRaw | ed25519/backend_r51.go:276-286 | with the fallback the verdicts are right whether or not a kernel faults |
| BatchDispatch.Backend.VerifyCached | ed25519/backend_r51.go:604-677 | verdicts do not depend on the cache; exactly the accepted keys without an entry are admitted, and the strict accepted ones with an entry offered for promotion |

## Left out

- Assembly leaves, CPU feature detection, policy bits, pools and statistics counters.
- The curve group law, point decoding and square roots: the group is abstract.
- The field package behind `internal/edwards25519`, `internal/sigprep`, QSM and `internal/r43x6`: not part of this model.
- x4 and x8 twins of one algorithm: modelled once with the lane count a parameter.
- Dense affine and micro-array table layouts of the DSM: only the table contents are modelled.
- The unpacked reference form of miss handling (`compactMisses` false), a benchmark control.
- The insides of the packed one- and two-signature kernels and of the warm-table verifier: `BatchDispatch` relies on what they return, and answers their faults.
- The former radix-64 shared two-term batch core and the raw-square, runtime-sign and projective-double experiments: alternative evaluators of the same term, kept in the repository for comparison.
- Iteration counts in the selectors' statistics results, and the diagnostic candidate strings.
- Constant-time behaviour, allocation and performance.
- EdwardsScalar.NonAdjacentForm: the panics for s of 2^255 or more and for widths outside 2 to 8 are its requires.
- ShaFeed.NativeLane.constructor: the overflow panic for messages of 2^64 bytes or more is its requires.
- CacheSafety.TotalsSafe: the atomic total is an unbounded integer; the negative-budget configuration is covered, int64 wrap of the total is not reachable under the proved bound.
- ShaDrive.SumBatch: output length mismatches, which panic in the code, are excluded because the model returns the outputs.
- BatchDispatch.Backend.VerifyCached: the cache is what its lookups return; concurrent admissions during the call are covered by the cache theorems, not here.
- ApproxQuotient.SelectApproxQuotientCore: whether its 384-iteration cap and its overflow branch are reachable is open; both are kept as outcomes.
- BatchFinalize.AcceptsVerdict: the point encoding of the batch layer is a parameter and is not tied to the encodings of `BatchCompare`, which are about coordinates.
- EdwardsTable.NewPubkeyTable: that cached affine triples denote their points, and that valid points have nonzero Z, is required of the curve (`EdwardsTable.Faithful`).
