# Verified models of the WIRE flow tools

Dafny models of the logic inside the `wire-tools-ts` flow packages, with proofs of what that logic
guarantees on every input, every run and every interleaving. `dafny verify dfyconfig.toml` checks
the whole project.

The parts, hardest first:

- **Kicker and yield accounting.** `KickerAccrual` is the gift: interest floored once, priced and
  floored again, capped at 72 hours of catch-up, with the forfeit rule. `TwapWindow` is the
  time-weighted average over an accumulator that wraps at 2^256, up to the inputs the flow
  reconstructs at a kick's block. `PartialPayment` is the pro-rata clock of a capped payment and
  the pool over whole runs of kicks that pay, hold or forfeit, each at its own supply, rate and
  price. `YieldLedger` is the index, carry and pot the gifts flow into, as a state machine of
  distributions, transfers, mints, burns and claims at any positive index scale: solvent as a
  whole, exact for each holder up to its floors, and invisible in the balances.
- **Canonical envelopes and chain tips.** `CanonicalCodec` encodes payloads and headers and gives
  a decoder that accepts exactly the encoder's image. `SemanticHeader` derives checksums and
  message ids over an arbitrary hash into 32 bytes and chains messages; nothing is assumed about
  collisions. `ChainTip` reads tips from their table spelling. `SingleFlightCache` interleaves
  gets, nested gets, settlements and eviction callbacks, one JavaScript turn at a time;
  `InboundTipReader` puts a moving ledger underneath, and `TaggedDelivery` adds the deliveries that
  build envelopes from the tips and let consensus move them.
- **Concurrent readers.** `WireHoldings` is the repeated joint balance read, against any
  interleaving with transfers. `CrankScan` is the resumable scan of irreversible blocks.
- **Rate and custody arithmetic.** `TokenBucket` is the lazily refilled bucket and the
  arrival-order release of its queue. `EthereumCustody` is the fixture that must land on its side
  of the pool's ratio guard.
- **Supporting logic.** `SyntheticDump` is the letter suffix, the random amounts and the
  yield-claimed rows. `OpregConsistency` is the roster's cross-field checks.

`Arithmetic` holds the JavaScript bigint operators and the facts about floors the proofs share;
`Wrappers` holds optional values and results.

Form: pure expressions in the source are functions here, and what they promise is stated as lemmas.
Code that changes state step by step is a class or a method proved against a specification
function (`PromiseCache` with its recursive `Get`, `TipReader`, `Scan` with `IrreversibleCrank`, `ReadWireHoldings`,
`CanonicalVarint`, `DeriveMessageId`, `RefinementContext` with its checks).

## Where the code does not do what its comments say

- `SingleFlightCache`'s comment calls the dedupe race-free outright. It is, exactly as long as a
  fetch does not synchronously get its own key while starting: `GetIsSafeExactlyWithoutReentry`
  is the equivalence, `NestedGetsKeepSingleFlight` covers every nesting without re-entry, and
  `ReentryEvictsAnother` is a run in which one fetch's eviction deletes another's live promise.
- The yield-claimed option is documented as always a partial claim. `ClaimIsPartialExactlyAboveZero`
  shows that this holds for every draw when `minSourceUnits` is at least 1 and for no draw below;
  `ZeroFloorClaimsEverything` is the row a zero floor produces.

## Where the guarantees end

The code makes no claim beyond these edges; the proofs say where exactly they lie.

- Splitting an interval over several payments never pays more than paying it at once, at any
  supply, rate and price, if and only if the intervals, each cut at 72 hours, together fit 72
  hours (`SplittingNeverPaysMoreExactly`).
- The average read from the accumulator is the true one exactly when the price-time product stays
  below 2^256 and the average below 2^128 (`TwapExactness`); `TwapLosesLongWindows` sits on that
  edge, at a window far longer than any block time yields.
- Two agreeing balance reads are the joint state for accounts that move one way, which is how the
  epoch payments move them (`ReadWireHoldings`). For accounts that may move back and forth between
  two states the rule can fail exactly when the states differ in two accounts or more
  (`AgreementNeedsMonotoneAccounts`).
- Cutting a total into distributions leaves the index as it is except that distributing nothing at
  all does not fold a carry which a burn has left above the supply (`DistributionsCombine`).

## Model

| member | source | states |
|---|---|---|
| KickerAccrual.PriceIsFlooredRatio | packages/flow-liq-kicker/src/LIQKickerAccrual.ts:88-97 | only negative reserves are refused, an empty shadow reserve prices at zero, and otherwise the price is the one Q64.64 number bracketing the ratio |
| KickerAccrual.SpotGuardBand | packages/flow-liq-kicker/src/LIQKickerAccrual.ts:109-116 | the tolerated spots are exactly those within the floored share of the average, threshold included, on both sides |
| KickerAccrual.InterestBounds | packages/flow-liq-kicker/src/LIQKickerAccrual.ts:73-79 | interest is the floor of supply x rate x time over the Julian-year divisor |
| KickerAccrual.GiftBounds | packages/flow-liq-kicker/src/LIQKickerAccrual.ts:138-149 | within the window the gift is the floor of the interest on the smaller of supply and snapshot, times the price, over 2^64 |
| KickerAccrual.FullRateYear | packages/flow-liq-kicker/src/LIQKickerAccrual.ts:21-79 | the divisor is a year of 365.25 days at 10000 basis points: in that time the full rate earns the supply itself |
| KickerAccrual.GiftStopsAtThreeDays | packages/flow-liq-kicker/src/LIQKickerAccrual.ts:31-32 | at any input the gift is that of at most 259200000000 microseconds |
| KickerAccrual.GiftBeforeItsClock | packages/flow-liq-kicker/src/LIQKickerAccrual.ts:138-149 | for a negative elapsed time interest is cut toward zero and its price floored |
| KickerAccrual.GiftMonotone | packages/flow-liq-kicker/src/LIQKickerAccrual.ts:138-149 | more supply, snapshot, rate, time or price never lowers the gift |
| KickerAccrual.InterestSplitAll | packages/flow-liq-kicker/src/LIQKickerAccrual.ts:73-79 | n separately floored accruals miss at most n - 1 units of the accrual over the whole interval and never exceed it |
| KickerAccrual.IntervalSplitting | packages/flow-liq-kicker/src/LIQKickerAccrual.ts:73-149 | over any n intervals that fit the catch-up window, separate payments never exceed one payment for the whole and fall short by less than n + (n - 1) x price / 2^64 |
| KickerAccrual.SplittingNeverPaysMoreExactly | packages/flow-liq-kicker/src/LIQKickerAccrual.ts:138-149 | separate payments never exceed one payment for the whole, at every supply, rate and price, if and only if the intervals, each cut at the catch-up window, together fit one window |
| KickerAccrual.SaturatedGiftIsFixed | packages/flow-liq-kicker/src/LIQKickerAccrual.ts:138-149 | a consequence of the cap: once the interval is saturated the gift is the same for every later elapsed time |
| KickerAccrual.ForfeitsExactlyWhenSnapshotBlocks | packages/flow-liq-kicker/src/LIQKickerAccrual.ts:158-168 | the forfeit rule fires if and only if the interval is saturated, the gift is below the minimum and some snapshot would lift it; the supply test is implied by the two gift tests |
| KickerAccrual.ForfeitIsRepaid | packages/flow-liq-kicker/src/LIQKickerAccrual.ts:158-168 | after a forfeit the same price, rate and supply reach the minimum within one window; a saturated pool that neither pays nor forfeits reaches it under no snapshot and after no wait |
| TwapWindow.LimbsExact | packages/flow-liq-kicker/src/LIQKickerAccrual.ts:39-43 | two 128-bit limbs and a number below 2^256 determine each other |
| TwapWindow.TwapInNumbers | packages/flow-liq-kicker/src/LIQKickerAccrual.ts:52-60 | at any two readings: zero over no time or past 128 bits, otherwise the growth modulo 2^256 over the time, floored |
| TwapWindow.AccumulateWraps | packages/flow-liq-kicker/src/LIQKickerScenario.ts:353-360 | folding any history of spots through the accumulator gives the true price-time sum modulo 2^256 |
| TwapWindow.TwapExactness | packages/flow-liq-kicker/src/LIQKickerAccrual.ts:52-60 | the wrapped average equals the true floored average if and only if the product is below 2^256 and the average below 2^128 |
| TwapWindow.TwapIsTrueAverage | packages/flow-liq-kicker/src/LIQKickerAccrual.ts:52-60 | with 128-bit spots and at most 2^128 microseconds the average is exact through wraparound and lies between the smallest and largest spot |
| TwapWindow.TwapLosesLongWindows | packages/flow-liq-kicker/src/LIQKickerAccrual.ts:57-59 | the edge of `TwapExactness` is sharp: at a window of 2^256 microseconds a constant spot reads as zero |
| TwapWindow.BandNeverDeviates | packages/flow-liq-kicker/src/LIQKickerAccrual.ts:109-116 | a pool whose spots all stay in a band as narrow as the guard's share of its floor never trips the guard |
| TwapWindow.CumulativeAtBlock | packages/flow-liq-kicker/src/LIQKickerScenario.ts:342-361 | the read fails exactly for a missing accumulator, one updated after the block, or negative reserves, and otherwise stays below 2^256 |
| TwapWindow.ObservationAtBlock | packages/flow-liq-kicker/src/LIQKickerScenario.ts:342-361 | whichever of the pool's observation and swap's last write came later, extending the accumulator at the current spot is accumulating the whole window since the observation |
| TwapWindow.GiftInputPricesTrueAverage | packages/flow-liq-kicker/src/LIQKickerScenario.ts:370-393 | the inputs reconstructed at a block price the gift at the true average of every spot since the observation, within their range, in either order of observation and last write |
| TwapWindow.ExpectedGiftPricesTrueAverage | packages/flow-liq-kicker/src/LIQKickerScenario.ts:403-412 | the expected gift is the gift at the true average of every spot since the observation, for any history |
| TwapWindow.ExpectedGiftFailsExactly | packages/flow-liq-kicker/src/LIQKickerScenario.ts:342-412 | each of the three refusals happens exactly on its own condition, and inputs and gift fail with the reading and never otherwise |
| TwapWindow.NoWindowNoGift | packages/flow-liq-kicker/src/LIQKickerScenario.ts:377-384 | in the block of the observation or before it nothing is expected |
| TwapWindow.QuietWindowPricesAtSpot | packages/flow-liq-kicker/src/LIQKickerScenario.ts:403-412 | with no write since the observation the expected gift is priced at the current spot, as when a second kick follows a settled payment |
| PartialPayment.PartialClockLands | packages/flow-liq-kicker/src/LIQKickerScenario.ts:1279-1308 | the clock lands between the start of the bounded interval and now, and on now exactly when the gift is paid in full; the recorded clock is less than a millisecond behind |
| PartialPayment.ClocksInNumbers | packages/flow-liq-kicker/src/LIQKickerScenario.ts:1296-1308 | the exact clock is the floored share of at most 72 hours, the recorded one the last whole millisecond not after it |
| PartialPayment.GiftIsLinear | packages/flow-liq-kicker/src/LIQKickerAccrual.ts:138-149 | the gift is its exact rate times the time, less under one unit and under one unit of priced interest |
| PartialPayment.PartialPaymentConserves | packages/flow-liq-kicker/src/LIQKickerScenario.ts:1278-1308 | paying part now and the rest of the interval later is within 1 + price / 2^64 of the whole gift below, plus one microsecond's gift above |
| PartialPayment.PaymentPaysItsTime | packages/flow-liq-kicker/src/LIQKickerScenario.ts:1279-1288 | a capped payment is the time it moves the clock at the exact rate, at most one rounding below and one microsecond above |
| PartialPayment.KickPaysExactly | packages/flow-liq-kicker/src/LIQKickerScenario.ts:1278-1308 | a kick pays exactly when it is due and priced, supply, snapshot, gift and ceiling are positive and the gift reaches the minimum; it pays the smaller of gift and ceiling, and payment, clock, forfeited time and snapshot are spelled out |
| PartialPayment.KickCheckpointsOrWaits | packages/flow-liq-kicker/src/LIQKickerScenario.ts:2081-2160 | it starts over from the current supply exactly when due with no supply, no snapshot, or a saturated gift the snapshot alone holds below the minimum; every other kick only waits |
| PartialPayment.RunPaysWhatFallsDue | packages/flow-liq-kicker/src/LIQKickerScenario.ts:1278-1308 | a run makes every payment that falls due, in full or up to its ceiling, and no other |
| PartialPayment.RunAccountsForTime | packages/flow-liq-kicker/src/LIQKickerScenario.ts:1890-1926 | over every run of kicks, the time passed is the time paid for by exactly the payments that fell due, the time unpaid and the time forfeited |
| PartialPayment.RunPaysItsAccrual | packages/flow-liq-kicker/src/LIQKickerScenario.ts:1890-1926 | over every run, each kick at its own supply, snapshot, rate, price, minimum and ceiling, the total that fell due is paid, and it is the time paid for at the rates it was paid at, within one rounding below and one microsecond above a payment |
| PartialPayment.SteadyRunOnlyDelays | packages/flow-liq-kicker/src/LIQKickerScenario.ts:1279-1308 | when the payments share one rate and price, all that fell due is the time that passed less what is unpaid or forfeited, at that rate, within the same bounds |
| PartialPayment.IssuedSupplyWaits | packages/flow-liq-kicker/src/LIQKickerScenario.ts:1288-1298 | until a kick brings the clock up to now, every payment that fell due is made on at most the supply held when the interval began, whatever is issued meanwhile |
| YieldLedger.DistributeIsExact | packages/flow-liq-kicker/src/LIQKickerAccrual.ts:178-192 | refused exactly for a supply that is not positive; otherwise index growth times supply plus the new carry is the scaled amount plus the old carry, the carry stays below the supply and the pot grows by the amount |
| YieldLedger.DistributionsCombine | packages/flow-liq-kicker/src/LIQKickerAccrual.ts:178-192 | cutting a total into distributions gives the index, carry and pot of one distribution if and only if there is at least one cut or the carry is below the supply |
| YieldLedger.GiftKeepsSolvent | packages/flow-liq-kicker/src/LIQKickerAccrual.ts:178-192 | a distribution over the sum of balances keeps the ledger solvent and its slack unchanged |
| YieldLedger.RebalanceKeepsSolvent | packages/flow-liq-yield/src/LIQYieldScenario.ts:163-177 | banking a row when its balance moves keeps solvency and adds less than one unit of slack |
| YieldLedger.ClaimKeepsSolvent | packages/flow-liq-yield/src/LIQYieldScenario.ts:754-765 | a claim keeps the ledger solvent |
| YieldLedger.RunKeepsSolvent | packages/flow-liq-kicker/src/LIQKickerAccrual.ts:178-192 | over every run from the zero index, at any scale, all unfloored claims plus the carry stay within the scaled pot, with less than one unit of slack a settlement |
| YieldLedger.PotCoversEveryClaim | packages/flow-liq-yield/src/LIQYieldScenario.ts:168-177 | in every reachable state the pot covers the sum of what all holders are owed, so each claim is payable, strands less than the carry and one unit a settlement and holder, and with all claims adds up to what was distributed |
| YieldLedger.EachHolderGetsItsShare | packages/flow-liq-yield/src/LIQYieldScenario.ts:168-177 | over every run each single holder is paid and owed what its own balance earned at each index step, never more, and less by under one unit a banking and one for the last floor |
| YieldLedger.OwedIsFlooredAccrual | packages/flow-liq-yield/src/LIQYieldScenario.ts:168-177 | what a row is owed is its banked part plus the floor of balance times index growth over the scale |
| YieldLedger.RunMovesBalances | packages/flow-liq-yield/src/LIQYieldScenario.ts:163-177 | over every run the balances are those of the bare token, operation by operation |
| YieldLedger.ApplyRefusesExactly | packages/flow-liq-yield/src/LIQYieldScenario.ts:163-177 | an operation is refused exactly when a holder is missing, a balance does not suffice or there is no supply to distribute over |
| YieldLedger.ClaimIsExact | packages/flow-liq-yield/src/LIQYieldScenario.ts:754-765 | a claim pays exactly what was owed, settles the row at the index, lowers the pot by the payout and touches nothing else |
| YieldLedger.SettlingEarly | packages/flow-liq-yield/src/LIQYieldScenario.ts:168-177 | banking early never gains and costs at most one unit |
| WireHoldings.AgreeingReadsAreJoint | packages/flow-liq-kicker/src/LIQKickerScenario.ts:176-191 | if accounts move one way, two agreeing reads equal the joint state at every instant between them |
| WireHoldings.ReadWireHoldings | packages/flow-liq-kicker/src/LIQKickerScenario.ts:161-203 | the loop answers with the first repeated read, fails exactly when none repeats in time, and for accounts moving one way the answer is the true joint state at one instant |
| WireHoldings.AgreementNeedsMonotoneAccounts | packages/flow-liq-kicker/src/LIQKickerScenario.ts:155-160 | beyond one-way transfers: over a chain alternating between two states, agreeing reads can report neither if and only if the states differ in at least two accounts |
| CrankScan.ReceiptIsFirstPayment | packages/flow-liq-kicker/src/LIQKickerScenario.ts:572-594 | a block's receipt is that of its first transaction with one kick and one draw, or none |
| CrankScan.ReceiptByPosition | packages/flow-liq-kicker/src/LIQKickerScenario.ts:484-594 | over positions: the first transaction in which exactly one position executes the kick and exactly one the draw gives the quantity at the draw and its own time, unless some position touches emissions; no such transaction, no receipt |
| CrankScan.ReceiptHasItsTransaction | packages/flow-liq-kicker/src/LIQKickerScenario.ts:572-594 | every receipt comes from such a transaction |
| CrankScan.IrreversibleCrank | packages/flow-liq-kicker/src/LIQKickerScenario.ts:1238-1254 | one poll advances the scan past exactly the blocks it examined and answers as specified |
| CrankScan.PollExamines | packages/flow-liq-kicker/src/LIQKickerScenario.ts:1244-1252 | a poll examines consecutive blocks, each irreversible and not past the last irreversible one |
| CrankScan.FruitlessPollStops | packages/flow-liq-kicker/src/LIQKickerScenario.ts:1244-1252 | a poll that finds nothing stops only past the last irreversible block or at one not held as irreversible |
| CrankScan.PollsExamineOnce | packages/flow-liq-kicker/src/LIQKickerScenario.ts:1238-1254 | across any polls every block below the scan is examined exactly once and in order, and the answer belongs to the least paying block |
| CrankScan.PaymentIsFound | packages/flow-liq-kicker/src/LIQKickerScenario.ts:1238-1254 | once a poll sees the first paying block and all before it as irreversible, the run has answered with its receipt |
| CanonicalCodec.CanonicalVarint | packages/flow-batch-operator-slashing/src/EnvelopeCanonicalCodec.ts:60-68 | the shifting loop computes the base-128 encoding |
| CanonicalCodec.ParseVarintOfVarint | packages/flow-batch-operator-slashing/src/EnvelopeCanonicalCodec.ts:60-68 | a varint reads back as its value with whatever follows untouched |
| CanonicalCodec.ParsedVarintIsCanonical | packages/flow-batch-operator-slashing/src/EnvelopeCanonicalCodec.ts:60-68 | whatever the varint decoder accepts is the encoder's output |
| CanonicalCodec.VarintsArePrefixFree | packages/flow-batch-operator-slashing/src/EnvelopeCanonicalCodec.ts:60-68 | no varint is a proper prefix of another |
| CanonicalCodec.VarintIsMinimal | packages/flow-batch-operator-slashing/src/EnvelopeCanonicalCodec.ts:60-68 | no base-128 spelling of a value is shorter, and only the canonical one is as short |
| CanonicalCodec.VarintFieldExact | packages/flow-batch-operator-slashing/src/EnvelopeCanonicalCodec.ts:75-78 | reading a varint field succeeds on exactly the bytes that start with its encoding |
| CanonicalCodec.BytesFieldExact | packages/flow-batch-operator-slashing/src/EnvelopeCanonicalCodec.ts:81-92 | every length prefix is exact, for byte and sub-message fields |
| CanonicalCodec.AttestationExact | packages/flow-batch-operator-slashing/src/EnvelopeCanonicalCodec.ts:120-124 | the attestation decoder inverts the encoder and accepts nothing else |
| CanonicalCodec.PayloadExact | packages/flow-batch-operator-slashing/src/EnvelopeCanonicalCodec.ts:127-135 | the payload decoder inverts the encoder for any number of attestations and accepts nothing else |
| CanonicalCodec.PayloadInjective | packages/flow-batch-operator-slashing/src/EnvelopeCanonicalCodec.ts:127-135 | equal payload encodings force equal versions and attestations |
| CanonicalCodec.HeaderExact | packages/flow-batch-operator-slashing/src/EnvelopeCanonicalCodec.ts:154-165 | the header decoder inverts the encoder and accepts nothing else |
| CanonicalCodec.HeaderInjective | packages/flow-batch-operator-slashing/src/EnvelopeCanonicalCodec.ts:154-165 | equal header encodings force every field equal |
| CanonicalCodec.HeaderBytes | packages/flow-batch-operator-slashing/src/EnvelopeCanonicalCodec.ts:154-165 | for every header, the tag of each slot and which value stands behind it, byte for byte |
| CanonicalCodec.PayloadBytes | packages/flow-batch-operator-slashing/src/EnvelopeCanonicalCodec.ts:120-135 | for every payload, the version and then a record of kind, size and data for each attestation in order |
| CanonicalCodec.DefaultHeaderBytes | packages/flow-batch-operator-slashing/src/EnvelopeCanonicalCodec.ts:35-55 | the field numbers, wire types and default endpoints, byte for byte |
| CanonicalCodec.SmallPayloadBytes | packages/flow-batch-operator-slashing/src/EnvelopeCanonicalCodec.ts:120-135 | the payload layout byte for byte when every field fits one group |
| SemanticHeader.DeriveMessageId | packages/flow-batch-operator-slashing/src/EnvelopeCanonicalCodec.ts:177-184 | the overwritten copy is the digest with the sequence spliced in, refused exactly past eight bytes |
| SemanticHeader.MessageIdSpells | packages/flow-batch-operator-slashing/src/EnvelopeCanonicalCodec.ts:172-184 | an id reads back as its sequence number and keeps the digest's tail |
| SemanticHeader.DerivedFields | packages/flow-batch-operator-slashing/src/EnvelopeCanonicalCodec.ts:232-262 | derivation fails exactly when the next sequence needs more than eight bytes; otherwise the id carries the predecessor's sequence plus one and the tail of the header checksum, and size and checksums are those of the payload and header bytes |
| SemanticHeader.HeaderPreimageBytes | packages/flow-batch-operator-slashing/src/EnvelopeCanonicalCodec.ts:242-251 | the hashed header byte for byte: blank id and own checksum, previous id, payload size, payload checksum and timestamp each in its slot |
| SemanticHeader.PayloadPreimageExtends | packages/flow-batch-operator-slashing/src/EnvelopeCanonicalCodec.ts:235-241 | the payload bytes, attestation by attestation, each with the length of its own data |
| SemanticHeader.SequenceInNumbers | packages/flow-batch-operator-slashing/src/EnvelopeCanonicalCodec.ts:172-174 | the sequence is the big-endian number in the first eight bytes, zero for a shorter id |
| SemanticHeader.EqualChecksumsMeanEqualMessages | packages/flow-batch-operator-slashing/src/EnvelopeCanonicalCodec.ts:232-262 | equal header checksums mean equal inputs, or the header or payload pre-images are an explicit hash collision |
| SemanticHeader.ChainIsNumbered | packages/flow-batch-operator-slashing/src/EnvelopeCanonicalCodec.ts:252-255 | messages chained from genesis derive exactly while they number below 2^64; the k-th id carries sequence k and the tail of its own header's checksum |
| SemanticHeader.ChainIdsAreDistinct | packages/flow-batch-operator-slashing/src/EnvelopeCanonicalCodec.ts:252-255 | all ids of a chain differ, whatever the hash |
| ChainTip.TipRoundTrip | packages/flow-batch-operator-slashing/src/EnvelopeCanonicalCodec.ts:357-376 | a tip written as hexadecimal, prefixed or not, reads back as itself unless it is all zero |
| ChainTip.TipKeepsSequence | packages/flow-batch-operator-slashing/src/EnvelopeCanonicalCodec.ts:357-376 | reading a tip back never changes the sequence it carries |
| ChainTip.ParsedTipIsSpelled | packages/flow-batch-operator-slashing/src/EnvelopeCanonicalCodec.ts:357-366 | a field reads as genesis or as exactly the bytes its digits spell |
| ChainTip.FieldFailsExactly | packages/flow-batch-operator-slashing/src/EnvelopeCanonicalCodec.ts:357-366 | a field is refused exactly when, past an optional prefix, it is not all zeros and has an odd length or a character that is no digit; absent, empty or all zeros it is genesis |
| ChainTip.TableChainIsChain | packages/flow-batch-operator-slashing/src/EnvelopeCanonicalCodec.ts:349-376 | chaining through the stored hexadecimal tips builds the very same ids |
| SingleFlightCache.StepKeepsSingleFlight | packages/flow-batch-operator-slashing/src/SingleFlightCache.ts:32-45 | every event keeps the map equal to the live fetches, one a key |
| SingleFlightCache.EveryInterleavingIsSingleFlight | packages/flow-batch-operator-slashing/src/SingleFlightCache.ts:32-45 | in every interleaving one fetch a key is live, an eviction removes only its own promise, and all successful gets of a key give one value |
| SingleFlightCache.ResolvedForever | packages/flow-batch-operator-slashing/src/SingleFlightCache.ts:13-16 | a resolved promise keeps its value and its place in every continuation |
| SingleFlightCache.RejectionIsRetried | packages/flow-batch-operator-slashing/src/SingleFlightCache.ts:37-43 | a consequence of the eviction: the next get of the key starts and registers a new fetch |
| SingleFlightCache.GetIsSafeExactlyWithoutReentry | packages/flow-batch-operator-slashing/src/SingleFlightCache.ts:32-45 | a get leads, once the pending calls have returned, to a single-flight state if and only if its key is not being started |
| SingleFlightCache.ReentryStartsTwo | packages/flow-batch-operator-slashing/src/SingleFlightCache.ts:32-45 | a get of a key being started ends in two live fetches of that key |
| SingleFlightCache.NestedGetsKeepSingleFlight | packages/flow-batch-operator-slashing/src/SingleFlightCache.ts:32-45 | a get whose fetch makes gets of its own, to any depth and throwing anywhere, keeps the property when none re-enters |
| SingleFlightCache.GetWithIsRun | packages/flow-batch-operator-slashing/src/SingleFlightCache.ts:32-45 | such a get is a run of the state machine |
| SingleFlightCache.ReentryEvictsAnother | packages/flow-batch-operator-slashing/src/SingleFlightCache.ts:39-42 | after same-key re-entry one fetch's eviction deletes another's live promise |
| SingleFlightCache.PromiseCache.Get | packages/flow-batch-operator-slashing/src/SingleFlightCache.ts:32-45 | with any nested gets inside the fetch: a hit returns the registered promise, a miss runs the fetch and registers its promise in the same turn, and a throw registers nothing |
| SingleFlightCache.PromiseCache.EvictOnRejection | packages/flow-batch-operator-slashing/src/SingleFlightCache.ts:39-42 | the rejection callback deletes the key |
| InboundTipReader.TipKeyInjective | packages/flow-batch-operator-slashing/src/InboundTipReader.ts:75-75 | two reads share a cache key exactly when chain and epoch agree |
| InboundTipReader.FoundRowIsFirst | packages/flow-batch-operator-slashing/src/InboundTipReader.ts:77-77 | the selected row is the first spelling the chain, and a numeric code matches only itself |
| InboundTipReader.DecimalSpells | packages/flow-batch-operator-slashing/src/InboundTipReader.ts:75-77 | a chain code is compared in its decimal spelling, without a leading zero |
| InboundTipReader.TipsReadExactly | packages/flow-batch-operator-slashing/src/InboundTipReader.ts:75-82 | no row spelling the chain reads as two empty tips; otherwise the first such row decides, refused exactly when one of its fields is malformed, each tip from its own field and an absent one empty |
| InboundTipReader.StoredTipsReadBack | packages/flow-batch-operator-slashing/src/InboundTipReader.ts:75-82 | stored tips read back as themselves, each in its own place |
| InboundTipReader.ReadsShareOneObservation | packages/flow-batch-operator-slashing/src/InboundTipReader.ts:70-83 | in every interleaving with failures, evictions and tip advances, all successful reads of one chain and epoch return one pair of tips, observed at a single instant since its query was issued |
| InboundTipReader.ReadIssuesAtMostOneQuery | packages/flow-batch-operator-slashing/src/InboundTipReader.ts:70-83 | a read that finds no promise issues one query under the table as it is, any other shares the promise it finds |
| InboundTipReader.AnswersExactly | packages/flow-batch-operator-slashing/src/InboundTipReader.ts:76-81 | a query settles as long as it runs, by any version of the table since it was issued |
| InboundTipReader.AnsweredReadReturns | packages/flow-batch-operator-slashing/src/InboundTipReader.ts:75-82 | a fresh read, once answered, returns the tips of the version that answered it |
| InboundTipReader.FailedReadFreesItsKey | packages/flow-batch-operator-slashing/src/SingleFlightCache.ts:37-43 | a failed or malformed answer frees the key once evicted, so that the next read asks again |
| TaggedDelivery.ReadsSeePreDeliveryTips | packages/flow-batch-operator-slashing/src/InboundTipReader.ts:44-55 | while a chain's tips wait for the deliveries of the epochs asked about, every successful read of one chain and epoch returns the tips held when its first query, and any retry, was issued |
| TaggedDelivery.DeliveriesAgree | packages/flow-batch-operator-slashing/src/steps/SlashingScenarioDisputeSteps.ts:627-667 | every delivery for a chain and epoch is chained from what the table held when the first of them went out; for one tag and one set of fixtures they are one envelope |
| TaggedDelivery.ReturnedReadIsDelivered | packages/flow-batch-operator-slashing/src/steps/SlashingScenarioDisputeSteps.ts:627-667 | every read that has returned can be delivered, with its own request and tips |
| TaggedDelivery.EnvelopeContinuesBothChains | packages/flow-batch-operator-slashing/src/EnvelopeCanonicalCodec.ts:307-344 | an envelope holds its fixtures in their places, continues each chain from its own tip and carries the header derived for the tag; only an exhausted sequence prevents it |
| TaggedDelivery.MovedTipDiverges | packages/flow-batch-operator-slashing/src/EnvelopeCanonicalCodec.ts:307-344 | a delivery chained from another message tip derives another checksum, short of an explicit collision |
| InboundTipReader.TipReader.Read | packages/flow-batch-operator-slashing/src/InboundTipReader.ts:70-83 | a read queries exactly when its key is absent and always returns the registered promise |
| InboundTipReader.TipReader.OnRows | packages/flow-batch-operator-slashing/src/InboundTipReader.ts:76-81 | the answer settles the promise with the parsed tips, or rejects it when a tip is malformed |
| EthereumCustody.FixtureExistsExactly | packages/flow-emergency-stop/src/ethereumCustodyFixture.ts:67-100 | a fixture exists exactly for valid snapshots, and on the allowed side only with a limit of at least two |
| EthereumCustody.FixtureInNumbers | packages/flow-emergency-stop/src/ethereumCustodyFixture.ts:85-100 | the refused gap is exactly the margin past the first refused one and the allowed gap half the last allowed one, rounded down; credit and projected outstanding follow |
| EthereumCustody.FixtureFailsExactly | packages/flow-emergency-stop/src/ethereumCustodyFixture.ts:72-95 | each of the four refusals happens exactly on its own condition, in order |
| EthereumCustody.ThresholdIsExact | packages/flow-emergency-stop/src/ethereumCustodyFixture.ts:85-116 | the guard's product comparison refuses a gap exactly when it exceeds the floor-divided limit |
| EthereumCustody.GuardCollected | packages/flow-emergency-stop/src/ethereumCustodyFixture.ts:107-116 | the exact drift of custody at which the guard's verdict changes |
| EthereumCustody.RefusedLaneHolds | packages/flow-emergency-stop/src/ethereumCustodyFixture.ts:87-88 | the refused lane stays refused for any fall and for rises within the margin's share of the headroom |
| EthereumCustody.AllowedLaneHolds | packages/flow-emergency-stop/src/ethereumCustodyFixture.ts:87-89 | the allowed lane stays allowed for any rise and for falls within the unused half's share |
| EthereumCustody.FixtureDrivesItsLane | packages/flow-emergency-stop/src/EmergencyStopScenario.ts:1211-1235 | the fixture drives the redemption to its lane, and donating the recredit restores full backing, stored payout included, with the slack there was |
| TokenBucket.LazyRefillIsStepwise | packages/flow-syndication-rate-limit/src/SyndicationRateLimitScenario.ts:42-44 | one lazy refill over k epochs is k capped single-epoch refills |
| TokenBucket.RefillHoldsExactly | packages/flow-syndication-rate-limit/src/SyndicationRateLimitScenario.ts:37-48 | the check is met exactly when the epoch has not regressed and release and level, neither negative, add up to the capped refill |
| TokenBucket.TokensAreConserved | packages/flow-syndication-rate-limit/src/SyndicationRateLimitScenario.ts:37-48 | over every run, level, releases and what the cap turned away are the first level and every refill since |
| TokenBucket.LevelStaysInRange | packages/flow-syndication-rate-limit/src/SyndicationRateLimitScenario.ts:37-48 | over every accepted run the level stays within zero and the burst |
| TokenBucket.WindowIsLimited | packages/flow-syndication-rate-limit/src/SyndicationRateLimitScenario.ts:37-48 | any window of cranks releases at most the burst plus the refill of its epochs |
| TokenBucket.TranchesAreOneAllocation | packages/flow-syndication-rate-limit/src/SyndicationRateLimitScenario.ts:291-329 | however the released total is split, balances are those of one arrival-order allocation |
| TokenBucket.AllocationIsInOrder | packages/flow-syndication-rate-limit/src/SyndicationRateLimitScenario.ts:302-321 | no later arrival is credited before every earlier one is full, and the credits add up to what was released |
| TokenBucket.ArrivalOrderIsUnique | packages/flow-syndication-rate-limit/src/SyndicationRateLimitScenario.ts:302-321 | arrival order and the released total determine the credits |
| TokenBucket.RefillTrancheSplit | packages/flow-syndication-rate-limit/src/SyndicationRateLimitScenario.ts:302-321 | the scenario's own split of its refill tranche is that allocation |
| TokenBucket.DrainProgress | packages/flow-syndication-rate-limit/src/SyndicationRateLimitScenario.ts:37-48 | a crank an epoch passes the bucket check and frees one capped refill while anything is queued |
| TokenBucket.EveryQueueDrains | packages/flow-syndication-rate-limit/src/SyndicationRateLimitScenario.ts:357-389 | once the epochs' capped refills cover the queue, the tranches released, poured in arrival order, give every arrival its full amount |
| SyntheticDump.SuffixReadsBack | packages/flow-emissions-soak/src/EmissionsSoakScenarioSyntheticDump.ts:106-112 | an index reads back from its suffix |
| SyntheticDump.SuffixIsOnto | packages/flow-emissions-soak/src/EmissionsSoakScenarioSyntheticDump.ts:106-112 | every non-empty lowercase string is the suffix of its index |
| SyntheticDump.SuffixesAreOrdered | packages/flow-emissions-soak/src/EmissionsSoakScenarioSyntheticDump.ts:106-112 | indices and suffixes are ordered alike, suffixes in shortlex order |
| SyntheticDump.AccountNamesAreDistinct | packages/flow-emissions-soak/src/EmissionsSoakScenarioSyntheticDump.ts:169-184 | generated account names never collide |
| SyntheticDump.RandomBigIntRange | packages/flow-emissions-soak/src/EmissionsSoakScenarioSyntheticDump.ts:69-82 | every draw lies in the range, and enough chunks are drawn to reach every amount in it |
| SyntheticDump.RandomBigIntIsResidue | packages/flow-emissions-soak/src/EmissionsSoakScenarioSyntheticDump.ts:69-82 | a draw is what its chunks count, modulo the bound, and 1 for a multiple of it |
| SyntheticDump.ChunkCountIsLeast | packages/flow-emissions-soak/src/EmissionsSoakScenarioSyntheticDump.ts:71-72 | as many chunks are drawn as the bound needs and not one more |
| SyntheticDump.RandomAmountRange | packages/flow-emissions-soak/src/EmissionsSoakScenarioSyntheticDump.ts:238-241 | magnitudes lie strictly between one and a hundred floors and reach every amount there |
| SyntheticDump.ClaimIsPartialExactlyAboveZero | packages/flow-emissions-soak/src/EmissionsSoakScenarioSyntheticDump.ts:266-276 | the claim is partial for every draw if and only if the magnitude floor is at least one |
| SyntheticDump.ClaimIsBelowHalf | packages/flow-emissions-soak/src/EmissionsSoakScenarioSyntheticDump.ts:266-276 | a claim is below half of its own row's yield, and one unit when no half is left |
| SyntheticDump.ZeroFloorClaimsEverything | packages/flow-emissions-soak/src/EmissionsSoakScenarioSyntheticDump.ts:266-276 | a zero floor yields a row that claims all of its yield |
| OpregConsistency.AddDuplicateAccountIssues | packages/cluster-tool-shared/src/cluster/WireOpregBootstrap.ts:283-302 | the walk adds exactly the duplicate issues, in order |
| OpregConsistency.AddActiveGroupIssue | packages/cluster-tool-shared/src/cluster/WireOpregBootstrap.ts:305-317 | the check adds one issue exactly when the index is past the last group |
| OpregConsistency.AddGroupMemberIssues | packages/cluster-tool-shared/src/cluster/WireOpregBootstrap.ts:320-346 | the nested walk over the built map adds exactly the member issues, in order |
| OpregConsistency.AddConsistencyIssues | packages/cluster-tool-shared/src/cluster/WireOpregBootstrap.ts:273-280 | the three checks run in order and add nothing else |
| OpregConsistency.LookupIsLastEntry | packages/cluster-tool-shared/src/cluster/WireOpregBootstrap.ts:324-326 | the built map answers with the last entry of a name |
| OpregConsistency.NoIssueExactlyWhenConsistent | packages/cluster-tool-shared/src/cluster/WireOpregBootstrap.ts:273-346 | no issue is reported if and only if names are distinct, the active index is in range and each group is a duplicate-free list of BATCH accounts |
| OpregConsistency.IssueReportedExactly | packages/cluster-tool-shared/src/cluster/WireOpregBootstrap.ts:273-346 | an issue of each kind is reported exactly for the positions and names it applies to |
| OpregConsistency.IssuesComeInOrder | packages/cluster-tool-shared/src/cluster/WireOpregBootstrap.ts:273-346 | issues come in the order of the walk, each once |
| OpregConsistency.DuplicateIssuesCount | packages/cluster-tool-shared/src/cluster/WireOpregBootstrap.ts:287-301 | duplicate issues number the entries beyond the distinct names |

## Left out

- Cluster orchestration, step plans, polling deadlines, chain clients, table queries and process handling: inputs and outputs of the logic above; cancellation appears only as a schedule that ends.
- The on-chain contracts: only the rules this repository computes or asserts are modelled. Banking on a balance change is the claim's own settlement without the payout, and holders are a fixed, arbitrarily long list in which a newcomer is a row that starts empty.
- keccak, UTF-8 encoding and `Envelope.toBinary`: the hash is an arbitrary function, a tag is its bytes, and an envelope is its fields before serialization.
- JavaScript numbers past 2^53: versions, sizes, epochs and chain codes are natural numbers with their exact decimal spelling.
- The random source's bit mixing: any chunks below 2^32.
- PartialPayment.RunPaysItsAccrual: the exact clock is carried from kick to kick as the scenario carries it, not the table's millisecond rounding; which gates hold a kick back, and the order of those the flow never sees together, are an input of each kick.
- TaggedDelivery.ReadsSeePreDeliveryTips: what consensus needs beyond one delivery of the epoch (a two-thirds majority) is on chain and not modelled, so a chain's tips may move as soon as one is in; until then they are taken not to move by another epoch's consensus either.
- TokenBucket.EveryQueueDrains: each crank releases all it may; a crank that releases less is covered by the window bound, not by draining.
- Zod shapes without cross-field logic, fixed-amount scenario accounting, and the debugging and query tools: each is a single lookup, sum or format with no property beyond its own definition.
