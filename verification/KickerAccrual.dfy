/**
 The flow's own model of the kicker's gift: interest on the pool's supply for the unpaid
 interval, priced in WIRE at a Q64.64 average price and floored at every step.
 */
module KickerAccrual {
  import opened Arithmetic
  import opened Wrappers

  const BPS_SCALE := 10_000
  const JULIAN_YEAR_SEC := 31_557_600
  const MICROS_PER_SECOND := 1_000_000
  /** 2^64: a Q64.64 price is a whole number of these fractions. */
  const PRICE_ONE := 0x1_0000_0000_0000_0000
  /** The widest interval one payment catches up on: 72 hours. */
  const MAX_CATCHUP_MICROS := 72 * 3_600 * MICROS_PER_SECOND
  const ACCRUAL_DIVISOR := BPS_SCALE * JULIAN_YEAR_SEC * MICROS_PER_SECOND

  /** What `supply` earns in `elapsedMicros` without compounding, whole units only. */
  function Interest(supply: nat, rateBps: nat, elapsedMicros: int): int {
    TruncDiv(supply * rateBps * elapsedMicros, ACCRUAL_DIVISOR)
  }

  datatype PriceError = NegativeReserve

  /** WIRE per shadow unit, counted in 2^-64ths; a side with nothing in it has no price. */
  function PriceFixedPoint(poolWire: int, poolShadow: int): Result<nat, PriceError> {
    if poolShadow < 0 || poolWire < 0 then Failure(NegativeReserve)
    else if poolShadow == 0 then Success(0)
    else
      DivNonNeg(poolWire * PRICE_ONE, poolShadow);
      Success(poolWire * PRICE_ONE / poolShadow)
  }

  /** Only negative reserves are refused; otherwise the price is the one Q64.64 number that floors the ratio. */
  lemma PriceIsFlooredRatio(poolWire: int, poolShadow: int)
    ensures PriceFixedPoint(poolWire, poolShadow).Failure? <==> poolWire < 0 || poolShadow < 0
    ensures poolWire >= 0 && poolShadow == 0 ==> PriceFixedPoint(poolWire, poolShadow) == Success(0)
    ensures poolWire >= 0 && poolShadow > 0 ==>
      var price := PriceFixedPoint(poolWire, poolShadow).value;
      price * poolShadow <= poolWire * PRICE_ONE < (price + 1) * poolShadow
  {
    if poolWire >= 0 && poolShadow > 0 {
      DivBounds(poolWire * PRICE_ONE, poolShadow);
      MulDistributes(poolShadow, poolWire * PRICE_ONE / poolShadow, 1);
    }
  }

  /** The guard: is the distance between spot and average too large a share of the average? */
  predicate SpotDeviates(spot: int, twap: int, maxDeviationBps: int) {
    var deviation := if spot > twap then spot - twap else twap - spot;
    deviation * BPS_SCALE > twap * maxDeviationBps
  }

  /** The guard's tolerated band: within the floored share of the average, the threshold included, on either side. */
  lemma SpotGuardBand(spot: int, twap: nat, maxDeviationBps: nat)
    ensures !SpotDeviates(spot, twap, maxDeviationBps) <==>
            twap - twap * maxDeviationBps / BPS_SCALE <= spot <= twap + twap * maxDeviationBps / BPS_SCALE
  {
    var deviation := if spot > twap then spot - twap else twap - spot;
    DivAtLeast(twap * maxDeviationBps, BPS_SCALE, deviation);
  }

  /** What one kick's gift is sized from; only the elapsed time, a difference of clocks, can be negative. */
  datatype GiftInput = GiftInput(
    supply: nat,
    supplySnapshot: nat,
    rateBps: nat,
    elapsedMicros: int,
    price: nat
  )

  /** The uncut payment: interest on the smaller supply for at most one window, converted at the price. */
  function Gift(input: GiftInput): int {
    Interest(
      if input.supply < input.supplySnapshot then input.supply else input.supplySnapshot,
      input.rateBps,
      if input.elapsedMicros > MAX_CATCHUP_MICROS then MAX_CATCHUP_MICROS else input.elapsedMicros)
    * input.price / PRICE_ONE
  }

  /** The forfeit rule, asked of a kick that is too small to pay. */
  predicate CheckpointsBelowMinimum(input: GiftInput, minimumGift: int) {
    && input.supply > input.supplySnapshot
    && input.elapsedMicros >= MAX_CATCHUP_MICROS
    && Gift(input) < minimumGift
    && Gift(input.(supplySnapshot := input.supply)) >= minimumGift
  }

  // ----- interest and gift as floors

  lemma InterestBounds(supply: nat, rateBps: nat, elapsed: nat)
    ensures 0 <= Interest(supply, rateBps, elapsed)
    ensures Interest(supply, rateBps, elapsed) * ACCRUAL_DIVISOR
         <= supply * rateBps * elapsed
          < Interest(supply, rateBps, elapsed) * ACCRUAL_DIVISOR + ACCRUAL_DIVISOR
  {
    MulNonNeg(supply, rateBps);
    MulNonNeg(supply * rateBps, elapsed);
  }

  /** A gift over a bounded interval is the floor of the priced interest. */
  lemma GiftBounds(input: GiftInput)
    requires 0 <= input.elapsedMicros <= MAX_CATCHUP_MICROS
    ensures var supply := Min(input.supply, input.supplySnapshot);
            var interest := Interest(supply, input.rateBps, input.elapsedMicros);
            && 0 <= Gift(input)
            && Gift(input) * PRICE_ONE <= interest * input.price < Gift(input) * PRICE_ONE + PRICE_ONE
  {
    var supply := Min(input.supply, input.supplySnapshot);
    InterestBounds(supply, input.rateBps, input.elapsedMicros);
    var interest := Interest(supply, input.rateBps, input.elapsedMicros);
    MulNonNeg(interest, input.price);
    DivBounds(interest * input.price, PRICE_ONE);
    DivNonNeg(interest * input.price, PRICE_ONE);
  }

  /** At a hundred percent the supply earns itself once in 365 days and six hours. */
  lemma FullRateYear(supply: nat)
    ensures Interest(supply, 10_000, 31_557_600_000_000) == supply
  {
    DivUnique(supply * 10_000 * 31_557_600_000_000, ACCRUAL_DIVISOR, supply);
  }

  /** Time past three days is not paid for, at any input. */
  lemma GiftStopsAtThreeDays(input: GiftInput)
    ensures Gift(input) == Gift(input.(elapsedMicros := Min(input.elapsedMicros, 259_200_000_000)))
  {}

  /** Before its own clock an interest is owed backwards, cut toward zero, and its price is floored. */
  lemma GiftBeforeItsClock(input: GiftInput)
    requires input.elapsedMicros <= 0
    ensures var owed := Interest(Min(input.supply, input.supplySnapshot), input.rateBps, -input.elapsedMicros);
            && Gift(input) <= 0
            && Gift(input) * 0x1_0000_0000_0000_0000 <= -owed * input.price
            && -owed * input.price < (Gift(input) + 1) * 0x1_0000_0000_0000_0000
  {
    var perMicro := Min(input.supply, input.supplySnapshot) * input.rateBps;
    var owed := Interest(Min(input.supply, input.supplySnapshot), input.rateBps, -input.elapsedMicros);
    InterestBounds(Min(input.supply, input.supplySnapshot), input.rateBps, -input.elapsedMicros);
    NegatedProduct(perMicro, input.elapsedMicros);
    MulNonNeg(owed, input.price);
    NegatedProduct(input.price, owed);
    DivBounds(-owed * input.price, PRICE_ONE);
  }

  lemma NegatedProduct(a: int, b: int)
    ensures a * -b == -(a * b) && -b * a == -(b * a)
  {}

  /** More supply, a later clock, a higher rate or a higher price never lower the gift. */
  lemma GiftMonotone(a: GiftInput, b: GiftInput)
    requires a.supply <= b.supply && a.supplySnapshot <= b.supplySnapshot
    requires a.rateBps <= b.rateBps && a.price <= b.price
    requires 0 <= a.elapsedMicros <= b.elapsedMicros
    ensures 0 <= Gift(a) <= Gift(b)
  {
    var sa, sb := Min(a.supply, a.supplySnapshot), Min(b.supply, b.supplySnapshot);
    var ea, eb := Min(a.elapsedMicros, MAX_CATCHUP_MICROS), Min(b.elapsedMicros, MAX_CATCHUP_MICROS);
    InterestBounds(sa, a.rateBps, ea);
    InterestBounds(sb, b.rateBps, eb);
    MulMono(sa, sb, a.rateBps);
    MulMono(a.rateBps, b.rateBps, sb);
    MulNonNeg(sa, a.rateBps);
    MulMono(sa * a.rateBps, sb * b.rateBps, ea);
    MulMono(ea, eb, sb * b.rateBps);
    var ia, ib := Interest(sa, a.rateBps, ea), Interest(sb, b.rateBps, eb);
    DivMono(sa * a.rateBps * ea, sb * b.rateBps * eb, ACCRUAL_DIVISOR);
    MulMono(ia, ib, a.price);
    MulMono(a.price, b.price, ib);
    MulNonNeg(ia, a.price);
    DivMono(ia * a.price, ib * b.price, PRICE_ONE);
    DivNonNeg(ia * a.price, PRICE_ONE);
  }

  // ----- splitting one interval over several payments

  /** What is paid when each interval is priced on its own, everything but the clock unchanged. */
  function SplitGifts(input: GiftInput, intervals: seq<nat>): int {
    if intervals == [] then 0
    else Gift(input.(elapsedMicros := intervals[0])) + SplitGifts(input, intervals[1..])
  }

  function SplitInterest(supply: nat, rateBps: nat, intervals: seq<nat>): int {
    if intervals == [] then 0
    else Interest(supply, rateBps, intervals[0]) + SplitInterest(supply, rateBps, intervals[1..])
  }

  lemma InterestSplit(supply: nat, rateBps: nat, a: nat, b: nat)
    ensures var whole := Interest(supply, rateBps, a + b);
            var parts := Interest(supply, rateBps, a) + Interest(supply, rateBps, b);
            parts <= whole <= parts + 1
  {
    var perMicro := supply * rateBps;
    MulNonNeg(supply, rateBps);
    MulNonNeg(perMicro, a);
    MulNonNeg(perMicro, b);
    assert perMicro * (a + b) == perMicro * a + perMicro * b;
    DivSuperAdditive(perMicro * a, perMicro * b, ACCRUAL_DIVISOR);
  }

  lemma {:induction false} InterestSplitAll(supply: nat, rateBps: nat, intervals: seq<nat>)
    requires intervals != []
    ensures SplitInterest(supply, rateBps, intervals)
         <= Interest(supply, rateBps, Sum(intervals))
         <= SplitInterest(supply, rateBps, intervals) + |intervals| - 1
  {
    var rest := intervals[1..];
    if rest == [] {
      assert Sum(intervals) == intervals[0];
    } else {
      InterestSplitAll(supply, rateBps, rest);
      InterestSplit(supply, rateBps, intervals[0], Sum(rest));
    }
  }

  /** Bounds for a payment `gift` of priced interest `interest` extend bounds for `count` others. */
  lemma AddPayment(gift: int, gifts: int, interest: int, interests: int, price: int, count: nat)
    requires gift * PRICE_ONE <= interest * price < gift * PRICE_ONE + PRICE_ONE
    requires gifts * PRICE_ONE <= interests * price <= gifts * PRICE_ONE + count * (PRICE_ONE - 1)
    ensures (gift + gifts) * PRICE_ONE <= (interest + interests) * price
    ensures (interest + interests) * price <= (gift + gifts) * PRICE_ONE + (count + 1) * (PRICE_ONE - 1)
  {
    assert (interest + interests) * price == interest * price + interests * price;
  }

  lemma {:induction false} SplitGiftBounds(input: GiftInput, intervals: seq<nat>, interest: int)
    requires Sum(intervals) <= MAX_CATCHUP_MICROS
    requires interest == SplitInterest(Min(input.supply, input.supplySnapshot), input.rateBps, intervals)
    ensures SplitGifts(input, intervals) * PRICE_ONE <= interest * input.price
    ensures interest * input.price <= SplitGifts(input, intervals) * PRICE_ONE + |intervals| * (PRICE_ONE - 1)
  {
    if intervals != [] {
      var rest := intervals[1..];
      var first := Interest(Min(input.supply, input.supplySnapshot), input.rateBps, intervals[0]);
      SplitGiftBounds(input, rest, interest - first);
      GiftBounds(input.(elapsedMicros := intervals[0]));
      AddPayment(Gift(input.(elapsedMicros := intervals[0])), SplitGifts(input, rest),
                 first, interest - first, input.price, |rest|);
    }
  }

  /** The shortfall of `n` floored payments against one, from the floors alone. */
  lemma SplitShortfall(whole: int, gifts: int, interest: int, parts: int, price: nat, n: nat)
    requires whole * PRICE_ONE <= interest * price < whole * PRICE_ONE + PRICE_ONE
    requires gifts * PRICE_ONE <= parts * price <= gifts * PRICE_ONE + n * (PRICE_ONE - 1)
    requires parts <= interest <= parts + n - 1
    ensures gifts <= whole
    ensures (whole - gifts) * PRICE_ONE <= n * (PRICE_ONE - 1) + (n - 1) * price
  {
    MulMono(parts, interest, price);
    MulMono(interest, parts + (n - 1), price);
    assert (parts + (n - 1)) * price == parts * price + (n - 1) * price;
  }

  /**
   Independently floored payments cannot be combined: over intervals that together fit the
   catch-up window, paying each on its own never pays more than one payment for the whole, and
   falls short by less than one unit a payment plus one unit of priced interest a split.
   */
  lemma IntervalSplitting(input: GiftInput, intervals: seq<nat>)
    requires intervals != [] && Sum(intervals) <= MAX_CATCHUP_MICROS
    ensures SplitGifts(input, intervals) <= Gift(input.(elapsedMicros := Sum(intervals)))
    ensures (Gift(input.(elapsedMicros := Sum(intervals))) - SplitGifts(input, intervals)) * PRICE_ONE
         <= |intervals| * (PRICE_ONE - 1) + (|intervals| - 1) * input.price
  {
    var supply := Min(input.supply, input.supplySnapshot);
    var interest := Interest(supply, input.rateBps, Sum(intervals));
    var parts := SplitInterest(supply, input.rateBps, intervals);
    InterestSplitAll(supply, input.rateBps, intervals);
    SplitGiftBounds(input, intervals, parts);
    GiftBounds(input.(elapsedMicros := Sum(intervals)));
    SplitShortfall(Gift(input.(elapsedMicros := Sum(intervals))), SplitGifts(input, intervals),
                   interest, parts, input.price, |intervals|);
  }

  /** The time the payments can use: each interval, cut at the catch-up window. */
  function CappedTotal(intervals: seq<nat>): nat {
    if intervals == [] then 0
    else Min(intervals[0], MAX_CATCHUP_MICROS) + CappedTotal(intervals[1..])
  }

  lemma {:induction false} CappedTotalFits(intervals: seq<nat>)
    ensures CappedTotal(intervals) <= Sum(intervals)
    ensures Sum(intervals) <= MAX_CATCHUP_MICROS ==> CappedTotal(intervals) == Sum(intervals)
  {
    if intervals != [] {
      CappedTotalFits(intervals[1..]);
    }
  }

  /** One unit of interest a microsecond at a price of one: the gift is the capped time itself. */
  function UnitRate(elapsed: int): GiftInput {
    GiftInput(ACCRUAL_DIVISOR, ACCRUAL_DIVISOR, 1, elapsed, PRICE_ONE)
  }

  lemma UnitRateGift(elapsed: nat)
    ensures Gift(UnitRate(elapsed)) == Min(elapsed, MAX_CATCHUP_MICROS)
  {
    var time := Min(elapsed, MAX_CATCHUP_MICROS);
    DivUnique(ACCRUAL_DIVISOR * time, ACCRUAL_DIVISOR, time);
    DivUnique(time * PRICE_ONE, PRICE_ONE, time);
  }

  lemma {:induction false} UnitRateSplit(elapsed: int, intervals: seq<nat>)
    ensures SplitGifts(UnitRate(elapsed), intervals) == CappedTotal(intervals)
  {
    if intervals != [] {
      UnitRateGift(intervals[0]);
      assert UnitRate(elapsed).(elapsedMicros := intervals[0]) == UnitRate(intervals[0]);
      UnitRateSplit(elapsed, intervals[1..]);
    }
  }

  /** An interval of no length pays nothing. */
  lemma NoTimeNoGift(input: GiftInput)
    ensures Gift(input.(elapsedMicros := 0)) == 0
  {
    InterestBounds(Min(input.supply, input.supplySnapshot), input.rateBps, 0);
  }

  lemma {:induction false} NoTimeNoSplitGifts(input: GiftInput, intervals: seq<nat>)
    requires CappedTotal(intervals) == 0
    ensures SplitGifts(input, intervals) == 0 && Sum(intervals) == 0
  {
    if intervals != [] {
      NoTimeNoGift(input);
      NoTimeNoSplitGifts(input, intervals[1..]);
    }
  }

  /** Past the window but within it once cut: a single long interval among empty ones. */
  lemma {:induction false} LoneLongInterval(input: GiftInput, intervals: seq<nat>)
    requires CappedTotal(intervals) <= MAX_CATCHUP_MICROS < Sum(intervals)
    ensures SplitGifts(input, intervals) == Gift(input.(elapsedMicros := Sum(intervals)))
  {
    if intervals[0] >= MAX_CATCHUP_MICROS {
      NoTimeNoSplitGifts(input, intervals[1..]);
    } else {
      if Sum(intervals[1..]) <= MAX_CATCHUP_MICROS {
        CappedTotalFits(intervals[1..]);
      }
      LongIntervalFills(intervals[1..]);
      NoTimeNoGift(input);
      LoneLongInterval(input, intervals[1..]);
    }
  }

  /** Intervals adding up to more than a window still fill a whole one once each is cut. */
  lemma {:induction false} LongIntervalFills(intervals: seq<nat>)
    ensures Sum(intervals) > MAX_CATCHUP_MICROS ==> CappedTotal(intervals) >= MAX_CATCHUP_MICROS
  {
    if intervals != [] {
      CappedTotalFits(intervals[1..]);
      LongIntervalFills(intervals[1..]);
    }
  }

  /**
   Exactly when splitting is safe: separate payments never exceed one payment for the whole, at
   any supply, rate and price, if and only if the intervals, each cut at the catch-up window,
   together fit one window.
   */
  lemma SplittingNeverPaysMoreExactly(intervals: seq<nat>)
    ensures (forall input: GiftInput ::
              SplitGifts(input, intervals) <= Gift(input.(elapsedMicros := Sum(intervals))))
        <==> CappedTotal(intervals) <= MAX_CATCHUP_MICROS
  {
    if CappedTotal(intervals) <= MAX_CATCHUP_MICROS {
      forall input: GiftInput ensures SplitGifts(input, intervals) <= Gift(input.(elapsedMicros := Sum(intervals))) {
        if Sum(intervals) > MAX_CATCHUP_MICROS {
          LoneLongInterval(input, intervals);
        } else if intervals == [] {
          NoTimeNoGift(input);
        } else {
          IntervalSplitting(input, intervals);
        }
      }
    } else {
      var input := UnitRate(0);
      UnitRateSplit(0, intervals);
      UnitRateGift(Sum(intervals));
      assert input.(elapsedMicros := Sum(intervals)) == UnitRate(Sum(intervals));
    }
  }

  // ----- the forfeit rule

  /** A consequence of the cap: once the interval is saturated no later kick sees a different gift. */
  lemma SaturatedGiftIsFixed(input: GiftInput, later: int)
    requires input.elapsedMicros >= MAX_CATCHUP_MICROS && later >= input.elapsedMicros
    ensures Gift(input.(elapsedMicros := later)) == Gift(input)
  {}

  /** Any snapshot is worth no more than a checkpoint of the current supply. */
  lemma CheckpointIsBestSnapshot(input: GiftInput, snapshot: nat)
    requires input.elapsedMicros >= 0
    ensures Gift(input.(supplySnapshot := snapshot)) <= Gift(input.(supplySnapshot := input.supply))
  {
    var capped := Min(input.supply, snapshot);
    assert Gift(input.(supplySnapshot := snapshot)) == Gift(input.(supplySnapshot := capped));
    GiftMonotone(input.(supplySnapshot := capped), input.(supplySnapshot := input.supply));
  }

  /**
   The rule fires exactly when the snapshot alone is what blocks payment: the interval is
   saturated, the gift is below the minimum, and under some snapshot it would not be. The test
   that supply has grown past the snapshot adds nothing to the two gift tests.
   */
  lemma ForfeitsExactlyWhenSnapshotBlocks(input: GiftInput, minimumGift: int)
    ensures CheckpointsBelowMinimum(input, minimumGift) <==>
            && input.elapsedMicros >= MAX_CATCHUP_MICROS
            && Gift(input) < minimumGift
            && exists snapshot: nat :: Gift(input.(supplySnapshot := snapshot)) >= minimumGift
    ensures CheckpointsBelowMinimum(input, minimumGift) <==>
            && input.elapsedMicros >= MAX_CATCHUP_MICROS
            && Gift(input) < minimumGift
            && Gift(input.(supplySnapshot := input.supply)) >= minimumGift
  {
    assert input.supply <= input.supplySnapshot ==> Gift(input) == Gift(input.(supplySnapshot := input.supply));
    if input.elapsedMicros >= MAX_CATCHUP_MICROS && Gift(input) < minimumGift {
      if snapshot: nat :| Gift(input.(supplySnapshot := snapshot)) >= minimumGift {
        CheckpointIsBestSnapshot(input, snapshot);
      }
    }
  }

  /** What a checkpoint leaves for a kick `elapsed` after it: the current supply, the clock restarted. */
  function AfterCheckpoint(input: GiftInput, elapsed: int): GiftInput {
    input.(supplySnapshot := input.supply, elapsedMicros := elapsed)
  }

  /**
   A forfeit is not in vain and a refusal to forfeit is not hasty. At the same price, rate and
   supply, the pool reaches the minimum within one catch-up window of a checkpoint and stays
   there; a saturated pool that neither pays nor forfeits could reach it under no snapshot and
   after no wait.
   */
  lemma ForfeitIsRepaid(input: GiftInput, minimumGift: int, elapsed: int, snapshot: nat)
    requires input.elapsedMicros >= MAX_CATCHUP_MICROS && Gift(input) < minimumGift
    ensures CheckpointsBelowMinimum(input, minimumGift) && elapsed >= MAX_CATCHUP_MICROS
            ==> Gift(AfterCheckpoint(input, elapsed)) >= minimumGift
    ensures !CheckpointsBelowMinimum(input, minimumGift) && elapsed >= 0
            ==> Gift(input.(supplySnapshot := snapshot, elapsedMicros := elapsed)) < minimumGift
  {
    if CheckpointsBelowMinimum(input, minimumGift) {
    } else if elapsed >= 0 {
      var best := input.(supplySnapshot := input.supply);
      if input.supply <= input.supplySnapshot {
        assert Gift(best) == Gift(input);
      }
      var late := if elapsed < MAX_CATCHUP_MICROS then MAX_CATCHUP_MICROS else elapsed;
      var other := input.(supplySnapshot := snapshot, elapsedMicros := elapsed);
      CheckpointIsBestSnapshot(other, snapshot);
      GiftMonotone(other.(supplySnapshot := input.supply), best.(elapsedMicros := late));
      assert Gift(best.(elapsedMicros := late)) == Gift(best);
    }
  }
}
