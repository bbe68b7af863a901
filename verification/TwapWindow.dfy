/**
 The time-weighted average price over swap's cumulative accumulator, which wraps at 2^256,
 and the gift a kick at a given block is expected to pay at that average.
 */
module TwapWindow {
  import opened Arithmetic
  import opened KickerAccrual
  import opened Wrappers

  /** 2^128, the width of each limb of a cumulative price. */
  const LIMB := 0x1_0000_0000_0000_0000_0000_0000_0000_0000
  /** 2^256, where the accumulator wraps. */
  const CUMULATIVE_MODULUS := LIMB * LIMB
  const MICROS_PER_MILLISECOND := 1_000

  type Limb = x: int | 0 <= x < LIMB
  datatype CumulativePrice = CumulativePrice(hi: Limb, lo: Limb)

  function Cumulative(price: CumulativePrice): int {
    price.hi * LIMB + price.lo
  }

  /** Two limbs and a wrapped number determine each other, the high limb counting 2^128s. */
  lemma LimbsExact(price: CumulativePrice, value: int)
    ensures 0 <= Cumulative(price) < CUMULATIVE_MODULUS
    ensures 0 <= value < CUMULATIVE_MODULUS ==>
      (Cumulative(price) == value <==> price.hi == value / LIMB && price.lo == value % LIMB)
  {
    MulMono(price.hi, LIMB - 1, LIMB);
    DivUnique(Cumulative(price), LIMB, price.hi);
    DivBounds(value, LIMB);
  }

  /** How fast the accumulator ran between two readings, nothing when the time or the rate cannot be right. */
  function Twap(before: int, after: int, elapsedMicros: int): int {
    if elapsedMicros <= 0 then 0
    else
      var delta := TruncMod(after - before + CUMULATIVE_MODULUS, CUMULATIVE_MODULUS);
      if delta / LIMB >= elapsedMicros then 0 else TruncDiv(delta, elapsedMicros)
  }

  /**
   The average in numbers, at any two readings: nothing over no time, the growth since the first
   reading modulo 2^256 otherwise, spread over the time and floored, and nothing again when that
   would not fit 128 bits.
   */
  lemma TwapInNumbers(before: int, after: int, elapsed: int)
    requires Wrapped(before) && Wrapped(after)
    ensures elapsed <= 0 ==> Twap(before, after, elapsed) == 0
    ensures elapsed > 0 ==>
      var grown := if before <= after then after - before else after - before + CUMULATIVE_MODULUS;
      if grown >= elapsed * LIMB then Twap(before, after, elapsed) == 0
      else Twap(before, after, elapsed) * elapsed <= grown < (Twap(before, after, elapsed) + 1) * elapsed
  {
    if elapsed > 0 {
      var grown := if before <= after then after - before else after - before + CUMULATIVE_MODULUS;
      assert (after - before + CUMULATIVE_MODULUS) % CUMULATIVE_MODULUS == grown by {
        DivUnique(after - before + CUMULATIVE_MODULUS, CUMULATIVE_MODULUS, if before <= after then 1 else 0);
        DivBounds(after - before + CUMULATIVE_MODULUS, CUMULATIVE_MODULUS);
      }
      DivAtLeast(grown, LIMB, elapsed);
      DivBounds(grown, elapsed);
      MulDistributes(elapsed, grown / elapsed, 1);
    }
  }

  // ----- the accumulator over a history of spots

  /** A spot price that held for a while. */
  datatype Segment = Segment(spot: nat, micros: nat)

  /** The cumulative price a history of spots leaves behind. */
  function Accumulate(start: int, history: seq<Segment>): int
    decreases history
  {
    if history == [] then start
    else Accumulate(TruncMod(start + history[0].spot * history[0].micros, CUMULATIVE_MODULUS), history[1..])
  }

  /** The true, unwrapped price-time product of a history. */
  function PriceTime(history: seq<Segment>): nat {
    if history == [] then 0
    else
      MulNonNeg(history[0].spot, history[0].micros);
      history[0].spot * history[0].micros + PriceTime(history[1..])
  }

  function Duration(history: seq<Segment>): nat {
    if history == [] then 0 else history[0].micros + Duration(history[1..])
  }

  ghost predicate SpotsWithin(history: seq<Segment>, lo: nat, hi: nat) {
    forall i :: 0 <= i < |history| ==> lo <= history[i].spot <= hi
  }

  predicate Wrapped(x: int) {
    0 <= x < CUMULATIVE_MODULUS
  }

  lemma WrapOnce(start: int, step: nat, rest: nat)
    ensures (start + step) % CUMULATIVE_MODULUS + rest >= 0
    ensures ((start + step) % CUMULATIVE_MODULUS + rest) % CUMULATIVE_MODULUS == (start + step + rest) % CUMULATIVE_MODULUS
  {}

  lemma {:induction false} AccumulateWraps(start: int, history: seq<Segment>)
    requires Wrapped(start)
    ensures Accumulate(start, history) == (start + PriceTime(history)) % CUMULATIVE_MODULUS
    decreases history
  {
    if history != [] {
      var step := history[0].spot * history[0].micros;
      MulNonNeg(history[0].spot, history[0].micros);
      AccumulateWraps((start + step) % CUMULATIVE_MODULUS, history[1..]);
      WrapOnce(start, step, PriceTime(history[1..]));
    }
  }

  lemma {:induction false} AccumulateConcat(start: int, early: seq<Segment>, late: seq<Segment>)
    ensures Accumulate(start, early + late) == Accumulate(Accumulate(start, early), late)
    ensures PriceTime(early + late) == PriceTime(early) + PriceTime(late)
    ensures Duration(early + late) == Duration(early) + Duration(late)
    decreases early
  {
    if early == [] {
      assert early + late == late;
    } else {
      assert (early + late)[1..] == early[1..] + late;
      AccumulateConcat(TruncMod(start + early[0].spot * early[0].micros, CUMULATIVE_MODULUS), early[1..], late);
    }
  }

  lemma AccumulateOne(start: int, last: Segment)
    ensures Accumulate(start, [last]) == TruncMod(start + last.spot * last.micros, CUMULATIVE_MODULUS)
    ensures Duration([last]) == last.micros
  {
    assert [last][1..] == [];
  }

  lemma {:induction false} PriceTimeWithin(history: seq<Segment>, lo: nat, hi: nat)
    requires SpotsWithin(history, lo, hi)
    ensures lo * Duration(history) <= PriceTime(history) <= hi * Duration(history)
  {
    if history != [] {
      var first, rest := history[0], history[1..];
      PriceTimeWithin(rest, lo, hi);
      MulMono(lo, first.spot, first.micros);
      MulMono(first.spot, hi, first.micros);
      MulDistributes(lo, first.micros, Duration(rest));
      MulDistributes(hi, first.micros, Duration(rest));
    }
  }

  // ----- exactness of the average

  lemma WrapDifference(start: int, step: nat)
    requires Wrapped(start)
    ensures ((start + step) % CUMULATIVE_MODULUS - start + CUMULATIVE_MODULUS) % CUMULATIVE_MODULUS
         == step % CUMULATIVE_MODULUS
  {}

  /** Two observations of the accumulator differ by the true price-time product, modulo the wrap. */
  lemma WindowDelta(before: int, history: seq<Segment>)
    requires Wrapped(before)
    ensures TruncMod(Accumulate(before, history) - before + CUMULATIVE_MODULUS, CUMULATIVE_MODULUS)
         == PriceTime(history) % CUMULATIVE_MODULUS
  {
    AccumulateWraps(before, history);
    WrapDifference(before, PriceTime(history));
  }

  /** The average of a wrapped product, limb test included, against the average of the product itself. */
  lemma AverageExactness(product: nat, elapsed: int, limb: int, modulus: int)
    requires limb > 0 && 0 < elapsed <= modulus
    ensures var delta := product % modulus;
            (if delta / limb >= elapsed then 0 else delta / elapsed) == product / elapsed
            <==> product < modulus && product / elapsed < limb
  {
    var delta := product % modulus;
    ModBounds(product, modulus);
    DivAtLeast(delta, limb, elapsed);
    DivAtLeast(product, elapsed, limb);
    if product >= modulus {
      DivAtLeast(product, elapsed, 1);
      DivAtLeast(modulus, elapsed, 1);
      DivMono(delta, product - modulus, elapsed);
      DivSuperAdditive(product - modulus, modulus, elapsed);
    }
  }

  /**
   The wrapped average is the true one exactly when the product fits the accumulator and the
   average fits one limb. The window may wrap past 2^256 once; what it may not do is accumulate
   that much.
   */
  lemma TwapExactness(before: int, history: seq<Segment>)
    requires Wrapped(before) && 0 < Duration(history) <= CUMULATIVE_MODULUS
    ensures Twap(before, Accumulate(before, history), Duration(history)) == PriceTime(history) / Duration(history)
        <==> PriceTime(history) < CUMULATIVE_MODULUS && PriceTime(history) / Duration(history) < LIMB
  {
    WindowDelta(before, history);
    AverageExactness(PriceTime(history), Duration(history), LIMB, CUMULATIVE_MODULUS);
  }

  /**
   Through any wraparound: with spots that fit one limb and a window of at most 2^128
   microseconds, the reported average is the floor of the true one, and lies between the
   smallest and the largest spot seen.
   */
  lemma TwapIsTrueAverage(before: int, history: seq<Segment>, lo: nat, hi: nat)
    requires Wrapped(before) && 0 < Duration(history) <= LIMB
    requires SpotsWithin(history, lo, hi) && hi < LIMB
    ensures Twap(before, Accumulate(before, history), Duration(history)) == PriceTime(history) / Duration(history)
    ensures lo <= PriceTime(history) / Duration(history) <= hi
  {
    var product, elapsed := PriceTime(history), Duration(history);
    PriceTimeWithin(history, lo, hi);
    DivAtLeast(product, elapsed, lo);
    DivAtLeast(product, elapsed, hi + 1);
    assert (hi + 1) * elapsed == hi * elapsed + elapsed;
    MulMono(hi + 1, LIMB, elapsed);
    MulMono(elapsed, LIMB, LIMB);
    TwapExactness(before, history);
  }

  /** The edge is sharp: at a window of 2^256 microseconds, which no block time yields, a constant spot of 1 reads as zero. */
  lemma TwapLosesLongWindows()
    ensures var history := [Segment(1, CUMULATIVE_MODULUS)];
            && PriceTime(history) / Duration(history) == 1
            && Twap(0, Accumulate(0, history), Duration(history)) == 0
  {
    var history := [Segment(1, CUMULATIVE_MODULUS)];
    assert history[1..] == [];
    assert PriceTime(history) == CUMULATIVE_MODULUS == Duration(history);
    WindowDelta(0, history);
  }

  /** A pool whose every spot stays inside a band as narrow as the guard's share of its floor never trips the guard. */
  lemma BandNeverDeviates(before: int, history: seq<Segment>, spot: nat, lo: nat, hi: nat, maxDeviationBps: nat)
    requires Wrapped(before) && 0 < Duration(history) <= LIMB
    requires SpotsWithin(history, lo, hi) && hi < LIMB && lo <= spot <= hi
    requires (hi - lo) * BPS_SCALE <= lo * maxDeviationBps
    ensures !SpotDeviates(spot, Twap(before, Accumulate(before, history), Duration(history)), maxDeviationBps)
  {
    TwapIsTrueAverage(before, history, lo, hi);
    MulMono(lo, PriceTime(history) / Duration(history), maxDeviationBps);
  }

  // ----- the expected gift at a block

  datatype Reserves = Reserves(poolWire: int, poolShadow: int)
  datatype PriceAccumulator = PriceAccumulator(price1: CumulativePrice, lastUpdateMs: nat)
  datatype KickPool = KickPool(
    lastKickMs: nat,
    priceTimeMs: nat,
    priceSnapshot: CumulativePrice,
    supplySnapshot: nat,
    rateBps: nat
  )
  datatype KickerSnapshot = KickerSnapshot(pool: KickPool, supply: nat, reserves: Reserves)

  datatype ObservationError = NoAccumulator | MutatedAfterKick | BadReserves

  /** The accumulator brought forward to a block as if the current reserves had held since it was written. */
  function CumulativeAtBlock(before: KickerSnapshot, accumulator: Option<PriceAccumulator>, blockTimeMs: nat)
    : (r: Result<int, ObservationError>)
    ensures r.Success? ==> Wrapped(r.value)
    ensures r.Success? <==>
      && accumulator.Some? && accumulator.value.lastUpdateMs <= blockTimeMs
      && before.reserves.poolWire >= 0 && before.reserves.poolShadow >= 0
  {
    if accumulator.None? then Failure(NoAccumulator)
    else if accumulator.value.lastUpdateMs > blockTimeMs then Failure(MutatedAfterKick)
    else
      match PriceFixedPoint(before.reserves.poolWire, before.reserves.poolShadow)
      case Failure(_) => Failure(BadReserves)
      case Success(spot) =>
        MulNonNeg(spot, blockTimeMs - accumulator.value.lastUpdateMs);
        Success(TruncMod(
          Cumulative(accumulator.value.price1)
          + spot * (blockTimeMs - accumulator.value.lastUpdateMs) * MICROS_PER_MILLISECOND,
          CUMULATIVE_MODULUS))
  }

  lemma TwapNonNegative(before: int, after: int, elapsed: int)
    requires Wrapped(before) && Wrapped(after)
    ensures 0 <= Twap(before, after, elapsed)
  {
    if elapsed > 0 {
      DivNonNeg((after - before + CUMULATIVE_MODULUS) % CUMULATIVE_MODULUS, elapsed);
    }
  }

  /** What the contract prices a kick at this block from; `clockMicros` is the exact unpaid clock. */
  function GiftInputAtBlock(
    before: KickerSnapshot, accumulator: Option<PriceAccumulator>, blockTimeMs: nat, clockMicros: int)
    : Result<GiftInput, ObservationError>
  {
    var now := blockTimeMs * MICROS_PER_MILLISECOND;
    var after :- CumulativeAtBlock(before, accumulator, blockTimeMs);
    var start := Cumulative(before.pool.priceSnapshot);
    var window := now - before.pool.priceTimeMs * MICROS_PER_MILLISECOND;
    TwapNonNegative(start, after, window);
    Success(GiftInput(before.supply, before.pool.supplySnapshot, before.pool.rateBps,
                      now - clockMicros, Twap(start, after, window)))
  }

  function ExpectedGiftAtBlock(
    before: KickerSnapshot, accumulator: Option<PriceAccumulator>, blockTimeMs: nat, clockMicros: int)
    : Result<int, ObservationError>
  {
    var input :- GiftInputAtBlock(before, accumulator, blockTimeMs, clockMicros);
    Success(Gift(input))
  }

  /**
   The pool was observed at `priceTimeMs` and swap last wrote its accumulator at `lastUpdateMs`,
   in either order: `recorded` are the spots swap wrote since the observation, and an observation
   made after the last write was itself read at the current spot.
   */
  ghost predicate Observed(before: KickerSnapshot, accumulator: PriceAccumulator, recorded: seq<Segment>) {
    var start := Cumulative(before.pool.priceSnapshot);
    if before.pool.priceTimeMs <= accumulator.lastUpdateMs then
      && Duration(recorded) == (accumulator.lastUpdateMs - before.pool.priceTimeMs) * MICROS_PER_MILLISECOND
      && Cumulative(accumulator.price1) == Accumulate(start, recorded)
    else
      && recorded == []
      && CumulativeAtBlock(before, Some(accumulator), before.pool.priceTimeMs) == Success(start)
  }

  function Later(a: nat, b: nat): nat {
    if a < b then b else a
  }

  /** The spots of the window: those written since the observation, then the current one to the block. */
  function WindowHistory(
    before: KickerSnapshot, accumulator: PriceAccumulator, blockTimeMs: nat, recorded: seq<Segment>, spot: nat)
    : seq<Segment>
    requires accumulator.lastUpdateMs <= blockTimeMs && before.pool.priceTimeMs <= blockTimeMs
  {
    recorded + [Segment(
      spot, (blockTimeMs - Later(accumulator.lastUpdateMs, before.pool.priceTimeMs)) * MICROS_PER_MILLISECOND)]
  }

  /** The last write came after the observation: the written spots, then the current one. */
  lemma ObservedBeforeWrite(
    before: KickerSnapshot, accumulator: PriceAccumulator, blockTimeMs: nat, recorded: seq<Segment>, spot: nat)
    requires before.pool.priceTimeMs <= accumulator.lastUpdateMs <= blockTimeMs
    requires Observed(before, accumulator, recorded)
    requires PriceFixedPoint(before.reserves.poolWire, before.reserves.poolShadow) == Success(spot)
    ensures var history := WindowHistory(before, accumulator, blockTimeMs, recorded, spot);
            && Duration(history) == (blockTimeMs - before.pool.priceTimeMs) * MICROS_PER_MILLISECOND
            && CumulativeAtBlock(before, Some(accumulator), blockTimeMs)
               == Success(Accumulate(Cumulative(before.pool.priceSnapshot), history))
  {
    var elapsedMs := blockTimeMs - accumulator.lastUpdateMs;
    var last := Segment(spot, elapsedMs * MICROS_PER_MILLISECOND);
    AccumulateConcat(Cumulative(before.pool.priceSnapshot), recorded, [last]);
    AccumulateOne(Cumulative(accumulator.price1), last);
    MulAssociates(spot, elapsedMs, MICROS_PER_MILLISECOND);
  }

  /** Waiting `early` and then `late` at one spot is one longer wait, through the wrap. */
  lemma WaitTwice(start: nat, spot: nat, early: nat, late: nat)
    ensures 0 <= spot * early && 0 <= spot * late
    ensures ((start + spot * early) % CUMULATIVE_MODULUS + spot * late) % CUMULATIVE_MODULUS
         == (start + spot * (early + late)) % CUMULATIVE_MODULUS
  {
    MulNonNeg(spot, early);
    MulNonNeg(spot, late);
    MulDistributes(spot, early, late);
    WrapOnce(start, spot * early, spot * late);
  }

  /** The observation came after the last write: the window saw the current spot alone. */
  lemma ObservedAfterWrite(
    before: KickerSnapshot, accumulator: PriceAccumulator, blockTimeMs: nat, recorded: seq<Segment>, spot: nat)
    requires accumulator.lastUpdateMs < before.pool.priceTimeMs <= blockTimeMs
    requires Observed(before, accumulator, recorded)
    requires PriceFixedPoint(before.reserves.poolWire, before.reserves.poolShadow) == Success(spot)
    ensures var history := WindowHistory(before, accumulator, blockTimeMs, recorded, spot);
            && Duration(history) == (blockTimeMs - before.pool.priceTimeMs) * MICROS_PER_MILLISECOND
            && CumulativeAtBlock(before, Some(accumulator), blockTimeMs)
               == Success(Accumulate(Cumulative(before.pool.priceSnapshot), history))
  {
    var start := Cumulative(before.pool.priceSnapshot);
    var early := before.pool.priceTimeMs - accumulator.lastUpdateMs;
    var late := blockTimeMs - before.pool.priceTimeMs;
    var last := Segment(spot, late * MICROS_PER_MILLISECOND);
    assert [] + [last] == [last];
    AccumulateOne(start, last);
    MulAssociates(spot, early, MICROS_PER_MILLISECOND);
    MulAssociates(spot, early + late, MICROS_PER_MILLISECOND);
    WaitTwice(Cumulative(accumulator.price1), spot, early * MICROS_PER_MILLISECOND, late * MICROS_PER_MILLISECOND);
  }

  /** Reading at the block amounts to running the accumulator from the observation over the whole window. */
  lemma ObservationAtBlock(
    before: KickerSnapshot, accumulator: PriceAccumulator, blockTimeMs: nat, recorded: seq<Segment>, spot: nat)
    requires accumulator.lastUpdateMs <= blockTimeMs && before.pool.priceTimeMs <= blockTimeMs
    requires Observed(before, accumulator, recorded)
    requires PriceFixedPoint(before.reserves.poolWire, before.reserves.poolShadow) == Success(spot)
    ensures var history := WindowHistory(before, accumulator, blockTimeMs, recorded, spot);
            && Duration(history) == (blockTimeMs - before.pool.priceTimeMs) * MICROS_PER_MILLISECOND
            && CumulativeAtBlock(before, Some(accumulator), blockTimeMs)
               == Success(Accumulate(Cumulative(before.pool.priceSnapshot), history))
  {
    if before.pool.priceTimeMs <= accumulator.lastUpdateMs {
      ObservedBeforeWrite(before, accumulator, blockTimeMs, recorded, spot);
    } else {
      ObservedAfterWrite(before, accumulator, blockTimeMs, recorded, spot);
    }
  }

  /**
   The whole reconstruction, whichever of the observation and swap's last write came later: if the
   reserves have not moved since that write, the gift expected at the block is sized from the true
   time-weighted average of every spot in the window.
   */
  lemma GiftInputPricesTrueAverage(
    before: KickerSnapshot, accumulator: PriceAccumulator, blockTimeMs: nat, clockMicros: int,
    recorded: seq<Segment>, spot: nat, lo: nat, hi: nat)
    requires before.pool.priceTimeMs < blockTimeMs && accumulator.lastUpdateMs <= blockTimeMs
    requires blockTimeMs * MICROS_PER_MILLISECOND <= LIMB
    requires Observed(before, accumulator, recorded)
    requires PriceFixedPoint(before.reserves.poolWire, before.reserves.poolShadow) == Success(spot)
    requires SpotsWithin(recorded, lo, hi) && lo <= spot <= hi < LIMB
    ensures var history := WindowHistory(before, accumulator, blockTimeMs, recorded, spot);
            && Duration(history) == (blockTimeMs - before.pool.priceTimeMs) * MICROS_PER_MILLISECOND
            && lo <= PriceTime(history) / Duration(history) <= hi
            && GiftInputAtBlock(before, Some(accumulator), blockTimeMs, clockMicros)
               == Success(GiftInput(
                    before.supply, before.pool.supplySnapshot, before.pool.rateBps,
                    blockTimeMs * MICROS_PER_MILLISECOND - clockMicros,
                    PriceTime(history) / Duration(history)))
  {
    var history := WindowHistory(before, accumulator, blockTimeMs, recorded, spot);
    ObservationAtBlock(before, accumulator, blockTimeMs, recorded, spot);
    TwapIsTrueAverage(Cumulative(before.pool.priceSnapshot), history, lo, hi);
  }

  /** With no write since the observation the window's average is the current spot, and the gift is priced at it. */
  lemma QuietWindowPricesAtSpot(
    before: KickerSnapshot, accumulator: PriceAccumulator, blockTimeMs: nat, clockMicros: int, spot: nat)
    requires accumulator.lastUpdateMs <= before.pool.priceTimeMs < blockTimeMs
    requires blockTimeMs * MICROS_PER_MILLISECOND <= LIMB
    requires Observed(before, accumulator, [])
    requires PriceFixedPoint(before.reserves.poolWire, before.reserves.poolShadow) == Success(spot) && spot < LIMB
    ensures ExpectedGiftAtBlock(before, Some(accumulator), blockTimeMs, clockMicros)
         == Success(Gift(GiftInput(
              before.supply, before.pool.supplySnapshot, before.pool.rateBps,
              blockTimeMs * MICROS_PER_MILLISECOND - clockMicros, spot)))
  {
    GiftInputPricesTrueAverage(before, accumulator, blockTimeMs, clockMicros, [], spot, spot, spot);
  }

  /** The expected gift is sized from that same average, for every history of the window. */
  lemma ExpectedGiftPricesTrueAverage(
    before: KickerSnapshot, accumulator: PriceAccumulator, blockTimeMs: nat, clockMicros: int,
    recorded: seq<Segment>, spot: nat, lo: nat, hi: nat)
    requires before.pool.priceTimeMs < blockTimeMs && accumulator.lastUpdateMs <= blockTimeMs
    requires blockTimeMs * MICROS_PER_MILLISECOND <= LIMB
    requires Observed(before, accumulator, recorded)
    requires PriceFixedPoint(before.reserves.poolWire, before.reserves.poolShadow) == Success(spot)
    requires SpotsWithin(recorded, lo, hi) && lo <= spot <= hi < LIMB
    ensures var history := WindowHistory(before, accumulator, blockTimeMs, recorded, spot);
            && Duration(history) == (blockTimeMs - before.pool.priceTimeMs) * MICROS_PER_MILLISECOND
            && lo <= PriceTime(history) / Duration(history) <= hi
            && ExpectedGiftAtBlock(before, Some(accumulator), blockTimeMs, clockMicros)
               == Success(Gift(GiftInput(
                    before.supply, before.pool.supplySnapshot, before.pool.rateBps,
                    blockTimeMs * MICROS_PER_MILLISECOND - clockMicros, PriceTime(history) / Duration(history))))
  {
    GiftInputPricesTrueAverage(before, accumulator, blockTimeMs, clockMicros, recorded, spot, lo, hi);
  }

  /** Which observation cannot be reconstructed, and why; the inputs and the gift fail with it and never otherwise. */
  lemma ExpectedGiftFailsExactly(
    before: KickerSnapshot, accumulator: Option<PriceAccumulator>, blockTimeMs: nat, clockMicros: int)
    ensures var cumulative := CumulativeAtBlock(before, accumulator, blockTimeMs);
            var input := GiftInputAtBlock(before, accumulator, blockTimeMs, clockMicros);
            var gift := ExpectedGiftAtBlock(before, accumulator, blockTimeMs, clockMicros);
            && (cumulative == Failure(NoAccumulator) <==> accumulator == None)
            && (cumulative == Failure(MutatedAfterKick) <==> accumulator.Some? && accumulator.value.lastUpdateMs > blockTimeMs)
            && (cumulative == Failure(BadReserves) <==>
                  && accumulator.Some? && accumulator.value.lastUpdateMs <= blockTimeMs
                  && (before.reserves.poolWire < 0 || before.reserves.poolShadow < 0))
            && (cumulative.Failure? <==> input.Failure?) && (cumulative.Failure? <==> gift.Failure?)
            && (cumulative.Failure? ==> input.error == gift.error == cumulative.error)
  {}

  /** A kick in the block of the observation, or before it, has no window and expects nothing. */
  lemma NoWindowNoGift(
    before: KickerSnapshot, accumulator: Option<PriceAccumulator>, blockTimeMs: nat, clockMicros: int)
    requires CumulativeAtBlock(before, accumulator, blockTimeMs).Success? && blockTimeMs <= before.pool.priceTimeMs
    ensures ExpectedGiftAtBlock(before, accumulator, blockTimeMs, clockMicros) == Success(0)
  {}
}
