/**
 A payment that a daily ceiling cuts short: how far it advances the pool's clock, and what the
 unpaid rest of the interval is still worth.
 */
module PartialPayment {
  import opened Arithmetic
  import opened KickerAccrual

  function BoundedElapsed(elapsed: int): int {
    if elapsed > MAX_CATCHUP_MICROS then MAX_CATCHUP_MICROS else elapsed
  }

  /** The ceiling applied to a full gift. */
  function Capped(gift: int, ceiling: int): int {
    if gift < ceiling then gift else ceiling
  }

  /** The clock after paying `paid` of `gift` at `now`, pro rata over the bounded interval. */
  function AdvancedClock(now: int, elapsed: int, paid: int, gift: int): int
    requires gift != 0
  {
    now - BoundedElapsed(elapsed) + TruncDiv(BoundedElapsed(elapsed) * paid, gift)
  }

  /** `last_kick` as the table carries it, at millisecond precision. */
  function RecordedClock(advanced: int): int {
    TruncDiv(advanced, 1_000) * 1_000
  }

  lemma PositiveGiftNeedsTime(input: GiftInput)
    requires Gift(input) > 0 && input.elapsedMicros >= 0
    ensures input.elapsedMicros > 0
  {
    NoTimeNoGift(input);
    assert input.elapsedMicros == 0 ==> input == input.(elapsedMicros := 0);
  }

  /** The pro-rata share of an interval stays inside it and fills it only for full payment. */
  lemma ProRata(interval: int, paid: int, gift: int)
    requires interval > 0 && 0 <= paid <= gift && gift > 0
    ensures var share := interval * paid / gift;
            && 0 <= share <= interval
            && (share == interval <==> paid == gift)
            && interval * paid - gift < share * gift <= interval * paid
  {
    var share := interval * paid / gift;
    MulNonNeg(interval, paid);
    DivNonNeg(interval * paid, gift);
    DivBounds(interval * paid, gift);
    DivAtLeast(interval * paid, gift, interval);
    DivAtLeast(interval * paid, gift, interval + 1);
    MulMono(paid, gift, interval);
    MulDistributes(gift, interval, 1);
    if paid < gift {
      MulMono(paid + 1, gift, interval);
      MulDistributes(interval, paid, 1);
    }
  }

  /**
   The clock lands inside the interval it pays for, never before the catch-up window, and
   reaches `now` exactly when the gift is paid in full.
   */
  lemma PartialClockLands(input: GiftInput, now: int, ceiling: nat)
    requires input.elapsedMicros >= 0 && Gift(input) > 0
    ensures var gift, bounded := Gift(input), BoundedElapsed(input.elapsedMicros);
            var advanced := AdvancedClock(now, input.elapsedMicros, Capped(gift, ceiling), gift);
            && now - MAX_CATCHUP_MICROS <= now - bounded <= advanced <= now
            && (advanced == now <==> gift <= ceiling)
            && (advanced >= 0 ==> advanced - 1_000 < RecordedClock(advanced) <= advanced)
  {
    var gift, bounded := Gift(input), BoundedElapsed(input.elapsedMicros);
    PositiveGiftNeedsTime(input);
    ProRata(bounded, Capped(gift, ceiling), gift);
    MulNonNeg(bounded, Capped(gift, ceiling));
  }

  /**
   The two clocks in numbers. The exact one stands at the floor of the paid share of the bounded
   interval; the recorded one is the last whole millisecond not after it.
   */
  lemma ClocksInNumbers(now: int, elapsed: nat, paid: nat, gift: int)
    requires gift > 0
    ensures var bounded, advanced := if elapsed < 259_200_000_000 then elapsed else 259_200_000_000, AdvancedClock(now, elapsed, paid, gift);
            && (advanced - (now - bounded)) * gift <= bounded * paid < (advanced - (now - bounded) + 1) * gift
            && (advanced >= 0 ==> RecordedClock(advanced) % 1_000 == 0 && RecordedClock(advanced) <= advanced < RecordedClock(advanced) + 1_000)
  {
    var bounded := BoundedElapsed(elapsed);
    MulNonNeg(bounded, paid);
    DivBounds(bounded * paid, gift);
    MulDistributes(gift, bounded * paid / gift, 1);
  }

  // ----- the gift as a linear rate with one rounding

  /** Gift units per microsecond, scaled by `GiftScale`. */
  function GiftRate(input: GiftInput): int {
    Min(input.supply, input.supplySnapshot) * input.rateBps * input.price
  }

  const GIFT_SCALE := ACCRUAL_DIVISOR * PRICE_ONE

  /** Two floors lose less than one unit and less than one unit of priced interest, scaled. */
  function Rounding(price: nat): int {
    ACCRUAL_DIVISOR * (PRICE_ONE - 1) + ACCRUAL_DIVISOR * price
  }

  lemma FloorTwice(exact: int, interest: int, gift: int, price: nat)
    requires interest * ACCRUAL_DIVISOR <= exact < interest * ACCRUAL_DIVISOR + ACCRUAL_DIVISOR
    requires gift * PRICE_ONE <= interest * price < gift * PRICE_ONE + PRICE_ONE
    ensures gift * GIFT_SCALE <= exact * price <= gift * GIFT_SCALE + Rounding(price)
  {
    MulMono(interest * ACCRUAL_DIVISOR, exact, price);
    MulMono(exact, interest * ACCRUAL_DIVISOR + ACCRUAL_DIVISOR, price);
    MulDistributes(price, interest * ACCRUAL_DIVISOR, ACCRUAL_DIVISOR);
    assert interest * ACCRUAL_DIVISOR * price == interest * price * ACCRUAL_DIVISOR;
  }

  lemma GiftIsLinear(input: GiftInput, elapsed: nat)
    requires elapsed <= MAX_CATCHUP_MICROS
    ensures var gift := Gift(input.(elapsedMicros := elapsed));
            && 0 <= gift
            && gift * GIFT_SCALE <= elapsed * GiftRate(input) <= gift * GIFT_SCALE + Rounding(input.price)
  {
    var supply := Min(input.supply, input.supplySnapshot);
    InterestBounds(supply, input.rateBps, elapsed);
    GiftBounds(input.(elapsedMicros := elapsed));
    FloorTwice(supply * input.rateBps * elapsed, Interest(supply, input.rateBps, elapsed),
               Gift(input.(elapsedMicros := elapsed)), input.price);
    RateTimesElapsed(supply * input.rateBps, elapsed, input.price);
  }

  lemma RateTimesElapsed(perMicro: int, elapsed: int, price: int)
    ensures perMicro * elapsed * price == elapsed * (perMicro * price)
  {}

  // ----- paying an interval in pieces

  /** `paid` plus the rest's gift, for a rest that is at most one microsecond past its pro-rata share. */
  lemma PiecesFromRates(interval: nat, gift: int, paid: int, rest: int, restGift: int, rate: nat, scale: int, rounding: nat)
    requires gift > 0 && 0 <= paid <= gift && scale > 0
    requires interval * (gift - paid) <= rest * gift <= interval * (gift - paid) + gift
    requires gift * scale <= interval * rate <= gift * scale + rounding
    requires restGift * scale <= rest * rate <= restGift * scale + rounding
    ensures gift * scale - rounding <= (paid + restGift) * scale <= gift * scale + rounding + rate
  {
    var unpaid := gift - paid;
    RestAtMost(interval, gift, unpaid, rest, rate, scale, rounding);
    RestAtLeast(interval, gift, unpaid, rest, rate, scale);
    MulDistributes(scale, paid, restGift);
    MulDistributes(scale, paid, unpaid);
  }

  lemma RestAtMost(interval: nat, gift: int, unpaid: int, rest: int, rate: nat, scale: int, rounding: nat)
    requires gift > 0 && 0 <= unpaid <= gift
    requires rest * gift <= interval * unpaid + gift
    requires interval * rate <= gift * scale + rounding
    ensures rest * rate <= unpaid * scale + rounding + rate
  {
    calc {
      rest * rate * gift;
      == { Rearrange(rest, rate, gift); }
      rest * gift * rate;
      <= { MulMono(rest * gift, interval * unpaid + gift, rate); }
      (interval * unpaid + gift) * rate;
      == { MulDistributes(rate, interval * unpaid, gift); Rearrange(interval, unpaid, rate); }
      interval * rate * unpaid + gift * rate;
      <= { MulMono(interval * rate, gift * scale + rounding, unpaid); }
      (gift * scale + rounding) * unpaid + gift * rate;
      == { MulDistributes(unpaid, gift * scale, rounding); Rearrange(gift, scale, unpaid); }
      gift * unpaid * scale + rounding * unpaid + gift * rate;
      <= { MulMono(unpaid, gift, rounding); }
      gift * unpaid * scale + rounding * gift + gift * rate;
      == { Collect(gift, unpaid * scale, rounding, rate); MulAssociates(gift, unpaid, scale); }
      (unpaid * scale + rounding + rate) * gift;
    }
    MulCancel(rest * rate, unpaid * scale + rounding + rate, gift);
  }

  lemma Rearrange(a: int, b: int, c: int)
    ensures a * b * c == a * c * b
  {}

  lemma Collect(factor: int, a: int, b: int, c: int)
    ensures factor * a + b * factor + factor * c == (a + b + c) * factor
  {}

  lemma RestAtLeast(interval: nat, gift: int, unpaid: int, rest: int, rate: nat, scale: int)
    requires gift > 0 && 0 <= unpaid
    requires interval * unpaid <= rest * gift
    requires gift * scale <= interval * rate
    ensures unpaid * scale <= rest * rate
  {
    calc {
      unpaid * scale * gift;
      == { Rearrange(unpaid, scale, gift); Rearrange(gift, scale, unpaid); }
      gift * scale * unpaid;
      <= { MulMono(gift * scale, interval * rate, unpaid); }
      interval * rate * unpaid;
      == { Rearrange(interval, rate, unpaid); }
      interval * unpaid * rate;
      <= { MulMono(interval * unpaid, rest * gift, rate); }
      rest * gift * rate;
      == { Rearrange(rest, gift, rate); }
      rest * rate * gift;
    }
    MulCancel(unpaid * scale, rest * rate, gift);
  }

  /** The interval a payment leaves unpaid, against its exact unpaid share. */
  lemma UnpaidShare(interval: int, paid: int, gift: int)
    requires interval > 0 && 0 <= paid <= gift && gift > 0
    ensures var rest := -(0 - interval + TruncDiv(interval * paid, gift));
            && 0 <= rest <= interval
            && interval * (gift - paid) <= rest * gift <= interval * (gift - paid) + gift
  {
    MulNonNeg(interval, paid);
    ProRata(interval, paid, gift);
    MulDistributes(gift, interval, -(interval * paid / gift));
    MulDistributes(interval, gift, -paid);
  }

  /**
   Paying part of a gift now and the rest of the interval later, at the same price, supply and
   rate, stays within one unit plus price / 2^64 of the whole gift, plus on the upper side what
   one microsecond earns; all scaled by `GIFT_SCALE`.
   */
  lemma PartialPaymentConserves(input: GiftInput, ceiling: nat)
    requires input.elapsedMicros >= 0 && Gift(input) > 0
    ensures var gift := Gift(input);
            var paid := Capped(gift, ceiling);
            var rest := -AdvancedClock(0, input.elapsedMicros, paid, gift);
            && 0 <= rest <= BoundedElapsed(input.elapsedMicros)
            && gift * GIFT_SCALE - Rounding(input.price)
               <= (paid + Gift(input.(elapsedMicros := rest))) * GIFT_SCALE
               <= gift * GIFT_SCALE + Rounding(input.price) + GiftRate(input)
  {
    var gift, bounded := Gift(input), BoundedElapsed(input.elapsedMicros);
    var paid := Capped(gift, ceiling);
    PositiveGiftNeedsTime(input);
    UnpaidShare(bounded, paid, gift);
    var rest := -AdvancedClock(0, input.elapsedMicros, paid, gift);
    GiftIsLinear(input, bounded);
    assert Gift(input.(elapsedMicros := bounded)) == gift;
    GiftIsLinear(input, rest);
    RateNonNegative(input);
    PiecesFromRates(bounded, gift, paid, rest, Gift(input.(elapsedMicros := rest)), GiftRate(input),
                    GIFT_SCALE, Rounding(input.price));
  }

  lemma RateNonNegative(input: GiftInput)
    ensures 0 <= GiftRate(input)
  {
    MulNonNeg(Min(input.supply, input.supplySnapshot), input.rateBps);
    MulNonNeg(Min(input.supply, input.supplySnapshot) * input.rateBps, input.price);
  }

  // ----- one payment against what its time earned

  /** A payment moves accrual from the clock to the payee, losing at most one rounding and creating at most one microsecond. */
  lemma PaymentMovesAccrual(interval: nat, gift: int, paid: int, rest: int, rate: nat, scale: int, rounding: nat)
    requires gift > 0 && 0 <= paid <= gift
    requires interval * (gift - paid) <= rest * gift <= interval * (gift - paid) + gift
    requires gift * scale <= interval * rate <= gift * scale + rounding
    ensures interval * rate - rounding <= paid * scale + rest * rate <= interval * rate + rate
  {
    var exact := interval * rate;
    calc {
      rest * rate * gift;
      == { Rearrange(rest, rate, gift); }
      rest * gift * rate;
      <= { MulMono(rest * gift, interval * (gift - paid) + gift, rate); }
      (interval * (gift - paid) + gift) * rate;
      == { UnpaidAccrual(interval, gift, paid, rate); MulDistributes(rate, interval * (gift - paid), gift); }
      exact * gift - exact * paid + rate * gift;
      <= { MulMono(gift * scale, exact, paid); Rearrange(gift, scale, paid); }
      exact * gift - gift * paid * scale + rate * gift;
      == { Regroup(exact, gift, paid, scale, rate); }
      (exact - paid * scale + rate) * gift;
    }
    MulCancel(rest * rate, exact - paid * scale + rate, gift);
    calc {
      (exact - paid * scale - rounding) * gift;
      == { Regroup(exact, gift, paid, scale, 0 - rounding); }
      exact * gift - gift * paid * scale - rounding * gift;
      <= { MulMono(paid, gift, rounding); }
      exact * gift - gift * paid * scale - rounding * paid;
      <= { MulMono(exact, gift * scale + rounding, paid); MulDistributes(paid, gift * scale, rounding);
           Rearrange(gift, scale, paid); }
      exact * gift - exact * paid;
      == { UnpaidAccrual(interval, gift, paid, rate); }
      interval * (gift - paid) * rate;
      <= { MulMono(interval * (gift - paid), rest * gift, rate); }
      rest * gift * rate;
      == { Rearrange(rest, gift, rate); }
      rest * rate * gift;
    }
    MulCancel(exact - paid * scale - rounding, rest * rate, gift);
  }

  lemma UnpaidAccrual(interval: int, gift: int, paid: int, rate: int)
    ensures interval * (gift - paid) * rate == interval * rate * gift - interval * rate * paid
  {
    Rearrange(interval, gift - paid, rate);
    MulDistributes(interval * rate, gift, -paid);
  }

  lemma Regroup(exact: int, gift: int, paid: int, scale: int, extra: int)
    ensures exact * gift - gift * paid * scale + extra * gift == (exact - paid * scale + extra) * gift
  {
    MulAssociates(gift, paid, scale);
    MulDistributes(gift, exact - paid * scale, extra);
    MulDistributes(gift, exact, -(paid * scale));
  }

  /** A payment of `amount`, for `time` of the interval it found, sized on `terms`. */
  datatype Payment = Payment(time: nat, amount: nat, terms: GiftInput)

  /** A capped payment and the interval it leaves; the time past the catch-up window is gone. */
  function Pay(terms: GiftInput, ceiling: nat): (result: (Payment, nat))
    requires terms.elapsedMicros >= 0 && Gift(terms) > 0
    ensures result.0.time + result.1 == BoundedElapsed(terms.elapsedMicros)
  {
    var gift, bounded := Gift(terms), BoundedElapsed(terms.elapsedMicros);
    var paid := Capped(gift, ceiling);
    PositiveGiftNeedsTime(terms);
    UnpaidShare(bounded, paid, gift);
    var rest := -AdvancedClock(0, terms.elapsedMicros, paid, gift);
    (Payment(bounded - rest, paid, terms), rest)
  }

  /** The amount is the time at the exact rate, up to one rounding below and one microsecond above. */
  ghost predicate PaysItsTime(payment: Payment) {
    var accrual := payment.time * GiftRate(payment.terms);
    accrual - Rounding(payment.terms.price) <= payment.amount * GIFT_SCALE <= accrual + GiftRate(payment.terms)
  }

  lemma PaymentPaysItsTime(terms: GiftInput, ceiling: nat)
    requires terms.elapsedMicros >= 0 && Gift(terms) > 0
    ensures PaysItsTime(Pay(terms, ceiling).0)
  {
    var gift, bounded := Gift(terms), BoundedElapsed(terms.elapsedMicros);
    var paid, rest := Capped(gift, ceiling), Pay(terms, ceiling).1;
    PositiveGiftNeedsTime(terms);
    UnpaidShare(bounded, paid, gift);
    GiftIsLinear(terms, bounded);
    assert Gift(terms.(elapsedMicros := bounded)) == gift;
    RateNonNegative(terms);
    PaymentMovesAccrual(bounded, gift, paid, rest, GiftRate(terms), GIFT_SCALE, Rounding(terms.price));
    MulDistributes(GiftRate(terms), bounded - rest, rest);
  }

  // ----- whole runs of kicks, at terms that change from kick to kick

  /**
   What a kick meets. `wait` is how long after the previous one it comes; `due` and `priced` are
   the gates in front of it (the pool's shortest interval; a mature observation and an undisturbed
   spot), then come the terms of the moment, and `ceiling` is what the day and the budget still
   allow.
   */
  datatype Tick = Tick(
    wait: nat,
    due: bool,
    priced: bool,
    supply: nat,
    rateBps: nat,
    price: nat,
    minimumGift: nat,
    ceiling: nat
  )

  /** The unpaid interval, the supply it is sized on, the time given up and the payments made. */
  datatype Pool = Pool(rest: nat, supplySnapshot: nat, forfeited: nat, payments: seq<Payment>)

  function Terms(pool: Pool, tick: Tick): GiftInput {
    GiftInput(tick.supply, pool.supplySnapshot, tick.rateBps, pool.rest + tick.wait, tick.price)
  }

  /** No payment, and the interval keeps growing. */
  function Hold(pool: Pool, tick: Tick): Pool {
    pool.(rest := pool.rest + tick.wait)
  }

  /** No payment, and the pool starts over from the current supply. */
  function Checkpoint(pool: Pool, tick: Tick): Pool {
    pool.(rest := 0, supplySnapshot := tick.supply, forfeited := pool.forfeited + pool.rest + tick.wait)
  }

  function Kick(pool: Pool, tick: Tick): Pool {
    var terms := Terms(pool, tick);
    var gift := Gift(terms);
    if !tick.due then Hold(pool, tick)
    else if tick.supply == 0 || pool.supplySnapshot == 0 then Checkpoint(pool, tick)
    else if !tick.priced then Hold(pool, tick)
    else if CheckpointsBelowMinimum(terms, tick.minimumGift) then Checkpoint(pool, tick)
    else if gift < tick.minimumGift || gift <= 0 || tick.ceiling == 0 then Hold(pool, tick)
    else
      var (payment, rest) := Pay(terms, tick.ceiling);
      Pool(
        rest,
        if payment.amount == gift then tick.supply else Min(tick.supply, pool.supplySnapshot),
        pool.forfeited + (terms.elapsedMicros - BoundedElapsed(terms.elapsedMicros)),
        pool.payments + [payment])
  }

  // ----- what a kick does, in numbers

  /** What is due to the pool: the gift on the terms it finds. */
  function Due(pool: Pool, tick: Tick): int {
    Gift(GiftInput(tick.supply, pool.supplySnapshot, tick.rateBps, pool.rest + tick.wait, tick.price))
  }

  /** What would be due if the snapshot were the current supply. */
  function DueOnSupply(pool: Pool, tick: Tick): int {
    Gift(GiftInput(tick.supply, tick.supply, tick.rateBps, pool.rest + tick.wait, tick.price))
  }

  predicate MustPay(pool: Pool, tick: Tick) {
    && tick.due && tick.priced && tick.supply > 0 && pool.supplySnapshot > 0 && tick.ceiling > 0
    && Due(pool, tick) > 0 && Due(pool, tick) >= tick.minimumGift
  }

  predicate MustCheckpoint(pool: Pool, tick: Tick) {
    && tick.due
    && (|| tick.supply == 0
        || pool.supplySnapshot == 0
        || (&& tick.priced && pool.rest + tick.wait >= 259_200_000_000
            && Due(pool, tick) < tick.minimumGift <= DueOnSupply(pool, tick)))
  }

  /** What a kick that must pay owes: all that is due, or what the ceiling leaves. */
  function Owes(pool: Pool, tick: Tick): int {
    if Due(pool, tick) <= tick.ceiling then Due(pool, tick) else tick.ceiling
  }

  /** One payment was added and nothing before it touched. */
  predicate OnePaymentMore(before: Pool, after: Pool) {
    |after.payments| == |before.payments| + 1 && after.payments[..|before.payments|] == before.payments
  }

  lemma ForfeitInNumbers(pool: Pool, tick: Tick)
    ensures CheckpointsBelowMinimum(Terms(pool, tick), tick.minimumGift) <==>
            pool.rest + tick.wait >= 259_200_000_000 && Due(pool, tick) < tick.minimumGift <= DueOnSupply(pool, tick)
  {
    ForfeitsExactlyWhenSnapshotBlocks(Terms(pool, tick), tick.minimumGift);
  }

  /**
   A kick pays exactly when it is due and priced, supply, snapshot, gift and ceiling are positive
   and the gift reaches the minimum. It then pays the smaller of gift and ceiling, leaves unpaid
   what the floored share of at most 72 hours leaves, gives up the time before those, and sizes
   the rest on the current supply if paid in full and on the smaller of supply and snapshot if not.
   */
  lemma KickPaysExactly(pool: Pool, tick: Tick)
    ensures MustPay(pool, tick) <==> OnePaymentMore(pool, Kick(pool, tick))
    ensures !MustPay(pool, tick) ==> Kick(pool, tick).payments == pool.payments
    ensures MustPay(pool, tick) ==>
      var after, elapsed, due := Kick(pool, tick), pool.rest + tick.wait, Due(pool, tick);
      var bounded := if elapsed < 259_200_000_000 then elapsed else 259_200_000_000;
      var payment := after.payments[|pool.payments|];
      && payment.amount == (if due <= tick.ceiling then due else tick.ceiling)
      && payment.time + after.rest == bounded
      && payment.time * due <= bounded * payment.amount < (payment.time + 1) * due
      && after.forfeited == pool.forfeited + elapsed - bounded
      && after.supplySnapshot ==
           (if due <= tick.ceiling || tick.supply < pool.supplySnapshot then tick.supply else pool.supplySnapshot)
      && payment.terms == GiftInput(tick.supply, pool.supplySnapshot, tick.rateBps, elapsed, tick.price)
  {
    ForfeitInNumbers(pool, tick);
    if MustPay(pool, tick) {
      ClocksInNumbers(0, pool.rest + tick.wait, Owes(pool, tick), Due(pool, tick));
    }
  }

  /** And when it does not pay it either starts over from the current supply or only waits. */
  lemma KickCheckpointsOrWaits(pool: Pool, tick: Tick)
    ensures MustCheckpoint(pool, tick) ==>
      && !MustPay(pool, tick)
      && Kick(pool, tick) == Pool(0, tick.supply, pool.forfeited + pool.rest + tick.wait, pool.payments)
    ensures !MustCheckpoint(pool, tick) && !MustPay(pool, tick) ==>
      Kick(pool, tick) == Pool(pool.rest + tick.wait, pool.supplySnapshot, pool.forfeited, pool.payments)
  {
    ForfeitInNumbers(pool, tick);
  }

  function Kicks(pool: Pool, ticks: seq<Tick>): Pool {
    if ticks == [] then pool else Kick(Kicks(pool, ticks[..|ticks| - 1]), ticks[|ticks| - 1])
  }

  function Waited(ticks: seq<Tick>): nat {
    if ticks == [] then 0 else Waited(ticks[..|ticks| - 1]) + ticks[|ticks| - 1].wait
  }

  /** How many kicks of a run must pay. */
  function DuePayments(pool: Pool, ticks: seq<Tick>): nat {
    if ticks == [] then 0
    else
      var before, last := ticks[..|ticks| - 1], ticks[|ticks| - 1];
      DuePayments(pool, before) + if MustPay(Kicks(pool, before), last) then 1 else 0
  }

  /** What they owe together. */
  function DueTotal(pool: Pool, ticks: seq<Tick>): int {
    if ticks == [] then 0
    else
      var before, last := ticks[..|ticks| - 1], ticks[|ticks| - 1];
      DueTotal(pool, before) + if MustPay(Kicks(pool, before), last) then Owes(Kicks(pool, before), last) else 0
  }

  function TimePaid(payments: seq<Payment>): nat {
    if payments == [] then 0 else TimePaid(payments[..|payments| - 1]) + payments[|payments| - 1].time
  }

  function Paid(payments: seq<Payment>): nat {
    if payments == [] then 0 else Paid(payments[..|payments| - 1]) + payments[|payments| - 1].amount
  }

  /** The time paid for at each payment's own exact rate. */
  function Accrual(payments: seq<Payment>): int {
    if payments == [] then 0
    else
      var last := payments[|payments| - 1];
      Accrual(payments[..|payments| - 1]) + last.time * GiftRate(last.terms)
  }

  /** One microsecond's gift for every payment. */
  function Slips(payments: seq<Payment>): int {
    if payments == [] then 0 else Slips(payments[..|payments| - 1]) + GiftRate(payments[|payments| - 1].terms)
  }

  /** One rounding for every payment. */
  function Roundings(payments: seq<Payment>): int {
    if payments == [] then 0 else Roundings(payments[..|payments| - 1]) + Rounding(payments[|payments| - 1].terms.price)
  }

  /** Every payment on record pays for its time. */
  ghost predicate AllPayTheirTime(payments: seq<Payment>) {
    forall i :: 0 <= i < |payments| ==> PaysItsTime(payments[i])
  }

  lemma KickKeepsPayments(pool: Pool, tick: Tick)
    requires AllPayTheirTime(pool.payments)
    ensures AllPayTheirTime(Kick(pool, tick).payments)
  {
    if Kick(pool, tick).payments != pool.payments {
      PaymentPaysItsTime(Terms(pool, tick), tick.ceiling);
    }
  }

  lemma KickAccountsForTime(pool: Pool, tick: Tick)
    ensures var after := Kick(pool, tick);
            after.rest + after.forfeited + TimePaid(after.payments)
            == pool.rest + pool.forfeited + TimePaid(pool.payments) + tick.wait
  {
    var after := Kick(pool, tick);
    if after.payments != pool.payments {
      assert after.payments[..|after.payments| - 1] == pool.payments;
    }
  }

  /** A run makes every payment that falls due, in full or up to its ceiling, and no other. */
  lemma {:induction false} RunPaysWhatFallsDue(pool: Pool, ticks: seq<Tick>)
    ensures |Kicks(pool, ticks).payments| == |pool.payments| + DuePayments(pool, ticks)
    ensures Paid(Kicks(pool, ticks).payments) == Paid(pool.payments) + DueTotal(pool, ticks)
  {
    if ticks == [] {
      return;
    }
    var before, last := Kicks(pool, ticks[..|ticks| - 1]), ticks[|ticks| - 1];
    RunPaysWhatFallsDue(pool, ticks[..|ticks| - 1]);
    KickPaysExactly(before, last);
  }

  /**
   No time is lost or paid for twice: whatever gates, caps, supplies and prices a run of kicks
   meets, the time that passed is the time paid for by the payments that fell due, the time still
   unpaid and the time forfeited.
   */
  lemma {:induction false} RunAccountsForTime(pool: Pool, ticks: seq<Tick>)
    ensures var after := Kicks(pool, ticks);
            && after.rest + after.forfeited + TimePaid(after.payments)
               == pool.rest + pool.forfeited + TimePaid(pool.payments) + Waited(ticks)
            && |after.payments| == |pool.payments| + DuePayments(pool, ticks)
  {
    RunPaysWhatFallsDue(pool, ticks);
    if ticks == [] {
      return;
    }
    RunAccountsForTime(pool, ticks[..|ticks| - 1]);
    KickAccountsForTime(Kicks(pool, ticks[..|ticks| - 1]), ticks[|ticks| - 1]);
  }

  lemma {:induction false} RunKeepsPayments(pool: Pool, ticks: seq<Tick>)
    requires AllPayTheirTime(pool.payments)
    ensures AllPayTheirTime(Kicks(pool, ticks).payments)
  {
    if ticks == [] {
      return;
    }
    RunKeepsPayments(pool, ticks[..|ticks| - 1]);
    KickKeepsPayments(Kicks(pool, ticks[..|ticks| - 1]), ticks[|ticks| - 1]);
  }

  lemma {:induction false} PaymentsAddUp(payments: seq<Payment>)
    requires AllPayTheirTime(payments)
    ensures Accrual(payments) - Roundings(payments) <= Paid(payments) * GIFT_SCALE <= Accrual(payments) + Slips(payments)
  {
    if payments == [] {
      return;
    }
    var last := payments[|payments| - 1];
    PaymentsAddUp(payments[..|payments| - 1]);
    MulDistributes(GIFT_SCALE, Paid(payments[..|payments| - 1]), last.amount);
    assert PaysItsTime(last);
  }

  /**
   Capping payments neither creates nor destroys yield: over every run of kicks, each at its own
   supply, snapshot, rate and price, the sum that fell due is paid, and it is the time paid for at
   the rates it was paid at, short by at most one rounding a payment and over by at most one
   microsecond a payment.
   */
  lemma RunPaysItsAccrual(pool: Pool, ticks: seq<Tick>)
    requires pool.payments == []
    ensures var payments := Kicks(pool, ticks).payments;
            && Paid(payments) == DueTotal(pool, ticks)
            && Accrual(payments) - Roundings(payments) <= Paid(payments) * GIFT_SCALE <= Accrual(payments) + Slips(payments)
  {
    RunPaysWhatFallsDue(pool, ticks);
    RunKeepsPayments(pool, ticks);
    PaymentsAddUp(Kicks(pool, ticks).payments);
  }

  /** Every payment at one rate and price. */
  ghost predicate Steady(payments: seq<Payment>, rate: int, price: nat) {
    forall i :: 0 <= i < |payments| ==> GiftRate(payments[i].terms) == rate && payments[i].terms.price == price
  }

  lemma {:induction false} SteadySums(payments: seq<Payment>, rate: int, price: nat)
    requires Steady(payments, rate, price)
    ensures Accrual(payments) == TimePaid(payments) * rate
    ensures Slips(payments) == |payments| * rate && Roundings(payments) == |payments| * Rounding(price)
  {
    if payments == [] {
      return;
    }
    var n := |payments| - 1;
    SteadySums(payments[..n], rate, price);
    MulDistributes(rate, TimePaid(payments[..n]), payments[n].time);
    MulDistributes(rate, n, 1);
    MulDistributes(Rounding(price), n, 1);
  }

  /**
   At a steady rate the caps only delay: all that fell due, which is all a run has paid, is the time that passed, less what
   is unpaid or forfeited, at that rate, within one rounding and one microsecond a payment.
   */
  lemma SteadyRunOnlyDelays(pool: Pool, ticks: seq<Tick>, rate: int, price: nat)
    requires pool.payments == [] && Steady(Kicks(pool, ticks).payments, rate, price)
    ensures var after := Kicks(pool, ticks);
            var time := pool.rest + pool.forfeited + Waited(ticks) - after.rest - after.forfeited;
            && |after.payments| == DuePayments(pool, ticks)
            && time * rate - |after.payments| * Rounding(price) <= DueTotal(pool, ticks) * GIFT_SCALE
            && DueTotal(pool, ticks) * GIFT_SCALE <= time * rate + |after.payments| * rate
  {
    RunPaysItsAccrual(pool, ticks);
    RunAccountsForTime(pool, ticks);
    SteadySums(Kicks(pool, ticks).payments, rate, price);
  }

  // ----- supply issued while time is unpaid

  /** Only a kick that brings the clock up to now can raise the supply the next interval is sized on. */
  lemma SnapshotRisesOnlyWhenSettled(pool: Pool, tick: Tick)
    ensures Kick(pool, tick).supplySnapshot > pool.supplySnapshot ==> Kick(pool, tick).rest == 0
    ensures Kick(pool, tick).payments != pool.payments ==>
      && Kick(pool, tick).payments == pool.payments + [Pay(Terms(pool, tick), tick.ceiling).0]
      && (Kick(pool, tick).rest == 0 <==> Gift(Terms(pool, tick)) <= tick.ceiling)
  {
    var terms := Terms(pool, tick);
    if Gift(terms) > 0 {
      PartialClockLands(terms, 0, tick.ceiling);
    }
  }

  /** Every payment from the `from`-th on is sized on at most `supply`. */
  ghost predicate SizedWithin(payments: seq<Payment>, from: nat, supply: nat) {
    forall k :: from <= k < |payments| ==> payments[k].terms.supplySnapshot <= supply
  }

  /**
   Supply issued while an interval is unpaid earns nothing for it: until a kick brings the clock
   up to now, every payment is sized on at most the supply held when the interval began, however
   much is minted and however often a part is paid.
   */
  lemma {:induction false} IssuedSupplyWaits(pool: Pool, ticks: seq<Tick>)
    requires forall i :: 0 < i <= |ticks| ==> Kicks(pool, ticks[..i]).rest > 0
    ensures Kicks(pool, ticks).supplySnapshot <= pool.supplySnapshot
    ensures |Kicks(pool, ticks).payments| == |pool.payments| + DuePayments(pool, ticks)
    ensures SizedWithin(Kicks(pool, ticks).payments, |pool.payments|, pool.supplySnapshot)
  {
    RunPaysWhatFallsDue(pool, ticks);
    if ticks == [] {
      return;
    }
    var n := |ticks| - 1;
    assert forall i :: 0 < i <= n ==> ticks[..n][..i] == ticks[..i];
    assert ticks[..|ticks|] == ticks;
    IssuedSupplyWaits(pool, ticks[..n]);
    SnapshotRisesOnlyWhenSettled(Kicks(pool, ticks[..n]), ticks[n]);
  }
}
