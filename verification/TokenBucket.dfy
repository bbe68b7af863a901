/**
 The syndication rate limit: a bucket refilled lazily by elapsed epochs, and the queue of arrivals
 it releases in tranches, first come first served.
 */
module TokenBucket {
  import opened Arithmetic

  /** The scenario's configuration: burst capacity and refill per epoch. */
  datatype Limits = Limits(burst: nat, refill: nat)

  datatype Bucket = Bucket(level: int, lastEpoch: int)

  /** The level a crank finds after refilling for the epochs since the last one. */
  function Refilled(limits: Limits, bucket: Bucket, epoch: int): int {
    Min(bucket.level + limits.refill * (epoch - bucket.lastEpoch), limits.burst)
  }

  /** What the scenario checks of one crank: the clock moves on, the release is covered, the rest stays. */
  predicate RefillHolds(limits: Limits, previous: Bucket, current: Bucket, released: int) {
    && current.lastEpoch >= previous.lastEpoch
    && 0 <= released <= Refilled(limits, previous, current.lastEpoch)
    && current.level == Refilled(limits, previous, current.lastEpoch) - released
  }

  /** The check is met exactly when time has not gone back and release and level, neither negative, split what the cap leaves. */
  lemma RefillHoldsExactly(limits: Limits, previous: Bucket, current: Bucket, released: int)
    ensures RefillHolds(limits, previous, current, released) <==>
      && previous.lastEpoch <= current.lastEpoch && released >= 0 && current.level >= 0
      && var offered := previous.level + limits.refill * (current.lastEpoch - previous.lastEpoch);
         released + current.level == if offered < limits.burst then offered else limits.burst
  {}

  /** A run of cranks: the bucket after each, and what each released. */
  datatype Crank = Crank(bucket: Bucket, released: int)

  /** The bucket a run's crank `i` finds. */
  function Before(start: Bucket, cranks: seq<Crank>, i: nat): Bucket
    requires i <= |cranks|
  {
    if i == 0 then start else cranks[i - 1].bucket
  }

  predicate CrankHolds(limits: Limits, start: Bucket, cranks: seq<Crank>, i: nat)
    requires i < |cranks|
  {
    RefillHolds(limits, Before(start, cranks, i), cranks[i].bucket, cranks[i].released)
  }

  ghost predicate Cranks(limits: Limits, start: Bucket, cranks: seq<Crank>) {
    forall i :: 0 <= i < |cranks| ==> CrankHolds(limits, start, cranks, i)
  }

  /** Any stretch of a run is a run from the bucket it finds. */
  lemma CranksSlice(limits: Limits, start: Bucket, cranks: seq<Crank>, i: nat, j: nat)
    requires Cranks(limits, start, cranks) && i <= j <= |cranks|
    ensures Cranks(limits, Before(start, cranks, i), cranks[i..j])
  {
    forall k | 0 <= k < j - i ensures CrankHolds(limits, Before(start, cranks, i), cranks[i..j], k) {
      assert CrankHolds(limits, start, cranks, i + k);
      assert Before(Before(start, cranks, i), cranks[i..j], k) == Before(start, cranks, i + k);
    }
  }

  function Released(cranks: seq<Crank>): int {
    if cranks == [] then 0 else Released(cranks[..|cranks| - 1]) + cranks[|cranks| - 1].released
  }

  /** One refill for several epochs is as many single-epoch refills, each capped. */
  function StepwiseRefill(limits: Limits, level: int, epochs: nat): int {
    if epochs == 0 then Min(level, limits.burst)
    else Min(StepwiseRefill(limits, level, epochs - 1) + limits.refill, limits.burst)
  }

  lemma {:induction false} LazyRefillIsStepwise(limits: Limits, bucket: Bucket, epochs: nat)
    ensures Refilled(limits, bucket, bucket.lastEpoch + epochs) == StepwiseRefill(limits, bucket.level, epochs)
  {
    if epochs > 0 {
      LazyRefillIsStepwise(limits, bucket, epochs - 1);
      MulDistributes(limits.refill, epochs - 1, 1);
      MulNonNeg(limits.refill, epochs - 1);
    }
  }

  /** The level never leaves [0, burst], whatever the run of cranks. */
  lemma {:induction false} LevelStaysInRange(limits: Limits, start: Bucket, cranks: seq<Crank>)
    requires Cranks(limits, start, cranks) && cranks != []
    ensures 0 <= cranks[|cranks| - 1].bucket.level <= limits.burst
    ensures start.lastEpoch <= cranks[|cranks| - 1].bucket.lastEpoch
  {
    var n := |cranks| - 1;
    assert CrankHolds(limits, start, cranks, n);
    if n > 0 {
      CranksSlice(limits, start, cranks, 0, n);
      LevelStaysInRange(limits, start, cranks[0..n]);
    }
  }

  lemma CrankIsFunded(limits: Limits, previous: Bucket, current: Bucket, released: int)
    requires RefillHolds(limits, previous, current, released)
    ensures released + current.level <= limits.burst
    ensures released + current.level <= previous.level + limits.refill * (current.lastEpoch - previous.lastEpoch)
  {}

  lemma RefillsAdd(refill: int, first: int, middle: int, last: int)
    ensures refill * (middle - first) + refill * (last - middle) == refill * (last - first)
  {
    MulDistributes(refill, middle - first, last - middle);
  }

  /** What leaves the bucket came in as level or as refill. */
  lemma {:induction false} ReleasesAreFunded(limits: Limits, start: Bucket, cranks: seq<Crank>)
    requires Cranks(limits, start, cranks) && cranks != []
    ensures Released(cranks) + cranks[|cranks| - 1].bucket.level
         <= limits.burst + limits.refill * (cranks[|cranks| - 1].bucket.lastEpoch - cranks[0].bucket.lastEpoch)
  {
    var n := |cranks| - 1;
    assert CrankHolds(limits, start, cranks, n);
    CrankIsFunded(limits, Before(start, cranks, n), cranks[n].bucket, cranks[n].released);
    if n == 0 {
      assert Released(cranks) == Released([]) + cranks[0].released;
      return;
    }
    CranksSlice(limits, start, cranks, 0, n);
    assert cranks[0..n] == cranks[..n];
    ReleasesAreFunded(limits, start, cranks[..n]);
    RefillsAdd(limits.refill, cranks[0].bucket.lastEpoch, cranks[n - 1].bucket.lastEpoch, cranks[n].bucket.lastEpoch);
  }

  /** What the burst capacity turned away when the cranks refilled. */
  function Spilled(limits: Limits, start: Bucket, cranks: seq<Crank>): int {
    if cranks == [] then 0
    else
      var n := |cranks| - 1;
      var before := Before(start, cranks, n);
      var offered := before.level + limits.refill * (cranks[n].bucket.lastEpoch - before.lastEpoch);
      Spilled(limits, start, cranks[..n]) + if offered > limits.burst then offered - limits.burst else 0
  }

  /** The bucket neither makes tokens nor loses any: level, releases and spill are the first level and every refill since. */
  lemma {:induction false} TokensAreConserved(limits: Limits, start: Bucket, cranks: seq<Crank>)
    requires Cranks(limits, start, cranks) && cranks != []
    ensures cranks[|cranks| - 1].bucket.level + Released(cranks) + Spilled(limits, start, cranks)
         == start.level + limits.refill * (cranks[|cranks| - 1].bucket.lastEpoch - start.lastEpoch)
  {
    var n := |cranks| - 1;
    assert CrankHolds(limits, start, cranks, n);
    if n == 0 {
      assert cranks[..0] == [];
      return;
    }
    CranksSlice(limits, start, cranks, 0, n);
    assert cranks[0..n] == cranks[..n];
    TokensAreConserved(limits, start, cranks[..n]);
    RefillsAdd(limits.refill, start.lastEpoch, cranks[n - 1].bucket.lastEpoch, cranks[n].bucket.lastEpoch);
  }

  /** Any window of cranks, from the one at `i` to the one at `j`, releases at most one burst and the window's refills. */
  lemma WindowIsLimited(limits: Limits, start: Bucket, cranks: seq<Crank>, i: nat, j: nat)
    requires Cranks(limits, start, cranks) && i <= j < |cranks|
    ensures Released(cranks[i..j + 1])
         <= limits.burst + limits.refill * (cranks[j].bucket.lastEpoch - cranks[i].bucket.lastEpoch)
  {
    CranksSlice(limits, start, cranks, i, j + 1);
    ReleasesAreFunded(limits, Before(start, cranks, i), cranks[i..j + 1]);
    LevelStaysInRange(limits, Before(start, cranks, i), cranks[i..j + 1]);
  }

  // ----- the queue of arrivals

  /** A one-shot arrival-order allocation of `total`: each arrival is filled before the next gets anything. */
  function Allocate(amounts: seq<nat>, total: nat): (credits: seq<nat>)
    ensures |credits| == |amounts|
  {
    if amounts == [] then []
    else
      var first := if total < amounts[0] then total else amounts[0];
      [first] + Allocate(amounts[1..], total - first)
  }

  /** One tranche poured over what earlier tranches left: each arrival takes what it still lacks. */
  function Pour(amounts: seq<nat>, credits: seq<nat>, tranche: nat): (poured: seq<nat>)
    requires |credits| == |amounts|
    ensures |poured| == |amounts|
  {
    if amounts == [] then []
    else
      var lacking := if credits[0] < amounts[0] then amounts[0] - credits[0] else 0;
      var taken := if tranche < lacking then tranche else lacking;
      [credits[0] + taken] + Pour(amounts[1..], credits[1..], tranche - taken)
  }

  function PourAll(amounts: seq<nat>, tranches: seq<nat>): (credits: seq<nat>)
    ensures |credits| == |amounts|
  {
    if tranches == [] then seq(|amounts|, _ => 0)
    else Pour(amounts, PourAll(amounts, tranches[..|tranches| - 1]), tranches[|tranches| - 1])
  }

  lemma {:induction false} AllocateNothing(amounts: seq<nat>)
    ensures Allocate(amounts, 0) == seq(|amounts|, _ => 0)
  {
    if amounts != [] {
      AllocateNothing(amounts[1..]);
      assert [0] + seq(|amounts| - 1, _ => 0) == seq(|amounts|, _ => 0);
    }
  }

  lemma {:induction false} PourExtendsAllocation(amounts: seq<nat>, total: nat, tranche: nat)
    ensures Pour(amounts, Allocate(amounts, total), tranche) == Allocate(amounts, total + tranche)
  {
    if amounts == [] {
      return;
    }
    var first := Min(total, amounts[0]);
    assert Allocate(amounts, total)[1..] == Allocate(amounts[1..], total - first);
    PourExtendsAllocation(amounts[1..], total - first, tranche - Min(tranche, amounts[0] - first));
  }

  /** However the released total is split into tranches, the balances are those of one arrival-order allocation. */
  lemma {:induction false} TranchesAreOneAllocation(amounts: seq<nat>, tranches: seq<nat>)
    ensures PourAll(amounts, tranches) == Allocate(amounts, Sum(tranches))
  {
    if tranches == [] {
      AllocateNothing(amounts);
    } else {
      var n := |tranches| - 1;
      SumSplitLast(tranches);
      TranchesAreOneAllocation(amounts, tranches[..n]);
      PourExtendsAllocation(amounts, Sum(tranches[..n]), tranches[n]);
    }
  }

  /** First come first served: nobody is over-credited, and a later arrival has nothing until every earlier one is full. */
  ghost predicate InArrivalOrder(amounts: seq<nat>, credits: seq<nat>) {
    && |credits| == |amounts|
    && (forall i :: 0 <= i < |amounts| ==> credits[i] <= amounts[i])
    && forall i, j :: 0 <= i < j < |amounts| && credits[j] > 0 ==> credits[i] == amounts[i]
  }

  /** One more arrival in front: full, or the only one with anything. */
  lemma InOrderCons(amount: nat, credit: nat, amounts: seq<nat>, credits: seq<nat>)
    requires InArrivalOrder(amounts, credits) && credit <= amount
    requires credit == amount || credits == seq(|amounts|, _ => 0)
    ensures InArrivalOrder([amount] + amounts, [credit] + credits)
  {}

  lemma {:induction false} AllocationAddsUp(amounts: seq<nat>, total: nat)
    ensures Sum(Allocate(amounts, total)) == Min(total, Sum(amounts))
  {
    if amounts == [] {
      return;
    }
    var first := Min(total, amounts[0]);
    AllocationAddsUp(amounts[1..], total - first);
    assert Allocate(amounts, total)[1..] == Allocate(amounts[1..], total - first);
  }

  lemma {:induction false} AllocationIsInOrder(amounts: seq<nat>, total: nat)
    ensures InArrivalOrder(amounts, Allocate(amounts, total))
    ensures Sum(Allocate(amounts, total)) == Min(total, Sum(amounts))
  {
    AllocationAddsUp(amounts, total);
    if amounts == [] {
      return;
    }
    var first := Min(total, amounts[0]);
    AllocationIsInOrder(amounts[1..], total - first);
    if first < amounts[0] {
      AllocateNothing(amounts[1..]);
    }
    InOrderCons(amounts[0], first, amounts[1..], Allocate(amounts[1..], total - first));
    assert [amounts[0]] + amounts[1..] == amounts;
  }

  lemma {:induction false} ZeroSum(credits: seq<nat>)
    requires forall i :: 0 <= i < |credits| ==> credits[i] == 0
    ensures Sum(credits) == 0 && credits == seq(|credits|, _ => 0)
  {
    if credits != [] {
      ZeroSum(credits[1..]);
    }
  }

  /** Arrival order and the released total leave no choice: the allocation is the only credits that honour both. */
  lemma {:induction false} ArrivalOrderIsUnique(amounts: seq<nat>, credits: seq<nat>)
    requires InArrivalOrder(amounts, credits)
    ensures credits == Allocate(amounts, Sum(credits))
  {
    if amounts != [] {
      assert InArrivalOrder(amounts[1..], credits[1..]);
      if credits[0] == amounts[0] {
        ArrivalOrderIsUnique(amounts[1..], credits[1..]);
      } else {
        assert forall j :: 0 < j < |credits| ==> credits[j] == 0;
        ZeroSum(credits[1..]);
        AllocateNothing(amounts[1..]);
      }
      assert credits == [credits[0]] + credits[1..];
    }
  }

  /** The scenario's own split of its refill tranche between two arrivals is that allocation. */
  lemma RefillTrancheSplit(burst: nat, refill: nat, released: nat)
    requires refill <= burst && released <= burst
    ensures var toFirst := if released < refill then released else refill;
            Allocate([burst + refill, burst - refill], burst + released) == [burst + toFirst, released - toFirst]
  {
    var amounts: seq<nat> := [burst + refill, burst - refill];
    assert amounts[1..] == [burst - refill];
    var toFirst := if released < refill then released else refill;
    assert Allocate([burst - refill], released - toFirst) == [released - toFirst];
  }

  // ----- draining

  /** What repeated cranks have left in the bucket and in the queue, and the tranches they released. */
  datatype Drained = Drained(level: nat, queued: nat, tranches: seq<nat>)

  /** One crank an epoch, each releasing all it may of what is still queued. */
  function Drain(limits: Limits, level: nat, queued: nat, epochs: nat): (drained: Drained)
    requires level <= limits.burst
    ensures drained.level <= limits.burst && |drained.tranches| == epochs
  {
    if epochs == 0 then Drained(level, queued, [])
    else
      var before := Drain(limits, level, queued, epochs - 1);
      var found := Min(before.level + limits.refill, limits.burst);
      var released := Min(found, before.queued);
      Drained(found - released, before.queued - released, before.tranches + [released])
  }

  /** A crank an epoch is a run the scenario's check accepts, and frees at least one capped refill while any is queued. */
  lemma {:induction false} DrainProgress(limits: Limits, level: nat, queued: nat, epochs: nat)
    requires level <= limits.burst
    ensures Drain(limits, level, queued, epochs).queued
         <= Max0(queued - epochs * Min(limits.refill, limits.burst))
    ensures epochs > 0 ==>
      RefillHolds(limits, Bucket(Drain(limits, level, queued, epochs - 1).level, epochs - 1),
                  Bucket(Drain(limits, level, queued, epochs).level, epochs),
                  Drain(limits, level, queued, epochs).tranches[epochs - 1])
  {
    if epochs > 0 {
      DrainProgress(limits, level, queued, epochs - 1);
      MulDistributes(Min(limits.refill, limits.burst), epochs - 1, 1);
      assert limits.refill * (epochs - (epochs - 1)) == limits.refill;
    }
  }

  function Max0(a: int): nat {
    if a < 0 then 0 else a
  }

  /** What leaves the queue is in the tranches. */
  lemma {:induction false} DrainConserves(limits: Limits, level: nat, queued: nat, epochs: nat)
    requires level <= limits.burst
    ensures Drain(limits, level, queued, epochs).queued + Sum(Drain(limits, level, queued, epochs).tranches) == queued
  {
    if epochs == 0 {
      return;
    }
    DrainConserves(limits, level, queued, epochs - 1);
    var before, after := Drain(limits, level, queued, epochs - 1), Drain(limits, level, queued, epochs);
    SumAppend(before.tranches, after.tranches[epochs - 1]);
  }

  lemma {:induction false} AllocateEverything(amounts: seq<nat>)
    ensures Allocate(amounts, Sum(amounts)) == amounts
  {
    if amounts != [] {
      AllocateEverything(amounts[1..]);
    }
  }

  /**
   Once the epochs' capped refills cover the queue, its tranches, poured in arrival order, have
   made every single arrival whole.
   */
  lemma EveryQueueDrains(limits: Limits, level: nat, amounts: seq<nat>, epochs: nat)
    requires level <= limits.burst && Sum(amounts) <= epochs * Min(limits.refill, limits.burst)
    ensures var drained := Drain(limits, level, Sum(amounts), epochs);
            drained.queued == 0 && PourAll(amounts, drained.tranches) == amounts
  {
    DrainProgress(limits, level, Sum(amounts), epochs);
    DrainConserves(limits, level, Sum(amounts), epochs);
    TranchesAreOneAllocation(amounts, Drain(limits, level, Sum(amounts), epochs).tranches);
    AllocateEverything(amounts);
  }
}
