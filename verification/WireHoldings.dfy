/**
 A joint snapshot of several WIRE accounts, taken with single-account reads while transfers run:
 the reads are repeated, and a repeated answer is trusted.
 */
module WireHoldings {
  import opened Arithmetic
  import opened Wrappers

  /** Every account's balance at one instant. */
  datatype Balances = Balances(treasury: nat, buckets: seq<nat>, kicker: nat)

  /** What a read reports: the category buckets are summed. */
  datatype Holdings = Holdings(treasury: nat, categoryBuckets: nat, kicker: nat)

  /** The instants at which the chain served one read's requests. */
  datatype Collect = Collect(treasuryAt: nat, bucketsAt: seq<nat>, kickerAt: nat)

  datatype HoldingsError = DeadlinePassed

  /** The chain's balances, instant by instant, over `accounts` bucket accounts. */
  ghost predicate History(world: seq<Balances>, accounts: nat) {
    forall t :: 0 <= t < |world| ==> |world[t].buckets| == accounts
  }

  /** The treasury and bucket requests are issued together; the kicker's only once they have all answered. */
  ghost predicate Served(world: seq<Balances>, accounts: nat, collect: Collect) {
    && |collect.bucketsAt| == accounts
    && collect.treasuryAt <= collect.kickerAt < |world|
    && forall k :: 0 <= k < accounts ==> collect.bucketsAt[k] <= collect.kickerAt
  }

  /** Every request of the later read is served after the earlier read has answered. */
  ghost predicate Follows(earlier: Collect, later: Collect) {
    && earlier.kickerAt <= later.treasuryAt
    && forall k :: 0 <= k < |later.bucketsAt| ==> earlier.kickerAt <= later.bucketsAt[k]
  }

  ghost predicate Schedule(world: seq<Balances>, accounts: nat, collects: seq<Collect>) {
    && History(world, accounts)
    && (forall i :: 0 <= i < |collects| ==> Served(world, accounts, collects[i]))
    && forall i :: 0 < i < |collects| ==> Follows(collects[i - 1], collects[i])
  }

  /** The bucket balances one read sees, each at its own instant. */
  function BucketsSeen(world: seq<Balances>, accounts: nat, collect: Collect): seq<nat>
    requires History(world, accounts) && Served(world, accounts, collect)
  {
    seq(accounts, k requires 0 <= k < accounts => world[collect.bucketsAt[k]].buckets[k])
  }

  function Read(world: seq<Balances>, accounts: nat, collect: Collect): Holdings
    requires History(world, accounts) && Served(world, accounts, collect)
  {
    Holdings(world[collect.treasuryAt].treasury, Sum(BucketsSeen(world, accounts, collect)), world[collect.kickerAt].kicker)
  }

  /** The true joint state at one instant. */
  function Joint(balances: Balances): Holdings {
    Holdings(balances.treasury, Sum(balances.buckets), balances.kicker)
  }

  /** Between two instants the treasury only falls, each bucket only rises and the kicker's balance stands still. */
  ghost predicate Monotone(world: seq<Balances>, accounts: nat, from: nat, to: nat)
    requires History(world, accounts) && to < |world|
  {
    forall s, t :: from <= s <= t <= to ==>
      && world[t].treasury <= world[s].treasury
      && world[t].kicker == world[s].kicker
      && forall k :: 0 <= k < accounts ==> world[s].buckets[k] <= world[t].buckets[k]
  }

  /** An instant no request of `collect` precedes. */
  ghost predicate StartsAt(collect: Collect, from: nat) {
    && from <= collect.treasuryAt && from <= collect.kickerAt
    && forall k :: 0 <= k < |collect.bucketsAt| ==> from <= collect.bucketsAt[k]
  }

  // ----- two agreeing reads pin the state between them

  lemma {:induction false} SumSqueeze(low: seq<nat>, middle: seq<nat>, high: seq<nat>)
    requires |low| == |middle| == |high|
    requires forall k :: 0 <= k < |low| ==> low[k] <= middle[k] <= high[k]
    ensures Sum(low) <= Sum(middle) <= Sum(high)
  {
    if low != [] {
      SumSqueeze(low[1..], middle[1..], high[1..]);
    }
  }

  lemma AgreeingReadsAreJoint(
    world: seq<Balances>, accounts: nat, earlier: Collect, later: Collect, from: nat, at: nat)
    requires History(world, accounts)
    requires Served(world, accounts, earlier) && Served(world, accounts, later) && Follows(earlier, later)
    requires StartsAt(earlier, from) && Monotone(world, accounts, from, later.kickerAt)
    requires Read(world, accounts, earlier) == Read(world, accounts, later)
    requires earlier.kickerAt <= at && StartsAt(later, at)
    ensures Joint(world[at]) == Read(world, accounts, later)
  {
    SumSqueeze(BucketsSeen(world, accounts, earlier), world[at].buckets, BucketsSeen(world, accounts, later));
  }

  /** Read `i` repeats the one before it. */
  ghost predicate Agrees(world: seq<Balances>, accounts: nat, collects: seq<Collect>, i: int)
    requires Schedule(world, accounts, collects)
  {
    0 < i < |collects| && Read(world, accounts, collects[i - 1]) == Read(world, accounts, collects[i])
  }

  /**
   The polling loop over `collects`, the reads the deadline leaves time for, interleaved with the
   chain's transfers in any way. The answer is the first one given twice running; and if the
   accounts were monotone over the two reads that gave it, it is the exact joint state at an
   instant between them.
   */
  method ReadWireHoldings(world: seq<Balances>, accounts: nat, collects: seq<Collect>)
    returns (r: Result<Holdings, HoldingsError>)
    requires Schedule(world, accounts, collects)
    ensures r.Success? <==> exists i :: Agrees(world, accounts, collects, i)
    ensures r.Success? ==> exists i ::
      && Agrees(world, accounts, collects, i)
      && r.value == Read(world, accounts, collects[i])
      && (forall j :: j < i ==> !Agrees(world, accounts, collects, j))
      && forall from: nat ::
           StartsAt(collects[i - 1], from) && Monotone(world, accounts, from, collects[i].kickerAt)
           ==> r.value == Joint(world[collects[i - 1].kickerAt])
  {
    if collects == [] {
      return Failure(DeadlinePassed);
    }
    var previous := Read(world, accounts, collects[0]);
    var n := 1;
    while n < |collects|
      invariant 1 <= n <= |collects|
      invariant previous == Read(world, accounts, collects[n - 1])
      invariant forall j :: j < n ==> !Agrees(world, accounts, collects, j)
    {
      var current := Read(world, accounts, collects[n]);
      if previous == current {
        assert Agrees(world, accounts, collects, n);
        forall from: nat |
          StartsAt(collects[n - 1], from) && Monotone(world, accounts, from, collects[n].kickerAt)
          ensures current == Joint(world[collects[n - 1].kickerAt])
        {
          AgreeingReadsAreJoint(world, accounts, collects[n - 1], collects[n], from, collects[n - 1].kickerAt);
        }
        return Success(current);
      }
      previous := current;
      n := n + 1;
    }
    return Failure(DeadlinePassed);
  }

  // ----- how far agreement alone goes

  /** Account 0 is the treasury, then come the buckets, then the kicker. */
  function Account(balances: Balances, i: nat): nat
    requires i <= |balances.buckets| + 1
  {
    if i == 0 then balances.treasury
    else if i <= |balances.buckets| then balances.buckets[i - 1]
    else balances.kicker
  }

  ghost predicate Differs(one: Balances, other: Balances, i: nat)
    requires |one.buckets| == |other.buckets| && i <= |one.buckets| + 1
  {
    Account(one, i) != Account(other, i)
  }

  ghost predicate DifferInTwoAccounts(one: Balances, other: Balances)
    requires |one.buckets| == |other.buckets|
  {
    exists i: nat, j: nat :: i < j <= |one.buckets| + 1 && Differs(one, other, i) && Differs(one, other, j)
  }

  /** The chain goes back and forth between two states. */
  ghost predicate Alternates(world: seq<Balances>, one: Balances, other: Balances) {
    forall t :: 0 <= t < |world| ==> world[t] == one || world[t] == other
  }

  /** Two consecutive reads agree on holdings that neither of the chain's two states has. */
  ghost predicate Torn(world: seq<Balances>, one: Balances, other: Balances, earlier: Collect, later: Collect)
    requires |one.buckets| == |other.buckets|
  {
    var accounts := |one.buckets|;
    && Alternates(world, one, other)
    && Schedule(world, accounts, [earlier, later])
    && Agrees(world, accounts, [earlier, later], 1)
    && Read(world, accounts, later) != Joint(one)
    && Read(world, accounts, later) != Joint(other)
  }

  /** Account by account, one of the two states. */
  ghost predicate Mixes(mixed: Balances, one: Balances, other: Balances)
    requires |mixed.buckets| == |one.buckets| == |other.buckets|
  {
    forall i: nat :: i <= |one.buckets| + 1 ==> Account(mixed, i) == Account(one, i) || Account(mixed, i) == Account(other, i)
  }

  /** The requests that see `mixed` while the chain alternates from instant `from` on. */
  function Picks(mixed: Balances, one: Balances, from: nat): Collect
    requires |mixed.buckets| == |one.buckets|
  {
    Collect(
      if mixed.treasury == one.treasury then from else from + 1,
      seq(|one.buckets|, k requires 0 <= k < |one.buckets| => if mixed.buckets[k] == one.buckets[k] then from else from + 1),
      if mixed.kicker == one.kicker then from + 2 else from + 3)
  }

  /** Any mixture can be read, and read twice. */
  lemma MixtureIsReadTwice(mixed: Balances, one: Balances, other: Balances)
    requires |mixed.buckets| == |one.buckets| == |other.buckets| && Mixes(mixed, one, other)
    requires Joint(mixed) != Joint(one) && Joint(mixed) != Joint(other)
    ensures Torn([one, other, one, other, one, other, one, other], one, other, Picks(mixed, one, 0), Picks(mixed, one, 4))
  {
    var world := [one, other, one, other, one, other, one, other];
    MixtureIsRead(world, mixed, one, other, 0);
    MixtureIsRead(world, mixed, one, other, 4);
  }

  lemma MixtureIsRead(world: seq<Balances>, mixed: Balances, one: Balances, other: Balances, from: nat)
    requires |mixed.buckets| == |one.buckets| == |other.buckets| && Mixes(mixed, one, other)
    requires from + 3 < |world| && Alternates(world, one, other)
    requires world[from] == world[from + 2] == one && world[from + 1] == world[from + 3] == other
    ensures var collect := Picks(mixed, one, from);
            && Served(world, |one.buckets|, collect)
            && Read(world, |one.buckets|, collect) == Joint(mixed)
  {
    var accounts, collect := |one.buckets|, Picks(mixed, one, from);
    assert Account(mixed, 0) == mixed.treasury && Account(mixed, accounts + 1) == mixed.kicker;
    forall k | 0 <= k < accounts ensures world[collect.bucketsAt[k]].buckets[k] == mixed.buckets[k] {
      assert Account(mixed, k + 1) == mixed.buckets[k];
    }
    assert BucketsSeen(world, accounts, collect) == mixed.buckets;
  }

  /** States that differ in two accounts have a mixture that looks like neither. */
  lemma TwoAccountsMix(one: Balances, other: Balances, i: nat, j: nat) returns (mixed: Balances)
    requires |one.buckets| == |other.buckets| && i < j <= |one.buckets| + 1
    requires Differs(one, other, i) && Differs(one, other, j)
    ensures |mixed.buckets| == |one.buckets| && Mixes(mixed, one, other)
    ensures Joint(mixed) != Joint(one) && Joint(mixed) != Joint(other)
  {
    var a, b, n := one.buckets, other.buckets, |one.buckets|;
    if j == n + 1 && i == 0 {
      return one.(treasury := other.treasury);
    }
    var k := if i == 0 then j - 1 else i - 1;
    SumUpdate(a, k, b[k]);
    mixed := one.(buckets := a[k := b[k]]);
    if i == 0 || j == n + 1 || Sum(mixed.buckets) != Sum(b) {
      return;
    }
    SumUpdate(a, j - 1, b[j - 1]);
    mixed := one.(buckets := a[j - 1 := b[j - 1]]);
    if Sum(mixed.buckets) != Sum(b) {
      return;
    }
    SumUpdate(mixed.buckets, k, b[k]);
    mixed := one.(buckets := mixed.buckets[k := b[k]]);
  }

  /** With one account moving, a read is the state at the instant that account is read. */
  lemma OneAccountIsNeverTorn(world: seq<Balances>, one: Balances, other: Balances, collect: Collect)
    requires |one.buckets| == |other.buckets| && !DifferInTwoAccounts(one, other)
    requires Alternates(world, one, other) && Served(world, |one.buckets|, collect)
    ensures Read(world, |one.buckets|, collect) in {Joint(one), Joint(other)}
  {
    var n := |one.buckets|;
    if i: nat :| i <= n + 1 && Differs(one, other, i) {
      var at := if i == 0 then collect.treasuryAt else if i <= n then collect.bucketsAt[i - 1] else collect.kickerAt;
      forall j: nat, t: nat | j <= n + 1 && j != i && t < |world|
        ensures Account(world[t], j) == Account(world[at], j)
      {
        assert !Differs(one, other, j);
      }
      assert Account(world[at], 0) == world[collect.treasuryAt].treasury;
      assert Account(world[at], n + 1) == world[collect.kickerAt].kicker;
      forall k | 0 <= k < n ensures BucketsSeen(world, n, collect)[k] == world[at].buckets[k] {
        assert Account(world[at], k + 1) == Account(world[collect.bucketsAt[k]], k + 1);
      }
      assert BucketsSeen(world, n, collect) == world[at].buckets;
    } else {
      assert !Differs(one, other, 0) && !Differs(one, other, n + 1);
      forall k | 0 <= k < n ensures BucketsSeen(world, n, collect)[k] == one.buckets[k] {
        assert !Differs(one, other, k + 1);
      }
      assert BucketsSeen(world, n, collect) == one.buckets;
    }
  }

  /**
   How far the rule can be extended to accounts that may also move back. A chain that alternates
   between two states can make two agreeing reads report a state it was never in exactly when
   the two states differ in two accounts or more.
   */
  lemma AgreementNeedsMonotoneAccounts(one: Balances, other: Balances)
    requires |one.buckets| == |other.buckets|
    ensures (exists world, earlier, later :: Torn(world, one, other, earlier, later)) <==> DifferInTwoAccounts(one, other)
  {
    if i: nat, j: nat :| i < j <= |one.buckets| + 1 && Differs(one, other, i) && Differs(one, other, j) {
      var mixed := TwoAccountsMix(one, other, i, j);
      MixtureIsReadTwice(mixed, one, other);
    } else {
      forall world, earlier, later | Torn(world, one, other, earlier, later) ensures false {
        assert [earlier, later][1] == later;
        OneAccountIsNeverTorn(world, one, other, later);
      }
    }
  }
}
