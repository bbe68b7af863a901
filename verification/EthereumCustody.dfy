/**
 The Ethereum custody fixture: sizing an unbacked credit so that the pool's ratio guard refuses,
 or just tolerates, the gap left after a redemption.
 */
module EthereumCustody {
  import opened Arithmetic
  import opened Wrappers

  const BASIS_POINTS := 10_000

  datatype Snapshot = Snapshot(custody: int, outstanding: int, redemption: int, toleranceBps: int)
  datatype Fixture = Fixture(snapshot: Snapshot, recredit: int, gap: int, postBurnOutstanding: int)
  datatype FixtureError = InvalidAllowance | PayoutNotFunded | ExistingGap | NoPositiveGap

  /** The last gap the guard allows after the payout. */
  function MaximumGap(snapshot: Snapshot): int
    requires snapshot.toleranceBps < BASIS_POINTS
  {
    TruncDiv((snapshot.custody - snapshot.redemption) * snapshot.toleranceBps, BASIS_POINTS - snapshot.toleranceBps)
  }

  /** Size the credit on the refused side, `margin` past the limit, or at half the limit. */
  function CreateFixture(snapshot: Snapshot, beyondAllowance: bool, margin: nat): Result<Fixture, FixtureError> {
    if !(0 <= snapshot.toleranceBps < BASIS_POINTS) then Failure(InvalidAllowance)
    else if !(snapshot.redemption > 0 && snapshot.custody >= snapshot.redemption) then Failure(PayoutNotFunded)
    else if !(snapshot.custody >= snapshot.outstanding) then Failure(ExistingGap)
    else
      var gap := if beyondAllowance then MaximumGap(snapshot) + 1 + margin else TruncDiv(MaximumGap(snapshot), 2);
      if gap <= 0 then Failure(NoPositiveGap)
      else Success(Fixture(snapshot, snapshot.custody - snapshot.outstanding + gap, gap,
                           snapshot.custody - snapshot.redemption + gap))
  }

  datatype CustodyCheck = CustodyCheck(postPayoutBalance: int, totalSyndicated: int, toleranceBps: int)

  /** The pool's inclusive guard, compared as exact products. */
  predicate GapExceedsAllowance(check: CustodyCheck) {
    && check.postPayoutBalance < check.totalSyndicated
    && (check.totalSyndicated - check.postPayoutBalance) * BASIS_POINTS > check.totalSyndicated * check.toleranceBps
  }

  predicate ValidSnapshot(snapshot: Snapshot) {
    && 0 <= snapshot.toleranceBps < BASIS_POINTS
    && 0 < snapshot.redemption <= snapshot.custody
    && snapshot.outstanding <= snapshot.custody
  }

  /** The check the pool runs once `gap` is unbacked and custody has since drifted by `drift`. */
  function CheckAfter(snapshot: Snapshot, gap: int, drift: int): CustodyCheck {
    CustodyCheck(snapshot.custody - snapshot.redemption + drift, snapshot.custody - snapshot.redemption + gap,
                 snapshot.toleranceBps)
  }

  /** The largest gap at or below the allowance, as a product: the floor's defining inequalities. */
  lemma MaximumGapBounds(snapshot: Snapshot)
    requires ValidSnapshot(snapshot)
    ensures var base, headroom := snapshot.custody - snapshot.redemption, BASIS_POINTS - snapshot.toleranceBps;
            && 0 <= MaximumGap(snapshot)
            && MaximumGap(snapshot) * headroom <= base * snapshot.toleranceBps
            && base * snapshot.toleranceBps < (MaximumGap(snapshot) + 1) * headroom
  {
    var base, headroom := snapshot.custody - snapshot.redemption, BASIS_POINTS - snapshot.toleranceBps;
    MulNonNeg(base, snapshot.toleranceBps);
    DivNonNeg(base * snapshot.toleranceBps, headroom);
    DivBounds(base * snapshot.toleranceBps, headroom);
    MulDistributes(headroom, MaximumGap(snapshot), 1);
  }

  /** The guard, with the gap collected on one side. */
  lemma GuardCollected(snapshot: Snapshot, gap: int, drift: int)
    requires ValidSnapshot(snapshot)
    ensures GapExceedsAllowance(CheckAfter(snapshot, gap, drift)) <==>
            && drift < gap
            && drift * BASIS_POINTS
               < gap * (BASIS_POINTS - snapshot.toleranceBps)
                 - (snapshot.custody - snapshot.redemption) * snapshot.toleranceBps
  {
    var base := snapshot.custody - snapshot.redemption;
    MulDistributes(snapshot.toleranceBps, base, gap);
    MulDistributes(gap, BASIS_POINTS, -snapshot.toleranceBps);
  }

  /**
   The floor division and the product comparison agree to the last unit: with no drift, a gap is
   refused exactly when it is greater than the floor-divided limit.
   */
  lemma ThresholdIsExact(snapshot: Snapshot, gap: int)
    requires ValidSnapshot(snapshot) && gap >= 0
    ensures GapExceedsAllowance(CheckAfter(snapshot, gap, 0)) <==> gap > MaximumGap(snapshot)
  {
    var headroom := BASIS_POINTS - snapshot.toleranceBps;
    MaximumGapBounds(snapshot);
    GuardCollected(snapshot, gap, 0);
    if gap > MaximumGap(snapshot) {
      MulMono(MaximumGap(snapshot) + 1, gap, headroom);
    } else {
      MulMono(gap, MaximumGap(snapshot), headroom);
    }
  }

  /** The fixture exists exactly for valid snapshots whose lane has room for a positive gap. */
  lemma FixtureExistsExactly(snapshot: Snapshot, beyondAllowance: bool, margin: nat)
    ensures CreateFixture(snapshot, beyondAllowance, margin).Success? <==>
            ValidSnapshot(snapshot) && (beyondAllowance || MaximumGap(snapshot) >= 2)
  {
    if ValidSnapshot(snapshot) {
      MaximumGapBounds(snapshot);
    }
  }

  /**
   The sizes in numbers. The refused gap is `margin` past the first refused one, the allowed gap
   half the last allowed one, rounded down; the credit fills what custody holds beyond the
   outstanding and adds the gap.
   */
  lemma FixtureInNumbers(snapshot: Snapshot, beyondAllowance: bool, margin: nat)
    requires CreateFixture(snapshot, beyondAllowance, margin).Success?
    ensures var fixture := CreateFixture(snapshot, beyondAllowance, margin).value;
            var base, headroom := snapshot.custody - snapshot.redemption, 10_000 - snapshot.toleranceBps;
            && fixture.snapshot == snapshot
            && fixture.recredit == snapshot.custody - snapshot.outstanding + fixture.gap
            && fixture.postBurnOutstanding == base + fixture.gap
            && (if beyondAllowance then
                  (fixture.gap - margin - 1) * headroom <= base * snapshot.toleranceBps < (fixture.gap - margin) * headroom
                else
                  2 * fixture.gap * headroom <= base * snapshot.toleranceBps < (2 * fixture.gap + 2) * headroom)
  {
    var limit, headroom := MaximumGap(snapshot), BASIS_POINTS - snapshot.toleranceBps;
    MaximumGapBounds(snapshot);
    MulMono(limit / 2 * 2, limit, headroom);
    MulMono(limit + 1, limit / 2 * 2 + 2, headroom);
  }

  /** Which demand a snapshot fails, in the order they are made. */
  lemma FixtureFailsExactly(snapshot: Snapshot, beyondAllowance: bool, margin: nat)
    ensures var fixture := CreateFixture(snapshot, beyondAllowance, margin);
            var allowance := 0 <= snapshot.toleranceBps < 10_000;
            var funded := 0 < snapshot.redemption <= snapshot.custody;
            && (fixture == Failure(InvalidAllowance) <==> !allowance)
            && (fixture == Failure(PayoutNotFunded) <==> allowance && !funded)
            && (fixture == Failure(ExistingGap) <==> allowance && funded && snapshot.custody < snapshot.outstanding)
            && (fixture == Failure(NoPositiveGap) <==>
                  && allowance && funded && snapshot.outstanding <= snapshot.custody && !beyondAllowance
                  && (snapshot.custody - snapshot.redemption) * snapshot.toleranceBps < 2 * (10_000 - snapshot.toleranceBps))
  {
    if ValidSnapshot(snapshot) {
      var base, headroom := snapshot.custody - snapshot.redemption, BASIS_POINTS - snapshot.toleranceBps;
      MaximumGapBounds(snapshot);
      MulNonNeg(base, snapshot.toleranceBps);
      DivAtLeast(base * snapshot.toleranceBps, headroom, 2);
    }
  }

  /**
   The refused lane: a fixture beyond the allowance is refused, at any fall of custody and at any
   rise of up to the margin's share of the headroom.
   */
  lemma RefusedLaneHolds(snapshot: Snapshot, margin: nat, drift: int)
    requires CreateFixture(snapshot, true, margin).Success?
    requires drift * BASIS_POINTS <= margin * (BASIS_POINTS - snapshot.toleranceBps)
    ensures GapExceedsAllowance(CheckAfter(snapshot, CreateFixture(snapshot, true, margin).value.gap, drift))
  {
    var headroom := BASIS_POINTS - snapshot.toleranceBps;
    var gap := CreateFixture(snapshot, true, margin).value.gap;
    MaximumGapBounds(snapshot);
    GuardCollected(snapshot, gap, drift);
    MulDistributes(headroom, MaximumGap(snapshot) + 1, margin);
    MulMono(headroom, BASIS_POINTS, margin);
    assert drift <= margin;
  }

  /**
   The allowed lane: a fixture at half the limit is allowed, at any rise of custody and at any
   fall of up to the unused half's share of the headroom.
   */
  lemma AllowedLaneHolds(snapshot: Snapshot, margin: nat, fall: int)
    requires CreateFixture(snapshot, false, margin).Success?
    requires fall * BASIS_POINTS
          <= (MaximumGap(snapshot) - MaximumGap(snapshot) / 2) * (BASIS_POINTS - snapshot.toleranceBps)
    ensures !GapExceedsAllowance(CheckAfter(snapshot, CreateFixture(snapshot, false, margin).value.gap, -fall))
  {
    var headroom := BASIS_POINTS - snapshot.toleranceBps;
    var gap := CreateFixture(snapshot, false, margin).value.gap;
    MaximumGapBounds(snapshot);
    GuardCollected(snapshot, gap, -fall);
    MulDistributes(headroom, gap, MaximumGap(snapshot) - gap);
  }

  // ----- the credit, the redemption and the repair

  /** The pool's custody, the depot's outstanding credit and any payout stored for later. */
  datatype Pool = Pool(custody: int, outstanding: int, stored: int)

  /** Credit without backing, then redeem: the burn always lands, the payout leaves custody or is stored. */
  function Redeem(snapshot: Snapshot, recredit: int): Pool {
    var outstanding := snapshot.outstanding + recredit - snapshot.redemption;
    if GapExceedsAllowance(CustodyCheck(snapshot.custody - snapshot.redemption, outstanding, snapshot.toleranceBps))
    then Pool(snapshot.custody, outstanding, snapshot.redemption)
    else Pool(snapshot.custody - snapshot.redemption, outstanding, 0)
  }

  function Donate(pool: Pool, amount: int): Pool {
    pool.(custody := pool.custody + amount)
  }

  /**
   End to end: the fixture drives the redemption to the lane it was sized for, its projected
   outstanding is the one the guard sees, and donating the recredit restores full backing of the
   outstanding credit and any stored payout, with exactly the slack there was before.
   */
  lemma FixtureDrivesItsLane(snapshot: Snapshot, beyondAllowance: bool, margin: nat)
    requires CreateFixture(snapshot, beyondAllowance, margin).Success?
    ensures var fixture := CreateFixture(snapshot, beyondAllowance, margin).value;
            var pool := Redeem(snapshot, fixture.recredit);
            var repaired := Donate(pool, fixture.recredit);
            && pool.outstanding == fixture.postBurnOutstanding
            && pool.stored == (if beyondAllowance then snapshot.redemption else 0)
            && pool.outstanding + pool.stored - pool.custody == fixture.gap > 0
            && repaired.custody >= repaired.outstanding + repaired.stored
            && repaired.custody - (repaired.outstanding + repaired.stored) == snapshot.custody - snapshot.outstanding
  {
    var fixture := CreateFixture(snapshot, beyondAllowance, margin).value;
    MaximumGapBounds(snapshot);
    ThresholdIsExact(snapshot, fixture.gap);
  }
}
