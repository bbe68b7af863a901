/**
 The yield ledger the kicker pays into: a cumulative index with a carried remainder, holders who
 bank what they are owed whenever their balance moves, and claims paid out of one pot.
 */
module YieldLedger {
  import opened Arithmetic
  import opened Wrappers

  /** How many index units make one unit of WIRE per unit of balance; the chain uses 10^12, any positive scale will do. */
  type Scale = s: int | s > 0 witness 1

  /** Where distributions stand. */
  datatype YieldIndex = YieldIndex(index: int, pot: int, carry: int)

  datatype LedgerError = SupplyNotPositive | NoSuchHolder | InsufficientBalance

  /** Spread `amount` over `supply`: the index takes the quotient, the carry the remainder, the pot the whole. */
  function Distribute(scale: Scale, before: YieldIndex, amount: nat, supply: int): Result<YieldIndex, LedgerError> {
    if supply <= 0 then Failure(SupplyNotPositive)
    else
      var total := amount * scale + before.carry;
      Success(YieldIndex(before.index + TruncDiv(total, supply), before.pot + amount, TruncMod(total, supply)))
  }

  /** One holder's shadow row. */
  datatype Holding = Holding(balance: nat, checkpoint: int, owedWire: int)

  /** What a row is owed at `index`: the banked part plus the accrual since its checkpoint. */
  function OwedWire(scale: Scale, holding: Holding, index: int): int {
    holding.owedWire + TruncDiv(holding.balance * (index - holding.checkpoint), scale)
  }

  /** Bank the accrual and move the checkpoint up. */
  function Settle(scale: Scale, holding: Holding, index: int): Holding {
    holding.(owedWire := OwedWire(scale, holding, index), checkpoint := index)
  }

  // ----- the ledger and its operations

  /** `distributed`, `claimed` and `settlements` record the run; the rest is the ledger itself. */
  datatype Ledger = Ledger(
    scale: Scale,
    distribution: YieldIndex,
    holders: seq<Holding>,
    distributed: nat,
    claimed: int,
    settlements: nat
  )

  datatype Operation =
    | Gift(amount: nat)
    | Transfer(source: nat, target: nat, quantity: nat)
    | Mint(target: nat, quantity: nat)
    | Burn(source: nat, quantity: nat)
    | Claim(holder: nat)

  function Supply(holders: seq<Holding>): nat {
    if holders == [] then 0 else holders[0].balance + Supply(holders[1..])
  }

  /** Settle a row, then move its balance by `delta`. */
  function Rebalance(ledger: Ledger, who: nat, delta: int): Ledger
    requires who < |ledger.holders| && ledger.holders[who].balance + delta >= 0
  {
    var settled := Settle(ledger.scale, ledger.holders[who], ledger.distribution.index);
    ledger.(holders := ledger.holders[who := settled.(balance := settled.balance + delta)],
            settlements := ledger.settlements + 1)
  }

  function Apply(ledger: Ledger, op: Operation): Result<Ledger, LedgerError> {
    match op
    case Gift(amount) =>
      var row :- Distribute(ledger.scale, ledger.distribution, amount, Supply(ledger.holders));
      Success(ledger.(distribution := row, distributed := ledger.distributed + amount))
    case Transfer(source, target, quantity) =>
      if source >= |ledger.holders| || target >= |ledger.holders| then Failure(NoSuchHolder)
      else if ledger.holders[source].balance < quantity then Failure(InsufficientBalance)
      else Success(Rebalance(Rebalance(ledger, source, 0 - quantity), target, quantity))
    case Mint(target, quantity) =>
      if target >= |ledger.holders| then Failure(NoSuchHolder)
      else Success(Rebalance(ledger, target, quantity))
    case Burn(source, quantity) =>
      if source >= |ledger.holders| then Failure(NoSuchHolder)
      else if ledger.holders[source].balance < quantity then Failure(InsufficientBalance)
      else Success(Rebalance(ledger, source, 0 - quantity))
    case Claim(holder) =>
      if holder >= |ledger.holders| then Failure(NoSuchHolder)
      else
        var settled := Settle(ledger.scale, ledger.holders[holder], ledger.distribution.index);
        Success(ledger.(
          holders := ledger.holders[holder := settled.(owedWire := 0)],
          distribution := ledger.distribution.(pot := ledger.distribution.pot - settled.owedWire),
          claimed := ledger.claimed + settled.owedWire,
          settlements := ledger.settlements + 1))
  }

  /** The ledger after one more operation; a refused one changes nothing. */
  function After(ledger: Ledger, op: Operation): Ledger {
    match Apply(ledger, op)
    case Success(after) => after
    case Failure(_) => ledger
  }

  /** A run of operations. */
  function Run(ledger: Ledger, ops: seq<Operation>): Ledger {
    if ops == [] then ledger else After(Run(ledger, ops[..|ops| - 1]), ops[|ops| - 1])
  }

  /** The state before the first distribution: any balances, nothing accrued. */
  function Genesis(scale: Scale, balances: seq<nat>): Ledger {
    Ledger(scale, YieldIndex(0, 0, 0), seq(|balances|, i requires 0 <= i < |balances| => Holding(balances[i], 0, 0)), 0, 0, 0)
  }

  // ----- what the ledger owes

  /** A row's claim on the pot in index units, before any floor. */
  function RowLiability(scale: Scale, holding: Holding, index: int): int {
    holding.owedWire * scale + holding.balance * (index - holding.checkpoint)
  }

  function Liability(scale: Scale, holders: seq<Holding>, index: int): int {
    if holders == [] then 0 else RowLiability(scale, holders[0], index) + Liability(scale, holders[1..], index)
  }

  function TotalOwed(scale: Scale, holders: seq<Holding>, index: int): int {
    if holders == [] then 0 else OwedWire(scale, holders[0], index) + TotalOwed(scale, holders[1..], index)
  }

  predicate RowValid(holding: Holding, index: int) {
    0 <= holding.checkpoint <= index && 0 <= holding.owedWire
  }

  ghost predicate RowsValid(holders: seq<Holding>, index: int) {
    forall i :: 0 <= i < |holders| ==> RowValid(holders[i], index)
  }

  /** What the pot holds beyond every unfloored claim and the carry, in index units. */
  function Slack(ledger: Ledger): int {
    ledger.distribution.pot * ledger.scale - ledger.distribution.carry
    - Liability(ledger.scale, ledger.holders, ledger.distribution.index)
  }

  /** Solvency: nothing is owed that the pot does not hold, and only settlements leave dust behind. */
  ghost predicate Solvent(ledger: Ledger) {
    && RowsValid(ledger.holders, ledger.distribution.index)
    && 0 <= ledger.distribution.carry
    && 0 <= Slack(ledger) <= ledger.settlements * (ledger.scale - 1)
    && ledger.distribution.pot + ledger.claimed == ledger.distributed
  }

  lemma {:induction false} LiabilityUpdate(scale: Scale, holders: seq<Holding>, who: nat, row: Holding, index: int)
    requires who < |holders|
    ensures Liability(scale, holders[who := row], index)
         == Liability(scale, holders, index) - RowLiability(scale, holders[who], index) + RowLiability(scale, row, index)
  {
    if who == 0 {
      assert holders[0 := row][1..] == holders[1..];
    } else {
      assert holders[who := row][1..] == holders[1..][who - 1 := row];
      LiabilityUpdate(scale, holders[1..], who - 1, row, index);
    }
  }

  lemma {:induction false} LiabilityGrowth(scale: Scale, holders: seq<Holding>, index: int, step: int)
    ensures Liability(scale, holders, index + step) == Liability(scale, holders, index) + step * Supply(holders)
  {
    if holders != [] {
      var row, rest := holders[0], holders[1..];
      LiabilityGrowth(scale, rest, index, step);
      MulDistributes(row.balance, index - row.checkpoint, step);
      MulDistributes(step, row.balance, Supply(rest));
    }
  }

  lemma OwedIsFlooredAccrual(scale: Scale, row: Holding, index: int)
    requires RowValid(row, index)
    ensures 0 <= row.balance * (index - row.checkpoint)
    ensures row.owedWire <= OwedWire(scale, row, index)
    ensures RowLiability(scale, row, index) - (scale - 1)
         <= OwedWire(scale, row, index) * scale
         <= RowLiability(scale, row, index)
  {
    MulNonNeg(row.balance, index - row.checkpoint);
    DivNonNeg(row.balance * (index - row.checkpoint), scale);
    DivBounds(row.balance * (index - row.checkpoint), scale);
  }

  lemma {:induction false} OwedWithinLiability(scale: Scale, holders: seq<Holding>, index: int)
    requires RowsValid(holders, index)
    ensures Liability(scale, holders, index) - |holders| * (scale - 1)
         <= TotalOwed(scale, holders, index) * scale
         <= Liability(scale, holders, index)
    ensures forall i :: 0 <= i < |holders| ==> 0 <= OwedWire(scale, holders[i], index) <= TotalOwed(scale, holders, index)
    ensures 0 <= TotalOwed(scale, holders, index)
  {
    if holders != [] {
      OwedIsFlooredAccrual(scale, holders[0], index);
      OwedWithinLiability(scale, holders[1..], index);
      MulDistributes(scale, OwedWire(scale, holders[0], index), TotalOwed(scale, holders[1..], index));
      MulDistributes(scale - 1, 1, |holders| - 1);
    }
  }

  // ----- every operation keeps the ledger solvent

  /** Refused exactly for a supply that is not positive; otherwise quotient, remainder and whole are told apart. */
  lemma DistributeIsExact(scale: Scale, before: YieldIndex, amount: nat, supply: int)
    requires before.carry >= 0
    ensures Distribute(scale, before, amount, supply).Failure? <==> supply <= 0
    ensures supply > 0 ==>
      var after := Distribute(scale, before, amount, supply).value;
      && before.index <= after.index && 0 <= after.carry < supply
      && (after.index - before.index) * supply + after.carry == amount * scale + before.carry
      && after.pot == before.pot + amount
  {
    if supply > 0 {
      var total := amount * scale + before.carry;
      DivBounds(total, supply);
      DivNonNeg(total, supply);
    }
  }

  /** The pot, the carry and the liabilities grow by amounts that cancel. */
  lemma GiftKeepsSlack(ledger: Ledger, amount: nat)
    requires ledger.distribution.carry >= 0 && Supply(ledger.holders) > 0
    ensures var after := Apply(ledger, Gift(amount));
            after.Success? && Slack(after.value) == Slack(ledger)
  {
    var before, supply := ledger.distribution, Supply(ledger.holders);
    DistributeIsExact(ledger.scale, before, amount, supply);
    var after := Distribute(ledger.scale, before, amount, supply).value;
    LiabilityGrowth(ledger.scale, ledger.holders, before.index, after.index - before.index);
    MulDistributes(ledger.scale, before.pot, amount);
  }

  lemma GiftKeepsSolvent(ledger: Ledger, amount: nat)
    requires Solvent(ledger) && Supply(ledger.holders) > 0
    ensures var after := Apply(ledger, Gift(amount));
            after.Success? && Solvent(after.value) && Slack(after.value) == Slack(ledger)
  {
    DistributeIsExact(ledger.scale, ledger.distribution, amount, Supply(ledger.holders));
    GiftKeepsSlack(ledger, amount);
  }

  lemma SettledRow(scale: Scale, index: int, balance: nat, owedWire: int)
    ensures RowLiability(scale, Holding(balance, index, owedWire), index) == owedWire * scale
  {
    assert balance * (index - index) == 0;
  }

  /** Banking a row takes its liability down to whole units of WIRE: the floor is what the slack gains. */
  lemma BankedRow(scale: Scale, holders: seq<Holding>, who: nat, index: int, balance: nat)
    requires RowsValid(holders, index) && who < |holders|
    ensures var owed := OwedWire(scale, holders[who], index);
            var holders' := holders[who := Holding(balance, index, owed)];
            && 0 <= owed
            && Liability(scale, holders, index) - (scale - 1) <= Liability(scale, holders', index) <= Liability(scale, holders, index)
  {
    var owed := OwedWire(scale, holders[who], index);
    OwedIsFlooredAccrual(scale, holders[who], index);
    SettledRow(scale, index, balance, owed);
    LiabilityUpdate(scale, holders, who, Holding(balance, index, owed), index);
  }

  lemma RebalanceKeepsSolvent(ledger: Ledger, who: nat, delta: int)
    requires Solvent(ledger) && who < |ledger.holders| && ledger.holders[who].balance + delta >= 0
    ensures var after := Rebalance(ledger, who, delta);
            && Solvent(after) && |after.holders| == |ledger.holders|
            && Slack(ledger) <= Slack(after) <= Slack(ledger) + ledger.scale - 1
  {
    var row, index := ledger.holders[who], ledger.distribution.index;
    var moved := Holding(row.balance + delta, index, OwedWire(ledger.scale, row, index));
    BankedRow(ledger.scale, ledger.holders, who, index, row.balance + delta);
    assert Rebalance(ledger, who, delta).holders == ledger.holders[who := moved];
    MulDistributes(ledger.scale - 1, ledger.settlements, 1);
  }

  /** Paying a banked row out takes the same amount off the pot and off the liabilities. */
  lemma PaidRow(scale: Scale, holders: seq<Holding>, who: nat, index: int, balance: nat, owed: int)
    requires who < |holders| && holders[who] == Holding(balance, index, owed)
    ensures Liability(scale, holders[who := Holding(balance, index, 0)], index) == Liability(scale, holders, index) - owed * scale
  {
    SettledRow(scale, index, balance, owed);
    SettledRow(scale, index, balance, 0);
    LiabilityUpdate(scale, holders, who, Holding(balance, index, 0), index);
  }

  lemma PayoutArithmetic(scale: Scale, pot: int, carry: int, owed: int, liability: int, paidLiability: int)
    requires paidLiability == liability - owed * scale
    ensures (pot - owed) * scale - carry - paidLiability == pot * scale - carry - liability
  {
    MulDistributes(scale, pot, 0 - owed);
  }

  /** A claim is a settlement in place, then a payout. */
  lemma ClaimKeepsSolvent(ledger: Ledger, who: nat)
    requires Solvent(ledger) && who < |ledger.holders|
    ensures var after := Apply(ledger, Claim(who));
            after.Success? && Solvent(after.value)
  {
    var scale, row, index := ledger.scale, ledger.holders[who], ledger.distribution.index;
    var owed, banked := OwedWire(scale, row, index), Rebalance(ledger, who, 0);
    var after := Apply(ledger, Claim(who)).value;
    RebalanceKeepsSolvent(ledger, who, 0);
    PaidRow(scale, banked.holders, who, index, row.balance, owed);
    assert after.holders == banked.holders[who := Holding(row.balance, index, 0)];
    PayoutArithmetic(scale, ledger.distribution.pot, ledger.distribution.carry, owed,
                     Liability(scale, banked.holders, index), Liability(scale, after.holders, index));
    assert Slack(after) == Slack(banked);
  }

  lemma ApplyKeepsSolvent(ledger: Ledger, op: Operation)
    requires Solvent(ledger)
    ensures Apply(ledger, op).Success? ==> Solvent(Apply(ledger, op).value) && Apply(ledger, op).value.scale == ledger.scale
  {
    if Apply(ledger, op).Success? {
      match op
      case Gift(amount) => GiftKeepsSolvent(ledger, amount);
      case Transfer(source, target, quantity) =>
        RebalanceKeepsSolvent(ledger, source, 0 - quantity);
        RebalanceKeepsSolvent(Rebalance(ledger, source, 0 - quantity), target, quantity);
      case Mint(target, quantity) => RebalanceKeepsSolvent(ledger, target, quantity);
      case Burn(source, quantity) => RebalanceKeepsSolvent(ledger, source, 0 - quantity);
      case Claim(holder) => ClaimKeepsSolvent(ledger, holder);
    }
  }

  lemma {:induction false} GenesisIsSolvent(scale: Scale, balances: seq<nat>)
    ensures Solvent(Genesis(scale, balances))
  {
    NothingOwed(scale, Genesis(scale, balances).holders);
  }

  lemma {:induction false} NothingOwed(scale: Scale, holders: seq<Holding>)
    requires forall i :: 0 <= i < |holders| ==> holders[i].checkpoint == 0 && holders[i].owedWire == 0
    ensures Liability(scale, holders, 0) == 0
  {
    if holders != [] {
      NothingOwed(scale, holders[1..]);
    }
  }

  lemma {:induction false} RunKeepsSolvent(scale: Scale, balances: seq<nat>, ops: seq<Operation>)
    ensures Solvent(Run(Genesis(scale, balances), ops)) && Run(Genesis(scale, balances), ops).scale == scale
  {
    if ops == [] {
      GenesisIsSolvent(scale, balances);
    } else {
      var n := |ops| - 1;
      RunKeepsSolvent(scale, balances, ops[..n]);
      ApplyKeepsSolvent(Run(Genesis(scale, balances), ops[..n]), ops[n]);
    }
  }

  lemma PotArithmetic(scale: Scale, pot: int, carry: nat, owed: int, liability: int, settlements: nat, holders: nat)
    requires 0 <= pot * scale - carry - liability <= settlements * (scale - 1)
    requires liability - holders * (scale - 1) <= owed * scale <= liability
    ensures owed <= pot
    ensures (pot - owed) * scale <= carry + (settlements + holders) * (scale - 1)
  {
    MulCancel(owed, pot, scale);
    MulDistributes(scale, pot, -owed);
    MulDistributes(scale - 1, settlements, holders);
  }

  /** In a solvent state every claim is payable, alone or with all the others. */
  lemma SolventCoversClaims(ledger: Ledger)
    requires Solvent(ledger)
    ensures var owed := TotalOwed(ledger.scale, ledger.holders, ledger.distribution.index);
            && 0 <= owed <= ledger.distribution.pot
            && (ledger.distribution.pot - owed) * ledger.scale
               <= ledger.distribution.carry + (ledger.settlements + |ledger.holders|) * (ledger.scale - 1)
    ensures forall i :: 0 <= i < |ledger.holders| ==>
              0 <= OwedWire(ledger.scale, ledger.holders[i], ledger.distribution.index) <= ledger.distribution.pot
  {
    var scale, index := ledger.scale, ledger.distribution.index;
    OwedWithinLiability(scale, ledger.holders, index);
    PotArithmetic(scale, ledger.distribution.pot, ledger.distribution.carry, TotalOwed(scale, ledger.holders, index),
                  Liability(scale, ledger.holders, index), ledger.settlements, |ledger.holders|);
  }

  /**
   Solvency over every run: whatever was distributed, transferred, minted, burned and claimed, in
   any order, the pot covers the sum of what every holder is owed, so each claim is payable. What
   it holds beyond that is less than the carry and one unit a settlement and a holder, and no
   WIRE appears or vanishes: the pot and the claims together are what was distributed.
   */
  lemma PotCoversEveryClaim(scale: Scale, balances: seq<nat>, ops: seq<Operation>)
    ensures var ledger := Run(Genesis(scale, balances), ops);
            var owed := TotalOwed(scale, ledger.holders, ledger.distribution.index);
            && 0 <= owed <= ledger.distribution.pot
            && (ledger.distribution.pot - owed) * scale
               <= ledger.distribution.carry + (ledger.settlements + |ledger.holders|) * (scale - 1)
            && ledger.distribution.pot + ledger.claimed == ledger.distributed
            && forall i :: 0 <= i < |ledger.holders| ==>
                 0 <= OwedWire(scale, ledger.holders[i], ledger.distribution.index) <= ledger.distribution.pot
  {
    RunKeepsSolvent(scale, balances, ops);
    SolventCoversClaims(Run(Genesis(scale, balances), ops));
  }

  lemma RunExtends(ledger: Ledger, ops: seq<Operation>, op: Operation)
    requires Apply(Run(ledger, ops), op).Success?
    ensures Run(ledger, ops + [op]) == Apply(Run(ledger, ops), op).value
  {
    assert (ops + [op])[..|ops|] == ops;
  }

  lemma ClaimSettles(before: Ledger, who: nat)
    requires who < |before.holders|
    ensures var after := Apply(before, Claim(who)).value;
            var owed := OwedWire(before.scale, before.holders[who], before.distribution.index);
            && Apply(before, Claim(who)).Success?
            && after.distribution == before.distribution.(pot := before.distribution.pot - owed)
            && after.claimed == before.claimed + owed
            && after.holders == before.holders[who := Holding(before.holders[who].balance, before.distribution.index, 0)]
            && OwedWire(before.scale, after.holders[who], after.distribution.index) == 0
  {
    assert before.holders[who].balance * (before.distribution.index - before.distribution.index) == 0;
  }

  /** A claim hands over all a row is owed and settles it; the index and the other rows do not notice. */
  lemma ClaimIsExact(scale: Scale, balances: seq<nat>, ops: seq<Operation>, who: nat)
    requires who < |Run(Genesis(scale, balances), ops).holders|
    ensures var before := Run(Genesis(scale, balances), ops);
            var after := Run(Genesis(scale, balances), ops + [Claim(who)]);
            var owed := OwedWire(scale, before.holders[who], before.distribution.index);
            && after.distribution == before.distribution.(pot := before.distribution.pot - owed)
            && after.distribution.pot >= 0
            && after.claimed == before.claimed + owed
            && after.holders == before.holders[who := Holding(before.holders[who].balance, before.distribution.index, 0)]
            && OwedWire(scale, after.holders[who], after.distribution.index) == 0
  {
    var before := Run(Genesis(scale, balances), ops);
    RunKeepsSolvent(scale, balances, ops);
    SolventCoversClaims(before);
    ClaimSettles(before, who);
    RunExtends(Genesis(scale, balances), ops, Claim(who));
  }

  // ----- the balances under the yield

  function Balances(holders: seq<Holding>): (balances: seq<nat>)
    ensures |balances| == |holders| && forall i :: 0 <= i < |holders| ==> balances[i] == holders[i].balance
  {
    seq(|holders|, i requires 0 <= i < |holders| => holders[i].balance)
  }

  /** Whether a token alone, without any yield, would go along. */
  predicate TokenAllows(balances: seq<nat>, op: Operation) {
    match op
    case Gift(_) => Sum(balances) > 0
    case Transfer(source, target, quantity) =>
      source < |balances| && target < |balances| && quantity <= balances[source]
    case Mint(target, _) => target < |balances|
    case Burn(source, quantity) => source < |balances| && quantity <= balances[source]
    case Claim(holder) => holder < |balances|
  }

  /** What it would do to the balances: gifts and claims nothing. */
  function TokenMoves(balances: seq<nat>, op: Operation): (moved: seq<nat>)
    ensures |moved| == |balances|
  {
    if !TokenAllows(balances, op) then balances
    else
      match op
      case Gift(_) => balances
      case Transfer(source, target, quantity) =>
        var debited: seq<nat> := balances[source := balances[source] - quantity];
        debited[target := debited[target] + quantity]
      case Mint(target, quantity) => balances[target := balances[target] + quantity]
      case Burn(source, quantity) => balances[source := balances[source] - quantity]
      case Claim(_) => balances
  }

  function TokenRun(balances: seq<nat>, ops: seq<Operation>): (after: seq<nat>)
    ensures |after| == |balances|
  {
    if ops == [] then balances else TokenMoves(TokenRun(balances, ops[..|ops| - 1]), ops[|ops| - 1])
  }

  lemma {:induction false} SupplyIsSum(holders: seq<Holding>)
    ensures Supply(holders) == Sum(Balances(holders))
  {
    if holders != [] {
      assert Balances(holders)[1..] == Balances(holders[1..]);
      SupplyIsSum(holders[1..]);
    }
  }

  lemma RebalanceMovesBalance(ledger: Ledger, who: nat, delta: int)
    requires who < |ledger.holders| && ledger.holders[who].balance + delta >= 0
    ensures Balances(Rebalance(ledger, who, delta).holders)
         == Balances(ledger.holders)[who := ledger.holders[who].balance + delta]
  {}

  lemma TransferMovesBalances(ledger: Ledger, source: nat, target: nat, quantity: nat)
    requires source < |ledger.holders| && target < |ledger.holders| && quantity <= ledger.holders[source].balance
    ensures var debited := Balances(ledger.holders)[source := ledger.holders[source].balance - quantity];
            Balances(Rebalance(Rebalance(ledger, source, 0 - quantity), target, quantity).holders)
            == debited[target := debited[target] + quantity]
  {
    RebalanceMovesBalance(ledger, source, 0 - quantity);
    RebalanceMovesBalance(Rebalance(ledger, source, 0 - quantity), target, quantity);
  }

  lemma ClaimMovesNoBalance(ledger: Ledger, holder: nat)
    requires holder < |ledger.holders|
    ensures Balances(Apply(ledger, Claim(holder)).value.holders) == Balances(ledger.holders)
  {}

  /** The ledger refuses what the token refuses. */
  lemma ApplyRefusesExactly(ledger: Ledger, op: Operation)
    ensures Apply(ledger, op).Success? <==> TokenAllows(Balances(ledger.holders), op)
  {
    SupplyIsSum(ledger.holders);
  }

  /** And it moves the balances as the token does. */
  lemma ApplyMovesBalances(ledger: Ledger, op: Operation)
    ensures Balances(After(ledger, op).holders) == TokenMoves(Balances(ledger.holders), op)
  {
    ApplyRefusesExactly(ledger, op);
    if Apply(ledger, op).Success? {
      match op
      case Gift(_) =>
      case Transfer(source, target, quantity) => TransferMovesBalances(ledger, source, target, quantity);
      case Mint(target, quantity) => RebalanceMovesBalance(ledger, target, quantity);
      case Burn(source, quantity) => RebalanceMovesBalance(ledger, source, 0 - quantity);
      case Claim(holder) => ClaimMovesNoBalance(ledger, holder);
    }
  }

  lemma {:induction false} RunMovesBalancesFrom(ledger: Ledger, ops: seq<Operation>)
    ensures Balances(Run(ledger, ops).holders) == TokenRun(Balances(ledger.holders), ops)
  {
    if ops != [] {
      RunMovesBalancesFrom(ledger, ops[..|ops| - 1]);
      ApplyMovesBalances(Run(ledger, ops[..|ops| - 1]), ops[|ops| - 1]);
    }
  }

  /**
   The yield machinery never shows in the balances: over every run they are those of the bare
   token, operation by operation, whatever was distributed, banked and claimed on the way.
   */
  lemma RunMovesBalances(scale: Scale, balances: seq<nat>, ops: seq<Operation>)
    ensures Balances(Run(Genesis(scale, balances), ops).holders) == TokenRun(balances, ops)
  {
    RunMovesBalancesFrom(Genesis(scale, balances), ops);
    assert Balances(Genesis(scale, balances).holders) == balances;
  }

  // ----- each holder's share

  /** What a row's balance earns while an operation moves the index, in index units. */
  function Accrual(before: Ledger, op: Operation, who: nat): int
    requires who < |before.holders|
  {
    before.holders[who].balance * (After(before, op).distribution.index - before.distribution.index)
  }

  /** What an operation pays out to a row. */
  function Payout(before: Ledger, op: Operation, who: nat): int {
    if op == Claim(who) then After(before, op).claimed - before.claimed else 0
  }

  /** How often an operation banks a row. */
  function Bankings(before: Ledger, op: Operation, who: nat): nat {
    if Apply(before, op).Failure? then 0
    else
      match op
      case Gift(_) => 0
      case Transfer(source, target, _) => (if source == who then 1 else 0) + (if target == who then 1 else 0)
      case Mint(target, _) => if target == who then 1 else 0
      case Burn(source, _) => if source == who then 1 else 0
      case Claim(holder) => if holder == who then 1 else 0
  }

  /** A row's share of a run: what its balance earned, what it was paid and how often it was banked. */
  datatype Share = Share(earned: int, paid: int, bankings: nat)

  function Add(share: Share, before: Ledger, op: Operation, who: nat): Share
    requires who < |before.holders|
  {
    Share(share.earned + Accrual(before, op, who), share.paid + Payout(before, op, who),
          share.bankings + Bankings(before, op, who))
  }

  function ShareOf(scale: Scale, balances: seq<nat>, ops: seq<Operation>, who: nat): Share
    requires who < |balances|
  {
    if ops == [] then Share(0, 0, 0)
    else
      var n := |ops| - 1;
      RunKeepsHolders(scale, balances, ops[..n]);
      Add(ShareOf(scale, balances, ops[..n], who), Run(Genesis(scale, balances), ops[..n]), ops[n], who)
  }

  lemma RunKeepsHolders(scale: Scale, balances: seq<nat>, ops: seq<Operation>)
    ensures |Run(Genesis(scale, balances), ops).holders| == |balances|
  {
    RunMovesBalances(scale, balances, ops);
  }

  /** A row's liability once it has moved from `before` to `after`. */
  ghost predicate Within(scale: Scale, before: int, after: int, bankings: nat) {
    before - bankings * (scale - 1) <= after <= before
  }

  /** Banking a row loses less than one unit of it and touches no other. */
  lemma RebalanceKeepsShare(ledger: Ledger, moved: nat, delta: int, who: nat)
    requires Solvent(ledger) && moved < |ledger.holders| && who < |ledger.holders| && ledger.holders[moved].balance + delta >= 0
    ensures var after := Rebalance(ledger, moved, delta);
            Within(ledger.scale, RowLiability(ledger.scale, ledger.holders[who], ledger.distribution.index),
                   RowLiability(ledger.scale, after.holders[who], ledger.distribution.index), if moved == who then 1 else 0)
  {
    var row, index := ledger.holders[moved], ledger.distribution.index;
    OwedIsFlooredAccrual(ledger.scale, row, index);
    SettledRow(ledger.scale, index, row.balance + delta, OwedWire(ledger.scale, row, index));
  }

  lemma GiftKeepsShare(ledger: Ledger, amount: nat, who: nat)
    requires who < |ledger.holders|
    ensures var after := After(ledger, Gift(amount));
            RowLiability(ledger.scale, after.holders[who], after.distribution.index)
            == RowLiability(ledger.scale, ledger.holders[who], ledger.distribution.index) + Accrual(ledger, Gift(amount), who)
  {
    var row, after := ledger.holders[who], After(ledger, Gift(amount));
    MulDistributes(row.balance, ledger.distribution.index - row.checkpoint, after.distribution.index - ledger.distribution.index);
  }

  lemma TransferKeepsShare(ledger: Ledger, source: nat, target: nat, quantity: nat, who: nat)
    requires Solvent(ledger) && who < |ledger.holders| && Apply(ledger, Transfer(source, target, quantity)).Success?
    ensures var after := After(ledger, Transfer(source, target, quantity));
            && after.distribution == ledger.distribution
            && Within(ledger.scale, RowLiability(ledger.scale, ledger.holders[who], ledger.distribution.index),
                      RowLiability(ledger.scale, after.holders[who], ledger.distribution.index),
                      Bankings(ledger, Transfer(source, target, quantity), who))
  {
    var debited := Rebalance(ledger, source, 0 - quantity);
    RebalanceKeepsSolvent(ledger, source, 0 - quantity);
    RebalanceKeepsShare(ledger, source, 0 - quantity, who);
    RebalanceKeepsShare(debited, target, quantity, who);
  }

  lemma ClaimKeepsShare(ledger: Ledger, holder: nat, who: nat)
    requires Solvent(ledger) && holder < |ledger.holders| && who < |ledger.holders|
    ensures var after := After(ledger, Claim(holder));
            && after.distribution.index == ledger.distribution.index
            && Within(ledger.scale, RowLiability(ledger.scale, ledger.holders[who], ledger.distribution.index),
                      RowLiability(ledger.scale, after.holders[who], ledger.distribution.index)
                      + Payout(ledger, Claim(holder), who) * ledger.scale,
                      Bankings(ledger, Claim(holder), who))
  {
    var row, index := ledger.holders[holder], ledger.distribution.index;
    OwedIsFlooredAccrual(ledger.scale, row, index);
    SettledRow(ledger.scale, index, row.balance, 0);
  }

  /** An operation takes no more from a row than its floors, and gives it nothing it has not earned or been paid. */
  ghost predicate KeepsShare(ledger: Ledger, op: Operation, who: nat)
    requires who < |ledger.holders| && who < |After(ledger, op).holders|
  {
    Within(ledger.scale,
           RowLiability(ledger.scale, ledger.holders[who], ledger.distribution.index) + Accrual(ledger, op, who),
           RowLiability(ledger.scale, After(ledger, op).holders[who], After(ledger, op).distribution.index)
           + Payout(ledger, op, who) * ledger.scale,
           Bankings(ledger, op, who))
  }

  lemma NothingAccrues(before: Ledger, op: Operation, who: nat)
    requires who < |before.holders| && After(before, op).distribution.index == before.distribution.index
    ensures Accrual(before, op, who) == 0
  {
    assert before.holders[who].balance * 0 == 0;
  }

  lemma RefusalKeepsShare(ledger: Ledger, op: Operation, who: nat)
    requires who < |ledger.holders| && Apply(ledger, op).Failure?
    ensures KeepsShare(ledger, op, who)
  {
    NothingAccrues(ledger, op, who);
  }

  lemma ApplyKeepsHolders(ledger: Ledger, op: Operation)
    ensures |After(ledger, op).holders| == |ledger.holders|
  {}

  lemma ApplyKeepsShare(ledger: Ledger, op: Operation, who: nat)
    requires Solvent(ledger) && who < |ledger.holders|
    ensures |After(ledger, op).holders| == |ledger.holders| && KeepsShare(ledger, op, who)
  {
    ApplyKeepsHolders(ledger, op);
    if Apply(ledger, op).Failure? {
      RefusalKeepsShare(ledger, op, who);
      return;
    }
    match op
    case Gift(amount) => GiftKeepsShare(ledger, amount, who);
    case Transfer(source, target, quantity) =>
      TransferKeepsShare(ledger, source, target, quantity, who);
      NothingAccrues(ledger, op, who);
    case Mint(target, quantity) =>
      RebalanceKeepsShare(ledger, target, quantity, who);
      NothingAccrues(ledger, op, who);
    case Burn(source, quantity) =>
      RebalanceKeepsShare(ledger, source, 0 - quantity, who);
      NothingAccrues(ledger, op, who);
    case Claim(holder) =>
      ClaimKeepsShare(ledger, holder, who);
      NothingAccrues(ledger, op, who);
  }

  lemma ShareArithmetic(scale: Scale, earned: int, accrual: int, paid: int, payout: int, bankings: nat, more: nat, before: int, after: int)
    requires Within(scale, earned, before + paid * scale, bankings)
    requires Within(scale, before + accrual, after + payout * scale, more)
    ensures Within(scale, earned + accrual, after + (paid + payout) * scale, bankings + more)
  {
    MulDistributes(scale, paid, payout);
    MulDistributes(scale - 1, bankings, more);
  }

  /** A row's liability and what it was paid are what it earned, but for the floors. */
  ghost predicate ShareHolds(ledger: Ledger, share: Share, who: nat)
    requires who < |ledger.holders|
  {
    Within(ledger.scale, share.earned,
           RowLiability(ledger.scale, ledger.holders[who], ledger.distribution.index) + share.paid * ledger.scale,
           share.bankings)
  }

  lemma ApplyAddsToShare(ledger: Ledger, op: Operation, share: Share, who: nat)
    requires Solvent(ledger) && who < |ledger.holders| && ShareHolds(ledger, share, who)
    requires After(ledger, op).scale == ledger.scale
    ensures |After(ledger, op).holders| == |ledger.holders|
    ensures ShareHolds(After(ledger, op), Add(share, ledger, op, who), who)
  {
    var after := After(ledger, op);
    ApplyKeepsShare(ledger, op, who);
    ShareArithmetic(ledger.scale, share.earned, Accrual(ledger, op, who), share.paid, Payout(ledger, op, who),
                    share.bankings, Bankings(ledger, op, who),
                    RowLiability(ledger.scale, ledger.holders[who], ledger.distribution.index),
                    RowLiability(ledger.scale, after.holders[who], after.distribution.index));
  }

  lemma {:induction false} RunKeepsShare(scale: Scale, balances: seq<nat>, ops: seq<Operation>, who: nat)
    requires who < |balances|
    ensures |Run(Genesis(scale, balances), ops).holders| == |balances|
    ensures ShareHolds(Run(Genesis(scale, balances), ops), ShareOf(scale, balances, ops, who), who)
  {
    RunKeepsHolders(scale, balances, ops);
    if ops == [] {
      return;
    }
    var n := |ops| - 1;
    var before := Run(Genesis(scale, balances), ops[..n]);
    RunKeepsShare(scale, balances, ops[..n], who);
    RunKeepsSolvent(scale, balances, ops[..n]);
    RunKeepsSolvent(scale, balances, ops);
    assert Run(Genesis(scale, balances), ops) == After(before, ops[n]);
    ApplyAddsToShare(before, ops[n], ShareOf(scale, balances, ops[..n], who), who);
  }

  /** What a holder was paid and is owed, against what it earned: one unit a banking and one for the last floor, never more. */
  ghost predicate Receives(ledger: Ledger, share: Share, who: nat)
    requires who < |ledger.holders|
  {
    var received := share.paid + OwedWire(ledger.scale, ledger.holders[who], ledger.distribution.index);
    share.earned - (share.bankings + 1) * (ledger.scale - 1) <= received * ledger.scale <= share.earned
  }

  lemma ShareIsReceived(ledger: Ledger, share: Share, who: nat)
    requires Solvent(ledger) && who < |ledger.holders| && ShareHolds(ledger, share, who)
    ensures Receives(ledger, share, who)
  {
    OwedIsFlooredAccrual(ledger.scale, ledger.holders[who], ledger.distribution.index);
    MulDistributes(ledger.scale, share.paid, OwedWire(ledger.scale, ledger.holders[who], ledger.distribution.index));
    MulDistributes(ledger.scale - 1, share.bankings, 1);
  }

  /**
   Every holder gets its own share, not only all of them together: over every run, what a holder
   was paid and is still owed is what its balance of the moment earned at each index step, short
   of it by less than one unit for each time its row was banked and one for the last floor, and
   never above it.
   */
  lemma EachHolderGetsItsShare(scale: Scale, balances: seq<nat>, ops: seq<Operation>, who: nat)
    requires who < |balances|
    ensures |Run(Genesis(scale, balances), ops).holders| == |balances|
    ensures Receives(Run(Genesis(scale, balances), ops), ShareOf(scale, balances, ops, who), who)
  {
    RunKeepsShare(scale, balances, ops, who);
    RunKeepsSolvent(scale, balances, ops);
    ShareIsReceived(Run(Genesis(scale, balances), ops), ShareOf(scale, balances, ops, who), who);
  }

  // ----- what the carry and the floors cost

  /** Distributions in sequence at one supply. */
  function DistributeAll(scale: Scale, before: YieldIndex, amounts: seq<nat>, supply: int): YieldIndex
    requires supply > 0
  {
    if amounts == [] then before
    else Distribute(scale, DistributeAll(scale, before, amounts[..|amounts| - 1], supply), amounts[|amounts| - 1], supply).value
  }

  /** A quotient and remainder are determined by the number they divide. */
  lemma QuotientUnique(q1: int, r1: int, q2: int, r2: int, d: int)
    requires 0 <= r1 < d && 0 <= r2 < d && q1 * d + r1 == q2 * d + r2
    ensures q1 == q2 && r1 == r2
  {
    DivUnique(q1 * d + r1, d, q1);
    DivUnique(q1 * d + r1, d, q2);
  }

  /** After at least one distribution the carry is below the supply, whatever it was before. */
  lemma {:induction false} DistributeAllIsExact(scale: Scale, before: YieldIndex, amounts: seq<nat>, supply: int)
    requires supply > 0 && 0 <= before.carry && amounts != []
    ensures var after := DistributeAll(scale, before, amounts, supply);
            && 0 <= after.carry < supply
            && (after.index - before.index) * supply + after.carry == Sum(amounts) * scale + before.carry
            && after.pot == before.pot + Sum(amounts)
  {
    var n := |amounts| - 1;
    var middle, after := DistributeAll(scale, before, amounts[..n], supply), DistributeAll(scale, before, amounts, supply);
    SumSplitLast(amounts);
    if n == 0 {
      assert amounts[..n] == [];
      DistributeIsExact(scale, before, amounts[0], supply);
      return;
    }
    DistributeAllIsExact(scale, before, amounts[..n], supply);
    DistributeIsExact(scale, middle, amounts[n], supply);
    MulDistributes(supply, after.index - middle.index, middle.index - before.index);
    MulDistributes(scale, Sum(amounts[..n]), amounts[n]);
  }

  /**
   The carry makes the index independent of how a total is cut into distributions, at any carry a
   burn may have left above the supply; only cutting nothing at all then differs from distributing
   nothing, which would still fold the carry.
   */
  lemma DistributionsCombine(scale: Scale, before: YieldIndex, amounts: seq<nat>, supply: int)
    requires supply > 0 && 0 <= before.carry
    ensures Distribute(scale, before, Sum(amounts), supply) == Success(DistributeAll(scale, before, amounts, supply))
        <==> amounts != [] || before.carry < supply
  {
    DistributeIsExact(scale, before, Sum(amounts), supply);
    var once, many := Distribute(scale, before, Sum(amounts), supply).value, DistributeAll(scale, before, amounts, supply);
    if amounts != [] {
      DistributeAllIsExact(scale, before, amounts, supply);
      QuotientUnique(once.index - before.index, once.carry, many.index - before.index, many.carry, supply);
    } else if before.carry < supply {
      QuotientUnique(once.index - before.index, once.carry, 0, before.carry, supply);
    }
  }

  /** Settling early never gains, and costs at most one unit. */
  lemma SettlingEarly(scale: Scale, row: Holding, middle: int, index: int)
    requires RowValid(row, middle) && middle <= index
    ensures var settled := Settle(scale, row, middle);
            OwedWire(scale, settled, index) <= OwedWire(scale, row, index) <= OwedWire(scale, settled, index) + 1
  {
    TwoAccruals(scale, row.balance, middle - row.checkpoint, index - middle);
    assert index - row.checkpoint == (middle - row.checkpoint) + (index - middle);
  }

  lemma TwoAccruals(scale: Scale, balance: nat, first: nat, second: nat)
    ensures TruncDiv(balance * first, scale) + TruncDiv(balance * second, scale) <= TruncDiv(balance * (first + second), scale)
         <= TruncDiv(balance * first, scale) + TruncDiv(balance * second, scale) + 1
  {
    MulNonNeg(balance, first);
    MulNonNeg(balance, second);
    MulDistributes(balance, first, second);
    DivSuperAdditive(balance * first, balance * second, scale);
  }
}
