/**
 How a payment by the crank is found: the receipt in one traced block, and a scan over the
 irreversible blocks that picks up where its last poll left off.
 */
module CrankScan {

  // ----- the receipt of one block

  const TREASURY_ACCOUNT := "sysio"
  const KICKER_ACCOUNT := "sysio.kicker"
  const TOKEN_ACCOUNT := "sysio.token"
  const KICK_ACTION := "kick"
  const TRANSFER_ACTION := "transfer"
  const ISSUE_ACTION := "issue"
  const LIQ_TOKEN := "LIQETH"

  datatype ActionData = KickData(sym: string) | TransferData(source: string, target: string, quantity: nat) | OtherData
  datatype Action = Action(receiver: string, account: string, name: string, data: ActionData)
  datatype Transaction = Transaction(actions: seq<Action>, blockTime: nat)

  datatype KickReceipt = KickReceipt(paid: nat, blockTime: nat)

  /** A block without a paying kick, its first paying kick, or a payment that touched emissions accounting. */
  datatype BlockReceipt = NoReceipt | Paid(receipt: KickReceipt) | EmissionsMutated

  predicate IsKick(action: Action) {
    && action.receiver == KICKER_ACCOUNT && action.account == KICKER_ACCOUNT && action.name == KICK_ACTION
    && action.data == KickData(LIQ_TOKEN)
  }

  /** The treasury's transfer to the kicker, as executed on the token contract and not as notified. */
  predicate IsDraw(action: Action) {
    && action.receiver == TOKEN_ACCOUNT && action.account == TOKEN_ACCOUNT && action.name == TRANSFER_ACTION
    && action.data.TransferData?
    && action.data.source == TREASURY_ACCOUNT && action.data.target == KICKER_ACCOUNT
  }

  predicate MutatesEmissions(action: Action) {
    || (action.receiver == TREASURY_ACCOUNT && action.account == TREASURY_ACCOUNT)
    || (action.receiver == TOKEN_ACCOUNT && action.account == TOKEN_ACCOUNT && action.name == ISSUE_ACTION)
  }

  /** The actions a test picks out, in their order. */
  function Matching(actions: seq<Action>, wanted: Action -> bool): (matches: seq<Action>)
    ensures forall i :: 0 <= i < |matches| ==> wanted(matches[i])
  {
    if actions == [] then []
    else (if wanted(actions[0]) then [actions[0]] else []) + Matching(actions[1..], wanted)
  }

  function Kicks(actions: seq<Action>): seq<Action> {
    Matching(actions, IsKick)
  }

  function Draws(actions: seq<Action>): seq<Action> {
    Matching(actions, IsDraw)
  }

  /** Exactly one of each makes a transaction a payment. */
  predicate Pays(transaction: Transaction) {
    |Kicks(transaction.actions)| == 1 && |Draws(transaction.actions)| == 1
  }

  function PaidReceipt(transaction: Transaction): BlockReceipt
    requires Pays(transaction)
  {
    if exists i :: 0 <= i < |transaction.actions| && MutatesEmissions(transaction.actions[i]) then EmissionsMutated
    else Paid(KickReceipt(Draws(transaction.actions)[0].data.quantity, transaction.blockTime))
  }

  function CrankReceipt(transactions: seq<Transaction>): BlockReceipt {
    if transactions == [] then NoReceipt
    else if !Pays(transactions[0]) then CrankReceipt(transactions[1..])
    else PaidReceipt(transactions[0])
  }

  /** The receipt is the first paying transaction's, whatever the other operators' pushes hold. */
  lemma {:induction false} ReceiptIsFirstPayment(transactions: seq<Transaction>, i: nat)
    requires i <= |transactions| && forall j :: 0 <= j < i ==> !Pays(transactions[j])
    ensures i == |transactions| ==> CrankReceipt(transactions) == NoReceipt
    ensures i < |transactions| && Pays(transactions[i]) ==> CrankReceipt(transactions) == PaidReceipt(transactions[i])
  {
    if i > 0 {
      ReceiptIsFirstPayment(transactions[1..], i - 1);
    }
  }

  // ----- the receipt, action by action

  predicate ExecutesKick(action: Action) {
    action == Action("sysio.kicker", "sysio.kicker", "kick", KickData("LIQETH"))
  }

  predicate ExecutesDraw(action: Action) {
    && action.data.TransferData?
    && action == Action("sysio.token", "sysio.token", "transfer", TransferData("sysio", "sysio.kicker", action.data.quantity))
  }

  predicate TouchesEmissions(action: Action) {
    || (action.receiver == "sysio" && action.account == "sysio")
    || (action.receiver == "sysio.token" && action.account == "sysio.token" && action.name == "issue")
  }

  /** Position `k`, and no other, holds a kick. */
  ghost predicate OnlyKick(actions: seq<Action>, k: nat) {
    && k < |actions| && ExecutesKick(actions[k])
    && forall j :: 0 <= j < |actions| && j != k ==> !ExecutesKick(actions[j])
  }

  ghost predicate OnlyDraw(actions: seq<Action>, d: nat) {
    && d < |actions| && ExecutesDraw(actions[d])
    && forall j :: 0 <= j < |actions| && j != d ==> !ExecutesDraw(actions[j])
  }

  ghost predicate OneOfEach(transaction: Transaction) {
    && (exists k: nat :: OnlyKick(transaction.actions, k))
    && exists d: nat :: OnlyDraw(transaction.actions, d)
  }

  ghost predicate Clean(transaction: Transaction) {
    forall i :: 0 <= i < |transaction.actions| ==> !TouchesEmissions(transaction.actions[i])
  }

  ghost predicate FirstWithOneOfEach(transactions: seq<Transaction>, i: nat) {
    && i < |transactions| && OneOfEach(transactions[i])
    && forall j :: 0 <= j < i ==> !OneOfEach(transactions[j])
  }

  /** Position `k`, and no other, passes the test. */
  ghost predicate OnlyAt(actions: seq<Action>, wanted: Action -> bool, k: nat) {
    && k < |actions| && wanted(actions[k])
    && forall j :: 0 <= j < |actions| && j != k ==> !wanted(actions[j])
  }

  lemma {:induction false} NoneMatching(actions: seq<Action>, wanted: Action -> bool)
    ensures Matching(actions, wanted) == [] <==> forall j :: 0 <= j < |actions| ==> !wanted(actions[j])
  {
    if actions != [] {
      NoneMatching(actions[1..], wanted);
      assert forall j :: 0 < j < |actions| ==> actions[j] == actions[1..][j - 1];
    }
  }

  lemma {:induction false} OneMatching(actions: seq<Action>, wanted: Action -> bool, k: nat)
    requires OnlyAt(actions, wanted, k)
    ensures Matching(actions, wanted) == [actions[k]]
  {
    if k == 0 {
      NoneMatching(actions[1..], wanted);
    } else {
      assert actions[1..][k - 1] == actions[k];
      OneMatching(actions[1..], wanted, k - 1);
    }
  }

  lemma {:induction false} MatchIsSomewhere(actions: seq<Action>, wanted: Action -> bool) returns (k: nat)
    requires |Matching(actions, wanted)| == 1
    ensures OnlyAt(actions, wanted, k)
  {
    if wanted(actions[0]) {
      NoneMatching(actions[1..], wanted);
      assert forall j :: 0 < j < |actions| ==> actions[j] == actions[1..][j - 1];
      k := 0;
    } else {
      k := MatchIsSomewhere(actions[1..], wanted);
      k := k + 1;
      assert forall j :: 0 < j < |actions| ==> actions[j] == actions[1..][j - 1];
    }
  }

  lemma PaysWithOneOfEach(transaction: Transaction)
    ensures Pays(transaction) <==> OneOfEach(transaction)
  {
    if Pays(transaction) {
      var k := MatchIsSomewhere(transaction.actions, IsKick);
      var d := MatchIsSomewhere(transaction.actions, IsDraw);
      assert OnlyKick(transaction.actions, k) && OnlyDraw(transaction.actions, d);
    }
    if OneOfEach(transaction) {
      var k: nat :| OnlyKick(transaction.actions, k);
      var d: nat :| OnlyDraw(transaction.actions, d);
      OneMatching(transaction.actions, IsKick, k);
      OneMatching(transaction.actions, IsDraw, d);
    }
  }

  lemma PaidReceiptShows(transaction: Transaction, d: nat)
    requires Pays(transaction) && OnlyDraw(transaction.actions, d)
    ensures PaidReceipt(transaction)
         == if Clean(transaction) then Paid(KickReceipt(transaction.actions[d].data.quantity, transaction.blockTime)) else EmissionsMutated
  {
    OneMatching(transaction.actions, IsDraw, d);
  }

  /**
   The receipt over positions. Only a transaction in which exactly one position executes the kick
   and exactly one the draw counts, and the first such decides: its receipt is the quantity at the
   draw's position and the transaction's time, unless any of its positions touches emissions.
   */
  lemma ReceiptByPosition(transactions: seq<Transaction>, i: nat, d: nat)
    ensures CrankReceipt(transactions) == NoReceipt <==> forall j :: 0 <= j < |transactions| ==> !OneOfEach(transactions[j])
    ensures FirstWithOneOfEach(transactions, i) && OnlyDraw(transactions[i].actions, d) ==>
      CrankReceipt(transactions)
      == if Clean(transactions[i]) then Paid(KickReceipt(transactions[i].actions[d].data.quantity, transactions[i].blockTime))
         else EmissionsMutated
  {
    forall j | 0 <= j < |transactions| ensures Pays(transactions[j]) <==> OneOfEach(transactions[j]) {
      PaysWithOneOfEach(transactions[j]);
    }
    if FirstWithOneOfEach(transactions, i) && OnlyDraw(transactions[i].actions, d) {
      ReceiptIsFirstPayment(transactions, i);
      PaidReceiptShows(transactions[i], d);
    }
    if forall j :: 0 <= j < |transactions| ==> !OneOfEach(transactions[j]) {
      ReceiptIsFirstPayment(transactions, |transactions|);
    } else {
      SomeReceipt(transactions);
    }
  }

  lemma {:induction false} SomeReceipt(transactions: seq<Transaction>)
    requires exists j :: 0 <= j < |transactions| && Pays(transactions[j])
    ensures CrankReceipt(transactions) != NoReceipt
  {
    if !Pays(transactions[0]) {
      var j :| 0 <= j < |transactions| && Pays(transactions[j]);
      assert transactions[1..][j - 1] == transactions[j];
      SomeReceipt(transactions[1..]);
    }
  }

  /** Every receipt comes from such a transaction. */
  lemma ReceiptHasItsTransaction(transactions: seq<Transaction>) returns (i: nat, d: nat)
    requires CrankReceipt(transactions) != NoReceipt
    ensures FirstWithOneOfEach(transactions, i) && OnlyDraw(transactions[i].actions, d)
  {
    ReceiptByPosition(transactions, 0, 0);
    i := 0;
    while !OneOfEach(transactions[i])
      invariant i < |transactions| && forall j :: 0 <= j < i ==> !OneOfEach(transactions[j])
      decreases |transactions| - i
    {
      assert exists j :: i < j < |transactions| && OneOfEach(transactions[j]);
      i := i + 1;
    }
    d :| OnlyDraw(transactions[i].actions, d);
  }

  // ----- one poll of the scan

  /** What the trace API holds for a block. */
  datatype BlockTrace = Missing | Pending(provisional: seq<Transaction>) | Irreversible(transactions: seq<Transaction>)

  datatype PollResult = Nothing | Found(receipt: KickReceipt) | Refused

  /** Where a scan stands after a poll, what the poll answered and which blocks it examined. */
  datatype ScanState = ScanState(nextBlock: nat, result: PollResult, examined: seq<nat>)

  function Answer(receipt: BlockReceipt): PollResult {
    match receipt
    case NoReceipt => Nothing
    case Paid(r) => Found(r)
    case EmissionsMutated => Refused
  }

  /** What a receipt comes to for the caller. */
  predicate Answers(result: PollResult, receipt: BlockReceipt) {
    && (result == Nothing <==> receipt == NoReceipt)
    && (result == Refused <==> receipt == EmissionsMutated)
    && (receipt.Paid? ==> result == Found(receipt.receipt))
  }

  /** One poll: from `next` up to the last irreversible block, stopping at the first block not yet irreversible. */
  function Poll(next: nat, lib: nat, view: nat -> BlockTrace): ScanState
    decreases lib + 1 - next
  {
    if next > lib || !view(next).Irreversible? then ScanState(next, Nothing, [])
    else
      var answer := Answer(CrankReceipt(view(next).transactions));
      if answer != Nothing then ScanState(next + 1, answer, [next])
      else
        var rest := Poll(next + 1, lib, view);
        rest.(examined := [next] + rest.examined)
  }

  /** The scan the program carries from poll to poll; `examined` only records what it has read. */
  class Scan {
    var nextBlock: nat
    ghost var examined: seq<nat>

    constructor (baseline: nat)
      ensures nextBlock == baseline + 1 && examined == []
    {
      nextBlock := baseline + 1;
      examined := [];
    }
  }

  method IrreversibleCrank(scan: Scan, lib: nat, view: nat -> BlockTrace) returns (result: PollResult)
    modifies scan
    ensures var poll := Poll(old(scan.nextBlock), lib, view);
            && scan.nextBlock == poll.nextBlock
            && scan.examined == old(scan.examined) + poll.examined
            && result == poll.result
  {
    ghost var target := Poll(scan.nextBlock, lib, view);
    while scan.nextBlock <= lib
      invariant target.nextBlock == Poll(scan.nextBlock, lib, view).nextBlock
      invariant target.result == Poll(scan.nextBlock, lib, view).result
      invariant old(scan.examined) + target.examined == scan.examined + Poll(scan.nextBlock, lib, view).examined
      decreases lib + 1 - scan.nextBlock
    {
      var block := view(scan.nextBlock);
      if !block.Irreversible? {
        return Nothing;
      }
      scan.examined := scan.examined + [scan.nextBlock];
      scan.nextBlock := scan.nextBlock + 1;
      var receipt := CrankReceipt(block.transactions);
      if receipt != NoReceipt {
        return Answer(receipt);
      }
    }
    return Nothing;
  }

  // ----- runs of polls

  /** One poll's view: the last irreversible block and the traces as that poll read them. */
  datatype PollView = PollView(lib: nat, view: nat -> BlockTrace)

  /** Poll until a poll answers; a poll that finds nothing leaves the scan to be resumed. */
  function Polls(next: nat, views: seq<PollView>): ScanState
    decreases |views|
  {
    if views == [] then ScanState(next, Nothing, [])
    else
      var poll := Poll(next, views[0].lib, views[0].view);
      if poll.result != Nothing then poll
      else
        var rest := Polls(poll.nextBlock, views[1..]);
        rest.(examined := poll.examined + rest.examined)
  }

  /** Irreversible blocks never change: whatever a poll sees as irreversible is the chain's own block. */
  ghost predicate Immutable(chain: nat -> seq<Transaction>, views: seq<PollView>) {
    forall i, b :: 0 <= i < |views| && views[i].view(b).Irreversible? ==> views[i].view(b).transactions == chain(b)
  }

  /** The block numbers from `from` up to but not including `to`. */
  function Range(from: nat, to: nat): (blocks: seq<nat>)
    requires from <= to
    ensures |blocks| == to - from && forall i :: 0 <= i < |blocks| ==> blocks[i] == from + i
  {
    seq(to - from, i requires 0 <= i < to - from => from + i)
  }

  /** What a scan from `next` has established once it stands at `state`. */
  ghost predicate Examined(chain: nat -> seq<Transaction>, next: nat, state: ScanState) {
    && next <= state.nextBlock
    && state.examined == Range(next, state.nextBlock)
    && (state.result == Nothing ==> forall b :: next <= b < state.nextBlock ==> CrankReceipt(chain(b)) == NoReceipt)
    && (state.result != Nothing ==>
          && next < state.nextBlock
          && Answers(state.result, CrankReceipt(chain(state.nextBlock - 1)))
          && forall b :: next <= b < state.nextBlock - 1 ==> CrankReceipt(chain(b)) == NoReceipt)
  }

  /** A block with no receipt, examined before the rest. */
  lemma ExaminedEarlier(chain: nat -> seq<Transaction>, next: nat, rest: ScanState)
    requires CrankReceipt(chain(next)) == NoReceipt && Examined(chain, next + 1, rest)
    ensures Examined(chain, next, rest.(examined := [next] + rest.examined))
  {
    var long, short := Range(next, rest.nextBlock), Range(next + 1, rest.nextBlock);
    assert |long| == 1 + |short|;
    assert long == [next] + short;
  }

  lemma {:induction false} PollExamines(chain: nat -> seq<Transaction>, next: nat, poll: PollView)
    requires Immutable(chain, [poll])
    ensures Examined(chain, next, Poll(next, poll.lib, poll.view))
    ensures forall b :: b in Poll(next, poll.lib, poll.view).examined ==> b <= poll.lib && poll.view(b).Irreversible?
    decreases poll.lib + 1 - next
  {
    if next > poll.lib || !poll.view(next).Irreversible? {
      assert Range(next, next) == [];
      return;
    }
    assert [poll][0].view(next).transactions == chain(next);
    if CrankReceipt(chain(next)) == NoReceipt {
      PollExamines(chain, next + 1, poll);
      ExaminedEarlier(chain, next, Poll(next + 1, poll.lib, poll.view));
    } else {
      assert Range(next, next + 1) == [next];
    }
  }

  /** What a fruitless poll and the polls after it examine joins up. */
  lemma ExaminedThen(chain: nat -> seq<Transaction>, next: nat, poll: ScanState, rest: ScanState)
    requires Examined(chain, next, poll) && poll.result == Nothing && Examined(chain, poll.nextBlock, rest)
    ensures Examined(chain, next, rest.(examined := poll.examined + rest.examined))
  {
    assert Range(next, rest.nextBlock) == Range(next, poll.nextBlock) + Range(poll.nextBlock, rest.nextBlock);
  }

  /**
   Across any sequence of polls, whatever each one saw as irreversible, every block below
   `nextBlock` has been examined exactly once and in order, none is skipped, and the answer is the
   receipt of the least-numbered paying block after the baseline.
   */
  lemma {:induction false} PollsExamineOnce(chain: nat -> seq<Transaction>, next: nat, views: seq<PollView>)
    requires Immutable(chain, views)
    ensures Examined(chain, next, Polls(next, views))
    decreases |views|
  {
    if views != [] {
      assert Immutable(chain, [views[0]]) && Immutable(chain, views[1..]);
      PollExamines(chain, next, views[0]);
      var poll := Poll(next, views[0].lib, views[0].view);
      if poll.result == Nothing {
        PollsExamineOnce(chain, poll.nextBlock, views[1..]);
        ExaminedThen(chain, next, poll, Polls(poll.nextBlock, views[1..]));
      }
    }
  }

  /** The scan stands right behind the first paying block, or has not come to it. */
  lemma StandsByFirstPayment(chain: nat -> seq<Transaction>, next: nat, state: ScanState, block: nat)
    requires Examined(chain, next, state) && next <= block && CrankReceipt(chain(block)) != NoReceipt
    requires forall b :: next <= b < block ==> CrankReceipt(chain(b)) == NoReceipt
    ensures state.result == Nothing ==> state.nextBlock <= block
    ensures state.result != Nothing ==> state.nextBlock == block + 1 && Answers(state.result, CrankReceipt(chain(block)))
  {}

  /** A poll gives up only where it has to. */
  lemma {:induction false} FruitlessPollStops(next: nat, lib: nat, view: nat -> BlockTrace)
    ensures var poll := Poll(next, lib, view);
            poll.result == Nothing ==> poll.nextBlock > lib || !view(poll.nextBlock).Irreversible?
    decreases lib + 1 - next
  {
    if next > lib || !view(next).Irreversible? {
      return;
    }
    FruitlessPollStops(next + 1, lib, view);
  }

  lemma PollReaches(chain: nat -> seq<Transaction>, next: nat, poll: PollView, block: nat)
    requires Immutable(chain, [poll])
    requires next <= block <= poll.lib && forall b :: next <= b <= block ==> poll.view(b).Irreversible?
    requires forall b :: next <= b < block ==> CrankReceipt(chain(b)) == NoReceipt
    requires CrankReceipt(chain(block)) != NoReceipt
    ensures Poll(next, poll.lib, poll.view).nextBlock == block + 1
    ensures Answers(Poll(next, poll.lib, poll.view).result, CrankReceipt(chain(block)))
  {
    PollExamines(chain, next, poll);
    StandsByFirstPayment(chain, next, Poll(next, poll.lib, poll.view), block);
    FruitlessPollStops(next, poll.lib, poll.view);
  }

  /**
   No payment is missed: once a poll sees the first paying block and everything before it as
   irreversible, the run has answered with that block's receipt, however the polls before it went.
   */
  lemma {:induction false} PaymentIsFound(
    chain: nat -> seq<Transaction>, next: nat, views: seq<PollView>, last: PollView, block: nat)
    requires Immutable(chain, views + [last])
    requires next <= block <= last.lib && forall b :: next <= b <= block ==> last.view(b).Irreversible?
    requires forall b :: next <= b < block ==> CrankReceipt(chain(b)) == NoReceipt
    requires CrankReceipt(chain(block)) != NoReceipt
    ensures Polls(next, views + [last]).nextBlock == block + 1
    ensures Answers(Polls(next, views + [last]).result, CrankReceipt(chain(block)))
    decreases |views|
  {
    var all := views + [last];
    assert all[0] == if views == [] then last else views[0];
    assert Immutable(chain, [all[0]]) by {
      assert forall b :: all[0].view(b).Irreversible? ==> all[0].view(b).transactions == chain(b);
    }
    if views == [] {
      PollReaches(chain, next, last, block);
    } else {
      PollExamines(chain, next, views[0]);
      assert all[1..] == views[1..] + [last];
      var poll := Poll(next, views[0].lib, views[0].view);
      StandsByFirstPayment(chain, next, poll, block);
      if poll.result == Nothing {
        PaymentIsFound(chain, poll.nextBlock, views[1..], last, block);
      }
    }
  }
}
