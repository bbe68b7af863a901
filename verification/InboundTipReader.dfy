/**
 The chain tips an outpost's envelope continues from: deliveries that run in parallel ask for
 them, each (chain, epoch) queries the table once, and consensus may move them meanwhile.
 */
module InboundTipReader {
  import opened CanonicalCodec
  import opened ChainTip
  import opened SingleFlightCache
  import opened Wrappers

  // ----- the cache key

  function Decimal(n: nat): (s: string)
    ensures s != ""
    ensures forall i :: 0 <= i < |s| ==> '0' <= s[i] <= '9'
  {
    if n < 10 then ['0' + n as char] else Decimal(n / 10) + ['0' + (n % 10) as char]
  }

  lemma {:induction false} DecimalInjective(a: nat, b: nat)
    requires Decimal(a) == Decimal(b)
    ensures a == b
  {
    var s := Decimal(a);
    if a >= 10 && b >= 10 {
      assert Decimal(a / 10) == s[..|s| - 1] == Decimal(b / 10);
      DecimalInjective(a / 10, b / 10);
      assert '0' + (a % 10) as char == s[|s| - 1] == '0' + (b % 10) as char;
    }
  }

  /** What a string of digits counts. */
  function DecimalValue(s: string): int {
    if s == "" then 0 else DecimalValue(s[..|s| - 1]) * 10 + (s[|s| - 1] as int - '0' as int)
  }

  /** The spelling is the number's, without a leading zero. */
  lemma {:induction false} DecimalSpells(n: nat)
    ensures DecimalValue(Decimal(n)) == n
    ensures n > 0 ==> Decimal(n)[0] != '0'
  {
    var s := Decimal(n);
    if n < 10 {
      assert s[..0] == "" && DecimalValue("") == 0;
    } else {
      DecimalSpells(n / 10);
      assert s[..|s| - 1] == Decimal(n / 10);
    }
  }

  function TipKey(chainCode: nat, epochIndex: nat): string {
    Decimal(chainCode) + ":" + Decimal(epochIndex)
  }

  /** Distinct (chain, epoch) pairs never share a cache entry. */
  lemma TipKeyInjective(c1: nat, e1: nat, c2: nat, e2: nat)
    ensures TipKey(c1, e1) == TipKey(c2, e2) <==> c1 == c2 && e1 == e2
  {
    if TipKey(c1, e1) == TipKey(c2, e2) {
      var key, chain1, chain2 := TipKey(c1, e1), Decimal(c1), Decimal(c2);
      assert key[|chain1|] == ':' && key[|chain2|] == ':';
      assert forall i :: 0 <= i < |chain1| ==> key[i] == chain1[i];
      assert forall i :: 0 <= i < |chain2| ==> key[i] == chain2[i];
      assert |chain1| == |chain2|;
      assert chain1 == key[..|chain1|] == chain2;
      assert Decimal(e1) == key[|chain1| + 1..] == Decimal(e2);
      DecimalInjective(c1, c2);
      DecimalInjective(e1, e2);
    }
  }

  // ----- one query's rows

  /** A row's chain code arrives as a number or as its spelling. */
  datatype ChainCode = Number(value: nat) | Text(spelling: string)
  datatype ConsensusRow = ConsensusRow(chainCode: ChainCode, messageTip: Option<string>, envelopeDigest: Option<string>)
  datatype Tips = Tips(messageTip: Bytes, envelopeDigest: Bytes)

  function Spelled(code: ChainCode): string {
    match code
    case Number(value) => Decimal(value)
    case Text(spelling) => spelling
  }

  function FindRow(rows: seq<ConsensusRow>, chainCode: nat): Option<ConsensusRow> {
    if rows == [] then None
    else if Spelled(rows[0].chainCode) == Decimal(chainCode) then Some(rows[0])
    else FindRow(rows[1..], chainCode)
  }

  /** The first row spelling the requested chain, if any row does; a number spells only itself. */
  lemma {:induction false} FoundRowIsFirst(rows: seq<ConsensusRow>, chainCode: nat)
    ensures match FindRow(rows, chainCode)
            case None => forall i :: 0 <= i < |rows| ==> Spelled(rows[i].chainCode) != Decimal(chainCode)
            case Some(row) =>
              && (row.chainCode.Number? ==> row.chainCode.value == chainCode)
              && exists i :: 0 <= i < |rows| && rows[i] == row && Spelled(row.chainCode) == Decimal(chainCode)
                   && forall j :: 0 <= j < i ==> Spelled(rows[j].chainCode) != Decimal(chainCode)
  {
    if rows != [] {
      if Spelled(rows[0].chainCode) == Decimal(chainCode) {
        if rows[0].chainCode.Number? {
          DecimalInjective(rows[0].chainCode.value, chainCode);
        }
      } else {
        FoundRowIsFirst(rows[1..], chainCode);
        match FindRow(rows, chainCode)
        case None =>
        case Some(row) =>
          var i :| 0 <= i < |rows[1..]| && rows[1..][i] == row
                   && forall j :: 0 <= j < i ==> Spelled(rows[1..][j].chainCode) != Decimal(chainCode);
          assert rows[i + 1] == row;
          assert forall j :: 0 < j < i + 1 ==> rows[j] == rows[1..][j - 1];
      }
    }
  }

  /** Select the chain's row and parse both tips; no row reads as genesis, a malformed tip as a failure. */
  function ReadTips(rows: seq<ConsensusRow>, chainCode: nat): Result<Tips, TipError> {
    match FindRow(rows, chainCode)
    case None => Success(Tips([], []))
    case Some(row) =>
      var messageTip :- ParseChainTip(row.messageTip);
      var envelopeDigest :- ParseChainTip(row.envelopeDigest);
      Success(Tips(messageTip, envelopeDigest))
  }

  /** Row `i` is the first one that spells the chain. */
  predicate FirstRow(rows: seq<ConsensusRow>, chainCode: nat, i: nat) {
    && i < |rows| && Spelled(rows[i].chainCode) == Decimal(chainCode)
    && forall j :: 0 <= j < i ==> Spelled(rows[j].chainCode) != Decimal(chainCode)
  }

  /**
   A query is read by the first row that spells its chain: refused exactly when one of its two
   fields is malformed, otherwise each tip from its own field, an absent field as genesis. With no
   such row both tips are genesis.
   */
  lemma TipsReadExactly(rows: seq<ConsensusRow>, chainCode: nat, i: nat)
    ensures (forall j :: 0 <= j < |rows| ==> Spelled(rows[j].chainCode) != Decimal(chainCode))
            ==> ReadTips(rows, chainCode) == Success(Tips([], []))
    ensures FirstRow(rows, chainCode, i) ==>
      && (ReadTips(rows, chainCode).Failure? <==> Malformed(rows[i].messageTip) || Malformed(rows[i].envelopeDigest))
      && (ReadTips(rows, chainCode).Success? ==>
            && ParseChainTip(rows[i].messageTip) == Success(ReadTips(rows, chainCode).value.messageTip)
            && ParseChainTip(rows[i].envelopeDigest) == Success(ReadTips(rows, chainCode).value.envelopeDigest)
            && (rows[i].messageTip == None ==> ReadTips(rows, chainCode).value.messageTip == [])
            && (rows[i].envelopeDigest == None ==> ReadTips(rows, chainCode).value.envelopeDigest == []))
  {
    FoundRowIsFirst(rows, chainCode);
    if FirstRow(rows, chainCode, i) {
      FindRowAt(rows, chainCode, i);
      FieldFailsExactly(rows[i].messageTip);
      FieldFailsExactly(rows[i].envelopeDigest);
    }
  }

  lemma {:induction false} FindRowAt(rows: seq<ConsensusRow>, chainCode: nat, i: nat)
    requires i < |rows| && Spelled(rows[i].chainCode) == Decimal(chainCode)
    requires forall j :: 0 <= j < i ==> Spelled(rows[j].chainCode) != Decimal(chainCode)
    ensures FindRow(rows, chainCode) == Some(rows[i])
  {
    if i > 0 {
      FindRowAt(rows[1..], chainCode, i - 1);
    }
  }

  /** Tips the depot stored as hexadecimal read back as themselves, each in its own place, all zeros as genesis. */
  lemma StoredTipsReadBack(rows: seq<ConsensusRow>, chainCode: nat, i: nat, message: Bytes, envelope: Bytes)
    requires i < |rows| && Spelled(rows[i].chainCode) == Decimal(chainCode)
    requires forall j :: 0 <= j < i ==> Spelled(rows[j].chainCode) != Decimal(chainCode)
    requires rows[i].messageTip == Some(BytesToHex(message)) && rows[i].envelopeDigest == Some(BytesToHex(envelope))
    ensures ReadTips(rows, chainCode)
         == Success(Tips(if AllZero(message) then [] else message, if AllZero(envelope) then [] else envelope))
  {
    FindRowAt(rows, chainCode, i);
    TipRoundTrip(message);
    TipRoundTrip(envelope);
  }

  // ----- every interleaving of reads with a moving ledger

  datatype Request = Request(chainCode: nat, epochIndex: nat)

  /** `ledger` is the table's history, oldest first; `started` and `observed` index it, flight by flight. */
  datatype Reader = Reader(
    cache: Cache<string, Tips>,
    ledger: seq<seq<ConsensusRow>>,
    requests: seq<Request>,
    started: seq<nat>,
    observed: seq<nat>
  )

  datatype ReaderEvent =
    | Read(chainCode: nat, epochIndex: nat)
    | Answer(flight: nat, at: nat)
    | Fail(flight: nat)
    | RunEviction(flight: nat)
    | Advance(rows: seq<ConsensusRow>)

  function Fresh(rows: seq<ConsensusRow>): Reader {
    Reader(Empty<string, Tips>(), [rows], [], [], [])
  }

  /** A read is a get whose fetch issues its query and returns at once. */
  function ReadStep(reader: Reader, chainCode: nat, epochIndex: nat): Reader {
    var key, now := TipKey(chainCode, epochIndex), |reader.ledger|;
    var asked := GetStep(reader.cache, key);
    if asked.calls == [] then reader.(cache := asked)
    else reader.(
      cache := ReturnStep(asked),
      requests := reader.requests + [Request(chainCode, epochIndex)],
      started := reader.started + [if now == 0 then 0 else now - 1],
      observed := reader.observed + [0])
  }

  /** The rows a query answers with were the table's at some instant since it was issued. */
  predicate CanAnswer(reader: Reader, flight: nat, at: nat) {
    && flight < |reader.requests| && flight < |reader.started| && flight < |reader.observed|
    && reader.started[flight] <= at < |reader.ledger|
  }

  function ReaderStep(reader: Reader, event: ReaderEvent): Option<Reader> {
    match event
    case Read(chainCode, epochIndex) => Some(ReadStep(reader, chainCode, epochIndex))
    case Answer(flight, at) =>
      if !CanAnswer(reader, flight, at) then None
      else (
        match ReadTips(reader.ledger[at], reader.requests[flight].chainCode)
        case Success(tips) =>
          var cache :- Step(reader.cache, Event<string, Tips>.Resolve(flight, tips));
          Some(reader.(cache := cache, observed := reader.observed[flight := at]))
        case Failure(_) =>
          var cache :- Step(reader.cache, Event<string, Tips>.Reject(flight));
          Some(reader.(cache := cache)))
    case Fail(flight) =>
      var cache :- Step(reader.cache, Event<string, Tips>.Reject(flight));
      Some(reader.(cache := cache))
    case RunEviction(flight) =>
      var cache :- Step(reader.cache, Event<string, Tips>.Evict(flight));
      Some(reader.(cache := cache))
    case Advance(rows) => Some(reader.(ledger := reader.ledger + [rows]))
  }

  function ReaderRun(reader: Reader, events: seq<ReaderEvent>): Option<Reader> {
    if events == [] then Some(reader)
    else
      var before :- ReaderRun(reader, events[..|events| - 1]);
      ReaderStep(before, events[|events| - 1])
  }

  /** A flight belongs to its request, and a resolved one holds what its one observation read. */
  ghost predicate FlightFaithful(reader: Reader, f: nat)
    requires f < |reader.cache.flights| == |reader.requests| == |reader.started| == |reader.observed|
  {
    && reader.cache.flights[f].key == TipKey(reader.requests[f].chainCode, reader.requests[f].epochIndex)
    && reader.started[f] < |reader.ledger|
    && (reader.cache.flights[f].phase.Resolved? ==>
          && reader.started[f] <= reader.observed[f] < |reader.ledger|
          && ReadTips(reader.ledger[reader.observed[f]], reader.requests[f].chainCode)
             == Success(reader.cache.flights[f].phase.value))
  }

  ghost predicate Faithful(reader: Reader) {
    && SingleFlight(reader.cache) && reader.cache.calls == [] && reader.ledger != []
    && |reader.cache.flights| == |reader.requests| == |reader.started| == |reader.observed|
    && forall f :: 0 <= f < |reader.cache.flights| ==> FlightFaithful(reader, f)
  }

  lemma ReadKeepsFaithful(reader: Reader, chainCode: nat, epochIndex: nat)
    requires Faithful(reader)
    ensures Faithful(ReadStep(reader, chainCode, epochIndex))
  {
    var key := TipKey(chainCode, epochIndex);
    var next := ReadStep(reader, chainCode, epochIndex);
    GetKeeps(reader.cache, key);
    if GetStep(reader.cache, key).calls != [] {
      ReturnKeeps(GetStep(reader.cache, key));
    }
    forall f | 0 <= f < |next.cache.flights| ensures FlightFaithful(next, f) {
      assert f < |reader.cache.flights| ==> FlightFaithful(reader, f);
    }
  }

  lemma SettlementKeepsFaithful(reader: Reader, event: ReaderEvent)
    requires Faithful(reader) && !event.Read? && !event.Advance? && ReaderStep(reader, event).Some?
    ensures Faithful(ReaderStep(reader, event).value)
  {
    var next := ReaderStep(reader, event).value;
    match event {
      case Answer(flight, at) =>
        match ReadTips(reader.ledger[at], reader.requests[flight].chainCode) {
          case Success(tips) => SettleKeeps(reader.cache, flight, Resolved(tips));
          case Failure(_) => SettleKeeps(reader.cache, flight, Rejected);
        }
      case Fail(flight) => SettleKeeps(reader.cache, flight, Rejected);
      case RunEviction(flight) => EvictKeeps(reader.cache, flight);
    }
    forall f | 0 <= f < |next.cache.flights| ensures FlightFaithful(next, f) {
      assert FlightFaithful(reader, f);
    }
  }

  lemma AdvanceKeepsFaithful(reader: Reader, rows: seq<ConsensusRow>)
    requires Faithful(reader)
    ensures Faithful(reader.(ledger := reader.ledger + [rows]))
  {
    var next := reader.(ledger := reader.ledger + [rows]);
    forall f | 0 <= f < |next.cache.flights| ensures FlightFaithful(next, f) {
      assert FlightFaithful(reader, f);
    }
  }

  lemma {:induction false} RunKeepsFaithful(rows: seq<ConsensusRow>, events: seq<ReaderEvent>)
    requires ReaderRun(Fresh(rows), events).Some?
    ensures Faithful(ReaderRun(Fresh(rows), events).value)
  {
    if events == [] {
      return;
    }
    var n := |events| - 1;
    RunKeepsFaithful(rows, events[..n]);
    var before := ReaderRun(Fresh(rows), events[..n]).value;
    match events[n] {
      case Read(chainCode, epochIndex) => ReadKeepsFaithful(before, chainCode, epochIndex);
      case Advance(now) => AdvanceKeepsFaithful(before, now);
      case _ => SettlementKeepsFaithful(before, events[n]);
    }
  }

  /** The tips a successful read of (chainCode, epochIndex) returned, at position `i` among all reads. */
  ghost predicate ReadReturned(reader: Reader, i: nat, chainCode: nat, epochIndex: nat, tips: Tips) {
    && i < |reader.cache.handed|
    && reader.cache.handed[i].key == TipKey(chainCode, epochIndex)
    && PhaseOf(reader.cache, i) == Resolved(tips)
  }

  /**
   Whatever interleaving of reads, answers, failures, evictions and tip advances has happened, all
   successful reads of one (chain, epoch) returned the same pair of tips, and that pair is what
   the table held for that chain at one single instant since the answering query was issued.
   */
  lemma ReadsShareOneObservation(
    rows: seq<ConsensusRow>, events: seq<ReaderEvent>,
    chainCode: nat, epochIndex: nat, i: nat, j: nat, a: Tips, b: Tips)
    requires ReaderRun(Fresh(rows), events).Some?
    requires ReadReturned(ReaderRun(Fresh(rows), events).value, i, chainCode, epochIndex, a)
    requires ReadReturned(ReaderRun(Fresh(rows), events).value, j, chainCode, epochIndex, b)
    ensures a == b
    ensures var reader := ReaderRun(Fresh(rows), events).value;
            exists f, at :: 0 <= f < |reader.started|
              && reader.cache.handed[i].flight == f == reader.cache.handed[j].flight
              && reader.started[f] <= at < |reader.ledger|
              && ReadTips(reader.ledger[at], chainCode) == Success(a)
  {
    RunKeepsFaithful(rows, events);
    var reader := ReaderRun(Fresh(rows), events).value;
    var f := reader.cache.handed[i].flight;
    assert FlightFaithful(reader, f);
    TipKeyInjective(reader.requests[f].chainCode, reader.requests[f].epochIndex, chainCode, epochIndex);
    assert ReadTips(reader.ledger[reader.observed[f]], chainCode) == Success(a);
  }

  // ----- reads make progress

  /** A query can be answered as long as it is running, by any version of the table since it was issued, and by no other. */
  lemma AnswersExactly(reader: Reader, f: nat, at: nat)
    requires Faithful(reader)
    ensures ReaderStep(reader, Answer(f, at)).Some? <==>
            && f < |reader.requests| && reader.cache.flights[f].phase.Running?
            && reader.started[f] <= at < |reader.ledger|
    ensures ReaderStep(reader, Fail(f)).Some? <==> f < |reader.requests| && reader.cache.flights[f].phase.Running?
    ensures ReaderStep(reader, RunEviction(f)).Some? <==> f < |reader.requests| && reader.cache.flights[f].phase.Rejected?
  {}

  /** A read that finds nothing issues one query of its own; a read that finds a promise issues none. */
  lemma ReadIssuesAtMostOneQuery(reader: Reader, chainCode: nat, epochIndex: nat)
    requires Faithful(reader)
    ensures var key, after := TipKey(chainCode, epochIndex), ReadStep(reader, chainCode, epochIndex);
            && after.ledger == reader.ledger && after.cache.calls == []
            && if key in reader.cache.entries then
                 && after.requests == reader.requests && after.cache.flights == reader.cache.flights
                 && after.cache.entries == reader.cache.entries
                 && after.cache.handed == reader.cache.handed + [Handed(key, reader.cache.entries[key])]
               else
                 && after.requests == reader.requests + [Request(chainCode, epochIndex)]
                 && after.started == reader.started + [|reader.ledger| - 1]
                 && after.cache.flights == reader.cache.flights + [Flight(key, Running)]
                 && after.cache.entries == reader.cache.entries[key := |reader.requests|]
                 && after.cache.handed == reader.cache.handed + [Handed(key, |reader.requests|)]
  {}

  /** A fresh read, once answered, returns the tips of the version that answered it. */
  lemma AnsweredReadReturns(reader: Reader, chainCode: nat, epochIndex: nat, tips: Tips)
    requires Faithful(reader) && TipKey(chainCode, epochIndex) !in reader.cache.entries
    requires ReadTips(reader.ledger[|reader.ledger| - 1], chainCode) == Success(tips)
    ensures var asked := ReadStep(reader, chainCode, epochIndex);
            var answered := ReaderStep(asked, Answer(|reader.requests|, |reader.ledger| - 1));
            && answered.Some? && answered.value.ledger == reader.ledger
            && ReadReturned(answered.value, |reader.cache.handed|, chainCode, epochIndex, tips)
  {
    ReadIssuesAtMostOneQuery(reader, chainCode, epochIndex);
    ReadKeepsFaithful(reader, chainCode, epochIndex);
    AnswersExactly(ReadStep(reader, chainCode, epochIndex), |reader.requests|, |reader.ledger| - 1);
  }

  /** A query that fails, or whose answer is malformed, frees its key once evicted: the next read asks again. */
  lemma FailedReadFreesItsKey(reader: Reader, f: nat, event: ReaderEvent)
    requires Faithful(reader) && ReaderStep(reader, event).Some?
    requires event == Fail(f)
          || (event.Answer? && event.flight == f && ReadTips(reader.ledger[event.at], reader.requests[f].chainCode).Failure?)
    ensures var failed := ReaderStep(reader, event).value;
            var evicted := ReaderStep(failed, RunEviction(f));
            && evicted.Some?
            && TipKey(reader.requests[f].chainCode, reader.requests[f].epochIndex) !in evicted.value.cache.entries
  {
    assert FlightFaithful(reader, f);
    assert reader.cache.calls == [];
  }

  // ----- the reader as the program keeps it

  /** The fetch behind a read is asynchronous: it calls nothing back and fails only by rejecting. */
  const QUERY := Fetch<string>.Fetch([], false)

  class TipReader {
    const cache: PromiseCache<string, Tips>

    constructor ()
      ensures fresh(cache) && cache.State() == Empty<string, Tips>()
    {
      cache := new PromiseCache<string, Tips>();
    }

    /** The shared promise for the chain's tips; `queried` tells whether this call issued the query. */
    method Read(chainCode: nat, epochIndex: nat) returns (flight: nat, queried: bool)
      modifies cache
      ensures var key := TipKey(chainCode, epochIndex);
              && (queried <==> key !in old(cache.entries))
              && cache.State() == (if queried then ReturnStep(GetStep(old(cache.State()), key))
                                   else GetStep(old(cache.State()), key))
              && key in cache.entries && cache.entries[key] == flight
    {
      var key := TipKey(chainCode, epochIndex);
      queried := key !in cache.entries;
      var found := cache.Get(key, QUERY);
      flight := found.value;
    }

    /** The query's answer: parse the chain's tips and settle the promise either way. */
    method OnRows(flight: nat, chainCode: nat, rows: seq<ConsensusRow>)
      requires cache.calls == [] && flight < |cache.flights| && cache.flights[flight].phase.Running?
      modifies cache
      ensures Some(cache.State()) == Step(old(cache.State()),
        match ReadTips(rows, chainCode)
        case Success(tips) => Event<string, Tips>.Resolve(flight, tips)
        case Failure(_) => Event<string, Tips>.Reject(flight))
    {
      match ReadTips(rows, chainCode)
      case Success(tips) => cache.OnResolved(flight, tips);
      case Failure(_) => cache.OnRejected(flight);
    }
  }
}
