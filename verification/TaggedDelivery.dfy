/**
 The deliveries of a contested epoch: each waits for its read of the tips, chains its envelope
 from them and submits it, and only submitted envelopes let consensus move the tips.
 */
module TaggedDelivery {
  import opened CanonicalCodec
  import opened ChainTip
  import opened InboundTipReader
  import opened SemanticHeader
  import opened SingleFlightCache
  import opened Wrappers

  // ----- what a delivery builds from the tips

  /** The fixtures of one tagged dispute envelope; `tag` is already encoded as bytes. */
  datatype Fixture = Fixture(
    epochIndex: nat,
    epochEnvelopeIndex: nat,
    epochTimestampMs: nat,
    payloadVersion: nat,
    tag: Bytes
  )

  /** The envelope's fields before the protobuf library serializes them. */
  datatype Envelope = Envelope(
    epochIndex: nat,
    epochEnvelopeIndex: nat,
    epochTimestampMs: nat,
    previousEnvelopeHash: Bytes,
    previousMessageId: Bytes,
    header: DerivedHeader,
    payload: Attestation
  )

  const ATTESTATION_UNSPECIFIED := 0

  function TaggedInput(fixture: Fixture, tips: Tips): HeaderInput {
    HeaderInput(fixture.payloadVersion, [Content(ATTESTATION_UNSPECIFIED, fixture.tag)], fixture.epochTimestampMs,
                tips.messageTip)
  }

  function EncodeTaggedEnvelope(hash: Hash, fixture: Fixture, tips: Tips): Result<Envelope, HeaderError> {
    var header :- DeriveSemanticHeader(hash, TaggedInput(fixture, tips));
    Success(Envelope(fixture.epochIndex, fixture.epochEnvelopeIndex, fixture.epochTimestampMs, tips.envelopeDigest,
                     tips.messageTip, header, Attestation(ATTESTATION_UNSPECIFIED, |fixture.tag|, fixture.tag)))
  }

  /**
   A delivery's envelope in its parts: the fixtures in their places, each chain continued from its
   own tip, and the derived header of one unspecified attestation that holds the tag. Only an
   exhausted sequence number prevents it.
   */
  lemma EnvelopeContinuesBothChains(hash: Hash, fixture: Fixture, tips: Tips)
    ensures var input := HeaderInput(fixture.payloadVersion, [Content(0, fixture.tag)], fixture.epochTimestampMs, tips.messageTip);
            var encoded := EncodeTaggedEnvelope(hash, fixture, tips);
            && (encoded.Failure? <==> MessageSequence(tips.messageTip) + 1 >= 0x1_0000_0000_0000_0000)
            && (encoded.Success? ==>
                  var envelope := encoded.value;
                  && envelope.epochIndex == fixture.epochIndex
                  && envelope.epochEnvelopeIndex == fixture.epochEnvelopeIndex
                  && envelope.epochTimestampMs == fixture.epochTimestampMs
                  && envelope.previousEnvelopeHash == tips.envelopeDigest
                  && envelope.previousMessageId == tips.messageTip
                  && envelope.payload == Attestation(0, |fixture.tag|, fixture.tag)
                  && DeriveSemanticHeader(hash, input) == Success(envelope.header)
                  && MessageSequence(envelope.header.messageId) == MessageSequence(tips.messageTip) + 1)
  {
    DerivedFields(hash, HeaderInput(fixture.payloadVersion, [Content(0, fixture.tag)], fixture.epochTimestampMs, tips.messageTip));
  }

  /** What the cache prevents: a delivery reading a moved tip is chained differently, short of a hash collision. */
  lemma MovedTipDiverges(hash: Hash, fixture: Fixture, a: Tips, b: Tips)
    requires a.messageTip != b.messageTip
    requires EncodeTaggedEnvelope(hash, fixture, a).Success? && EncodeTaggedEnvelope(hash, fixture, b).Success?
    ensures var x, y := TaggedInput(fixture, a), TaggedInput(fixture, b);
            || EncodeTaggedEnvelope(hash, fixture, a).value.header.headerChecksum
               != EncodeTaggedEnvelope(hash, fixture, b).value.header.headerChecksum
            || Collision(hash, HeaderPreimage(hash, x), HeaderPreimage(hash, y))
            || Collision(hash, PayloadPreimage(x), PayloadPreimage(y))
  {
    var x, y := TaggedInput(fixture, a), TaggedInput(fixture, b);
    if hash(HeaderPreimage(hash, x)) == hash(HeaderPreimage(hash, y)) {
      EqualChecksumsMeanEqualMessages(hash, x, y);
    }
  }

  // ----- deliveries among the reads

  /** A submitted delivery: what it was for, the tips it was chained from, and the table's version at that instant. */
  datatype Delivery = Delivery(request: Request, tips: Tips, at: nat)

  datatype Flow = Flow(reader: Reader, deliveries: seq<Delivery>)

  datatype FlowEvent = Reading(event: ReaderEvent) | Deliver(read: nat)

  ghost predicate Delivered(flow: Flow, request: Request) {
    exists k :: 0 <= k < |flow.deliveries| && flow.deliveries[k].request == request
  }

  /** Consensus on an epoch needs its deliveries: until one is in, a chain asked about keeps its tips. */
  ghost predicate MayAdvance(flow: Flow, rows: seq<ConsensusRow>) {
    flow.reader.ledger != [] && forall f :: 0 <= f < |flow.reader.requests| ==>
      || Delivered(flow, flow.reader.requests[f])
      || ReadTips(rows, flow.reader.requests[f].chainCode)
         == ReadTips(flow.reader.ledger[|flow.reader.ledger| - 1], flow.reader.requests[f].chainCode)
  }

  /** A delivery goes out once its read has an answer. */
  predicate MayDeliver(reader: Reader, read: nat) {
    && reader.ledger != [] && read < |reader.cache.handed|
    && reader.cache.handed[read].flight < |reader.requests|
    && PhaseOf(reader.cache, read).Resolved?
  }

  ghost function FlowStep(flow: Flow, event: FlowEvent): Option<Flow> {
    match event
    case Reading(event) =>
      if event.Advance? && !MayAdvance(flow, event.rows) then None
      else
        var reader :- ReaderStep(flow.reader, event);
        Some(flow.(reader := reader))
    case Deliver(read) =>
      if !MayDeliver(flow.reader, read) then None
      else
        var request := flow.reader.requests[flow.reader.cache.handed[read].flight];
        Some(flow.(deliveries := flow.deliveries
          + [Delivery(request, PhaseOf(flow.reader.cache, read).value, |flow.reader.ledger| - 1)]))
  }

  ghost function FlowRun(rows: seq<ConsensusRow>, events: seq<FlowEvent>): Option<Flow> {
    if events == [] then Some(Flow(Fresh(rows), []))
    else
      var before :- FlowRun(rows, events[..|events| - 1]);
      FlowStep(before, events[|events| - 1])
  }

  // ----- what every interleaving keeps

  /** From version `from` on a chain's tips stand still. */
  ghost predicate Still(ledger: seq<seq<ConsensusRow>>, chainCode: nat, from: nat) {
    from < |ledger| && forall t :: from <= t < |ledger| ==> ReadTips(ledger[t], chainCode) == ReadTips(ledger[from], chainCode)
  }

  lemma StillExtends(ledger: seq<seq<ConsensusRow>>, chainCode: nat, from: nat, rows: seq<ConsensusRow>)
    requires Still(ledger, chainCode, from)
    requires ReadTips(rows, chainCode) == ReadTips(ledger[|ledger| - 1], chainCode)
    ensures Still(ledger + [rows], chainCode, from)
  {
    assert ReadTips(ledger[|ledger| - 1], chainCode) == ReadTips(ledger[from], chainCode);
  }

  /** The tips flight `f`'s query was issued under. */
  function TipsIssued(reader: Reader, f: nat): Result<Tips, TipError>
    requires f < |reader.requests| && f < |reader.started| && reader.started[f] < |reader.ledger|
  {
    ReadTips(reader.ledger[reader.started[f]], reader.requests[f].chainCode)
  }

  /** Until a request is delivered, its chain's tips are those its queries were issued under. */
  ghost predicate Untouched(flow: Flow, f: nat)
    requires Faithful(flow.reader) && f < |flow.reader.requests|
  {
    !Delivered(flow, flow.reader.requests[f]) ==>
      Still(flow.reader.ledger, flow.reader.requests[f].chainCode, flow.reader.started[f])
  }

  /** Queries of one request are issued under the same tips. */
  ghost predicate SameStart(reader: Reader, f: nat, g: nat)
    requires Faithful(reader) && f < |reader.requests| && g < |reader.requests|
  {
    assert FlightFaithful(reader, f) && FlightFaithful(reader, g);
    reader.requests[f] == reader.requests[g] ==> TipsIssued(reader, f) == TipsIssued(reader, g)
  }

  /** A query that has answered gave the tips it was issued under. */
  ghost predicate AnswersAsIssued(reader: Reader, f: nat)
    requires Faithful(reader) && f < |reader.requests|
  {
    assert FlightFaithful(reader, f);
    reader.cache.flights[f].phase.Resolved? ==> TipsIssued(reader, f) == Success(reader.cache.flights[f].phase.value)
  }

  /** A delivery is chained from its own request's answer. */
  ghost predicate FromAnswer(flow: Flow, k: nat)
    requires Faithful(flow.reader) && k < |flow.deliveries|
  {
    exists f :: 0 <= f < |flow.reader.requests|
      && flow.reader.requests[f] == flow.deliveries[k].request
      && flow.reader.cache.flights[f].phase == Resolved(flow.deliveries[k].tips)
  }

  ghost predicate FirstOfRequest(deliveries: seq<Delivery>, k: nat)
    requires k < |deliveries|
  {
    forall j :: 0 <= j < k ==> deliveries[j].request != deliveries[k].request
  }

  /** The first delivery of a request finds the table's tips to be the ones it is chained from. */
  ghost predicate FirstIsCurrent(flow: Flow, k: nat)
    requires k < |flow.deliveries|
  {
    var delivery := flow.deliveries[k];
    && delivery.at < |flow.reader.ledger|
    && (FirstOfRequest(flow.deliveries, k) ==>
          ReadTips(flow.reader.ledger[delivery.at], delivery.request.chainCode) == Success(delivery.tips))
  }

  ghost predicate Chained(flow: Flow) {
    && Faithful(flow.reader)
    && (forall f :: 0 <= f < |flow.reader.requests| ==> Untouched(flow, f) && AnswersAsIssued(flow.reader, f))
    && (forall f, g :: 0 <= f < |flow.reader.requests| && 0 <= g < |flow.reader.requests| ==> SameStart(flow.reader, f, g))
    && (forall k :: 0 <= k < |flow.deliveries| ==> FromAnswer(flow, k) && FirstIsCurrent(flow, k))
  }

  /** The entry of a delivered request is an answered query, so nothing of that request is still running. */
  lemma DeliveredMeansAnswered(flow: Flow, request: Request)
    requires Chained(flow) && Delivered(flow, request)
    ensures exists f :: 0 <= f < |flow.reader.requests| && flow.reader.requests[f] == request
              && flow.reader.cache.flights[f].phase.Resolved?
              && TipKey(request.chainCode, request.epochIndex) in flow.reader.cache.entries
              && flow.reader.cache.entries[TipKey(request.chainCode, request.epochIndex)] == f
  {
    var k :| 0 <= k < |flow.deliveries| && flow.deliveries[k].request == request;
    assert FromAnswer(flow, k);
    var f :| 0 <= f < |flow.reader.requests| && flow.reader.requests[f] == request
             && flow.reader.cache.flights[f].phase == Resolved(flow.deliveries[k].tips);
    assert FlightFaithful(flow.reader, f);
    assert flow.reader.cache.flights[f].Live();
  }

  /** The table stands, queries are only added and answers only given. */
  ghost predicate Extends(before: Reader, after: Reader)
    requires Faithful(before) && Faithful(after)
  {
    && after.ledger == before.ledger && |before.requests| <= |after.requests|
    && forall f :: 0 <= f < |before.requests| ==>
         && after.requests[f] == before.requests[f] && after.started[f] == before.started[f]
         && (before.cache.flights[f].phase.Resolved? ==> after.cache.flights[f] == before.cache.flights[f])
  }

  lemma DeliveriesStayChained(flow: Flow, reader: Reader)
    requires Chained(flow) && Faithful(reader) && Extends(flow.reader, reader)
    ensures forall k :: 0 <= k < |flow.deliveries| ==> FromAnswer(flow.(reader := reader), k) && FirstIsCurrent(flow.(reader := reader), k)
  {
    forall k | 0 <= k < |flow.deliveries| ensures FromAnswer(flow.(reader := reader), k) && FirstIsCurrent(flow.(reader := reader), k) {
      assert FromAnswer(flow, k) && FirstIsCurrent(flow, k);
      var f :| 0 <= f < |flow.reader.requests| && flow.reader.requests[f] == flow.deliveries[k].request
               && flow.reader.cache.flights[f].phase == Resolved(flow.deliveries[k].tips);
      assert reader.requests[f] == flow.reader.requests[f] && reader.cache.flights[f] == flow.reader.cache.flights[f];
    }
  }

  lemma QueriesStayChained(flow: Flow, reader: Reader, f: nat)
    requires Chained(flow) && Faithful(reader) && Extends(flow.reader, reader) && f < |flow.reader.requests|
    requires reader.cache.flights[f].phase.Resolved? ==> flow.reader.cache.flights[f].phase.Resolved?
    ensures Untouched(flow.(reader := reader), f) && AnswersAsIssued(reader, f)
  {
    assert Untouched(flow, f) && AnswersAsIssued(flow.reader, f);
  }

  lemma StartsStayTheSame(flow: Flow, reader: Reader, f: nat, g: nat)
    requires Chained(flow) && Faithful(reader) && Extends(flow.reader, reader)
    requires f < |flow.reader.requests| && g < |flow.reader.requests|
    ensures SameStart(reader, f, g)
  {
    assert SameStart(flow.reader, f, g);
  }

  /** A read that is answered from the cache. */
  predicate Shares(before: Reader, after: Reader) {
    && after.ledger == before.ledger && after.requests == before.requests && after.started == before.started
    && after.cache.flights == before.cache.flights
  }

  /** A read that issues a query, under the table as it is. */
  predicate Asks(before: Reader, after: Reader, request: Request) {
    && before.ledger != [] && after.ledger == before.ledger
    && after.requests == before.requests + [request]
    && after.started == before.started + [|before.ledger| - 1]
    && after.cache.flights == before.cache.flights + [Flight(TipKey(request.chainCode, request.epochIndex), Running)]
  }

  lemma ReadSharesOrAsks(reader: Reader, chainCode: nat, epochIndex: nat)
    requires reader.cache.calls == [] && reader.ledger != []
    ensures if TipKey(chainCode, epochIndex) in reader.cache.entries
            then Shares(reader, ReadStep(reader, chainCode, epochIndex))
            else Asks(reader, ReadStep(reader, chainCode, epochIndex), Request(chainCode, epochIndex))
  {}

  lemma SharingIsChained(flow: Flow, reader: Reader)
    requires Chained(flow) && Faithful(reader) && Shares(flow.reader, reader)
    ensures Chained(flow.(reader := reader))
  {
    DeliveriesStayChained(flow, reader);
    forall f | 0 <= f < |reader.requests| ensures Untouched(flow.(reader := reader), f) && AnswersAsIssued(reader, f) {
      QueriesStayChained(flow, reader, f);
    }
    forall f, g | 0 <= f < |reader.requests| && 0 <= g < |reader.requests| ensures SameStart(reader, f, g) {
      StartsStayTheSame(flow, reader, f, g);
    }
  }

  lemma NewQueryIsChained(flow: Flow, reader: Reader, request: Request, f: nat)
    requires Chained(flow) && Faithful(reader) && Asks(flow.reader, reader, request) && f < |reader.requests|
    ensures Untouched(flow.(reader := reader), f) && AnswersAsIssued(reader, f)
  {
    if f < |flow.reader.requests| {
      QueriesStayChained(flow, reader, f);
    }
  }

  /** An older query of the same request is untouched, so the new one is issued under the same tips. */
  lemma NewQueryStartsTheSame(flow: Flow, reader: Reader, request: Request, f: nat, g: nat)
    requires Chained(flow) && Faithful(reader) && Asks(flow.reader, reader, request) && !Delivered(flow, request)
    requires f < |reader.requests| && g < |reader.requests|
    ensures SameStart(reader, f, g)
  {
    var n := |flow.reader.requests|;
    if f < n && g < n {
      StartsStayTheSame(flow, reader, f, g);
    } else if f < n {
      assert Untouched(flow, f) && FlightFaithful(flow.reader, f);
    } else if g < n {
      assert Untouched(flow, g) && FlightFaithful(flow.reader, g);
    }
  }

  lemma AskingIsChained(flow: Flow, reader: Reader, request: Request)
    requires Chained(flow) && Faithful(reader) && Asks(flow.reader, reader, request) && !Delivered(flow, request)
    ensures Chained(flow.(reader := reader))
  {
    DeliveriesStayChained(flow, reader);
    forall f | 0 <= f < |reader.requests| ensures Untouched(flow.(reader := reader), f) && AnswersAsIssued(reader, f) {
      NewQueryIsChained(flow, reader, request, f);
    }
    forall f, g | 0 <= f < |reader.requests| && 0 <= g < |reader.requests| ensures SameStart(reader, f, g) {
      NewQueryStartsTheSame(flow, reader, request, f, g);
    }
  }

  lemma ReadKeepsChained(flow: Flow, chainCode: nat, epochIndex: nat)
    requires Chained(flow)
    ensures Chained(flow.(reader := ReadStep(flow.reader, chainCode, epochIndex)))
  {
    ReadKeepsFaithful(flow.reader, chainCode, epochIndex);
    ReadSharesOrAsks(flow.reader, chainCode, epochIndex);
    var reader, request := ReadStep(flow.reader, chainCode, epochIndex), Request(chainCode, epochIndex);
    if TipKey(chainCode, epochIndex) in flow.reader.cache.entries {
      SharingIsChained(flow, reader);
    } else {
      if Delivered(flow, request) {
        DeliveredMeansAnswered(flow, request);
        assert false;
      }
      AskingIsChained(flow, reader, request);
    }
  }

  /** Settlements and evictions leave the table, the queries and every answer given alone. */
  lemma SettlementKeepsChained(flow: Flow, event: ReaderEvent)
    requires Chained(flow) && !event.Read? && !event.Advance? && ReaderStep(flow.reader, event).Some?
    ensures Chained(flow.(reader := ReaderStep(flow.reader, event).value))
  {
    var before, reader := flow.reader, ReaderStep(flow.reader, event).value;
    var next := flow.(reader := reader);
    SettlementKeepsFaithful(before, event);
    SettlementExtends(before, event);
    DeliveriesStayChained(flow, reader);
    forall f | 0 <= f < |reader.requests| ensures Untouched(next, f) && AnswersAsIssued(reader, f) {
      if reader.cache.flights[f].phase.Resolved? && !before.cache.flights[f].phase.Resolved? {
        assert Untouched(flow, f);
        AnswerIsAsIssued(flow, f, event.at);
      } else {
        QueriesStayChained(flow, reader, f);
      }
    }
    forall f, g | 0 <= f < |reader.requests| && 0 <= g < |reader.requests| ensures SameStart(reader, f, g) {
      StartsStayTheSame(flow, reader, f, g);
    }
  }

  lemma PhaseChangeExtends(before: Reader, after: Reader, flight: nat, phase: Phase<Tips>)
    requires Faithful(before) && Faithful(after) && flight < |before.cache.flights|
    requires after.ledger == before.ledger && after.requests == before.requests && after.started == before.started
    requires after.cache.flights == before.cache.flights[flight := before.cache.flights[flight].(phase := phase)]
    requires !before.cache.flights[flight].phase.Resolved?
    ensures Extends(before, after)
  {}

  /** A flight that resolves does so by the answer to its own running query. */
  lemma SettlementExtends(reader: Reader, event: ReaderEvent)
    requires Faithful(reader) && !event.Read? && !event.Advance? && ReaderStep(reader, event).Some?
    requires Faithful(ReaderStep(reader, event).value)
    ensures var after := ReaderStep(reader, event).value;
            && Extends(reader, after) && |after.requests| == |reader.requests|
            && forall f :: 0 <= f < |reader.requests|
                 && after.cache.flights[f].phase.Resolved? && !reader.cache.flights[f].phase.Resolved?
                 ==> event.Answer? && event.flight == f && reader.cache.flights[f].phase.Running?
                     && CanAnswer(reader, f, event.at)
                     && ReadTips(reader.ledger[event.at], reader.requests[f].chainCode) == Success(after.cache.flights[f].phase.value)
  {
    var after := ReaderStep(reader, event).value;
    match event {
      case Answer(flight, at) =>
        match ReadTips(reader.ledger[at], reader.requests[flight].chainCode) {
          case Success(tips) => PhaseChangeExtends(reader, after, flight, Resolved(tips));
          case Failure(_) => PhaseChangeExtends(reader, after, flight, Rejected);
        }
      case Fail(flight) => PhaseChangeExtends(reader, after, flight, Rejected);
      case RunEviction(flight) => PhaseChangeExtends(reader, after, flight, Evicted);
    }
  }

  /** A query still running is of a request not yet delivered, so any later version answers it the same. */
  lemma AnswerIsAsIssued(flow: Flow, f: nat, at: nat)
    requires Chained(flow) && f < |flow.reader.requests| && flow.reader.cache.flights[f].phase.Running?
    requires flow.reader.started[f] <= at < |flow.reader.ledger|
    ensures var reader, chainCode := flow.reader, flow.reader.requests[f].chainCode;
            ReadTips(reader.ledger[at], chainCode) == ReadTips(reader.ledger[reader.started[f]], chainCode)
  {
    assert FlightFaithful(flow.reader, f) && flow.reader.cache.flights[f].Live();
    if Delivered(flow, flow.reader.requests[f]) {
      DeliveredMeansAnswered(flow, flow.reader.requests[f]);
      assert false;
    }
    assert Untouched(flow, f);
  }

  lemma AdvanceKeepsChained(flow: Flow, rows: seq<ConsensusRow>)
    requires Chained(flow) && MayAdvance(flow, rows)
    ensures Chained(flow.(reader := flow.reader.(ledger := flow.reader.ledger + [rows])))
  {
    var before, reader := flow.reader, flow.reader.(ledger := flow.reader.ledger + [rows]);
    var next := flow.(reader := reader);
    AdvanceKeepsFaithful(before, rows);
    forall f | 0 <= f < |reader.requests| ensures Untouched(next, f) && AnswersAsIssued(reader, f) {
      assert Untouched(flow, f) && AnswersAsIssued(before, f) && FlightFaithful(before, f);
      if !Delivered(next, reader.requests[f]) {
        assert !Delivered(flow, before.requests[f]);
        StillExtends(before.ledger, before.requests[f].chainCode, before.started[f], rows);
      }
    }
    forall f, g | 0 <= f < |reader.requests| && 0 <= g < |reader.requests| ensures SameStart(reader, f, g) {
      assert SameStart(before, f, g) && FlightFaithful(before, f) && FlightFaithful(before, g);
    }
    forall k | 0 <= k < |next.deliveries| ensures FromAnswer(next, k) && FirstIsCurrent(next, k) {
      assert FromAnswer(flow, k) && FirstIsCurrent(flow, k);
    }
  }

  lemma DeliverKeepsChained(flow: Flow, read: nat)
    requires Chained(flow) && FlowStep(flow, Deliver(read)).Some?
    ensures Chained(FlowStep(flow, Deliver(read)).value)
  {
    var next, reader, n := FlowStep(flow, Deliver(read)).value, flow.reader, |flow.deliveries|;
    var answered := reader.cache.handed[read].flight;
    assert next.deliveries[n].request == reader.requests[answered];
    assert AnswersAsIssued(reader, answered) && Untouched(flow, answered) && FlightFaithful(reader, answered);
    forall f | 0 <= f < |reader.requests| ensures Untouched(next, f) && AnswersAsIssued(next.reader, f) {
      assert Untouched(flow, f) && AnswersAsIssued(reader, f);
      if Delivered(flow, reader.requests[f]) {
        var k :| 0 <= k < n && flow.deliveries[k].request == reader.requests[f];
        assert next.deliveries[k].request == reader.requests[f];
      }
    }
    forall k | 0 <= k < |next.deliveries| ensures FromAnswer(next, k) && FirstIsCurrent(next, k) {
      if k < n {
        assert FromAnswer(flow, k) && FirstIsCurrent(flow, k);
        assert forall j :: 0 <= j <= k ==> next.deliveries[j] == flow.deliveries[j];
      } else if FirstOfRequest(next.deliveries, n) {
        assert forall j :: 0 <= j < n ==> next.deliveries[j] == flow.deliveries[j];
        assert !Delivered(flow, reader.requests[answered]);
      }
    }
  }

  lemma {:induction false} RunKeepsChained(rows: seq<ConsensusRow>, events: seq<FlowEvent>)
    requires FlowRun(rows, events).Some?
    ensures Chained(FlowRun(rows, events).value)
  {
    if events == [] {
      return;
    }
    var n := |events| - 1;
    RunKeepsChained(rows, events[..n]);
    var before := FlowRun(rows, events[..n]).value;
    match events[n] {
      case Deliver(read) => DeliverKeepsChained(before, read);
      case Reading(event) =>
        match event {
          case Read(chainCode, epochIndex) => ReadKeepsChained(before, chainCode, epochIndex);
          case Advance(now) => AdvanceKeepsChained(before, now);
          case _ => SettlementKeepsChained(before, event);
        }
    }
  }

  // ----- deliveries make progress

  /** Every read that has returned can be delivered, with its own request and tips, and nothing else changes. */
  lemma ReturnedReadIsDelivered(flow: Flow, read: nat, chainCode: nat, epochIndex: nat, tips: Tips)
    requires Chained(flow) && ReadReturned(flow.reader, read, chainCode, epochIndex, tips)
    ensures FlowStep(flow, Deliver(read)) == Some(flow.(deliveries := flow.deliveries
              + [Delivery(Request(chainCode, epochIndex), tips, |flow.reader.ledger| - 1)]))
  {
    var f := flow.reader.cache.handed[read].flight;
    assert FlightFaithful(flow.reader, f);
    TipKeyInjective(flow.reader.requests[f].chainCode, flow.reader.requests[f].epochIndex, chainCode, epochIndex);
  }

  /** Once all that was asked about is delivered, consensus may move the tips to anything. */
  lemma DeliveredTipsMayMove(flow: Flow, rows: seq<ConsensusRow>)
    requires Chained(flow)
    requires forall f :: 0 <= f < |flow.reader.requests| ==> Delivered(flow, flow.reader.requests[f])
    ensures FlowStep(flow, Reading(Advance(rows)))
         == Some(flow.(reader := flow.reader.(ledger := flow.reader.ledger + [rows])))
  {}

  // ----- what the deliveries are chained from

  /**
   Every successful read of one (chain, epoch) returns the tips its chain had when the first query
   for them was issued, and when any retry was: consensus may move the tips, retries may come
   after failures, and a later read may come after the move, but none sees it.
   */
  lemma ReadsSeePreDeliveryTips(
    rows: seq<ConsensusRow>, events: seq<FlowEvent>, chainCode: nat, epochIndex: nat, i: nat, tips: Tips, f: nat)
    requires FlowRun(rows, events).Some?
    requires ReadReturned(FlowRun(rows, events).value.reader, i, chainCode, epochIndex, tips)
    requires f < |FlowRun(rows, events).value.reader.requests|
    requires FlowRun(rows, events).value.reader.requests[f] == Request(chainCode, epochIndex)
    ensures var reader := FlowRun(rows, events).value.reader;
            && f < |reader.started| && reader.started[f] < |reader.ledger|
            && ReadTips(reader.ledger[reader.started[f]], chainCode) == Success(tips)
  {
    RunKeepsChained(rows, events);
    var reader := FlowRun(rows, events).value.reader;
    var g := reader.cache.handed[i].flight;
    assert FlightFaithful(reader, g) && FlightFaithful(reader, f) && AnswersAsIssued(reader, g);
    TipKeyInjective(reader.requests[g].chainCode, reader.requests[g].epochIndex, chainCode, epochIndex);
    assert SameStart(reader, g, f);
  }

  /**
   Whatever the interleaving, every delivery for a (chain, epoch) is chained from what the table
   held at the instant its first delivery went out: with one tag and one set of fixtures they are
   one envelope, continuing the tips from before any of them could move those.
   */
  lemma DeliveriesAgree(hash: Hash, fixture: Fixture, rows: seq<ConsensusRow>, events: seq<FlowEvent>, first: nat, k: nat)
    requires FlowRun(rows, events).Some? && first <= k < |FlowRun(rows, events).value.deliveries|
    requires FirstOfRequest(FlowRun(rows, events).value.deliveries, first)
    requires FlowRun(rows, events).value.deliveries[first].request == FlowRun(rows, events).value.deliveries[k].request
    ensures var flow := FlowRun(rows, events).value;
            var before, delivery := flow.deliveries[first], flow.deliveries[k];
            && before.at < |flow.reader.ledger|
            && ReadTips(flow.reader.ledger[before.at], delivery.request.chainCode) == Success(delivery.tips)
            && EncodeTaggedEnvelope(hash, fixture, delivery.tips) == EncodeTaggedEnvelope(hash, fixture, before.tips)
  {
    RunKeepsChained(rows, events);
    var flow := FlowRun(rows, events).value;
    assert FirstIsCurrent(flow, first) && FromAnswer(flow, first) && FromAnswer(flow, k);
    var f :| 0 <= f < |flow.reader.requests| && flow.reader.requests[f] == flow.deliveries[first].request
             && flow.reader.cache.flights[f].phase == Resolved(flow.deliveries[first].tips);
    var g :| 0 <= g < |flow.reader.requests| && flow.reader.requests[g] == flow.deliveries[k].request
             && flow.reader.cache.flights[g].phase == Resolved(flow.deliveries[k].tips);
    assert AnswersAsIssued(flow.reader, f) && AnswersAsIssued(flow.reader, g) && SameStart(flow.reader, f, g);
  }
}
