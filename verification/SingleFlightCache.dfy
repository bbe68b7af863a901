/**
 A cache that maps keys to promises, so that callers who ask for the same thing wait for the same
 answer. The state machine interleaves gets, nested gets made by a fetch that is only just
 starting, settlements and the callbacks that evict what failed; the class at the end is the
 cache itself, driven by fetches that may call back into it.
 */
module SingleFlightCache {
  import opened Wrappers

  /**
   A fetch is running until it settles; a rejected one has its eviction callback still queued, an
   evicted one has run it.
   */
  datatype Phase<V> = Running | Resolved(value: V) | Rejected | Evicted

  datatype Flight<K, V> = Flight(key: K, phase: Phase<V>) {
    predicate Live() {
      !phase.Evicted?
    }
  }

  /** A promise handed to a caller. */
  datatype Handed<K> = Handed(key: K, flight: nat)

  /**
   `entries` is the cache's map, by flight number; `flights` every promise ever made; `calls` the
   keys whose `fetch()` has been entered and has not yet returned its promise; `handed` what the
   callers hold.
   */
  datatype Cache<K, V> = Cache(
    entries: map<K, nat>,
    flights: seq<Flight<K, V>>,
    calls: seq<K>,
    handed: seq<Handed<K>>
  )

  datatype Event<K, V> =
    | Get(key: K)
    | FetchReturns
    | FetchThrows
    | Resolve(flight: nat, value: V)
    | Reject(flight: nat)
    | Evict(flight: nat)

  function Empty<K, V>(): Cache<K, V> {
    Cache(map[], [], [], [])
  }

  function SetPhase<K, V>(cache: Cache<K, V>, flight: nat, phase: Phase<V>): Cache<K, V>
    requires flight < |cache.flights|
  {
    cache.(flights := cache.flights[flight := cache.flights[flight].(phase := phase)])
  }

  /** A hit hands out the shared promise; a miss enters `fetch`. */
  function GetStep<K, V>(cache: Cache<K, V>, key: K): Cache<K, V> {
    if key in cache.entries then cache.(handed := cache.handed + [Handed(key, cache.entries[key])])
    else cache.(calls := cache.calls + [key])
  }

  /** The innermost `fetch` returns; its promise is registered in the same turn and handed out. */
  function ReturnStep<K, V>(cache: Cache<K, V>): Cache<K, V>
    requires cache.calls != []
  {
    var n := |cache.calls| - 1;
    var key, flight := cache.calls[n], |cache.flights|;
    Cache(cache.entries[key := flight], cache.flights + [Flight(key, Running)], cache.calls[..n],
          cache.handed + [Handed(key, flight)])
  }

  /** The eviction callback deletes its key, whatever promise the map holds there. */
  function EvictStep<K, V>(cache: Cache<K, V>, flight: nat): Cache<K, V>
    requires flight < |cache.flights|
  {
    SetPhase(cache, flight, Evicted).(entries := cache.entries - {cache.flights[flight].key})
  }

  /** A settlement or a callback runs in a turn of its own, with no call on the stack. */
  predicate Settles<K, V>(cache: Cache<K, V>, flight: nat) {
    cache.calls == [] && flight < |cache.flights|
  }

  /** The state after an event, or nothing when the event cannot happen now. */
  function Step<K, V>(cache: Cache<K, V>, event: Event<K, V>): Option<Cache<K, V>> {
    match event
    case Get(key) => Some(GetStep(cache, key))
    case FetchReturns => if cache.calls == [] then None else Some(ReturnStep(cache))
    case FetchThrows => if cache.calls == [] then None else Some(cache.(calls := cache.calls[..|cache.calls| - 1]))
    case Resolve(flight, value) =>
      if Settles(cache, flight) && cache.flights[flight].phase.Running?
      then Some(SetPhase(cache, flight, Resolved(value))) else None
    case Reject(flight) =>
      if Settles(cache, flight) && cache.flights[flight].phase.Running?
      then Some(SetPhase(cache, flight, Rejected)) else None
    case Evict(flight) =>
      if Settles(cache, flight) && cache.flights[flight].phase.Rejected?
      then Some(EvictStep(cache, flight)) else None
  }

  /** A fetch that is starting may get any key but those whose own fetch is being started. */
  predicate NoReentry<K, V>(cache: Cache<K, V>, event: Event<K, V>) {
    event.Get? ==> event.key !in cache.calls
  }

  function Run<K, V>(cache: Cache<K, V>, events: seq<Event<K, V>>): Option<Cache<K, V>> {
    if events == [] then Some(cache)
    else
      var before :- Run(cache, events[..|events| - 1]);
      Step(before, events[|events| - 1])
  }

  /** A run that can happen and never re-enters a key. */
  ghost predicate SafeRun<K, V>(cache: Cache<K, V>, events: seq<Event<K, V>>) {
    && Run(cache, events).Some?
    && forall i :: 0 <= i < |events| ==>
         Run(cache, events[..i]).Some? && NoReentry(Run(cache, events[..i]).value, events[i])
  }

  // ----- what every interleaving keeps

  /** Each entry is a live flight of its own key. */
  ghost predicate EntriesLive<K, V>(cache: Cache<K, V>) {
    forall key :: key in cache.entries ==>
      && cache.entries[key] < |cache.flights|
      && cache.flights[cache.entries[key]].key == key
      && cache.flights[cache.entries[key]].Live()
  }

  /** Each live flight is its key's entry. */
  ghost predicate LiveRegistered<K, V>(cache: Cache<K, V>) {
    forall f :: 0 <= f < |cache.flights| && cache.flights[f].Live() ==>
      cache.flights[f].key in cache.entries && cache.entries[cache.flights[f].key] == f
  }

  /** The keys being started are distinct and not yet registered. */
  ghost predicate CallsFresh<K, V>(cache: Cache<K, V>) {
    && (forall i :: 0 <= i < |cache.calls| ==> cache.calls[i] !in cache.entries)
    && (forall i, j :: 0 <= i < j < |cache.calls| ==> cache.calls[i] != cache.calls[j])
  }

  /** Callers hold promises of the keys they asked for. */
  ghost predicate HandedKeyed<K, V>(cache: Cache<K, V>) {
    forall i :: 0 <= i < |cache.handed| ==>
      && cache.handed[i].flight < |cache.flights|
      && cache.flights[cache.handed[i].flight].key == cache.handed[i].key
  }

  ghost predicate SingleFlight<K, V>(cache: Cache<K, V>) {
    EntriesLive(cache) && LiveRegistered(cache) && CallsFresh(cache) && HandedKeyed(cache)
  }

  lemma GetKeeps<K, V>(cache: Cache<K, V>, key: K)
    requires SingleFlight(cache) && key !in cache.calls
    ensures SingleFlight(GetStep(cache, key))
  {}

  lemma ReturnKeeps<K, V>(cache: Cache<K, V>)
    requires SingleFlight(cache) && cache.calls != []
    ensures SingleFlight(ReturnStep(cache))
  {
    var next, key := ReturnStep(cache), cache.calls[|cache.calls| - 1];
    assert forall f :: 0 <= f < |cache.flights| ==> next.flights[f] == cache.flights[f];
    assert EntriesLive(next);
    assert LiveRegistered(next) by {
      forall f | 0 <= f < |next.flights| && next.flights[f].Live()
        ensures next.flights[f].key in next.entries && next.entries[next.flights[f].key] == f
      {
        assert f < |cache.flights| ==> cache.flights[f].key != key;
      }
    }
    assert CallsFresh(next);
  }

  lemma SettleKeeps<K, V>(cache: Cache<K, V>, flight: nat, phase: Phase<V>)
    requires SingleFlight(cache) && flight < |cache.flights|
    requires cache.flights[flight].phase.Running? && (phase.Resolved? || phase.Rejected?)
    ensures SingleFlight(SetPhase(cache, flight, phase))
  {
    var next := SetPhase(cache, flight, phase);
    assert forall f :: 0 <= f < |cache.flights| ==>
      next.flights[f].key == cache.flights[f].key && (next.flights[f].Live() <==> cache.flights[f].Live());
  }

  lemma EvictKeeps<K, V>(cache: Cache<K, V>, flight: nat)
    requires SingleFlight(cache) && flight < |cache.flights| && cache.flights[flight].phase.Rejected?
    ensures SingleFlight(EvictStep(cache, flight))
  {
    var next := EvictStep(cache, flight);
    assert forall f :: 0 <= f < |cache.flights| ==> next.flights[f].key == cache.flights[f].key;
    assert forall f :: 0 <= f < |cache.flights| && f != flight ==> next.flights[f] == cache.flights[f];
    assert cache.entries[cache.flights[flight].key] == flight;
  }

  lemma StepKeepsSingleFlight<K, V>(cache: Cache<K, V>, event: Event<K, V>)
    requires SingleFlight(cache) && NoReentry(cache, event) && Step(cache, event).Some?
    ensures SingleFlight(Step(cache, event).value)
  {
    match event
    case Get(key) => GetKeeps(cache, key);
    case FetchReturns => ReturnKeeps(cache);
    case FetchThrows =>
    case Resolve(flight, value) => SettleKeeps(cache, flight, Resolved(value));
    case Reject(flight) => SettleKeeps(cache, flight, Rejected);
    case Evict(flight) => EvictKeeps(cache, flight);
  }

  lemma SafePrefix<K, V>(cache: Cache<K, V>, events: seq<Event<K, V>>)
    requires SafeRun(cache, events) && events != []
    ensures SafeRun(cache, events[..|events| - 1])
    ensures NoReentry(Run(cache, events[..|events| - 1]).value, events[|events| - 1])
  {
    var n := |events| - 1;
    assert forall i :: 0 <= i < n ==> events[..n][..i] == events[..i] && events[..n][i] == events[i];
  }

  lemma {:induction false} RunKeepsSingleFlight<K, V>(cache: Cache<K, V>, events: seq<Event<K, V>>)
    requires SingleFlight(cache) && SafeRun(cache, events)
    ensures SingleFlight(Run(cache, events).value)
  {
    if events != [] {
      var n := |events| - 1;
      SafePrefix(cache, events);
      RunKeepsSingleFlight(cache, events[..n]);
      StepKeepsSingleFlight(Run(cache, events[..n]).value, events[n]);
    }
  }

  /** At most one fetch of a key is running, resolved or awaiting its eviction. */
  ghost predicate OneLiveFetch<K, V>(cache: Cache<K, V>) {
    forall f, g :: 0 <= f < |cache.flights| && 0 <= g < |cache.flights| && f != g ==>
      cache.flights[f].key != cache.flights[g].key || !cache.flights[f].Live() || !cache.flights[g].Live()
  }

  /** The phase a handed-out promise is in. */
  function PhaseOf<K, V>(cache: Cache<K, V>, i: nat): Phase<V>
    requires i < |cache.handed|
  {
    if cache.handed[i].flight < |cache.flights| then cache.flights[cache.handed[i].flight].phase else Evicted
  }

  /** All promises of one key that have resolved are one promise, with one value. */
  ghost predicate OneValuePerKey<K, V>(cache: Cache<K, V>) {
    forall i, j :: 0 <= i < |cache.handed| && 0 <= j < |cache.handed|
      && cache.handed[i].key == cache.handed[j].key
      && PhaseOf(cache, i).Resolved? && PhaseOf(cache, j).Resolved?
      ==> cache.handed[i] == cache.handed[j] && PhaseOf(cache, i) == PhaseOf(cache, j)
  }

  /** An eviction that can run removes its own promise and nothing else. */
  ghost predicate EvictsOwnEntry<K, V>(cache: Cache<K, V>) {
    forall f: nat :: f < |cache.flights| && cache.flights[f].phase.Rejected? ==>
      && cache.flights[f].key in cache.entries && cache.entries[cache.flights[f].key] == f
      && EvictStep(cache, f).entries == cache.entries - {cache.flights[f].key}
  }

  /**
   In every interleaving without same-key re-entry: at most one fetch per key is live, an eviction
   removes its own promise and no other, and all successful gets of a key give one value.
   */
  lemma EveryInterleavingIsSingleFlight<K, V>(events: seq<Event<K, V>>)
    requires SafeRun(Empty<K, V>(), events)
    ensures var cache := Run(Empty<K, V>(), events).value;
            OneLiveFetch(cache) && EvictsOwnEntry(cache) && OneValuePerKey(cache)
  {
    RunKeepsSingleFlight(Empty<K, V>(), events);
  }

  /** A flight that has resolved and is its key's entry. */
  ghost predicate Settled<K, V>(cache: Cache<K, V>, flight: nat, key: K, value: V) {
    && flight < |cache.flights| && cache.flights[flight] == Flight(key, Resolved(value))
    && key in cache.entries && cache.entries[key] == flight
  }

  lemma StepKeepsSettled<K, V>(cache: Cache<K, V>, event: Event<K, V>, flight: nat, key: K, value: V)
    requires SingleFlight(cache) && Step(cache, event).Some? && Settled(cache, flight, key, value)
    ensures Settled(Step(cache, event).value, flight, key, value)
  {
    if event.Evict? {
      var evicted := cache.flights[event.flight].key;
      assert evicted in cache.entries && cache.entries[evicted] == event.flight;
    }
    if event.FetchReturns? {
      assert cache.calls[|cache.calls| - 1] != key;
    }
  }

  /** A resolved promise keeps its value and its place in every continuation: its key is never fetched again. */
  lemma {:induction false} ResolvedForever<K, V>(
    cache: Cache<K, V>, events: seq<Event<K, V>>, flight: nat, key: K, value: V)
    requires SingleFlight(cache) && SafeRun(cache, events)
    requires flight < |cache.flights| && cache.flights[flight] == Flight(key, Resolved(value))
    ensures Settled(Run(cache, events).value, flight, key, value)
  {
    if events != [] {
      var n := |events| - 1;
      SafePrefix(cache, events);
      ResolvedForever(cache, events[..n], flight, key, value);
      RunKeepsSingleFlight(cache, events[..n]);
      StepKeepsSettled(Run(cache, events[..n]).value, events[n], flight, key, value);
    }
  }

  /** A consequence of the eviction: the next get of a rejected key starts a new flight and registers it. */
  lemma RejectionIsRetried<K, V>(cache: Cache<K, V>, flight: nat)
    requires SingleFlight(cache) && Settles(cache, flight) && cache.flights[flight].phase.Rejected?
    ensures var key := cache.flights[flight].key;
            var asked := GetStep(EvictStep(cache, flight), key);
            && asked.calls == [key]
            && ReturnStep(asked).entries == cache.entries[key := |cache.flights|]
            && ReturnStep(asked).flights[|cache.flights|] == Flight(key, Running)
  {
    var key := cache.flights[flight].key;
    assert (cache.entries - {key})[key := |cache.flights|] == cache.entries[key := |cache.flights|];
  }

  // ----- why re-entry has to be ruled out

  /** Let every fetch on the stack return, innermost first. */
  function Unwind<K, V>(cache: Cache<K, V>): Cache<K, V>
    decreases |cache.calls|
  {
    if cache.calls == [] then cache else Unwind(ReturnStep(cache))
  }

  /** Unwinding leaves earlier flights alone and starts a live flight for every key on the stack. */
  lemma {:induction false} UnwindStartsEveryCall<K, V>(cache: Cache<K, V>, key: K)
    ensures var after := Unwind(cache);
            && after.calls == [] && |cache.flights| <= |after.flights|
            && after.flights[..|cache.flights|] == cache.flights
            && (key in cache.calls ==> exists f ::
                  |cache.flights| <= f < |after.flights| && after.flights[f] == Flight(key, Running))
    decreases |cache.calls|
  {
    if cache.calls != [] {
      var next := ReturnStep(cache);
      UnwindStartsEveryCall(next, key);
      var after := Unwind(cache);
      assert cache.flights == next.flights[..|cache.flights|];
      assert after.flights[..|cache.flights|] == after.flights[..|next.flights|][..|cache.flights|];
      if cache.calls[|cache.calls| - 1] == key {
        assert after.flights[|cache.flights|] == after.flights[..|next.flights|][|cache.flights|] == Flight(key, Running);
      }
    }
  }

  lemma {:induction false} UnwindKeepsSingleFlight<K, V>(cache: Cache<K, V>)
    requires SingleFlight(cache)
    ensures SingleFlight(Unwind(cache))
    decreases |cache.calls|
  {
    if cache.calls == [] {
      return;
    }
    ReturnKeeps(cache);
    UnwindKeepsSingleFlight(ReturnStep(cache));
  }

  /** Re-entry, once the pending calls have returned: two live fetches of one key. */
  lemma ReentryStartsTwo<K, V>(cache: Cache<K, V>, key: K)
    requires key in cache.calls && key !in cache.entries
    ensures var after := Unwind(GetStep(cache, key));
            exists f, g :: 0 <= f < g < |after.flights|
              && after.flights[f] == Flight(key, Running) && after.flights[g] == Flight(key, Running)
  {
    var next := ReturnStep(GetStep(cache, key));
    var after := Unwind(next);
    assert next.calls == cache.calls;
    UnwindStartsEveryCall(next, key);
    var f := |cache.flights|;
    assert after.flights[f] == after.flights[..|next.flights|][f] == Flight(key, Running);
    var g :| |next.flights| <= g < |after.flights| && after.flights[g] == Flight(key, Running);
    assert Unwind(GetStep(cache, key)) == after;
    assert f < g && after.flights[f] == Flight(key, Running) && after.flights[g] == Flight(key, Running);
  }

  /**
   The condition is exact. A get from a single-flight state leads, once the pending calls have
   returned, to a single-flight state if and only if its key is not one of those being started.
   */
  lemma GetIsSafeExactlyWithoutReentry<K, V>(cache: Cache<K, V>, key: K)
    requires SingleFlight(cache)
    ensures SingleFlight(Unwind(GetStep(cache, key))) <==> NoReentry(cache, Event<K, V>.Get(key))
  {
    if key in cache.calls {
      ReentryStartsTwo(cache, key);
    } else {
      GetKeeps(cache, key);
      UnwindKeepsSingleFlight(GetStep(cache, key));
    }
  }

  /** A get that re-enters its own key, both fetches returning, and the inner one failing. */
  function ReentrantRun<K, V>(key: K): seq<Event<K, V>> {
    [Get(key)] + [Get(key)] + [FetchReturns] + [FetchReturns] + [Reject(0)]
  }

  /** Two fetches of one key have returned; the map holds the outer one. */
  function BothReturned<K, V>(key: K, inner: Phase<V>): Cache<K, V> {
    Cache(map[key := 1], [Flight(key, inner), Flight(key, Running)], [], [Handed(key, 0), Handed(key, 1)])
  }

  lemma ReentrantSteps<K, V>(key: K)
    ensures GetStep(Empty<K, V>(), key) == Cache(map[], [], [key], [])
    ensures GetStep(Cache<K, V>.Cache(map[], [], [key], []), key) == Cache(map[], [], [key, key], [])
    ensures ReturnStep(Cache<K, V>.Cache(map[], [], [key, key], []))
         == Cache(map[key := 0], [Flight(key, Running)], [key], [Handed(key, 0)])
    ensures ReturnStep(Cache<K, V>.Cache(map[key := 0], [Flight(key, Running)], [key], [Handed(key, 0)]))
         == BothReturned(key, Running)
  {}

  lemma ReentrantRunReaches<K, V>(key: K)
    ensures Run(Empty<K, V>(), ReentrantRun(key)) == Some(BothReturned(key, Rejected))
  {
    ReentrantSteps<K, V>(key);
    var s0 := Empty<K, V>();
    var get: Event<K, V> := Get(key);
    RunOne(s0, [], get, s0);
    assert [] + [get] == [get];
    RunOne(s0, [get], get, Cache(map[], [], [key], []));
    RunOne(s0, [get] + [get], FetchReturns, Cache(map[], [], [key, key], []));
    RunOne(s0, [get] + [get] + [FetchReturns], FetchReturns,
           Cache(map[key := 0], [Flight(key, Running)], [key], [Handed(key, 0)]));
    RunOne(s0, [get] + [get] + [FetchReturns] + [FetchReturns], Reject(0), BothReturned(key, Running));
    assert SetPhase(BothReturned<K, V>(key, Running), 0, Rejected) == BothReturned(key, Rejected);
  }

  /** After a re-entrant run one fetch's eviction callback deletes the other's live promise. */
  lemma ReentryEvictsAnother<K, V>(key: K)
    ensures var after := Run(Empty<K, V>(), ReentrantRun(key));
            && after.Some?
            && key in after.value.entries && after.value.entries[key] == 1
            && after.value.flights == [Flight(key, Rejected), Flight(key, Running)]
            && Step(after.value, Event<K, V>.Evict(0)).Some?
            && key !in Step(after.value, Event<K, V>.Evict(0)).value.entries
  {
    ReentrantRunReaches<K, V>(key);
  }

  lemma RunOne<K, V>(cache: Cache<K, V>, events: seq<Event<K, V>>, event: Event<K, V>, before: Cache<K, V>)
    requires Run(cache, events) == Some(before)
    ensures Run(cache, events + [event]) == Step(before, event)
  {
    assert (events + [event])[..|events|] == events;
  }

  // ----- fetches that call back

  /** What one call of `fetch` does before its first await: the gets it makes, and whether it then throws. */
  datatype Fetch<K> = Fetch(gets: seq<NestedGet<K>>, throws: bool)
  datatype NestedGet<K> = NestedGet(key: K, fetch: Fetch<K>)

  /** A get run to its end, with everything its fetch calls meanwhile. */
  function GetWith<K, V>(cache: Cache<K, V>, key: K, fetch: Fetch<K>): (after: Cache<K, V>)
    ensures after.calls == cache.calls
    decreases fetch, 0
  {
    if key in cache.entries then GetStep(cache, key)
    else
      var inner := GetsWith(GetStep(cache, key), fetch.gets);
      if fetch.throws then inner.(calls := cache.calls) else ReturnStep(inner)
  }

  function GetsWith<K, V>(cache: Cache<K, V>, gets: seq<NestedGet<K>>): (after: Cache<K, V>)
    ensures after.calls == cache.calls
    decreases gets
  {
    if gets == [] then cache
    else
      var last := gets[|gets| - 1];
      assert last.fetch < last;
      GetWith(GetsWith(cache, gets[..|gets| - 1]), last.key, last.fetch)
  }

  /** The events of such a get. */
  function Trace<K, V>(cache: Cache<K, V>, key: K, fetch: Fetch<K>): seq<Event<K, V>>
    decreases fetch, 0
  {
    if key in cache.entries then [Get(key)]
    else [Get(key)] + Traces(GetStep(cache, key), fetch.gets) + [if fetch.throws then FetchThrows else FetchReturns]
  }

  function Traces<K, V>(cache: Cache<K, V>, gets: seq<NestedGet<K>>): seq<Event<K, V>>
    decreases gets
  {
    if gets == [] then []
    else
      var before, last := gets[..|gets| - 1], gets[|gets| - 1];
      assert last.fetch < last;
      Traces(cache, before) + Trace(GetsWith(cache, before), last.key, last.fetch)
  }

  lemma {:induction false} RunAppend<K, V>(cache: Cache<K, V>, first: seq<Event<K, V>>, second: seq<Event<K, V>>)
    requires Run(cache, first).Some?
    ensures Run(cache, first + second) == Run(Run(cache, first).value, second)
  {
    if second == [] {
      assert first + second == first;
      return;
    }
    var n := |second| - 1;
    RunAppend(cache, first, second[..n]);
    assert (first + second)[..|first + second| - 1] == first + second[..n];
  }

  /** A get with its nested gets is a run of the state machine. */
  lemma {:induction false} GetWithIsRun<K, V>(cache: Cache<K, V>, key: K, fetch: Fetch<K>)
    ensures Run(cache, Trace(cache, key, fetch)) == Some(GetWith(cache, key, fetch))
    decreases fetch, 0
  {
    RunOne(cache, [], Get(key), cache);
    assert [] + [Event<K, V>.Get(key)] == [Get(key)];
    if key in cache.entries {
      return;
    }
    var asked := GetStep(cache, key);
    GetsWithIsRun(asked, fetch.gets);
    RunAppend(cache, [Get(key)], Traces(asked, fetch.gets));
    RunOne(cache, [Get(key)] + Traces(asked, fetch.gets), if fetch.throws then FetchThrows else FetchReturns,
           GetsWith(asked, fetch.gets));
  }

  lemma {:induction false} GetsWithIsRun<K, V>(cache: Cache<K, V>, gets: seq<NestedGet<K>>)
    ensures Run(cache, Traces(cache, gets)) == Some(GetsWith(cache, gets))
    decreases gets
  {
    if gets == [] {
      return;
    }
    var before, last := gets[..|gets| - 1], gets[|gets| - 1];
    assert last.fetch < last;
    GetsWithIsRun(cache, before);
    GetWithIsRun(GetsWith(cache, before), last.key, last.fetch);
    RunAppend(cache, Traces(cache, before), Trace(GetsWith(cache, before), last.key, last.fetch));
  }

  /** Nothing the fetch gets, at any depth, is a key whose own fetch is being started. */
  ghost predicate NeverReenters<K>(calls: seq<K>, key: K, fetch: Fetch<K>)
    decreases fetch
  {
    && key !in calls
    && forall i :: 0 <= i < |fetch.gets| ==> NeverReenters(calls + [key], fetch.gets[i].key, fetch.gets[i].fetch)
  }

  /** Nested gets to any depth and in any number are safe as long as none re-enters. */
  lemma {:induction false} NestedGetsKeepSingleFlight<K, V>(cache: Cache<K, V>, key: K, fetch: Fetch<K>)
    requires SingleFlight(cache) && NeverReenters(cache.calls, key, fetch)
    ensures SingleFlight(GetWith(cache, key, fetch))
    decreases fetch
  {
    GetKeeps(cache, key);
    if key in cache.entries {
      return;
    }
    var asked := GetStep(cache, key);
    for i := 0 to |fetch.gets|
      invariant SingleFlight(GetsWith(asked, fetch.gets[..i]))
    {
      assert fetch.gets[..i + 1][..i] == fetch.gets[..i];
      NestedGetsKeepSingleFlight(GetsWith(asked, fetch.gets[..i]), fetch.gets[i].key, fetch.gets[i].fetch);
    }
    assert fetch.gets[..|fetch.gets|] == fetch.gets;
    var inner := GetsWith(asked, fetch.gets);
    if fetch.throws {
      assert inner.calls[..|cache.calls|] == cache.calls;
    } else {
      ReturnKeeps(inner);
    }
  }

  // ----- the cache as the program keeps it

  /** The promise map and the promises made so far; `calls` and `handed` are the call stack and the callers. */
  class PromiseCache<K(==), V> {
    var entries: map<K, nat>
    var flights: seq<Flight<K, V>>
    ghost var calls: seq<K>
    ghost var handed: seq<Handed<K>>

    ghost function State(): Cache<K, V>
      reads this
    {
      Cache(entries, flights, calls, handed)
    }

    constructor ()
      ensures State() == Empty<K, V>()
    {
      entries, flights, calls, handed := map[], [], [], [];
    }

    /** The promise to wait for; none when `fetch` throws before making one. */
    method Get(key: K, fetch: Fetch<K>) returns (flight: Option<nat>)
      modifies this
      ensures State() == GetWith(old(State()), key, fetch)
      ensures flight == None <==> key !in old(entries) && fetch.throws
      ensures flight.Some? ==> key in entries && entries[key] == flight.value
      decreases fetch
    {
      if key in entries {
        handed := handed + [Handed(key, entries[key])];
        return Some(entries[key]);
      }
      calls := calls + [key];
      ghost var asked := State();
      for i := 0 to |fetch.gets|
        invariant State() == GetsWith(asked, fetch.gets[..i])
      {
        var _ := Get(fetch.gets[i].key, fetch.gets[i].fetch);
        assert fetch.gets[..i + 1][..i] == fetch.gets[..i];
      }
      assert fetch.gets[..|fetch.gets|] == fetch.gets;
      calls := calls[..|calls| - 1];
      if fetch.throws {
        return None;
      }
      flights := flights + [Flight(key, Running)];
      entries := entries[key := |flights| - 1];
      handed := handed + [Handed(key, |flights| - 1)];
      flight := Some(|flights| - 1);
    }

    method OnResolved(flight: nat, value: V)
      requires calls == [] && flight < |flights| && flights[flight].phase.Running?
      modifies this
      ensures Some(State()) == Step(old(State()), Event<K, V>.Resolve(flight, value))
    {
      flights := flights[flight := flights[flight].(phase := Resolved(value))];
    }

    method OnRejected(flight: nat)
      requires calls == [] && flight < |flights| && flights[flight].phase.Running?
      modifies this
      ensures Some(State()) == Step(old(State()), Event<K, V>.Reject(flight))
    {
      flights := flights[flight := flights[flight].(phase := Rejected)];
    }

    /** The rejection callback: evict the key, then let the rejection through. */
    method EvictOnRejection(flight: nat)
      requires calls == [] && flight < |flights| && flights[flight].phase.Rejected?
      modifies this
      ensures Some(State()) == Step(old(State()), Event<K, V>.Evict(flight))
    {
      entries := entries - {flights[flight].key};
      flights := flights[flight := flights[flight].(phase := Evicted)];
    }
  }
}
