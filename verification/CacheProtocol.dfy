/** getCached as a step machine (internal/fleet/cache.go): readers, single-flight calls and background
    refreshers interleave freely; one action is one atomic step of one of them, a clock tick, or a
    change of the upstream. singleflight.Do allows one open call per key, with fetch and store inside.
 */
module CacheProtocol {
  import opened Options
  import opened Upstream
  import opened Policies
  import opened CacheSpec

  /** One flight: the upstream is asked, a success is stored, then everyone waiting is released. */
  datatype CallPhase = Fetching | Fetched(reply: Reply) | Stored(val: Payload) | Closed(reply: Reply)
  datatype Call = Call(key: string, endpoint: string, phase: CallPhase, closedAt: int)

  /** Where a reader is; `now` is its one reading of the clock and `entry` what it copied under the lock. */
  datatype Phase =
    | Started
    | Clocked(now: int)
    | AtGuard(now: int, entry: Entry)
    | Claimed(now: int, entry: Entry)
    | Counted(now: int, entry: Entry)
    | AtFlight(now: int, seen: Option<Entry>)
    | Waiting(now: int, seen: Option<Entry>, call: nat)
    | Answered(answer: Answer)
    | Returned(answer: Answer)

  /** The outcome with what led to it: the entry seen and the call waited for, if any. */
  datatype Answer = Answer(now: int, seen: Option<Entry>, call: Option<nat>, reply: Reply)

  /** `since` records the newest stored version of the key when the reader started. */
  datatype Reader = Reader(endpoint: string, key: string, startedAt: int, since: nat, phase: Phase)

  datatype RefreshPhase = Spawned | Joined(call: nat) | Finished

  /** Readers and calls are numbered in order of arrival; a refresher has the number of its reader.
      `stores` and `latest` record history: every store, and the version last stored per key. */
  datatype State = State(
    now: int, upstream: map<string, nat>,
    entries: seq<Entry>, stores: seq<Entry>, latest: map<string, nat>,
    open: map<string, nat>, calls: seq<Call>,
    readers: seq<Reader>, refreshers: map<nat, RefreshPhase>,
    refreshing: map<string, nat>, bgRefreshes: nat)

  const INITIAL := State(0, map[], [], [], map[], map[], [], [], map[], map[], 0)

  function Version(m: map<string, nat>, key: string): nat { if key in m then m[key] else 0 }

  datatype Action =
    | Tick(span: nat)
    | Publish(key: string, version: nat)
    | Start(endpoint: string, suffix: string)
    | ReadClock(r: nat)
    | ReadCache(r: nat)
    | TryClaim(r: nat)
    | Count(r: nat)
    | Spawn(r: nat)
    | Join(r: nat)
    | Collect(r: nat)
    | Return(r: nat)
    | RefreshJoin(r: nat)
    | RefreshEnd(r: nat)
    | FetchOk(c: nat)
    | FetchFail(c: nat, fault: Fault)
    | StoreCall(c: nat)
    | CloseCall(c: nat)

  predicate Enabled(s: State, a: Action) {
    match a
    case Tick(_) => true
    case Publish(key, version) => Version(s.upstream, key) <= version
    case Start(endpoint, _) => '|' !in endpoint
    case ReadClock(r) => r < |s.readers| && s.readers[r].phase.Started?
    case ReadCache(r) => r < |s.readers| && s.readers[r].phase.Clocked?
    case TryClaim(r) => r < |s.readers| && s.readers[r].phase.AtGuard?
    case Count(r) => r < |s.readers| && s.readers[r].phase.Claimed?
    case Spawn(r) => r < |s.readers| && s.readers[r].phase.Counted?
    case Join(r) => r < |s.readers| && s.readers[r].phase.AtFlight?
    case Collect(r) => r < |s.readers| && s.readers[r].phase.Waiting? && IsClosed(s, s.readers[r].phase.call)
    case Return(r) => r < |s.readers| && s.readers[r].phase.Answered?
    case RefreshJoin(r) => r < |s.readers| && r in s.refreshers && s.refreshers[r].Spawned?
    case RefreshEnd(r) =>
      r < |s.readers| && r in s.refreshers && s.refreshers[r].Joined? && IsClosed(s, s.refreshers[r].call)
    case FetchOk(c) => c < |s.calls| && s.calls[c].phase.Fetching?
    case FetchFail(c, _) => c < |s.calls| && s.calls[c].phase.Fetching?
    case StoreCall(c) => c < |s.calls| && s.calls[c].phase.Fetched? && s.calls[c].phase.reply.Ok?
    case CloseCall(c) =>
      c < |s.calls| && (s.calls[c].phase.Stored? || (s.calls[c].phase.Fetched? && s.calls[c].phase.reply.Fail?))
  }

  predicate IsClosed(s: State, c: nat) { c < |s.calls| && s.calls[c].phase.Closed? }

  function Lookup(entries: seq<Entry>, key: string): (e: Option<Entry>)
    ensures e.Some? ==> e.value in entries && e.value.key == key
    ensures e.None? ==> !Has(entries, key)
  {
    if entries == [] then None else if entries[0].key == key then Some(entries[0]) else Lookup(entries[1..], key)
  }

  function SetReader(s: State, r: nat, phase: Phase): State
    requires r < |s.readers|
  {
    s.(readers := s.readers[r := s.readers[r].(phase := phase)])
  }

  function SetCall(s: State, c: nat, phase: CallPhase): State
    requires c < |s.calls|
  {
    s.(calls := s.calls[c := s.calls[c].(phase := phase)])
  }

  /** singleflight.Do on entry: the open call of the key, or a new one. */
  function Open(s: State, key: string, endpoint: string): (State, nat) {
    if key in s.open then (s, s.open[key])
    else (s.(open := s.open[key := |s.calls|], calls := s.calls + [Call(key, endpoint, Fetching, 0)]), |s.calls|)
  }

  /** The three-way switch on the age of what was found. */
  function Decide(p: Policy, now: int, seen: Option<Entry>): Phase {
    match seen
    case None => AtFlight(now, None)
    case Some(e) =>
      var age := now - e.fetchedAt;
      if age < p.ttl then Answered(Answer(now, seen, None, Ok(e.val)))
      else if age < p.maxStale then AtGuard(now, e)
      else AtFlight(now, seen)
  }

  /** What a waiting reader makes of the call's outcome: only a transient failure degrades to the
      entry seen. */
  function Resolve(seen: Option<Entry>, reply: Reply): Reply {
    if seen.Some? && reply.Fail? && Retryable(reply.fault) then Ok(seen.value.val) else reply
  }

  function Serve(now: int, e: Entry): Phase { Answered(Answer(now, Some(e), None, Ok(e.val))) }

  function Apply(cfg: Config, s: State, a: Action): State
    requires Enabled(s, a) && cfg.maxEntries > 0
  {
    match a
    case Tick(span) => s.(now := s.now + span)
    case Publish(key, version) => s.(upstream := s.upstream[key := version])
    case Start(endpoint, suffix) =>
      var key := MakeKey(endpoint, suffix);
      s.(readers := s.readers + [Reader(endpoint, key, s.now, Version(s.latest, key), Started)])
    case ReadClock(r) => SetReader(s, r, Clocked(s.now))
    case ReadCache(r) =>
      var rd := s.readers[r];
      SetReader(s, r, Decide(PolicyFor(cfg, rd.endpoint), rd.phase.now, Lookup(s.entries, rd.key)))
    case TryClaim(r) =>
      var rd := s.readers[r];
      if rd.key in s.refreshing then SetReader(s, r, Serve(rd.phase.now, rd.phase.entry))
      else SetReader(s, r, Claimed(rd.phase.now, rd.phase.entry)).(refreshing := s.refreshing[rd.key := r])
    case Count(r) =>
      SetReader(s, r, Counted(s.readers[r].phase.now, s.readers[r].phase.entry)).(bgRefreshes := s.bgRefreshes + 1)
    case Spawn(r) =>
      var rd := s.readers[r];
      SetReader(s, r, Serve(rd.phase.now, rd.phase.entry)).(refreshers := s.refreshers[r := Spawned])
    case Join(r) =>
      var rd := s.readers[r];
      var flight := Open(s, rd.key, rd.endpoint);
      SetReader(flight.0, r, Waiting(rd.phase.now, rd.phase.seen, flight.1))
    case Collect(r) =>
      var p := s.readers[r].phase;
      SetReader(s, r, Answered(Answer(p.now, p.seen, Some(p.call), Resolve(p.seen, s.calls[p.call].phase.reply))))
    case Return(r) => SetReader(s, r, Returned(s.readers[r].phase.answer))
    case RefreshJoin(r) =>
      var flight := Open(s, s.readers[r].key, s.readers[r].endpoint);
      flight.0.(refreshers := s.refreshers[r := Joined(flight.1)])
    case RefreshEnd(r) =>
      s.(refreshers := s.refreshers[r := Finished], refreshing := s.refreshing - {s.readers[r].key})
    case FetchOk(c) =>
      SetCall(s, c, Fetched(Ok(Payload(s.calls[c].endpoint, Version(s.upstream, s.calls[c].key)))))
    case FetchFail(c, fault) => SetCall(s, c, Fetched(Fail(fault)))
    case StoreCall(c) =>
      var key, val := s.calls[c].key, s.calls[c].phase.reply.val;
      var e := Entry(key, val, s.now);
      SetCall(s, c, Stored(val)).(entries := StoreStep(s.entries, e, cfg.maxEntries), stores := s.stores + [e],
                                  latest := s.latest[key := val.version])
    case CloseCall(c) =>
      var call := s.calls[c];
      var reply := if call.phase.Stored? then Ok(call.phase.val) else call.phase.reply;
      s.(calls := s.calls[c := call.(phase := Closed(reply), closedAt := s.now)], open := s.open - {call.key})
  }
}
