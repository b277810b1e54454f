/** What every step of the cache protocol keeps. */
module CacheInvariants {
  import opened Options
  import opened Upstream
  import opened Policies
  import opened CacheSpec
  import opened CacheProtocol

  // ---------------------------------------------------------------- flights

  /** Single-flight: an unfinished call is the registered one of its key, and only that. */
  ghost predicate FlightsOk(s: State) {
    && (forall k :: k in s.open ==>
          s.open[k] < |s.calls| && s.calls[s.open[k]].key == k && !s.calls[s.open[k]].phase.Closed?)
    && (forall c :: 0 <= c < |s.calls| && !s.calls[c].phase.Closed? ==>
          s.calls[c].key in s.open && s.open[s.calls[c].key] == c)
  }

  function ReplyOf(c: Call): Option<Reply> {
    match c.phase
    case Fetching => None
    case Fetched(reply) => Some(reply)
    case Stored(val) => Some(Ok(val))
    case Closed(reply) => Some(reply)
  }

  /** The version a call brings: between the last stored and the current one until it is stored. */
  ghost predicate CallOk(s: State, c: Call) {
    && c.endpoint == EndpointOf(c.key)
    && (ReplyOf(c).Some? && ReplyOf(c).value.Ok? ==> ReplyOf(c).value.val.endpoint == c.endpoint)
    && (c.phase.Fetched? && c.phase.reply.Ok? ==>
          Version(s.latest, c.key) <= c.phase.reply.val.version <= Version(s.upstream, c.key))
    && (c.phase.Stored? ==> c.phase.val.version == Version(s.latest, c.key))
    && (c.phase.Closed? ==> c.closedAt <= s.now)
    && (c.phase.Closed? && c.phase.reply.Ok? ==> c.phase.reply.val.version <= Version(s.latest, c.key))
  }

  // ---------------------------------------------------------------- the cache

  ghost predicate StoresOk(cfg: Config, s: State) {
    && cfg.maxEntries > 0 && s.entries == StoreAll(s.stores, cfg.maxEntries)
    && Chronological(s.stores)
    && (forall e :: e in s.stores ==>
          e.fetchedAt <= s.now && e.val.endpoint == EndpointOf(e.key) && e.val.version <= Version(s.latest, e.key))
  }

  /** A resident entry shows the version stored last, even after evictions in between. */
  ghost predicate EntriesOk(s: State) {
    && (forall e :: e in s.entries ==> e in s.stores && e.val.version == Version(s.latest, e.key))
    && (forall k :: Version(s.latest, k) <= Version(s.upstream, k))
  }

  // ---------------------------------------------------------------- readers

  /** The entry a reader copied out: stored earlier, of its key, and not older than its start demands. */
  ghost predicate SeenOk(s: State, rd: Reader, e: Entry) {
    e in s.stores && e.key == rd.key && rd.since <= e.val.version
  }

  ghost predicate TooStale(cfg: Config, rd: Reader, now: int, e: Entry) {
    now - e.fetchedAt >= Window(PolicyFor(cfg, rd.endpoint))
  }

  ghost predicate ClockOk(s: State, rd: Reader, now: int) { rd.startedAt <= now <= s.now }

  /** A call waited for: of the reader's key, and open at some time of the reader's run. */
  ghost predicate CallSeenOk(s: State, rd: Reader, c: nat) {
    && c < |s.calls| && s.calls[c].key == rd.key
    && (s.calls[c].phase.Closed? ==> rd.startedAt <= s.calls[c].closedAt)
    && (ReplyOf(s.calls[c]).Some? && ReplyOf(s.calls[c]).value.Ok? ==>
          rd.since <= ReplyOf(s.calls[c]).value.val.version)
  }

  /** What an answer is: an entry younger than the window, the outcome of a call that was open during
      the read, or, after a transient failure, the older entry seen. Never older than the start demands. */
  ghost predicate AnswerOk(cfg: Config, s: State, rd: Reader, a: Answer) {
    && ClockOk(s, rd, a.now)
    && (a.seen.Some? ==> SeenOk(s, rd, a.seen.value))
    && (a.call.None? ==> a.seen.Some? && a.reply == Ok(a.seen.value.val) && !TooStale(cfg, rd, a.now, a.seen.value))
    && (a.call.Some? ==>
          && CallSeenOk(s, rd, a.call.value) && s.calls[a.call.value].phase.Closed?
          && a.reply == Resolve(a.seen, s.calls[a.call.value].phase.reply)
          && (a.seen.Some? ==> TooStale(cfg, rd, a.now, a.seen.value)))
    && (a.reply.Ok? ==> rd.since <= a.reply.val.version <= Version(s.latest, rd.key))
    && (a.reply.Ok? ==> a.reply.val.endpoint == rd.endpoint)
  }

  ghost predicate PhaseOk(cfg: Config, s: State, rd: Reader) {
    match rd.phase
    case Started => true
    case Clocked(now) => ClockOk(s, rd, now)
    case AtGuard(now, e) => ClockOk(s, rd, now) && SeenOk(s, rd, e) && !TooStale(cfg, rd, now, e)
    case Claimed(now, e) => ClockOk(s, rd, now) && SeenOk(s, rd, e) && !TooStale(cfg, rd, now, e)
    case Counted(now, e) => ClockOk(s, rd, now) && SeenOk(s, rd, e) && !TooStale(cfg, rd, now, e)
    case AtFlight(now, seen) =>
      ClockOk(s, rd, now) && (seen.Some? ==> SeenOk(s, rd, seen.value) && TooStale(cfg, rd, now, seen.value))
    case Waiting(now, seen, c) =>
      && ClockOk(s, rd, now) && (seen.Some? ==> SeenOk(s, rd, seen.value) && TooStale(cfg, rd, now, seen.value))
      && CallSeenOk(s, rd, c)
    case Answered(a) => AnswerOk(cfg, s, rd, a)
    case Returned(a) => AnswerOk(cfg, s, rd, a)
  }

  ghost predicate ReaderOk(cfg: Config, s: State, rd: Reader) {
    && rd.startedAt <= s.now && rd.since <= Version(s.latest, rd.key)
    && EndpointOf(rd.key) == rd.endpoint
    && PhaseOk(cfg, s, rd)
  }

  // ---------------------------------------------------------------- background refreshes

  /** The reader has the guard, or its refresher lives. */
  ghost predicate HoldsGuard(s: State, r: nat)
    requires r < |s.readers|
  {
    s.readers[r].phase.Claimed? || s.readers[r].phase.Counted? || (r in s.refreshers && !s.refreshers[r].Finished?)
  }

  /** `refreshing` holds a key exactly while one holder of it lives: at most one refresher per key. */
  ghost predicate GuardsOk(s: State) {
    && (forall k :: k in s.refreshing ==>
          s.refreshing[k] < |s.readers| && s.readers[s.refreshing[k]].key == k && HoldsGuard(s, s.refreshing[k]))
    && (forall r :: 0 <= r < |s.readers| && HoldsGuard(s, r) ==>
          s.readers[r].key in s.refreshing && s.refreshing[s.readers[r].key] == r)
  }

  ghost predicate RefreshersOk(s: State) {
    forall r :: r in s.refreshers ==>
      && r < |s.readers| && (s.readers[r].phase.Answered? || s.readers[r].phase.Returned?)
      && (s.refreshers[r].Joined? ==>
            s.refreshers[r].call < |s.calls| && s.calls[s.refreshers[r].call].key == s.readers[r].key)
  }

  /** Readers that have counted their refresh and not started it yet. */
  ghost function CountedReaders(s: State): set<nat> {
    set r | 0 <= r < |s.readers| && s.readers[r].phase.Counted?
  }

  /** The counter is the refreshers started plus those about to start. */
  ghost predicate CountOk(s: State) { s.bgRefreshes == |s.refreshers| + |CountedReaders(s)| }

  ghost predicate Inv(cfg: Config, s: State) {
    && cfg.maxEntries > 0 && FlightsOk(s)
    && (forall c :: 0 <= c < |s.calls| ==> CallOk(s, s.calls[c]))
    && StoresOk(cfg, s) && EntriesOk(s)
    && (forall r :: 0 <= r < |s.readers| ==> ReaderOk(cfg, s, s.readers[r]))
    && GuardsOk(s) && RefreshersOk(s) && CountOk(s)
  }

  // ---------------------------------------------------------------- what never shrinks

  ghost predicate CallGrows(s: State, a: Call, b: Call) {
    && b.key == a.key && b.endpoint == a.endpoint
    && (a.phase.Closed? ==> b == a)
    && (!a.phase.Closed? && b.phase.Closed? ==> s.now <= b.closedAt)
    && (ReplyOf(a).Some? ==> ReplyOf(b) == ReplyOf(a))
    && (ReplyOf(a).None? && ReplyOf(b).Some? && ReplyOf(b).value.Ok? ==>
          Version(s.latest, a.key) <= ReplyOf(b).value.val.version)
  }

  ghost predicate Grows(s: State, t: State) {
    && s.now <= t.now
    && (forall e :: e in s.stores ==> e in t.stores)
    && (forall k :: Version(s.latest, k) <= Version(t.latest, k))
    && |s.calls| <= |t.calls| && (forall c :: 0 <= c < |s.calls| ==> CallGrows(s, s.calls[c], t.calls[c]))
  }

  predicate Flies(a: Action) { a.Join? || a.RefreshJoin? || a.FetchOk? || a.FetchFail? || a.StoreCall? || a.CloseCall? }

  /** Steps outside the flights leave the calls alone. */
  lemma CallsKept(cfg: Config, s: State, a: Action)
    requires Enabled(s, a) && cfg.maxEntries > 0 && !Flies(a)
    ensures var t := Apply(cfg, s, a);
      && t.calls == s.calls && t.open == s.open && t.stores == s.stores && t.entries == s.entries
      && t.latest == s.latest && s.now <= t.now && (!a.Publish? ==> t.upstream == s.upstream)
  {
    hide PolicyFor, Lookup, Decide, MakeKey;
  }

  predicate Moves(a: Action, r: nat) {
    (a.ReadClock? || a.ReadCache? || a.TryClaim? || a.Count? || a.Spawn? || a.Join? || a.Collect? || a.Return?) &&
    a.r == r
  }

  /** A step moves no reader but its own; a new one has just started. */
  lemma OthersStay(cfg: Config, s: State, a: Action, r: nat)
    requires Enabled(s, a) && cfg.maxEntries > 0 && r < |Apply(cfg, s, a).readers| && !Moves(a, r)
    ensures if r < |s.readers| then Apply(cfg, s, a).readers[r] == s.readers[r]
            else Apply(cfg, s, a).readers[r].phase.Started?
  {
    hide PolicyFor, Lookup, StoreStep, MakeKey, Decide;
  }

  /** Where the reader a step moves goes. */
  function NextPhase(cfg: Config, s: State, a: Action, r: nat): Phase
    requires Enabled(s, a) && Moves(a, r)
  {
    var rd := s.readers[r];
    match a
    case ReadClock(_) => Clocked(s.now)
    case ReadCache(_) => Decide(PolicyFor(cfg, rd.endpoint), rd.phase.now, Lookup(s.entries, rd.key))
    case TryClaim(_) =>
      if rd.key in s.refreshing then Serve(rd.phase.now, rd.phase.entry) else Claimed(rd.phase.now, rd.phase.entry)
    case Count(_) => Counted(rd.phase.now, rd.phase.entry)
    case Spawn(_) => Serve(rd.phase.now, rd.phase.entry)
    case Join(_) => Waiting(rd.phase.now, rd.phase.seen, Open(s, rd.key, rd.endpoint).1)
    case Collect(_) =>
      var p := rd.phase;
      Answered(Answer(p.now, p.seen, Some(p.call), Resolve(p.seen, s.calls[p.call].phase.reply)))
    case Return(_) => Returned(rd.phase.answer)
  }

  lemma MoverGoes(cfg: Config, s: State, a: Action, r: nat)
    requires Enabled(s, a) && cfg.maxEntries > 0 && Moves(a, r)
    ensures r < |s.readers| == |Apply(cfg, s, a).readers|
    ensures Apply(cfg, s, a).readers[r] == s.readers[r].(phase := NextPhase(cfg, s, a, r))
  {
    hide PolicyFor, Lookup, Decide, Resolve;
  }

  /** Joining opens at most one call and touches no other. */
  lemma CallsJoined(cfg: Config, s: State, a: Action)
    requires Enabled(s, a) && cfg.maxEntries > 0 && (a.Join? || a.RefreshJoin?)
    ensures var t, rd := Apply(cfg, s, a), s.readers[a.r];
      && t.stores == s.stores && t.entries == s.entries && t.latest == s.latest && t.now == s.now
      && t.upstream == s.upstream
      && (rd.key in s.open ==> t.calls == s.calls && t.open == s.open)
      && (rd.key !in s.open ==> t.calls == s.calls + [Call(rd.key, rd.endpoint, Fetching, 0)] &&
                                t.open == s.open[rd.key := |s.calls|])
  {}

  lemma StepGrows(cfg: Config, s: State, a: Action)
    requires Inv(cfg, s) && Enabled(s, a)
    ensures Grows(s, Apply(cfg, s, a))
  {
    hide PolicyFor, StoreStep, StoreAll, EndpointOf, Lookup, ReaderOk, GuardsOk, RefreshersOk, CountOk, Apply;
    if !Flies(a) {
      CallsKept(cfg, s, a);
    } else if a.Join? || a.RefreshJoin? {
      CallsJoined(cfg, s, a);
    } else {
      assert CallOk(s, s.calls[a.c]);
      FlightGrows(cfg, s, a);
    }
  }

  lemma FlightGrows(cfg: Config, s: State, a: Action)
    requires Enabled(s, a) && cfg.maxEntries > 0
    requires a.FetchOk? || a.FetchFail? || a.StoreCall? || a.CloseCall?
    requires CallOk(s, s.calls[a.c]) && EntriesOk(s)
    ensures Grows(s, Apply(cfg, s, a))
  {
    hide PolicyFor, StoreStep, EndpointOf;
  }

  /** A reader nobody moved stays in order. */
  lemma ReaderStable(cfg: Config, s: State, t: State, rd: Reader)
    requires ReaderOk(cfg, s, rd) && Grows(s, t)
    ensures ReaderOk(cfg, t, rd)
  {
    hide PolicyFor, EndpointOf, Window;
    var c := match rd.phase
      case Waiting(_, _, c) => Some(c)
      case Answered(a) => a.call
      case Returned(a) => a.call
      case _ => None;
    if c.Some? {
      CallSeenStable(s, t, rd, c.value);
    }
  }

  lemma CallSeenStable(s: State, t: State, rd: Reader, c: nat)
    requires CallSeenOk(s, rd, c) && Grows(s, t)
    requires rd.startedAt <= s.now && rd.since <= Version(s.latest, rd.key)
    ensures CallSeenOk(t, rd, c)
    ensures s.calls[c].phase.Closed? ==> t.calls[c] == s.calls[c]
  {
    assert CallGrows(s, s.calls[c], t.calls[c]);
  }

  // ---------------------------------------------------------------- each step keeps the invariant

  lemma StepFlights(cfg: Config, s: State, a: Action)
    requires Enabled(s, a) && cfg.maxEntries > 0 && FlightsOk(s)
    ensures FlightsOk(Apply(cfg, s, a))
  {
    if !Flies(a) {
      CallsKept(cfg, s, a);
      hide Apply;
    } else if a.Join? || a.RefreshJoin? {
      CallsJoined(cfg, s, a);
      hide Apply;
    } else if a.CloseCall? {
      FlightCloses(cfg, s, a.c);
    } else {
      FlightContinues(cfg, s, a);
    }
  }

  lemma FlightCloses(cfg: Config, s: State, c: nat)
    requires Enabled(s, CloseCall(c)) && cfg.maxEntries > 0 && FlightsOk(s)
    ensures FlightsOk(Apply(cfg, s, CloseCall(c)))
  {}

  lemma FlightContinues(cfg: Config, s: State, a: Action)
    requires Enabled(s, a) && cfg.maxEntries > 0 && FlightsOk(s)
    requires a.FetchOk? || a.FetchFail? || a.StoreCall?
    ensures FlightsOk(Apply(cfg, s, a))
  {
    hide StoreStep;
    var t := Apply(cfg, s, a);
    assert t.open == s.open && |t.calls| == |s.calls|;
    assert forall c :: 0 <= c < |s.calls| ==>
      t.calls[c].key == s.calls[c].key && t.calls[c].phase.Closed? == s.calls[c].phase.Closed?;
    hide Apply;
  }

  /** A call nobody touched stays in order while the cache moves on. */
  lemma CallStable(s: State, t: State, c: Call)
    requires CallOk(s, c) && s.now <= t.now
    requires Version(s.latest, c.key) <= Version(t.latest, c.key)
    requires Version(s.upstream, c.key) <= Version(t.upstream, c.key)
    requires c.phase.Closed? || Version(s.latest, c.key) == Version(t.latest, c.key)
    ensures CallOk(t, c)
  {}

  lemma StepCalls(cfg: Config, s: State, a: Action)
    requires Inv(cfg, s) && Enabled(s, a)
    ensures var t := Apply(cfg, s, a); forall c :: 0 <= c < |t.calls| ==> CallOk(t, t.calls[c])
  {
    hide Apply, CallOk, FlightsOk, StoresOk, EntriesOk, ReaderOk, GuardsOk, RefreshersOk, CountOk, Version;
    var t := Apply(cfg, s, a);
    forall c | 0 <= c < |t.calls| ensures CallOk(t, t.calls[c]) {
      if a.FetchOk? || a.FetchFail? || a.StoreCall? || a.CloseCall? {
        FlightSize(cfg, s, a);
        FlightCall(cfg, s, a, c);
      } else {
        QuietCall(cfg, s, a, c);
      }
    }
  }

  lemma FlightSize(cfg: Config, s: State, a: Action)
    requires Enabled(s, a) && cfg.maxEntries > 0
    requires a.FetchOk? || a.FetchFail? || a.StoreCall? || a.CloseCall?
    ensures |Apply(cfg, s, a).calls| == |s.calls| && a.c < |s.calls|
  {}

  lemma QuietCall(cfg: Config, s: State, a: Action, c: nat)
    requires Inv(cfg, s) && Enabled(s, a) && c < |Apply(cfg, s, a).calls|
    requires !(a.FetchOk? || a.FetchFail? || a.StoreCall? || a.CloseCall?)
    ensures CallOk(Apply(cfg, s, a), Apply(cfg, s, a).calls[c])
  {
    hide Apply, EndpointOf, StoreAll, CallOk, ReaderOk, GuardsOk, CountOk, RefreshersOk, Version;
    var t := Apply(cfg, s, a);
    CacheKept(cfg, s, a);
    if Flies(a) {
      CallsJoined(cfg, s, a);
    } else {
      CallsKept(cfg, s, a);
    }
    if c < |s.calls| {
      CallStable(s, t, s.calls[c]);
    } else {
      OpenedCall(cfg, s, a);
    }
  }

  /** The only call a step can add is a new flight for the reader's own key. */
  lemma OpenedCall(cfg: Config, s: State, a: Action)
    requires Inv(cfg, s) && Enabled(s, a) && |Apply(cfg, s, a).calls| > |s.calls|
    ensures CallOk(Apply(cfg, s, a), Apply(cfg, s, a).calls[|s.calls|])
  {
    hide PolicyFor, EndpointOf, StoreStep, Lookup, CallOk, PhaseOk, FlightsOk, StoresOk, EntriesOk, GuardsOk, CountOk;
    hide RefreshersOk, MakeKey;
    assert a.Join? || a.RefreshJoin?;
    assert ReaderOk(cfg, s, s.readers[a.r]);
    NewCallOk(Apply(cfg, s, a), s.readers[a.r].key, s.readers[a.r].endpoint);
  }

  lemma NewCallOk(t: State, key: string, endpoint: string)
    requires endpoint == EndpointOf(key)
    ensures CallOk(t, Call(key, endpoint, Fetching, 0))
  {}

  /** A flight step keeps every call in order: an open call of the same key is the same call. */
  lemma FlightCall(cfg: Config, s: State, a: Action, c: nat)
    requires Enabled(s, a) && cfg.maxEntries > 0 && FlightsOk(s) && EntriesOk(s)
    requires a.FetchOk? || a.FetchFail? || a.StoreCall? || a.CloseCall?
    requires c < |s.calls| && CallOk(s, s.calls[a.c]) && CallOk(s, s.calls[c])
    ensures CallOk(Apply(cfg, s, a), Apply(cfg, s, a).calls[c])
  {
    hide StoreStep, EndpointOf;
    if a.StoreCall? {
      StoredCall(cfg, s, a.c, c);
    } else if a.CloseCall? {
      ClosedCall(cfg, s, a.c, c);
    } else {
      hide FlightsOk, EntriesOk;
      assert c != a.c ==> Apply(cfg, s, a).calls[c] == s.calls[c];
    }
  }

  lemma ClosedCall(cfg: Config, s: State, closed: nat, c: nat)
    requires Enabled(s, CloseCall(closed)) && cfg.maxEntries > 0
    requires c < |s.calls| && CallOk(s, s.calls[closed]) && CallOk(s, s.calls[c])
    ensures var t := Apply(cfg, s, CloseCall(closed)); CallOk(t, t.calls[c])
  {
    hide EndpointOf;
  }

  lemma StoredCall(cfg: Config, s: State, stored: nat, c: nat)
    requires Enabled(s, StoreCall(stored)) && cfg.maxEntries > 0 && FlightsOk(s)
    requires c < |s.calls| && CallOk(s, s.calls[stored]) && CallOk(s, s.calls[c])
    ensures var t := Apply(cfg, s, StoreCall(stored)); CallOk(t, t.calls[c])
  {
    hide StoreStep, EndpointOf;
    if c != stored && s.calls[c].key == s.calls[stored].key {
      assert s.calls[c].phase.Closed?;
    }
  }

  lemma StepStores(cfg: Config, s: State, a: Action)
    requires Inv(cfg, s) && Enabled(s, a)
    ensures StoresOk(cfg, Apply(cfg, s, a)) && EntriesOk(Apply(cfg, s, a))
  {
    hide Apply, EndpointOf, StoreAll, ReaderOk, GuardsOk, CountOk, RefreshersOk, FlightsOk, CallOk;
    if a.StoreCall? {
      hide StoresOk, EntriesOk, Version;
      assert CallOk(s, s.calls[a.c]);
      StoreKeeps(cfg, s, a.c);
    } else {
      CacheKept(cfg, s, a);
    }
  }

  /** Only a store changes the cache; in particular a failed fetch changes neither map nor list. */
  lemma CacheKept(cfg: Config, s: State, a: Action)
    requires Enabled(s, a) && cfg.maxEntries > 0 && !a.StoreCall?
    ensures var t := Apply(cfg, s, a);
      && t.entries == s.entries && t.stores == s.stores && t.latest == s.latest && s.now <= t.now
      && forall k :: Version(s.upstream, k) <= Version(t.upstream, k)
  {
    hide PolicyFor, Lookup, StoreStep;
    if !Flies(a) && !a.Publish? {
      CallsKept(cfg, s, a);
      hide Apply;
    } else if a.Join? || a.RefreshJoin? {
      CallsJoined(cfg, s, a);
      hide Apply;
    }
  }

  lemma StoreKeeps(cfg: Config, s: State, c: nat)
    requires StoresOk(cfg, s) && EntriesOk(s) && Enabled(s, StoreCall(c)) && CallOk(s, s.calls[c])
    ensures StoresOk(cfg, Apply(cfg, s, StoreCall(c))) && EntriesOk(Apply(cfg, s, StoreCall(c)))
  {
    hide EndpointOf, StoreAll, StoreStep;
    var t := Apply(cfg, s, StoreCall(c));
    var e := t.stores[|s.stores|];
    assert t.stores == s.stores + [e];
    StoreAllSnoc(s.stores, e, cfg.maxEntries);
    assert Chronological(t.stores) by {
      assert forall x :: x in s.stores ==> x.fetchedAt <= e.fetchedAt;
      AppendChronological(s.stores, e);
    }
    StoreStepMembers(s.stores, e, cfg.maxEntries);
  }

  /** After a store the key's one entry is the new one; the others were there. */
  lemma StoreStepMembers(history: seq<Entry>, e: Entry, bound: nat)
    requires bound > 0
    ensures forall x :: x in StoreStep(StoreAll(history, bound), e, bound) ==>
              x == e || (x in StoreAll(history, bound) && x.key != e.key)
  {
    var s := StoreAll(history, bound);
    StoreAllIsRecent(history, bound);
    LastStoresDistinct(history);
    NewestKeeps(LastStores(history), bound);
    DropFacts(s, e.key);
    NewestKeeps(s + [e], bound);
  }

  lemma StepReaders(cfg: Config, s: State, a: Action)
    requires Inv(cfg, s) && Enabled(s, a)
    ensures var t := Apply(cfg, s, a); forall r :: 0 <= r < |t.readers| ==> ReaderOk(cfg, t, t.readers[r])
  {
    var t := Apply(cfg, s, a);
    StepGrows(cfg, s, a);
    forall r | 0 <= r < |t.readers| ensures ReaderOk(cfg, t, t.readers[r]) {
      if r < |s.readers| && t.readers[r] == s.readers[r] {
        ReaderStable(cfg, s, t, s.readers[r]);
      } else {
        MovedReader(cfg, s, a, r);
      }
    }
  }

  /** The reader an action moves. */
  lemma MovedReader(cfg: Config, s: State, a: Action, r: nat)
    requires Inv(cfg, s) && Enabled(s, a)
    requires r < |Apply(cfg, s, a).readers| && (r < |s.readers| ==> Apply(cfg, s, a).readers[r] != s.readers[r])
    ensures ReaderOk(cfg, Apply(cfg, s, a), Apply(cfg, s, a).readers[r])
  {
    assert cfg.maxEntries > 0;
    hide *;
    if Moves(a, r) {
      MoverInOrder(cfg, s, a, r);
    } else {
      OthersStay(cfg, s, a, r);
      OnlyStartAdds(cfg, s, a, r);
      StartReader(cfg, s, a.endpoint, a.suffix);
    }
  }

  lemma OnlyStartAdds(cfg: Config, s: State, a: Action, r: nat)
    requires Enabled(s, a) && cfg.maxEntries > 0 && |s.readers| <= r < |Apply(cfg, s, a).readers|
    ensures a.Start? && r == |s.readers|
  {
    hide PolicyFor, Lookup, StoreStep, MakeKey, Decide, Resolve;
  }

  lemma MoverInOrder(cfg: Config, s: State, a: Action, r: nat)
    requires Inv(cfg, s) && Enabled(s, a) && Moves(a, r)
    ensures cfg.maxEntries > 0 && r < |Apply(cfg, s, a).readers|
    ensures ReaderOk(cfg, Apply(cfg, s, a), Apply(cfg, s, a).readers[r])
  {
    assert cfg.maxEntries > 0;
    hide *;
    MoverGoes(cfg, s, a, r);
    match a {
      case ReadCache(_) => LookingReader(cfg, s, r);
      case Join(_) => JoiningReader(cfg, s, r);
      case Collect(_) => CollectingReader(cfg, s, r);
      case _ => PlainReader(cfg, s, a);
    }
  }

  lemma StartReader(cfg: Config, s: State, endpoint: string, suffix: string)
    requires Enabled(s, Start(endpoint, suffix)) && cfg.maxEntries > 0
    ensures var t := Apply(cfg, s, Start(endpoint, suffix)); ReaderOk(cfg, t, t.readers[|s.readers|])
  {
    hide MakeKey, EndpointOf;
    KeyNamesEndpoint(endpoint, suffix);
  }

  lemma LookingReader(cfg: Config, s: State, r: nat)
    requires Inv(cfg, s) && Enabled(s, ReadCache(r))
    ensures var t := Apply(cfg, s, ReadCache(r)); ReaderOk(cfg, t, t.readers[r])
  {
    hide PolicyFor, EndpointOf, StoresOk, EntriesOk, Lookup, GuardsOk, CountOk, RefreshersOk, FlightsOk, CallOk, Decide;
    assert ReaderOk(cfg, s, s.readers[r]);
    ReadDecides(cfg, s, s.readers[r]);
    var t := Apply(cfg, s, ReadCache(r));
    assert t == s.(readers := t.readers);
    SameCache(cfg, s, t, t.readers[r]);
  }

  /** A reader is in order as far as the rest of the state goes, whoever the other readers are. */
  lemma SameCache(cfg: Config, s: State, t: State, rd: Reader)
    requires t.now == s.now && t.stores == s.stores && t.latest == s.latest && t.calls == s.calls && PhaseOk(cfg, s, rd)
    ensures PhaseOk(cfg, t, rd)
  {
    hide PolicyFor, Window;
  }

  lemma PlainReader(cfg: Config, s: State, a: Action)
    requires Inv(cfg, s) && Enabled(s, a)
    requires a.ReadClock? || a.TryClaim? || a.Count? || a.Spawn? || a.Return?
    ensures ReaderOk(cfg, Apply(cfg, s, a), Apply(cfg, s, a).readers[a.r])
  {
    hide PolicyFor, EndpointOf, StoresOk, EntriesOk, GuardsOk, CountOk, RefreshersOk, FlightsOk, CallOk, Window;
    assert ReaderOk(cfg, s, s.readers[a.r]);
    if a.TryClaim? || a.Spawn? {
      hide ReaderOk;
      ServingReader(cfg, s, a);
    }
  }

  /** A reader at or past the guard goes on holding the entry it saw, or answers with it. */
  lemma ServingReader(cfg: Config, s: State, a: Action)
    requires StoresOk(cfg, s) && Enabled(s, a) && (a.TryClaim? || a.Spawn?) && ReaderOk(cfg, s, s.readers[a.r])
    requires cfg.maxEntries > 0
    ensures ReaderOk(cfg, Apply(cfg, s, a), Apply(cfg, s, a).readers[a.r])
  {
    hide PolicyFor, EndpointOf, StoresOk, Window;
    SeenEndpoint(cfg, s, s.readers[a.r].phase.entry);
  }

  /** A stored entry has its endpoint's type and a version not after the last one. */
  lemma SeenEndpoint(cfg: Config, s: State, e: Entry)
    requires StoresOk(cfg, s) && e in s.stores
    ensures e.val.endpoint == EndpointOf(e.key) && e.val.version <= Version(s.latest, e.key)
  {
    hide StoreAll, EndpointOf;
  }

  lemma JoiningReader(cfg: Config, s: State, r: nat)
    requires Inv(cfg, s) && Enabled(s, Join(r))
    ensures var t := Apply(cfg, s, Join(r)); ReaderOk(cfg, t, t.readers[r])
  {
    hide PolicyFor, EndpointOf, StoresOk, EntriesOk, GuardsOk, CountOk, RefreshersOk, FlightsOk, CallOk, Window;
    hide CallSeenOk;
    assert ReaderOk(cfg, s, s.readers[r]);
    JoinSeen(cfg, s, r);
  }

  lemma CollectingReader(cfg: Config, s: State, r: nat)
    requires Inv(cfg, s) && Enabled(s, Collect(r))
    ensures var t := Apply(cfg, s, Collect(r)); ReaderOk(cfg, t, t.readers[r])
  {
    hide PolicyFor, EndpointOf, StoresOk, EntriesOk, GuardsOk, CountOk, RefreshersOk, FlightsOk, CallOk, Window;
    hide AnswerOk, Resolve;
    assert ReaderOk(cfg, s, s.readers[r]);
    CollectSeen(cfg, s, r);
  }

  lemma ReadDecides(cfg: Config, s: State, rd: Reader)
    requires StoresOk(cfg, s) && EntriesOk(s) && ReaderOk(cfg, s, rd) && rd.phase.Clocked?
    ensures PhaseOk(cfg, s, rd.(phase := Decide(PolicyFor(cfg, rd.endpoint), rd.phase.now, Lookup(s.entries, rd.key))))
  {
    hide PolicyFor, EndpointOf, StoreAll, Lookup;
  }

  lemma JoinSeen(cfg: Config, s: State, r: nat)
    requires Inv(cfg, s) && Enabled(s, Join(r))
    ensures var t := Apply(cfg, s, Join(r)); CallSeenOk(t, t.readers[r], t.readers[r].phase.call)
  {
    hide EndpointOf, StoreAll, GuardsOk, CountOk, RefreshersOk, PhaseOk;
    assert ReaderOk(cfg, s, s.readers[r]);
    var rd := s.readers[r];
    if rd.key in s.open {
      assert CallOk(s, s.calls[s.open[rd.key]]);
    }
  }

  lemma CollectSeen(cfg: Config, s: State, r: nat)
    requires Inv(cfg, s) && Enabled(s, Collect(r))
    ensures var t := Apply(cfg, s, Collect(r)); AnswerOk(cfg, t, t.readers[r], t.readers[r].phase.answer)
  {
    hide EndpointOf, StoreAll, GuardsOk, CountOk, RefreshersOk, PolicyFor, Window;
    assert ReaderOk(cfg, s, s.readers[r]);
    assert CallOk(s, s.calls[s.readers[r].phase.call]);
  }

  /** Steps that neither move a reader's guard nor its refresher. */
  predicate Guards(a: Action) { a.TryClaim? || a.Count? || a.Spawn? || a.RefreshEnd? || a.RefreshJoin? }

  predicate SameGuard(a: Reader, b: Reader) {
    a.key == b.key && a.phase.Claimed? == b.phase.Claimed? && a.phase.Counted? == b.phase.Counted?
  }

  /** Outside the guard steps no reader enters or leaves the guarded phases. */
  lemma GuardsKept(cfg: Config, s: State, a: Action)
    requires Enabled(s, a) && cfg.maxEntries > 0 && !Guards(a) && RefreshersOk(s)
    ensures var t := Apply(cfg, s, a);
      && t.refreshing == s.refreshing && t.refreshers == s.refreshers && t.bgRefreshes == s.bgRefreshes
      && |s.readers| <= |t.readers|
      && (forall r :: 0 <= r < |s.readers| ==> SameGuard(s.readers[r], t.readers[r]))
      && (forall r :: r in s.refreshers ==> t.readers[r].phase.Answered? || t.readers[r].phase.Returned?)
      && (forall r :: |s.readers| <= r < |t.readers| ==> t.readers[r].phase.Started?)
  {
    hide PolicyFor, Lookup, StoreStep, MakeKey;
    if a.ReadClock? || a.ReadCache? || a.Join? || a.Collect? || a.Return? {
      ReaderMoves(cfg, s, a);
      hide Apply;
    }
  }

  lemma ReaderMoves(cfg: Config, s: State, a: Action)
    requires Enabled(s, a) && cfg.maxEntries > 0 && RefreshersOk(s)
    requires a.ReadClock? || a.ReadCache? || a.Join? || a.Collect? || a.Return?
    ensures var t := Apply(cfg, s, a);
      && t.refreshing == s.refreshing && t.refreshers == s.refreshers && t.bgRefreshes == s.bgRefreshes
      && |t.readers| == |s.readers| && SameGuard(s.readers[a.r], t.readers[a.r])
      && (forall r :: 0 <= r < |s.readers| && r != a.r ==> t.readers[r] == s.readers[r])
      && (a.r in s.refreshers ==> t.readers[a.r].phase.Returned?)
  {
    hide PolicyFor, Lookup, StoreStep, MakeKey;
  }

  lemma StepGuards(cfg: Config, s: State, a: Action)
    requires Enabled(s, a) && cfg.maxEntries > 0 && GuardsOk(s) && RefreshersOk(s)
    ensures GuardsOk(Apply(cfg, s, a))
  {
    hide Apply;
    if !Guards(a) {
      GuardsKept(cfg, s, a);
    } else if a.TryClaim? {
      GuardClaimed(cfg, s, a.r);
    } else if a.RefreshEnd? {
      GuardReleased(cfg, s, a.r);
    } else {
      GuardPassedOn(cfg, s, a);
    }
  }

  lemma GuardClaimed(cfg: Config, s: State, r: nat)
    requires Enabled(s, TryClaim(r)) && cfg.maxEntries > 0 && GuardsOk(s) && RefreshersOk(s)
    ensures GuardsOk(Apply(cfg, s, TryClaim(r)))
  {
    hide Apply;
    var t := Apply(cfg, s, TryClaim(r));
    var claims := s.readers[r].key !in s.refreshing;
    ClaimMoves(cfg, s, r);
    hide RefreshersOk;
    forall i | 0 <= i < |s.readers|
      ensures t.readers[i].key == s.readers[i].key && HoldsGuard(t, i) == (HoldsGuard(s, i) || (i == r && claims))
    {}
  }

  lemma ClaimMoves(cfg: Config, s: State, r: nat)
    requires Enabled(s, TryClaim(r)) && cfg.maxEntries > 0 && RefreshersOk(s)
    ensures var t, claims := Apply(cfg, s, TryClaim(r)), s.readers[r].key !in s.refreshing;
      && t.refreshers == s.refreshers && |t.readers| == |s.readers|
      && t.refreshing == (if claims then s.refreshing[s.readers[r].key := r] else s.refreshing)
      && (forall i :: 0 <= i < |s.readers| && i != r ==> t.readers[i] == s.readers[i])
      && t.readers[r].key == s.readers[r].key && r !in s.refreshers
      && t.readers[r].phase.Claimed? == claims && !t.readers[r].phase.Counted? && !HoldsGuard(s, r)
  {}

  lemma GuardReleased(cfg: Config, s: State, r: nat)
    requires Enabled(s, RefreshEnd(r)) && cfg.maxEntries > 0 && GuardsOk(s) && RefreshersOk(s)
    ensures GuardsOk(Apply(cfg, s, RefreshEnd(r)))
  {
    assert HoldsGuard(s, r);
  }

  /** Counting, spawning and joining hand the guard on without letting it go. */
  lemma GuardPassedOn(cfg: Config, s: State, a: Action)
    requires Enabled(s, a) && cfg.maxEntries > 0 && GuardsOk(s) && RefreshersOk(s)
    requires a.Count? || a.Spawn? || a.RefreshJoin?
    ensures GuardsOk(Apply(cfg, s, a))
  {
    var t := Apply(cfg, s, a);
    assert t.refreshing == s.refreshing && |t.readers| == |s.readers|;
    forall r | 0 <= r < |s.readers|
      ensures t.readers[r].key == s.readers[r].key && HoldsGuard(t, r) == HoldsGuard(s, r)
    {}
    hide Apply, HoldsGuard;
  }

  lemma StepRefreshers(cfg: Config, s: State, a: Action)
    requires Enabled(s, a) && cfg.maxEntries > 0 && FlightsOk(s) && RefreshersOk(s)
    ensures RefreshersOk(Apply(cfg, s, a))
  {
    hide Apply;
    if Guards(a) {
      RefreshersMove(cfg, s, a);
    } else {
      GuardsKept(cfg, s, a);
      CallKeys(cfg, s, a);
    }
  }

  /** A refresher starts with its reader's answer, and joins a call of its reader's key. */
  lemma RefreshersMove(cfg: Config, s: State, a: Action)
    requires Enabled(s, a) && cfg.maxEntries > 0 && FlightsOk(s) && RefreshersOk(s) && Guards(a)
    ensures RefreshersOk(Apply(cfg, s, a))
  {
    if a.RefreshJoin? {
    } else {
      hide FlightsOk;
    }
  }

  lemma CallKeys(cfg: Config, s: State, a: Action)
    requires Enabled(s, a) && cfg.maxEntries > 0
    ensures var t := Apply(cfg, s, a);
      |s.calls| <= |t.calls| && forall c :: 0 <= c < |s.calls| ==> t.calls[c].key == s.calls[c].key
  {
    hide StoreStep;
    if !Flies(a) {
      CallsKept(cfg, s, a);
      hide Apply;
    } else if a.Join? || a.RefreshJoin? {
      CallsJoined(cfg, s, a);
      hide Apply;
    }
  }

  lemma StepCount(cfg: Config, s: State, a: Action)
    requires Enabled(s, a) && cfg.maxEntries > 0 && RefreshersOk(s) && CountOk(s)
    ensures CountOk(Apply(cfg, s, a))
  {
    hide Apply;
    if !Guards(a) {
      GuardsKept(cfg, s, a);
      assert CountedReaders(Apply(cfg, s, a)) == CountedReaders(s);
    } else {
      GuardCounts(cfg, s, a);
    }
  }

  lemma GuardCounts(cfg: Config, s: State, a: Action)
    requires Enabled(s, a) && cfg.maxEntries > 0 && RefreshersOk(s) && CountOk(s) && Guards(a)
    ensures CountOk(Apply(cfg, s, a))
  {
    hide Apply;
    match a {
      case Count(r) => CountCounts(cfg, s, r);
      case Spawn(r) => SpawnCounts(cfg, s, r);
      case _ => OtherCounts(cfg, s, a);
    }
  }

  lemma CountCounts(cfg: Config, s: State, r: nat)
    requires Enabled(s, Count(r)) && cfg.maxEntries > 0 && CountOk(s)
    ensures CountOk(Apply(cfg, s, Count(r)))
  {
    assert CountedReaders(Apply(cfg, s, Count(r))) == CountedReaders(s) + {r};
  }

  lemma SpawnCounts(cfg: Config, s: State, r: nat)
    requires Enabled(s, Spawn(r)) && cfg.maxEntries > 0 && CountOk(s) && RefreshersOk(s)
    ensures CountOk(Apply(cfg, s, Spawn(r)))
  {
    SpawnedOneMore(cfg, s, r);
    var t := Apply(cfg, s, Spawn(r));
    hide Apply, RefreshersOk;
    assert CountedReaders(s) == CountedReaders(t) + {r};
  }

  lemma SpawnedOneMore(cfg: Config, s: State, r: nat)
    requires Enabled(s, Spawn(r)) && cfg.maxEntries > 0 && RefreshersOk(s)
    ensures var t := Apply(cfg, s, Spawn(r));
      && |t.refreshers| == |s.refreshers| + 1 && t.bgRefreshes == s.bgRefreshes
      && |t.readers| == |s.readers| && !t.readers[r].phase.Counted? && s.readers[r].phase.Counted?
      && forall q :: 0 <= q < |s.readers| && q != r ==> t.readers[q] == s.readers[q]
  {
    assert r !in s.refreshers;
  }

  lemma OtherCounts(cfg: Config, s: State, a: Action)
    requires Enabled(s, a) && cfg.maxEntries > 0 && CountOk(s) && (a.TryClaim? || a.RefreshEnd? || a.RefreshJoin?)
    ensures CountOk(Apply(cfg, s, a))
  {
    var t := Apply(cfg, s, a);
    assert CountedReaders(t) == CountedReaders(s);
    assert t.refreshers.Keys == s.refreshers.Keys;
  }

  /** Main result: every step of the protocol keeps the invariant. */
  lemma StepKeepsInv(cfg: Config, s: State, a: Action)
    requires Inv(cfg, s) && Enabled(s, a)
    ensures Inv(cfg, Apply(cfg, s, a))
  {
    StepFlights(cfg, s, a);
    StepCalls(cfg, s, a);
    StepStores(cfg, s, a);
    StepReaders(cfg, s, a);
    StepGuards(cfg, s, a);
    StepRefreshers(cfg, s, a);
    StepCount(cfg, s, a);
    hide Apply;
  }

  lemma InitialInv(cfg: Config)
    requires cfg.maxEntries > 0
    ensures Inv(cfg, INITIAL)
  {}
}
