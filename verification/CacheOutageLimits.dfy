/** What an outage needs (internal/fleet/cache.go): the exact condition, at the state it begins in, under which a cached
    value goes on being answered until the upstream is back.
 */
module CacheOutageLimits {
  import opened Options
  import opened Upstream
  import opened Policies
  import opened CacheSpec
  import opened CacheProtocol
  import opened CacheInvariants
  import opened CacheTheorems
  import opened CacheFlights
  import opened CacheOutage

  // ---------------------------------------------------------------- going on

  function Last(run: Run): State
    requires run.states != []
  {
    run.states[|run.states| - 1]
  }

  /** more goes on where run ends, in an outage. */
  ghost predicate GoesOn(cfg: Config, run: Run, more: Run) {
    && IsRun(cfg, run) && IsRun(cfg, more)
    && run.states <= more.states && run.acts <= more.acts
    && (forall j :: |run.acts| <= j < |more.acts| ==> OutageAct(more.acts[j]))
  }

  lemma Act(cfg: Config, run: Run, more: Run, a: Action) returns (next: Run)
    requires GoesOn(cfg, run, more) && Enabled(Last(more), a) && OutageAct(a)
    ensures next.states != [] && GoesOn(cfg, run, next) && Last(next) == Apply(cfg, Last(more), a)
  {
    hide Apply, Enabled, OutageAct;
    next := Run(more.states + [Apply(cfg, Last(more), a)], more.acts + [a]);
    forall i | 0 <= i < |next.acts| ensures Follows(cfg, next, i) {
      if i < |more.acts| {
        assert Follows(cfg, more, i);
      }
    }
  }

  lemma StateOk(cfg: Config, run: Run, more: Run)
    requires GoesOn(cfg, run, more)
    ensures cfg.maxEntries > 0 && Inv(cfg, Last(more)) && FlightsOk(Last(more))
  {
    AlwaysInv(cfg, more, |more.states| - 1);
    InvFlights(cfg, Last(more));
    hide Inv, Apply;
  }

  /** A read of the key that starts after run and returns at step i of more. */
  ghost predicate ReadsAt(run: Run, more: Run, i: nat, key: string) {
    && |run.acts| <= i < |more.acts| < |more.states| && run.states != []
    && more.acts[i].Return? && Enabled(more.states[i], more.acts[i])
    && more.acts[i].r >= |Last(run).readers|
    && more.states[i].readers[more.acts[i].r].key == key
  }

  /** However the outage goes on, every read of e's key that starts in it returns e's value. */
  ghost predicate KeepsAnswering(cfg: Config, run: Run, e: Entry) {
    forall more: Run, i: nat :: GoesOn(cfg, run, more) && ReadsAt(run, more, i, e.key) ==>
      AnswerAt(more, i).reply == Ok(e.val)
  }

  /** A reader of the outage about to return something else. */
  ghost predicate Elsewhere(run: Run, s: State, r: nat, e: Entry) {
    && run.states != [] && |Last(run).readers| <= r < |s.readers| && s.readers[r].key == e.key
    && s.readers[r].phase.Answered? && s.readers[r].phase.answer.reply != Ok(e.val)
  }

  lemma Returns(cfg: Config, run: Run, more: Run, r: nat, e: Entry)
    requires GoesOn(cfg, run, more) && Elsewhere(run, Last(more), r, e)
    ensures !KeepsAnswering(cfg, run, e)
  {
    var i := |more.acts|;
    var next := Run(more.states + [Apply(cfg, Last(more), Return(r))], more.acts + [Return(r)]);
    forall j | 0 <= j < |next.acts| ensures Follows(cfg, next, j) {
      if j < |more.acts| {
        assert Follows(cfg, more, j);
      }
    }
    hide Apply;
    assert GoesOn(cfg, run, next) && ReadsAt(run, next, i, e.key);
    assert AnswerAt(next, i).reply != Ok(e.val);
  }

  // ---------------------------------------------------------------- steps of one reader

  /** The calls and the cache are untouched. */
  predicate SameWorld(s: State, t: State) {
    t.calls == s.calls && t.open == s.open && t.entries == s.entries && t.stores == s.stores
  }

  /** A new read of the key, late enough to find nothing fresh, gets to the flight. */
  lemma ReachFlight(cfg: Config, run: Run, more: Run, endpoint: string, suffix: string) returns (next: Run, r: nat)
    requires GoesOn(cfg, run, more) && '|' !in endpoint
    ensures GoesOn(cfg, run, next) && SameWorld(Last(more), Last(next))
    ensures var s, t, key := Last(more), Last(next), MakeKey(endpoint, suffix);
      && r == |s.readers| < |t.readers| && t.readers[r].key == key
      && t.readers[r].phase.AtFlight? && t.readers[r].phase.seen == Lookup(s.entries, key)
  {
    assert cfg.maxEntries > 0 && more.states != [] by { StateOk(cfg, run, more); }
    hide GoesOn, MakeKey, PolicyFor;
    r := |Last(more).readers|;
    var seen, key := Lookup(Last(more).entries, MakeKey(endpoint, suffix)), MakeKey(endpoint, suffix);
    next := Act(cfg, run, more, Tick(Wait(cfg, Last(more), endpoint, seen)));
    next := Act(cfg, run, next, Start(endpoint, suffix));
    next := Act(cfg, run, next, ReadClock(r));
    assert Last(next).readers[r].phase == Clocked(Last(next).now);
    next := Act(cfg, run, next, ReadCache(r));
  }

  /** How long to wait until an entry is too old to be served. */
  function Wait(cfg: Config, s: State, endpoint: string, seen: Option<Entry>): nat {
    if seen.None? then 0
    else
      var due := seen.value.fetchedAt + Window(PolicyFor(cfg, endpoint)) - s.now;
      if due > 0 then due else 0
  }

  function OutcomeOf(c: Call): Reply { if ReplyOf(c).Some? then ReplyOf(c).value else Fail(Timeout) }

  /** The flight is over, with the outcome it had or else a timeout; no reader moved. */
  predicate FlightOver(s: State, t: State, c: nat) {
    && c < |s.calls| == |t.calls| && t.readers == s.readers
    && t.open == s.open - {s.calls[c].key} && t.calls[c].phase == Closed(OutcomeOf(s.calls[c]))
  }

  lemma CloseFlight(cfg: Config, run: Run, more: Run, c: nat) returns (next: Run)
    requires GoesOn(cfg, run, more) && InFlight(Last(more), c)
    ensures next.states != [] && GoesOn(cfg, run, next) && FlightOver(Last(more), Last(next), c)
  {
    assert cfg.maxEntries > 0 && more.states != [] by { StateOk(cfg, run, more); }
    hide GoesOn, StoreStep;
    next := more;
    if Last(more).calls[c].phase.Fetching? {
      next := Act(cfg, run, next, FetchFail(c, Timeout));
    }
    if Holds(Last(next).calls[c]) {
      next := Act(cfg, run, next, StoreCall(c));
    }
    next := Act(cfg, run, next, CloseCall(c));
  }

  lemma JoinOpen(cfg: Config, s: State, r: nat, c: nat)
    requires Enabled(s, Join(r)) && cfg.maxEntries > 0 && FlightsOk(s)
    requires InFlight(s, c) && s.calls[c].key == s.readers[r].key
    ensures var t, rd := Apply(cfg, s, Join(r)), s.readers[r];
      && t.calls == s.calls && r < |t.readers|
      && t.readers[r] == rd.(phase := Waiting(rd.phase.now, rd.phase.seen, c))
  {}

  lemma CollectClosed(cfg: Config, s: State, r: nat, seen: Option<Entry>, c: nat)
    requires r < |s.readers| && s.readers[r].phase.Waiting? && cfg.maxEntries > 0 && IsClosed(s, c)
    requires s.readers[r].phase.seen == seen && s.readers[r].phase.call == c
    ensures Enabled(s, Collect(r))
    ensures var t := Apply(cfg, s, Collect(r));
      && r < |t.readers| && t.readers[r].key == s.readers[r].key && t.readers[r].phase.Answered?
      && t.readers[r].phase.answer.reply == Resolve(seen, s.calls[c].phase.reply)
  {
    hide Resolve;
  }

  /** A reader at the flight joins the call that is open, and ends with what its outcome makes of the entry seen. */
  lemma EndRead(cfg: Config, run: Run, more: Run, r: nat, c: nat) returns (next: Run)
    requires GoesOn(cfg, run, more) && r < |Last(more).readers| && Last(more).readers[r].phase.AtFlight?
    requires InFlight(Last(more), c) && Last(more).calls[c].key == Last(more).readers[r].key
    ensures next.states != [] && GoesOn(cfg, run, next)
    ensures var s, t := Last(more), Last(next);
      && r < |t.readers| && t.readers[r].key == s.readers[r].key && t.readers[r].phase.Answered?
      && t.readers[r].phase.answer.reply == Resolve(s.readers[r].phase.seen, OutcomeOf(s.calls[c]))
  {
    StateOk(cfg, run, more);
    var s := Last(more);
    JoinOpen(cfg, s, r, c);
    hide GoesOn, Inv, Resolve, FlightsOk, Apply, OutcomeOf;
    next := Act(cfg, run, more, Join(r));
    next := CloseFlight(cfg, run, next, c);
    CollectClosed(cfg, Last(next), r, s.readers[r].phase.seen, c);
    next := Act(cfg, run, next, Collect(r));
  }

  // ---------------------------------------------------------------- a pending outcome of the key itself

  lemma UnsettledBreaks(cfg: Config, run: Run, e: Entry, c: nat, endpoint: string, suffix: string)
    requires IsRun(cfg, run) && c < |Last(run).calls| && Last(run).calls[c].phase.Fetched?
    requires Last(run).calls[c].key == e.key == MakeKey(endpoint, suffix) && '|' !in endpoint
    requires !CalmReply(e, Last(run).calls[c].phase.reply)
    ensures !KeepsAnswering(cfg, run, e)
  {
    GoesOnItself(cfg, run);
    hide IsRun, GoesOn, KeepsAnswering, MakeKey, Lookup;
    var more, r := ReachFlight(cfg, run, run, endpoint, suffix);
    more := EndRead(cfg, run, more, r, c);
    Returns(cfg, run, more, r, e);
  }

  lemma GoesOnItself(cfg: Config, run: Run)
    requires IsRun(cfg, run)
    ensures GoesOn(cfg, run, run)
  {}

  // ---------------------------------------------------------------- no room

  /** Every success of another key that the first n calls hold is behind the entry by now. */
  ghost predicate Crowded(s: State, t: State, at: nat, n: nat) {
    && at < |s.stores| && IsLastStore(t.stores, at) && t.stores[at] == s.stores[at] && t.readers == s.readers
    && LaterKeys(s.stores, at) <= LaterKeys(t.stores, at)
    && n <= |s.calls| == |t.calls| && s.calls[n..] == t.calls[n..]
    && (forall c :: 0 <= c < n && Holds(s.calls[c]) && s.calls[c].key != s.stores[at].key ==>
          s.calls[c].key in LaterKeys(t.stores, at))
  }

  lemma {:induction false} StoreOthers(cfg: Config, run: Run, at: nat, n: nat) returns (more: Run)
    requires IsRun(cfg, run) && IsLastStore(Last(run).stores, at) && n <= |Last(run).calls|
    ensures more.states != [] && GoesOn(cfg, run, more) && Crowded(Last(run), Last(more), at, n)
  {
    if n == 0 {
      GoesOnItself(cfg, run);
      more := run;
      hide IsRun, LaterKeys;
    } else {
      hide GoesOn, IsLastStore, Crowded;
      more := StoreOthers(cfg, run, at, n - 1);
      hide IsRun;
      more := StoreOne(cfg, run, more, at, n - 1);
    }
  }

  lemma StoreOne(cfg: Config, run: Run, before: Run, at: nat, c: nat) returns (more: Run)
    requires run.states != [] && GoesOn(cfg, run, before) && c < |Last(run).calls|
    requires Crowded(Last(run), Last(before), at, c)
    ensures more.states != [] && GoesOn(cfg, run, more) && Crowded(Last(run), Last(more), at, c + 1)
  {
    var s, t := Last(run), Last(before);
    StateOk(cfg, run, before);
    hide GoesOn, Apply, Inv, FlightsOk, LaterKeys, IsLastStore;
    if Holds(s.calls[c]) && s.calls[c].key != s.stores[at].key {
      OneMoreBehind(cfg, s, t, at, c);
      hide Crowded, Enabled;
      more := Act(cfg, run, before, StoreCall(c));
    } else {
      TailAgrees(s.calls, t.calls, c);
      more := before;
    }
  }

  lemma TailAgrees(a: seq<Call>, b: seq<Call>, n: nat)
    requires n < |a| == |b| && a[n..] == b[n..]
    ensures a[n] == b[n] && a[n + 1..] == b[n + 1..]
  {
    assert a[n] == a[n..][0] && b[n] == b[n..][0];
    assert a[n + 1..] == a[n..][1..] && b[n + 1..] == b[n..][1..];
  }

  lemma OneMoreBehind(cfg: Config, s: State, t: State, at: nat, c: nat)
    requires Crowded(s, t, at, c) && c < |s.calls| && Holds(s.calls[c]) && s.calls[c].key != s.stores[at].key
    requires cfg.maxEntries > 0
    ensures Enabled(t, StoreCall(c)) && Crowded(s, Apply(cfg, t, StoreCall(c)), at, c + 1)
  {
    hide StoreStep, LaterKeys;
    TailAgrees(s.calls, t.calls, c);
    LaterKeysSnoc(t.stores, Entry(t.calls[c].key, t.calls[c].phase.reply.val, t.now), at);
  }

  lemma OneResident(history: seq<Entry>, bound: nat, at: nat, x: Entry)
    requires bound > 0 && IsLastStore(history, at) && x in StoreAll(history, bound) && x.key == history[at].key
    ensures |LaterKeys(history, at)| < bound
  {
    hide LaterKeys, StoreAll;
    Residents(history, bound, x);
    var j: nat :| IsLastStore(history, j) && history[j] == x && |LaterKeys(history, j)| < bound;
    OneLastStore(history, j, at);
  }

  /** Nothing of a key is resident once its last store is not. */
  lemma Missed(cfg: Config, run: Run, i: nat, at: nat)
    requires IsRun(cfg, run) && i < |run.states| && IsLastStore(run.states[i].stores, at)
    requires |LaterKeys(run.states[i].stores, at)| >= cfg.maxEntries
    ensures Lookup(run.states[i].entries, run.states[i].stores[at].key) == None
  {
    InvStores(cfg, run, i);
    var s := run.states[i];
    var seen := Lookup(s.entries, s.stores[at].key);
    hide IsRun, Lookup, LaterKeys, StoreAll, IsLastStore;
    if seen.Some? {
      OneResident(s.stores, cfg.maxEntries, at, seen.value);
    }
  }

  lemma OneLastStore(history: seq<Entry>, i: nat, j: nat)
    requires IsLastStore(history, i) && IsLastStore(history, j)
    ensures history[i].key == history[j].key ==> i == j
  {}

  lemma RivalsBehind(s: State, t: State, at: nat)
    requires Crowded(s, t, at, |s.calls|)
    ensures Rivals(s, at) <= LaterKeys(t.stores, at)
  {
    hide LaterKeys;
  }

  lemma NoRoomBreaks(cfg: Config, run: Run, at: nat, endpoint: string, suffix: string)
    requires IsRun(cfg, run) && IsLastStore(Last(run).stores, at) && !Room(cfg, Last(run), at)
    requires Last(run).stores[at].key == MakeKey(endpoint, suffix) && '|' !in endpoint
    ensures !KeepsAnswering(cfg, run, Last(run).stores[at])
  {
    var s, e := Last(run), Last(run).stores[at];
    var more := StoreOthers(cfg, run, at, |s.calls|);
    RivalsBehind(s, Last(more), at);
    SmallerSet(Rivals(s, at), LaterKeys(Last(more).stores, at));
    Missed(cfg, more, |more.states| - 1, at);
    hide IsRun, GoesOn, KeepsAnswering, MakeKey, Lookup, LaterKeys, Rivals, IsLastStore;
    var r;
    more, r := ReachFlight(cfg, run, more, endpoint, suffix);
    more := LeaveFlight(cfg, run, more, e.key);
    more := JoinNew(cfg, run, more, r);
    Returns(cfg, run, more, r, e);
  }

  /** The call of the key, if there is one, runs out before anyone joins it. */
  lemma LeaveFlight(cfg: Config, run: Run, more: Run, key: string) returns (next: Run)
    requires GoesOn(cfg, run, more)
    ensures GoesOn(cfg, run, next) && key !in Last(next).open && Last(next).readers == Last(more).readers
  {
    next := more;
    if key in Last(more).open {
      StateOk(cfg, run, more);
      next := CloseFlight(cfg, run, more, Last(more).open[key]);
    }
  }

  /** A reader that found nothing opens a call, and hands out its failure. */
  lemma JoinNew(cfg: Config, run: Run, more: Run, r: nat) returns (next: Run)
    requires GoesOn(cfg, run, more) && r < |Last(more).readers| && Last(more).readers[r].phase.AtFlight?
    requires Last(more).readers[r].phase.seen == None && Last(more).readers[r].key !in Last(more).open
    ensures GoesOn(cfg, run, next)
    ensures var s, t := Last(more), Last(next);
      && r < |t.readers| && t.readers[r].key == s.readers[r].key && t.readers[r].phase.Answered?
      && t.readers[r].phase.answer.reply == Fail(Timeout)
  {
    assert cfg.maxEntries > 0 by { StateOk(cfg, run, more); }
    hide GoesOn;
    next := Act(cfg, run, more, Join(r));
    next := CloseFlight(cfg, run, next, |Last(more).calls|);
    next := Act(cfg, run, next, Collect(r));
  }

  // ---------------------------------------------------------------- keys name requests

  /** Whatever is read, called or stored has a key that a request forms. */
  ghost predicate KeysFormed(s: State) {
    && (forall r :: 0 <= r < |s.readers| ==> '|' in s.readers[r].key)
    && (forall c :: 0 <= c < |s.calls| ==> '|' in s.calls[c].key)
    && (forall j :: 0 <= j < |s.stores| ==> '|' in s.stores[j].key)
  }

  lemma StepKeysFormed(cfg: Config, s: State, a: Action)
    requires KeysFormed(s) && Enabled(s, a) && cfg.maxEntries > 0
    ensures KeysFormed(Apply(cfg, s, a))
  {
    hide Apply;
    var t := Apply(cfg, s, a);
    forall r | 0 <= r < |t.readers| ensures '|' in t.readers[r].key {
      ReaderKey(cfg, s, a, r);
    }
    if !Flies(a) {
      CallsKept(cfg, s, a);
    } else if a.Join? || a.RefreshJoin? {
      CallsJoined(cfg, s, a);
    } else {
      FlightKeys(cfg, s, a);
    }
  }

  lemma ReaderKey(cfg: Config, s: State, a: Action, r: nat)
    requires KeysFormed(s) && Enabled(s, a) && cfg.maxEntries > 0 && r < |Apply(cfg, s, a).readers|
    ensures '|' in Apply(cfg, s, a).readers[r].key
  {
    hide Apply;
    if Moves(a, r) {
      MoverGoes(cfg, s, a, r);
    } else if r < |s.readers| {
      OthersStay(cfg, s, a, r);
    } else {
      OnlyStartAdds(cfg, s, a, r);
      StartKey(cfg, s, a.endpoint, a.suffix);
    }
  }

  lemma StartKey(cfg: Config, s: State, endpoint: string, suffix: string)
    requires Enabled(s, Start(endpoint, suffix)) && cfg.maxEntries > 0
    ensures '|' in Apply(cfg, s, Start(endpoint, suffix)).readers[|s.readers|].key
  {
    assert MakeKey(endpoint, suffix)[|endpoint|] == '|';
  }

  lemma FlightKeys(cfg: Config, s: State, a: Action)
    requires KeysFormed(s) && Enabled(s, a) && cfg.maxEntries > 0
    requires a.FetchOk? || a.FetchFail? || a.StoreCall? || a.CloseCall?
    ensures var t := Apply(cfg, s, a);
      && (forall c :: 0 <= c < |t.calls| ==> '|' in t.calls[c].key)
      && (forall j :: 0 <= j < |t.stores| ==> '|' in t.stores[j].key)
  {
    hide StoreStep;
  }

  lemma {:induction false} AlwaysKeysFormed(cfg: Config, run: Run, i: nat)
    requires IsRun(cfg, run) && i < |run.states|
    ensures KeysFormed(run.states[i])
  {
    hide Apply;
    if i > 0 {
      AlwaysKeysFormed(cfg, run, i - 1);
      assert Follows(cfg, run, i - 1);
      hide KeysFormed;
      StepKeysFormed(cfg, run.states[i - 1], run.acts[i - 1]);
    }
  }

  lemma {:induction false} RequestOf(key: string) returns (endpoint: string, suffix: string)
    requires '|' in key
    ensures '|' !in endpoint && key == MakeKey(endpoint, suffix)
  {
    if key[0] == '|' {
      endpoint, suffix := "", key[1..];
    } else {
      endpoint, suffix := RequestOf(key[1..]);
      endpoint := [key[0]] + endpoint;
    }
  }

  /** Main result: from any state an outage goes on answering a key with its last stored value, in every read that
      starts then and however it goes on, exactly if at that state no other outcome of the key is fetched and pending
      and the distinct keys behind it, those with a pending success included, leave room for it. */
  lemma OutageIff(cfg: Config, run: Run, at: nat)
    requires IsRun(cfg, run) && IsLastStore(Last(run).stores, at)
    ensures var s, e := Last(run), Last(run).stores[at];
      KeepsAnswering(cfg, run, e) <==> Settled(s, e) && Room(cfg, s, at)
  {
    var s, e := Last(run), Last(run).stores[at];
    AlwaysKeysFormed(cfg, run, |run.states| - 1);
    var endpoint, suffix := RequestOf(e.key);
    if !Settled(s, e) {
      var c: nat :| c < |s.calls| && s.calls[c].key == e.key && s.calls[c].phase.Fetched? &&
                    !CalmReply(e, s.calls[c].phase.reply);
      UnsettledBreaks(cfg, run, e, c, endpoint, suffix);
    } else if !Room(cfg, s, at) {
      NoRoomBreaks(cfg, run, at, endpoint, suffix);
    } else {
      hide Settled, Room, MakeKey;
      forall more: Run, i: nat | GoesOn(cfg, run, more) && ReadsAt(run, more, i, e.key)
        ensures AnswerAt(more, i).reply == Ok(e.val)
      {
        OutageKeepsAnswering(cfg, more, |run.acts|, i, at);
      }
    }
  }

  // ---------------------------------------------------------------- runs that end unsettled

  /** The value is resident with room, and an outcome of its key is pending that takes it away. */
  ghost predicate AboutToChange(cfg: Config, run: Run, at: nat) {
    && IsRun(cfg, run) && at < |Last(run).stores| && Last(run).stores[at] in Last(run).entries
    && Room(cfg, Last(run), at) && !KeepsAnswering(cfg, run, Last(run).stores[at])
  }

  /** A call of the key has met this outcome and still has to store or show it. */
  ghost predicate Pending(s: State, key: string, reply: Reply) {
    exists c: nat :: c < |s.calls| && s.calls[c].key == key && s.calls[c].phase == Fetched(reply)
  }

  /** A pending outcome of the only key, while its entry is resident. */
  ghost predicate OnePending(s: State, key: string) {
    && |s.calls| == 2 && s.calls[0].phase.Closed? && s.calls[1].key == key && s.calls[1].phase.Fetched?
    && Lookup(s.entries, key).Some? && !CalmReply(Lookup(s.entries, key).value, s.calls[1].phase.reply)
  }

  lemma PendingBreaks(cfg: Config, run: Run, key: string) returns (at: nat)
    requires IsRun(cfg, run) && OnePending(Last(run), key)
    ensures AboutToChange(cfg, run, at) && Some(Last(run).stores[at]) == Lookup(Last(run).entries, key)
  {
    InvStores(cfg, run, |run.states| - 1);
    hide StoreAll, LaterKeys, KeepsAnswering, IsRun, Rivals, IsLastStore, Settled, OnePending;
    at := PendingUnsettled(cfg, Last(run), key);
    OutageIff(cfg, run, at);
  }

  lemma PendingUnsettled(cfg: Config, s: State, key: string) returns (at: nat)
    requires OnePending(s, key) && cfg.maxEntries > 0 && s.entries == StoreAll(s.stores, cfg.maxEntries)
    ensures Room(cfg, s, at) && IsLastStore(s.stores, at) && s.stores[at] in s.entries
    ensures Some(s.stores[at]) == Lookup(s.entries, key)
    ensures !Settled(s, s.stores[at])
  {
    var e := Lookup(s.entries, key).value;
    OnlyLater(s, key);
    hide StoreAll, LaterKeys, IsLastStore, Lookup, CalmReply, PendingKeys;
    Residents(s.stores, cfg.maxEntries, e);
    at :| IsLastStore(s.stores, at) && s.stores[at] == e && |LaterKeys(s.stores, at)| < cfg.maxEntries;
    SmallerSet(Rivals(s, at), LaterKeys(s.stores, at));
  }

  lemma OnlyLater(s: State, key: string)
    requires OnePending(s, key)
    ensures PendingKeys(s) <= {key}
  {
    hide Lookup, CalmReply;
  }

  /** Main result: for every request there is a run that leaves its value resident with room and a terminal failure of
      its key pending, after which an outage does not go on answering with that value ... */
  lemma PendingFailure(cfg: Config, endpoint: string, suffix: string, fault: Fault) returns (run: Run, at: nat)
    requires cfg.maxEntries > 0 && '|' !in endpoint && IsTerminal(Fail(fault))
    ensures AboutToChange(cfg, run, at) && Last(run).stores[at].key == MakeKey(endpoint, suffix)
    ensures Pending(Last(run), MakeKey(endpoint, suffix), Fail(fault))
  {
    var key := MakeKey(endpoint, suffix);
    var t;
    run, t := SecondFlightRun(cfg, endpoint, suffix);
    var u := Apply(cfg, t, FetchFail(1, fault));
    hide MakeKey, IsRun, Lookup;
    run := Extend(cfg, run, t, FetchFail(1, fault), u);
    assert u.calls[1].key == key && u.calls[1].phase == Fetched(Fail(fault));
    at := PendingBreaks(cfg, run, key);
  }

  /** ... and one that leaves a newer success of its key pending instead. */
  lemma PendingSuccess(cfg: Config, endpoint: string, suffix: string) returns (run: Run, at: nat)
    requires cfg.maxEntries > 0 && '|' !in endpoint
    ensures AboutToChange(cfg, run, at) && Last(run).stores[at].key == MakeKey(endpoint, suffix)
    ensures exists val :: Pending(Last(run), MakeKey(endpoint, suffix), Ok(val)) &&
                          val.version > Last(run).stores[at].val.version
  {
    var key := MakeKey(endpoint, suffix);
    var t;
    run, t := SecondFlightRun(cfg, endpoint, suffix);
    SeenBehindUpstream(cfg, run, key);
    var newer := Version(t.upstream, key) + 1;
    var u := Apply(cfg, t, Publish(key, newer));
    var v := Apply(cfg, u, FetchOk(1));
    hide MakeKey, IsRun, Lookup;
    run := Extend(cfg, run, t, Publish(key, newer), u);
    run := Extend(cfg, run, u, FetchOk(1), v);
    assert v.calls[1].key == key && v.calls[1].phase == Fetched(Ok(Payload(v.calls[1].endpoint, newer)));
    at := PendingBreaks(cfg, run, key);
  }

  lemma SeenBehindUpstream(cfg: Config, run: Run, key: string)
    requires IsRun(cfg, run) && Lookup(Last(run).entries, key).Some?
    ensures Lookup(Last(run).entries, key).value.val.version <= Version(Last(run).upstream, key)
  {
    AlwaysInv(cfg, run, |run.states| - 1);
    hide IsRun, FlightsOk, CallOk, StoresOk, ReaderOk, GuardsOk, RefreshersOk, CountOk;
  }
}
