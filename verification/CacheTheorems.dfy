/** Whole runs of the cache protocol (internal/fleet/cache.go): monotone reads in real time, freshness of
    every answer, concurrency caps, and outages.
 */
module CacheTheorems {
  import opened Options
  import opened Upstream
  import opened Policies
  import opened CacheSpec
  import opened CacheProtocol
  import opened CacheInvariants

  /** A run from the empty cache: each state follows from the one before by an enabled action. */
  datatype Run = Run(states: seq<State>, acts: seq<Action>)

  ghost predicate Follows(cfg: Config, run: Run, i: nat)
    requires i < |run.acts| < |run.states|
  {
    cfg.maxEntries > 0 && Enabled(run.states[i], run.acts[i]) &&
    run.states[i + 1] == Apply(cfg, run.states[i], run.acts[i])
  }

  ghost predicate IsRun(cfg: Config, run: Run) {
    && cfg.maxEntries > 0
    && |run.states| == |run.acts| + 1
    && run.states[0] == INITIAL
    && (forall i :: 0 <= i < |run.acts| ==> Follows(cfg, run, i))
  }

  /** Main result: the invariant holds in every state of every run. */
  lemma {:induction false} AlwaysInv(cfg: Config, run: Run, i: nat)
    requires IsRun(cfg, run) && i < |run.states|
    ensures Inv(cfg, run.states[i])
  {
    hide Inv, Apply;
    if i == 0 {
      InitialInv(cfg);
    } else {
      AlwaysInv(cfg, run, i - 1);
      assert Follows(cfg, run, i - 1);
      StepKeepsInv(cfg, run.states[i - 1], run.acts[i - 1]);
    }
  }

  // ---------------------------------------------------------------- real-time monotone reads

  /** Readers keep their request and their start; what has been stored only gets newer. */
  ghost predicate Continues(s: State, t: State) {
    && |s.readers| <= |t.readers|
    && (forall r :: 0 <= r < |s.readers| ==>
          t.readers[r].(phase := Started) == s.readers[r].(phase := Started))
    && (forall k :: Version(s.latest, k) <= Version(t.latest, k))
  }

  lemma StepContinues(cfg: Config, s: State, a: Action)
    requires Inv(cfg, s) && Enabled(s, a)
    ensures Continues(s, Apply(cfg, s, a))
  {
    hide Inv, Version, PolicyFor, Lookup, StoreStep, MakeKey;
    VersionsGrow(cfg, s, a);
  }

  lemma VersionsGrow(cfg: Config, s: State, a: Action)
    requires Inv(cfg, s) && Enabled(s, a)
    ensures forall k :: Version(s.latest, k) <= Version(Apply(cfg, s, a).latest, k)
  {
    hide Apply;
    StepGrows(cfg, s, a);
    hide Inv;
  }

  lemma {:induction false} RunContinues(cfg: Config, run: Run, i: nat, j: nat)
    requires IsRun(cfg, run) && i <= j < |run.states|
    ensures Continues(run.states[i], run.states[j])
  {
    hide Inv, Apply, Version;
    if i < j {
      RunContinues(cfg, run, i, j - 1);
      AlwaysInv(cfg, run, j - 1);
      assert Follows(cfg, run, j - 1);
      StepContinues(cfg, run.states[j - 1], run.acts[j - 1]);
    }
  }

  /** What reader r is about to return at step i. */
  function AnswerAt(run: Run, i: nat): Answer
    requires i < |run.acts| < |run.states| && run.acts[i].Return? && Enabled(run.states[i], run.acts[i])
  {
    run.states[i].readers[run.acts[i].r].phase.answer
  }

  /** Main result: for one key, a read that starts after another has returned never shows an older
      version, whatever flights, refreshes, degraded answers and evictions come in between. */
  lemma MonotoneReads(cfg: Config, run: Run, first: nat, start: nat, second: nat)
    requires IsRun(cfg, run) && first < start < second < |run.acts|
    requires Enabled(run.states[first], run.acts[first]) && Enabled(run.states[second], run.acts[second])
    requires run.acts[first].Return? && run.acts[start].Start? && run.acts[second].Return?
    requires run.acts[second].r == |run.states[start].readers|
    requires run.states[first].readers[run.acts[first].r].key ==
             run.states[second].readers[run.acts[second].r].key
    requires AnswerAt(run, first).reply.Ok? && AnswerAt(run, second).reply.Ok?
    ensures AnswerAt(run, first).reply.val.version <= AnswerAt(run, second).reply.val.version
  {
    hide Version, Inv, Apply, AnswerOk;
    var a, b := run.acts[first].r, run.acts[second].r;
    AnswerBounds(cfg, run, first);
    AnswerBounds(cfg, run, second);
    RunContinues(cfg, run, first, start);
    assert Follows(cfg, run, start);
    StartRecords(cfg, run.states[start], run.acts[start]);
    RunContinues(cfg, run, start + 1, second);
    assert run.states[second].readers[b].since == run.states[start + 1].readers[b].since;
  }

  /** A value returned is at least as new as the reader's start demands and no newer than the last store. */
  lemma AnswerBounds(cfg: Config, run: Run, i: nat)
    requires IsRun(cfg, run) && i < |run.acts|
    requires run.acts[i].Return? && Enabled(run.states[i], run.acts[i]) && AnswerAt(run, i).reply.Ok?
    ensures var s, rd := run.states[i], run.states[i].readers[run.acts[i].r];
      rd.since <= AnswerAt(run, i).reply.val.version <= Version(s.latest, rd.key)
  {
    hide Version, Inv, Apply;
    AlwaysInv(cfg, run, i);
    AnsweredOk(cfg, run.states[i], run.acts[i].r);
  }

  lemma StartRecords(cfg: Config, s: State, a: Action)
    requires a.Start? && Enabled(s, a) && cfg.maxEntries > 0
    ensures var t := Apply(cfg, s, a);
      |t.readers| == |s.readers| + 1 &&
      t.readers[|s.readers|].since == Version(s.latest, t.readers[|s.readers|].key)
  {}

  lemma AnsweredOk(cfg: Config, s: State, r: nat)
    requires Inv(cfg, s) && r < |s.readers| && s.readers[r].phase.Answered?
    ensures AnswerOk(cfg, s, s.readers[r], s.readers[r].phase.answer)
  {
    hide AnswerOk, GuardsOk, CountOk, RefreshersOk, FlightsOk, StoresOk, EntriesOk, CallOk;
    assert ReaderOk(cfg, s, s.readers[r]);
  }

  // ---------------------------------------------------------------- what a read did on its way

  /** The entry a reader holds, the call it waits or waited for, and the instant it took. */
  function SeenBy(p: Phase): Option<Entry> {
    match p
    case AtGuard(_, e) => Some(e)
    case Claimed(_, e) => Some(e)
    case Counted(_, e) => Some(e)
    case AtFlight(_, seen) => seen
    case Waiting(_, seen, _) => seen
    case Answered(a) => a.seen
    case Returned(a) => a.seen
    case _ => None
  }

  function CallBy(p: Phase): Option<nat> {
    match p
    case Waiting(_, _, c) => Some(c)
    case Answered(a) => a.call
    case Returned(a) => a.call
    case _ => None
  }

  function InstantOf(p: Phase): int {
    match p
    case Started => 0
    case Clocked(now) => now
    case AtGuard(now, _) => now
    case Claimed(now, _) => now
    case Counted(now, _) => now
    case AtFlight(now, _) => now
    case Waiting(now, _, _) => now
    case Answered(a) => a.now
    case Returned(a) => a.now
  }

  predicate Looked(p: Phase) { !p.Started? && !p.Clocked? }

  /** Only its lookup gives a reader what it holds ... */
  lemma SeenCarries(cfg: Config, s: State, a: Action, r: nat)
    requires Enabled(s, a) && cfg.maxEntries > 0 && a != ReadCache(r)
    requires r < |Apply(cfg, s, a).readers| && Looked(Apply(cfg, s, a).readers[r].phase)
    ensures r < |s.readers| && Looked(s.readers[r].phase)
    ensures SeenBy(Apply(cfg, s, a).readers[r].phase) == SeenBy(s.readers[r].phase)
  {
    hide Apply, PolicyFor, Lookup, Open, Resolve;
    if Moves(a, r) {
      MoverGoes(cfg, s, a, r);
    } else {
      OthersStay(cfg, s, a, r);
    }
  }

  /** ... only joining a flight the call it waits for ... */
  lemma CallCarries(cfg: Config, s: State, a: Action, r: nat)
    requires Enabled(s, a) && cfg.maxEntries > 0 && a != Join(r)
    requires r < |Apply(cfg, s, a).readers| && CallBy(Apply(cfg, s, a).readers[r].phase).Some?
    ensures r < |s.readers| && CallBy(Apply(cfg, s, a).readers[r].phase) == CallBy(s.readers[r].phase)
  {
    hide Apply, PolicyFor, Lookup, Open, Resolve;
    if Moves(a, r) {
      MoverGoes(cfg, s, a, r);
    } else {
      OthersStay(cfg, s, a, r);
    }
  }

  /** ... and only reading the clock its instant. */
  lemma InstantCarries(cfg: Config, s: State, a: Action, r: nat)
    requires Enabled(s, a) && cfg.maxEntries > 0 && a != ReadClock(r)
    requires r < |Apply(cfg, s, a).readers| && !Apply(cfg, s, a).readers[r].phase.Started?
    ensures r < |s.readers| && !s.readers[r].phase.Started?
    ensures InstantOf(Apply(cfg, s, a).readers[r].phase) == InstantOf(s.readers[r].phase)
  {
    hide Apply, PolicyFor, Lookup, Open, Resolve;
    if Moves(a, r) {
      MoverGoes(cfg, s, a, r);
    } else {
      OthersStay(cfg, s, a, r);
    }
  }

  lemma LookCarries(cfg: Config, s: State, r: nat)
    requires Enabled(s, ReadCache(r)) && cfg.maxEntries > 0
    ensures var t := Apply(cfg, s, ReadCache(r));
      && r < |t.readers| == |s.readers| && t.readers[r].key == s.readers[r].key && s.readers[r].phase.Clocked?
      && SeenBy(t.readers[r].phase) == Lookup(s.entries, s.readers[r].key)
      && InstantOf(t.readers[r].phase) == InstantOf(s.readers[r].phase)
  {
    hide PolicyFor, Lookup;
  }

  ghost predicate InFlight(s: State, c: int) { 0 <= c < |s.calls| && !s.calls[c].phase.Closed? }

  /** Joining takes the call of the key that is in flight, or opens one. */
  lemma JoinCarries(cfg: Config, s: State, r: nat)
    requires Enabled(s, Join(r)) && cfg.maxEntries > 0 && FlightsOk(s)
    ensures var t := Apply(cfg, s, Join(r));
      && r < |t.readers| && t.readers[r].phase.Waiting? && InFlight(t, t.readers[r].phase.call)
      && t.calls[t.readers[r].phase.call].key == s.readers[r].key
  {}

  /** At step j the read of r looked up its key and found e. */
  ghost predicate FoundAt(run: Run, j: nat, r: nat, e: Option<Entry>) {
    && j < |run.acts| < |run.states| && run.acts[j] == ReadCache(r) && r < |run.states[j].readers|
    && e == Lookup(run.states[j].entries, run.states[j].readers[r].key)
  }

  /** At step j the read of r joined call c, which was in flight then. */
  ghost predicate JoinedAt(run: Run, j: nat, r: nat, c: nat) {
    j < |run.acts| && j + 1 < |run.states| && run.acts[j] == Join(r) && InFlight(run.states[j + 1], c)
  }

  /** At step j the read of r took the instant now. */
  ghost predicate ClockedAt(run: Run, j: nat, r: nat, now: int) {
    j < |run.acts| < |run.states| && run.acts[j] == ReadClock(r) && run.states[j].now == now
  }

  /** Main result: what a reader carries is what was resident at its own lookup. */
  lemma {:induction false} SeenWasResident(cfg: Config, run: Run, i: nat, r: nat) returns (j: nat)
    requires IsRun(cfg, run) && i < |run.states| && r < |run.states[i].readers|
    requires Looked(run.states[i].readers[r].phase)
    ensures j < i && FoundAt(run, j, r, SeenBy(run.states[i].readers[r].phase))
  {
    hide Apply, Lookup, SeenBy, Looked;
    assert i > 0;
    var s, a := run.states[i - 1], run.acts[i - 1];
    assert Follows(cfg, run, i - 1);
    if a == ReadCache(r) {
      LookCarries(cfg, s, r);
      j := i - 1;
    } else {
      SeenCarries(cfg, s, a, r);
      j := SeenWasResident(cfg, run, i - 1, r);
    }
  }

  /** Main result: the call a reader waits for was in flight when it joined. */
  lemma {:induction false} CallWasInFlight(cfg: Config, run: Run, i: nat, r: nat) returns (j: nat)
    requires IsRun(cfg, run) && i < |run.states| && r < |run.states[i].readers|
    requires CallBy(run.states[i].readers[r].phase).Some?
    ensures j < i && JoinedAt(run, j, r, CallBy(run.states[i].readers[r].phase).value)
  {
    hide Apply, Inv, InFlight;
    assert i > 0;
    var s, a := run.states[i - 1], run.acts[i - 1];
    assert Follows(cfg, run, i - 1);
    if a == Join(r) {
      AlwaysInv(cfg, run, i - 1);
      InvFlights(cfg, s);
      JoinCarries(cfg, s, r);
      j := i - 1;
    } else {
      CallCarries(cfg, s, a, r);
      j := CallWasInFlight(cfg, run, i - 1, r);
    }
  }

  lemma InvFlights(cfg: Config, s: State)
    requires Inv(cfg, s)
    ensures FlightsOk(s)
  {
    hide FlightsOk;
  }

  lemma {:induction false} InstantWasTaken(cfg: Config, run: Run, i: nat, r: nat) returns (j: nat)
    requires IsRun(cfg, run) && i < |run.states| && r < |run.states[i].readers|
    requires !run.states[i].readers[r].phase.Started?
    ensures j < i && ClockedAt(run, j, r, InstantOf(run.states[i].readers[r].phase))
  {
    hide Apply;
    assert i > 0;
    var s, a := run.states[i - 1], run.acts[i - 1];
    assert Follows(cfg, run, i - 1);
    if a == ReadClock(r) {
      ClockCarries(cfg, s, r);
      j := i - 1;
    } else {
      InstantCarries(cfg, s, a, r);
      j := InstantWasTaken(cfg, run, i - 1, r);
    }
  }

  lemma ClockCarries(cfg: Config, s: State, r: nat)
    requires Enabled(s, ReadClock(r)) && cfg.maxEntries > 0
    ensures var t := Apply(cfg, s, ReadClock(r)); r < |t.readers| && InstantOf(t.readers[r].phase) == s.now
  {}

  // ---------------------------------------------------------------- freshness

  /** The entry this read copied out, younger than the window at the instant this read took. */
  ghost predicate FromCache(cfg: Config, run: Run, i: nat, r: nat, a: Answer)
    requires i < |run.states| && r < |run.states[i].readers|
  {
    && a.call.None? && a.seen.Some? && a.reply == Ok(a.seen.value.val)
    && (exists j: nat :: j < i && FoundAt(run, j, r, a.seen))
    && !TooStale(cfg, run.states[i].readers[r], a.now, a.seen.value)
  }

  /** The success of the call this read joined while it was in flight. */
  ghost predicate FromFlight(run: Run, i: nat, r: nat, a: Answer)
    requires i < |run.states| && r < |run.states[i].readers|
  {
    && a.call.Some? && a.call.value < |run.states[i].calls|
    && run.states[i].calls[a.call.value].phase == Closed(a.reply)
    && run.states[i].calls[a.call.value].key == run.states[i].readers[r].key
    && (exists j: nat :: j < i && JoinedAt(run, j, r, a.call.value))
  }

  /** The entry this read copied out, past the window, after the call it joined failed with a transient error. */
  ghost predicate Degraded(cfg: Config, run: Run, i: nat, r: nat, a: Answer)
    requires i < |run.states| && r < |run.states[i].readers|
  {
    && a.seen.Some? && a.reply == Ok(a.seen.value.val)
    && (exists j: nat :: j < i && FoundAt(run, j, r, a.seen))
    && TooStale(cfg, run.states[i].readers[r], a.now, a.seen.value)
    && a.call.Some? && a.call.value < |run.states[i].calls|
    && run.states[i].calls[a.call.value].key == run.states[i].readers[r].key
    && FailedTransiently(run.states[i].calls[a.call.value])
    && (exists j: nat :: j < i && JoinedAt(run, j, r, a.call.value))
  }

  predicate FailedTransiently(c: Call) {
    c.phase.Closed? && c.phase.reply.Fail? && (c.phase.reply.fault.Unavailable? || c.phase.reply.fault.Timeout?)
  }

  /** Main result: every value handed out in any run is the resident entry this very read copied out, fresh at
      the instant it took; or the success of a call it joined in flight; or, after such a call failed
      transiently, the entry it copied out. And it has the type of the endpoint asked. */
  lemma EveryAnswerIsFresh(cfg: Config, run: Run, i: nat)
    requires IsRun(cfg, run) && i < |run.acts|
    requires run.acts[i].Return? && Enabled(run.states[i], run.acts[i]) && AnswerAt(run, i).reply.Ok?
    ensures var r, a := run.acts[i].r, AnswerAt(run, i);
      && (FromCache(cfg, run, i, r, a) || FromFlight(run, i, r, a) || Degraded(cfg, run, i, r, a))
      && a.reply.val.endpoint == run.states[i].readers[r].endpoint
      && (exists j: nat :: j < i && ClockedAt(run, j, r, a.now))
  {
    hide Version, Apply, JoinedAt, FoundAt, ClockedAt, Follows;
    var s, r := run.states[i], run.acts[i].r;
    AlwaysInv(cfg, run, i);
    AnsweredOk(cfg, s, r);
    hide Inv, TooStale, ClockOk, SeenOk;
    var a := s.readers[r].phase.answer;
    var clocked := InstantWasTaken(cfg, run, i, r);
    var found := SeenWasResident(cfg, run, i, r);
    if a.call.Some? {
      var joined := CallWasInFlight(cfg, run, i, r);
    }
  }

  /** A failure that no entry may hide: the caller's own end, or anything but a 503 or a network timeout. */
  predicate IsTerminal(reply: Reply) {
    reply.Fail? && (reply.fault.Cancelled? || reply.fault.Deadline? || reply.fault.Terminal?)
  }

  /** Main result: a call that found an entry never fails with a retryable error, and past the window a
      terminal failure of its flight always surfaces. */
  lemma FoundNeverRetryable(cfg: Config, run: Run, i: nat)
    requires IsRun(cfg, run) && i < |run.acts|
    requires run.acts[i].Return? && Enabled(run.states[i], run.acts[i])
    ensures var s, a := run.states[i], AnswerAt(run, i);
      && (a.seen.Some? && a.reply.Fail? ==> IsTerminal(a.reply))
      && (a.seen.None? ==> a.call.Some?)
      && (a.seen.Some? ==> (a.call.Some? <==> TooStale(cfg, s.readers[run.acts[i].r], a.now, a.seen.value)))
      && (a.call.Some? ==> a.call.value < |s.calls| && s.calls[a.call.value].phase.Closed?)
      && (a.call.Some? && (a.seen.None? || IsTerminal(s.calls[a.call.value].phase.reply)) ==>
            a.reply == s.calls[a.call.value].phase.reply)
  {
    hide Version;
    AlwaysInv(cfg, run, i);
    AnsweredOk(cfg, run.states[i], run.acts[i].r);
    hide Inv, PolicyFor, Window;
  }

  // ---------------------------------------------------------------- concurrency caps

  ghost predicate Refreshes(s: State, r: int) { 0 <= r < |s.readers| && HoldsGuard(s, r) }

  /** Main result: in every state at most one fetch per key is in flight, at most one guard holder or
      refresher per key lives, the guard map names exactly those, and the counter is exact. */
  lemma Caps(cfg: Config, run: Run, i: nat)
    requires IsRun(cfg, run) && i < |run.states|
    ensures var s := run.states[i];
      && (forall c, d :: InFlight(s, c) && InFlight(s, d) && s.calls[c].key == s.calls[d].key ==> c == d)
      && (forall p, q :: Refreshes(s, p) && Refreshes(s, q) && s.readers[p].key == s.readers[q].key ==> p == q)
      && (forall k :: k in s.refreshing <==> exists r :: Refreshes(s, r) && s.readers[r].key == k)
      && s.bgRefreshes == |s.refreshers| + |CountedReaders(s)|
      && |s.entries| <= cfg.maxEntries && Chronological(s.entries)
  {
    AlwaysInv(cfg, run, i);
    ContentsChronological(run.states[i].stores, cfg.maxEntries);
    hide CallOk, ReaderOk, StoreAll, HoldsGuard, Chronological;
    var s := run.states[i];
    forall k | k in s.refreshing ensures exists r :: Refreshes(s, r) && s.readers[r].key == k {
      assert Refreshes(s, s.refreshing[k]) && s.readers[s.refreshing[k]].key == k;
    }
  }

  /** "One upstream call per miss" is not what the code promises: of two readers that both saw a miss, the
      second opens its own call if it reaches singleflight after the first call has closed, although the
      entry is resident and fresh by then. */
  lemma SecondFlight(cfg: Config, s: State, a: nat, b: nat)
    returns (s1: State, s2: State, s3: State, s4: State, t: State)
    requires cfg.maxEntries > 0 && a < |s.readers| && b < |s.readers| && a != b && s.readers[a].key == s.readers[b].key
    requires s.readers[a].phase.AtFlight? && s.readers[b].phase.AtFlight? && s.readers[a].key !in s.open
    ensures var c := |s.calls|;
      && Does(cfg, s, Join(a), s1) && Does(cfg, s1, FetchOk(c), s2) && Does(cfg, s2, StoreCall(c), s3)
      && Does(cfg, s3, CloseCall(c), s4) && Does(cfg, s4, Join(b), t)
      && |t.calls| == c + 2 && t.calls[c + 1].key == s.readers[a].key && t.calls[c + 1].phase.Fetching?
      && t.calls[c].key == s.readers[a].key && t.calls[c].phase.Closed?
      && Lookup(t.entries, s.readers[a].key).Some?
      && exists val :: Entry(s.readers[a].key, val, t.now) in t.entries
  {
    s1, s2, s3, s4 := FirstFlight(cfg, s, a);
    hide StoreStep, Lookup;
    t := Apply(cfg, s4, Join(b));
  }

  ghost predicate Does(cfg: Config, s: State, a: Action, t: State) {
    cfg.maxEntries > 0 && Enabled(s, a) && t == Apply(cfg, s, a)
  }

  lemma FirstFlight(cfg: Config, s: State, a: nat) returns (s1: State, s2: State, s3: State, s4: State)
    requires cfg.maxEntries > 0 && a < |s.readers| && s.readers[a].phase.AtFlight? && s.readers[a].key !in s.open
    ensures var c, key := |s.calls|, s.readers[a].key;
      && Does(cfg, s, Join(a), s1) && Does(cfg, s1, FetchOk(c), s2) && Does(cfg, s2, StoreCall(c), s3)
      && Does(cfg, s3, CloseCall(c), s4)
      && |s4.calls| == c + 1 && key !in s4.open && s4.readers == s1.readers
      && s4.calls[c].key == key && s4.calls[c].phase.Closed?
      && Lookup(s4.entries, key).Some? && exists val :: Entry(key, val, s4.now) in s4.entries
  {
    var c, key := |s.calls|, s.readers[a].key;
    s1 := Apply(cfg, s, Join(a));
    s2 := Apply(cfg, s1, FetchOk(c));
    hide Lookup;
    s3, s4 := StoreAndClose(cfg, s2, c);
  }

  lemma StoreAndClose(cfg: Config, s: State, c: nat) returns (s3: State, s4: State)
    requires cfg.maxEntries > 0 && c < |s.calls| && s.calls[c].phase.Fetched? && s.calls[c].phase.reply.Ok?
    ensures Does(cfg, s, StoreCall(c), s3) && Does(cfg, s3, CloseCall(c), s4)
    ensures |s4.calls| == |s.calls| && s.calls[c].key !in s4.open && s4.readers == s.readers
    ensures s4.calls[c].key == s.calls[c].key && s4.calls[c].phase.Closed?
    ensures Lookup(s4.entries, s.calls[c].key).Some? && exists val :: Entry(s.calls[c].key, val, s4.now) in s4.entries
  {
    s3 := Apply(cfg, s, StoreCall(c));
    s4 := Apply(cfg, s3, CloseCall(c));
    hide StoreStep, Lookup;
    var e := Entry(s.calls[c].key, s.calls[c].phase.reply.val, s.now);
    StoredIsThere(s.entries, e, cfg.maxEntries);
    assert e in s4.entries;
  }

  lemma StoredIsThere(s: seq<Entry>, e: Entry, bound: nat)
    requires bound > 0
    ensures var t := StoreStep(s, e, bound); t != [] && t[|t| - 1] == e && Has(t, e.key) && e in t
  {
    var t := StoreStep(s, e, bound);
    if !Has(s, e.key) {
      NewestLast(s + [e], bound);
    }
    assert t[|t| - 1].key == e.key;
  }

  lemma {:induction false} NewestLast(s: seq<Entry>, n: nat)
    requires s != [] && n > 0
    ensures Newest(s, n) != [] && Newest(s, n)[|Newest(s, n)| - 1] == s[|s| - 1]
  {
    if |s| > n { NewestLast(s[1..], n); }
  }
}
