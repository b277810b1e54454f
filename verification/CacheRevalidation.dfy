/** Stale-while-revalidate by age (internal/fleet/cache.go): how old an entry may be to be served, when that takes a
    refresh, and that upstream calls are made only with a reason.
 */
module CacheRevalidation {
  import opened Options
  import opened Upstream
  import opened Policies
  import opened CacheSpec
  import opened CacheProtocol
  import opened CacheInvariants
  import opened CacheTheorems

  /** Metadata and single events may be twelve times as old as live data. */
  function Scale(endpoint: string): int {
    if endpoint == "meta" || endpoint == "policy_meta" || endpoint == "event_by_id" then 12 else 1
  }

  lemma PolicyScales(cfg: Config, endpoint: string)
    ensures PolicyFor(cfg, endpoint).ttl == Scale(endpoint) * cfg.ttl
    ensures PolicyFor(cfg, endpoint).maxStale == Scale(endpoint) * cfg.maxStale
  {}

  /** Past the TTL at the instant the reader took. */
  predicate Aged(cfg: Config, endpoint: string, now: int, e: Entry) {
    now - e.fetchedAt >= Scale(endpoint) * cfg.ttl
  }

  /** Too old even for serving while a refresh runs. */
  predicate Expired(cfg: Config, endpoint: string, now: int, e: Entry) {
    now - e.fetchedAt >= Scale(endpoint) * cfg.maxStale
  }

  /** What was served was past its TTL, straight from the cache. */
  predicate ServedAged(cfg: Config, rd: Reader) {
    (rd.phase.Answered? || rd.phase.Returned?) &&
    rd.phase.answer.call.None? && rd.phase.answer.seen.Some? &&
    Aged(cfg, rd.endpoint, rd.phase.answer.now, rd.phase.answer.seen.value)
  }

  /** Readers on their way to the guard or to a flight saw nothing, or an entry past its TTL. */
  predicate HasReason(cfg: Config, rd: Reader) {
    match rd.phase
    case AtGuard(now, e) => Aged(cfg, rd.endpoint, now, e)
    case Claimed(now, e) => Aged(cfg, rd.endpoint, now, e)
    case Counted(now, e) => Aged(cfg, rd.endpoint, now, e)
    case AtFlight(now, seen) => seen.Some? ==> Aged(cfg, rd.endpoint, now, seen.value)
    case _ => true
  }

  ghost predicate AllReasons(cfg: Config, s: State) {
    && (forall r :: 0 <= r < |s.readers| ==> HasReason(cfg, s.readers[r]))
    && (forall r :: r in s.refreshers ==> r < |s.readers| && ServedAged(cfg, s.readers[r]))
  }

  lemma StepReasons(cfg: Config, s: State, a: Action)
    requires AllReasons(cfg, s) && Enabled(s, a) && cfg.maxEntries > 0
    ensures AllReasons(cfg, Apply(cfg, s, a))
  {
    hide Apply, HasReason, ServedAged;
    var t := Apply(cfg, s, a);
    forall r | 0 <= r < |t.readers| ensures HasReason(cfg, t.readers[r]) {
      ReaderReason(cfg, s, a, r);
    }
    forall r | r in t.refreshers ensures r < |t.readers| && ServedAged(cfg, t.readers[r]) {
      RefresherReason(cfg, s, a, r);
    }
  }

  lemma ReaderReason(cfg: Config, s: State, a: Action, r: nat)
    requires Enabled(s, a) && cfg.maxEntries > 0 && r < |Apply(cfg, s, a).readers|
    requires r < |s.readers| ==> HasReason(cfg, s.readers[r])
    ensures HasReason(cfg, Apply(cfg, s, a).readers[r])
  {
    if r < |s.readers| {
      PolicyScales(cfg, s.readers[r].endpoint);
    }
    hide Apply, PolicyFor, Lookup, Open, Resolve, Scale;
    if Moves(a, r) {
      MoverGoes(cfg, s, a, r);
    } else {
      OthersStay(cfg, s, a, r);
    }
  }

  lemma RefresherReason(cfg: Config, s: State, a: Action, r: nat)
    requires Enabled(s, a) && cfg.maxEntries > 0 && r in Apply(cfg, s, a).refreshers
    requires r in s.refreshers ==> r < |s.readers| && ServedAged(cfg, s.readers[r])
    requires r < |s.readers| ==> HasReason(cfg, s.readers[r])
    ensures r < |Apply(cfg, s, a).readers| && ServedAged(cfg, Apply(cfg, s, a).readers[r])
  {
    hide Apply, PolicyFor, Lookup, Open, Resolve, Scale;
    RefresherFrom(cfg, s, a, r);
    if Moves(a, r) {
      MoverGoes(cfg, s, a, r);
    } else {
      OthersStay(cfg, s, a, r);
    }
  }

  lemma RefresherFrom(cfg: Config, s: State, a: Action, r: nat)
    requires Enabled(s, a) && cfg.maxEntries > 0 && r in Apply(cfg, s, a).refreshers
    ensures r in s.refreshers || a == Spawn(r)
    ensures |Apply(cfg, s, a).readers| >= |s.readers|
  {
    hide PolicyFor, Lookup, StoreStep, MakeKey, Decide;
  }

  lemma {:induction false} AlwaysReasons(cfg: Config, run: Run, i: nat)
    requires IsRun(cfg, run) && i < |run.states|
    ensures AllReasons(cfg, run.states[i])
  {
    hide Apply, HasReason, ServedAged;
    if i == 0 {
    } else {
      AlwaysReasons(cfg, run, i - 1);
      assert Follows(cfg, run, i - 1);
      StepReasons(cfg, run.states[i - 1], run.acts[i - 1]);
    }
  }

  /** Main result: a step that opens an upstream call is taken for a reader that found nothing or an entry past
      its TTL; a fresh entry never costs a call. */
  lemma OnlyNeededCalls(cfg: Config, run: Run, i: nat)
    requires IsRun(cfg, run) && i < |run.acts| && |run.states[i + 1].calls| > |run.states[i].calls|
    ensures var s, a := run.states[i], run.acts[i];
      && (a.Join? || a.RefreshJoin?) && a.r < |s.readers|
      && (a.Join? ==> s.readers[a.r].phase.AtFlight? && HasReason(cfg, s.readers[a.r]))
      && (a.RefreshJoin? ==> ServedAged(cfg, s.readers[a.r]))
  {
    hide Apply, HasReason, ServedAged;
    AlwaysReasons(cfg, run, i);
    assert Follows(cfg, run, i);
    Opener(cfg, run.states[i], run.acts[i]);
  }

  lemma Opener(cfg: Config, s: State, a: Action)
    requires Enabled(s, a) && cfg.maxEntries > 0 && |Apply(cfg, s, a).calls| > |s.calls|
    ensures (a.Join? || a.RefreshJoin?) && a.r < |s.readers|
    ensures a.Join? ==> s.readers[a.r].phase.AtFlight?
    ensures a.RefreshJoin? ==> a.r in s.refreshers
  {
    hide PolicyFor, Lookup, StoreStep, MakeKey;
  }

  /** Straight after the lookup only fresh answers are given. */
  lemma LooksFresh(cfg: Config, s: State, moved: nat, r: nat)
    requires Enabled(s, ReadCache(moved)) && cfg.maxEntries > 0 && r < |Apply(cfg, s, ReadCache(moved)).readers|
    requires r < |s.readers| ==> !ServedAged(cfg, s.readers[r])
    ensures !ServedAged(cfg, Apply(cfg, s, ReadCache(moved)).readers[r])
  {
    PolicyScales(cfg, s.readers[moved].endpoint);
    hide PolicyFor, Lookup, Scale;
  }

  lemma BecomesAged(cfg: Config, s: State, a: Action, r: nat)
    requires Enabled(s, a) && cfg.maxEntries > 0 && !a.ReadCache?
    requires r < |Apply(cfg, s, a).readers| && ServedAged(cfg, Apply(cfg, s, a).readers[r])
    requires r < |s.readers| ==> !ServedAged(cfg, s.readers[r])
    ensures r < |s.readers| && Apply(cfg, s, a).readers[r].key == s.readers[r].key
    ensures s.readers[r].key in s.refreshing || s.readers[r].phase.Counted?
  {
    hide Apply, PolicyFor, Lookup, Open, Resolve, Scale;
    if Moves(a, r) {
      MoverGoes(cfg, s, a, r);
    } else {
      OthersStay(cfg, s, a, r);
    }
  }

  lemma InvGuards(cfg: Config, s: State)
    requires Inv(cfg, s)
    ensures GuardsOk(s) && RefreshersOk(s)
  {
    hide GuardsOk, RefreshersOk;
  }

  // ---------------------------------------------------------------- by age

  /** Where a lookup leads: fresh answers at once, stale ones to the refresh guard, all else to a flight. */
  lemma LookupByAge(cfg: Config, s: State, r: nat)
    requires Enabled(s, ReadCache(r)) && cfg.maxEntries > 0
    ensures var t, rd := Apply(cfg, s, ReadCache(r)), s.readers[r];
      var seen, now, next := Lookup(s.entries, rd.key), rd.phase.now, t.readers[r].phase;
      && (seen.None? ==> next == AtFlight(now, None))
      && (seen.Some? && !Aged(cfg, rd.endpoint, now, seen.value) ==>
            next == Answered(Answer(now, seen, None, Ok(seen.value.val))))
      && (seen.Some? && Aged(cfg, rd.endpoint, now, seen.value) && !Expired(cfg, rd.endpoint, now, seen.value) ==>
            next == AtGuard(now, seen.value))
      && (seen.Some? && Aged(cfg, rd.endpoint, now, seen.value) && Expired(cfg, rd.endpoint, now, seen.value) ==>
            next == AtFlight(now, seen))
  {
    PolicyScales(cfg, s.readers[r].endpoint);
    hide PolicyFor, Lookup, Scale;
  }

  lemma TooStaleScales(cfg: Config, rd: Reader, now: int, e: Entry)
    ensures TooStale(cfg, rd, now, e) <==> Aged(cfg, rd.endpoint, now, e) && Expired(cfg, rd.endpoint, now, e)
  {
    PolicyScales(cfg, rd.endpoint);
    hide PolicyFor, Scale;
  }

  /** At step j, before the read of r answered, another read held the refresh guard of the key, or its refresher did. */
  ghost predicate OtherRefreshes(cfg: Config, run: Run, j: nat, r: nat, q: nat, key: string) {
    && j < |run.states| && r < |run.states[j].readers| && !ServedAged(cfg, run.states[j].readers[r])
    && q != r && Refreshes(run.states[j], q) && run.states[j].readers[q].key == key
  }

  /** The read has started a refresh of its own, or another one was under way while it ran. */
  ghost predicate Refreshed(cfg: Config, run: Run, i: nat, r: nat, key: string)
    requires i < |run.states|
  {
    r in run.states[i].refreshers || exists j: nat, q: nat :: j < i && OtherRefreshes(cfg, run, j, r, q, key)
  }

  lemma StaysRefreshed(cfg: Config, s: State, a: Action)
    requires Enabled(s, a) && cfg.maxEntries > 0
    ensures s.refreshers.Keys <= Apply(cfg, s, a).refreshers.Keys
  {
    hide PolicyFor, Lookup, StoreStep, MakeKey, Decide, Resolve;
  }

  /** What leaves a reader with an aged answer: its own refresh started, or another holder of the guard. */
  lemma AgedBy(cfg: Config, s: State, a: Action, r: nat) returns (q: nat)
    requires Enabled(s, a) && cfg.maxEntries > 0 && GuardsOk(s) && RefreshersOk(s)
    requires r < |Apply(cfg, s, a).readers| && ServedAged(cfg, Apply(cfg, s, a).readers[r])
    requires r < |s.readers| ==> !ServedAged(cfg, s.readers[r])
    ensures r < |s.readers|
    ensures r in Apply(cfg, s, a).refreshers || (q != r && Refreshes(s, q) && s.readers[q].key == s.readers[r].key)
  {
    q := 0;
    if a.ReadCache? {
      LooksFresh(cfg, s, a.r, r);
      assert false;
    } else {
      BecomesAged(cfg, s, a, r);
      AgedMover(cfg, s, a, r);
      if a == TryClaim(r) {
        q := s.refreshing[s.readers[r].key];
      }
      hide Apply, ServedAged;
    }
  }

  lemma AgedMover(cfg: Config, s: State, a: Action, r: nat)
    requires Enabled(s, a) && cfg.maxEntries > 0 && !a.ReadCache? && r < |s.readers|
    requires ServedAged(cfg, Apply(cfg, s, a).readers[r]) && !ServedAged(cfg, s.readers[r])
    ensures || (a == TryClaim(r) && s.readers[r].key in s.refreshing)
            || (a == Spawn(r) && r in Apply(cfg, s, a).refreshers)
  {
    if a == Spawn(r) {
      SpawnStarts(cfg, s, r);
    }
    hide Apply, ServedAged, NextPhase;
    if Moves(a, r) {
      MoverGoes(cfg, s, a, r);
      AgedNext(cfg, s, a, r);
    } else {
      OthersStay(cfg, s, a, r);
    }
  }

  lemma AgedNext(cfg: Config, s: State, a: Action, r: nat)
    requires Enabled(s, a) && Moves(a, r) && !a.ReadCache? && r < |s.readers| && !ServedAged(cfg, s.readers[r])
    requires ServedAged(cfg, s.readers[r].(phase := NextPhase(cfg, s, a, r)))
    ensures a == Spawn(r) || (a == TryClaim(r) && s.readers[r].key in s.refreshing)
  {
    hide PolicyFor, Lookup, Open, Resolve, Scale;
  }

  lemma SpawnStarts(cfg: Config, s: State, r: nat)
    requires Enabled(s, Spawn(r)) && cfg.maxEntries > 0
    ensures r in Apply(cfg, s, Spawn(r)).refreshers
  {}

  /** Main result: an answer past its TTL is given only by a read that has started a refresh of its key, or while which
      another read's refresh was under way. */
  lemma {:induction false} AgedMeansRefreshed(cfg: Config, run: Run, i: nat, r: nat)
    requires IsRun(cfg, run) && i < |run.states| && r < |run.states[i].readers|
    requires ServedAged(cfg, run.states[i].readers[r])
    ensures Refreshed(cfg, run, i, r, run.states[i].readers[r].key)
  {
    hide Apply, ServedAged, Inv, Refreshes;
    assert i > 0;
    var s, a := run.states[i - 1], run.acts[i - 1];
    assert Follows(cfg, run, i - 1);
    AlwaysInv(cfg, run, i - 1);
    StepContinues(cfg, s, a);
    StaysRefreshed(cfg, s, a);
    if r < |s.readers| && ServedAged(cfg, s.readers[r]) {
      AgedMeansRefreshed(cfg, run, i - 1, r);
    } else {
      InvGuards(cfg, s);
      var q := AgedBy(cfg, s, a, r);
      if r !in run.states[i].refreshers {
        assert OtherRefreshes(cfg, run, i - 1, r, q, run.states[i].readers[r].key);
      }
    }
  }

  /** Main result: every read of every run answers by the age, in terms of the two settings, of what it found: below the
      TTL with that, and without a refresh; from there to MaxStale with that, while a refresh of the key is under way;
      else, or if it found nothing, with what came of a call it joined. */
  lemma AnswersByAge(cfg: Config, run: Run, i: nat)
    requires IsRun(cfg, run) && i < |run.acts| && run.acts[i].Return? && Enabled(run.states[i], run.acts[i])
    ensures var r, a := run.acts[i].r, AnswerAt(run, i);
      var rd, e := run.states[i].readers[r], a.seen;
      && (exists j: nat :: j < i && FoundAt(run, j, r, e))
      && (e.None? ==> a.call.Some?)
      && (e.Some? ==> (a.call.Some? <==>
                         Aged(cfg, rd.endpoint, a.now, e.value) && Expired(cfg, rd.endpoint, a.now, e.value)))
      && (e.Some? && a.call.None? ==> a.reply == Ok(e.value.val))
      && (e.Some? && !Aged(cfg, rd.endpoint, a.now, e.value) ==> r !in run.states[i].refreshers)
      && (e.Some? && a.call.None? && Aged(cfg, rd.endpoint, a.now, e.value) ==>
            Refreshed(cfg, run, i, r, rd.key))
  {
    hide Apply, Inv, FoundAt, Scale;
    var s, r := run.states[i], run.acts[i].r;
    var rd, a := s.readers[r], s.readers[r].phase.answer;
    var found := SeenWasResident(cfg, run, i, r);
    AlwaysReasons(cfg, run, i);
    AlwaysInv(cfg, run, i);
    AnsweredOk(cfg, s, r);
    hide AllReasons, Follows;
    if a.seen.Some? {
      TooStaleScales(cfg, rd, a.now, a.seen.value);
      FreshAlone(cfg, s, r);
      if a.call.None? && Aged(cfg, rd.endpoint, a.now, a.seen.value) {
        AgedMeansRefreshed(cfg, run, i, r);
      }
    }
    hide TooStale, SeenOk, ClockOk, CallSeenOk;
  }

  lemma FreshAlone(cfg: Config, s: State, r: nat)
    requires AllReasons(cfg, s) && r < |s.readers|
    ensures r in s.refreshers ==> ServedAged(cfg, s.readers[r])
  {
    hide ServedAged, HasReason;
  }
}
