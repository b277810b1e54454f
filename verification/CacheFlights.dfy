/** When callers share an upstream call (internal/fleet/cache.go, singleflight around fetchStore): exactly while it
    is in flight.
 */
module CacheFlights {
  import opened Options
  import opened Policies
  import opened CacheProtocol
  import opened CacheInvariants
  import opened CacheTheorems

  /** The call a reader, or the refresher of a reader, waits for after it has joined. */
  function CallTaken(t: State, a: Action): (c: Option<nat>)
    requires a.Join? || a.RefreshJoin?
  {
    if a.Join? then
      if a.r < |t.readers| then CallBy(t.readers[a.r].phase) else None
    else if a.r in t.refreshers && t.refreshers[a.r].Joined? then Some(t.refreshers[a.r].call)
    else None
  }

  ghost predicate NoneInFlight(s: State, key: string) {
    forall d :: 0 <= d < |s.calls| && s.calls[d].key == key ==> !InFlight(s, d)
  }

  /** Main result: in every run a reader or a refresher that joins shares a call of its key exactly if that call is in
      flight, and opens a call of its own exactly if there is none. */
  lemma SharedWhileInFlight(cfg: Config, run: Run, i: nat, c: nat)
    requires IsRun(cfg, run) && i < |run.acts| && (run.acts[i].Join? || run.acts[i].RefreshJoin?)
    ensures run.acts[i].r < |run.states[i].readers| && CallTaken(run.states[i + 1], run.acts[i]).Some?
    ensures var s, t, a := run.states[i], run.states[i + 1], run.acts[i];
      && (c < |s.calls| && s.calls[c].key == s.readers[a.r].key ==> (CallTaken(t, a) == Some(c) <==> InFlight(s, c)))
      && (|t.calls| > |s.calls| <==> NoneInFlight(s, s.readers[a.r].key))
  {
    AlwaysInv(cfg, run, i);
    InvFlights(cfg, run.states[i]);
    assert Follows(cfg, run, i);
    hide Inv, IsRun;
    JoinShares(cfg, run.states[i], run.acts[i], c);
  }

  lemma JoinShares(cfg: Config, s: State, a: Action, c: nat)
    requires Enabled(s, a) && cfg.maxEntries > 0 && FlightsOk(s) && (a.Join? || a.RefreshJoin?)
    ensures var t := Apply(cfg, s, a);
      && a.r < |s.readers| && CallTaken(t, a).Some?
      && (c < |s.calls| && s.calls[c].key == s.readers[a.r].key ==> (CallTaken(t, a) == Some(c) <==> InFlight(s, c)))
      && (|t.calls| > |s.calls| <==> NoneInFlight(s, s.readers[a.r].key))
  {
    var key := s.readers[a.r].key;
    if key in s.open {
      assert InFlight(s, s.open[key]);
    }
  }

  // ---------------------------------------------------------------- a run with two calls for two misses

  ghost predicate EndsIn(cfg: Config, run: Run, s: State) { IsRun(cfg, run) && run.states[|run.states| - 1] == s }

  lemma Extend(cfg: Config, run: Run, s: State, a: Action, t: State) returns (more: Run)
    requires EndsIn(cfg, run, s) && Does(cfg, s, a, t)
    ensures EndsIn(cfg, more, t) && more.acts == run.acts + [a]
  {
    hide Apply, Enabled;
    more := Run(run.states + [t], run.acts + [a]);
    forall i | 0 <= i < |more.acts| ensures Follows(cfg, more, i) {
      if i < |run.acts| {
        assert Follows(cfg, run, i);
      }
    }
  }

  lemma Opening(cfg: Config) returns (run: Run)
    requires cfg.maxEntries > 0
    ensures EndsIn(cfg, run, INITIAL) && run.acts == []
  {
    run := Run([INITIAL], []);
  }

  /** Two callers that both looked before anything was stored. */
  function Readers(endpoint: string, key: string, p: Phase, q: Phase): seq<Reader> {
    [Reader(endpoint, key, 0, 0, p), Reader(endpoint, key, 0, 0, q)]
  }

  function Early(readers: seq<Reader>): State { INITIAL.(readers := readers) }

  const MISSED := AtFlight(0, None)

  lemma TwoMisses(cfg: Config, endpoint: string, suffix: string) returns (run: Run)
    requires cfg.maxEntries > 0 && '|' !in endpoint
    ensures EndsIn(cfg, run, Early(Readers(endpoint, MakeKey(endpoint, suffix), MISSED, MISSED)))
    ensures run.acts == [Start(endpoint, suffix), Start(endpoint, suffix), ReadClock(0), ReadClock(1), ReadCache(0),
                         ReadCache(1)]
  {
    hide EndsIn, MakeKey, PolicyFor;
    var key := MakeKey(endpoint, suffix);
    var one := [Reader(endpoint, key, 0, 0, Started)];
    run := Opening(cfg);
    run := Extend(cfg, run, INITIAL, Start(endpoint, suffix), Early(one));
    run := Extend(cfg, run, Early(one), Start(endpoint, suffix), Early(Readers(endpoint, key, Started, Started)));
    run := MoveFirst(cfg, run, endpoint, key, Started, ReadClock(0), Clocked(0), Started);
    run := MoveSecond(cfg, run, endpoint, key, Clocked(0), ReadClock(1), Started, Clocked(0));
    run := MoveFirst(cfg, run, endpoint, key, Clocked(0), ReadCache(0), MISSED, Clocked(0));
    run := MoveSecond(cfg, run, endpoint, key, MISSED, ReadCache(1), Clocked(0), MISSED);
  }

  /** A read of an empty cache moves on: the clock first, then the lookup that misses. */
  predicate Looks(a: Action, r: nat, before: Phase, after: Phase) {
    (a == ReadClock(r) && before == Started && after == Clocked(0)) ||
    (a == ReadCache(r) && before == Clocked(0) && after == MISSED)
  }

  lemma MoveFirst(cfg: Config, run: Run, endpoint: string, key: string, p: Phase, a: Action, p': Phase, q: Phase)
    returns (more: Run)
    requires EndsIn(cfg, run, Early(Readers(endpoint, key, p, q))) && Looks(a, 0, p, p') && cfg.maxEntries > 0
    ensures EndsIn(cfg, more, Early(Readers(endpoint, key, p', q))) && more.acts == run.acts + [a]
  {
    hide EndsIn, PolicyFor;
    var s, t := Early(Readers(endpoint, key, p, q)), Early(Readers(endpoint, key, p', q));
    assert Apply(cfg, s, a).readers == t.readers;
    more := Extend(cfg, run, s, a, t);
  }

  lemma MoveSecond(cfg: Config, run: Run, endpoint: string, key: string, p: Phase, a: Action, q: Phase, q': Phase)
    returns (more: Run)
    requires EndsIn(cfg, run, Early(Readers(endpoint, key, p, q))) && Looks(a, 1, q, q') && cfg.maxEntries > 0
    ensures EndsIn(cfg, more, Early(Readers(endpoint, key, p, q'))) && more.acts == run.acts + [a]
  {
    hide EndsIn, PolicyFor;
    var s, t := Early(Readers(endpoint, key, p, q)), Early(Readers(endpoint, key, p, q'));
    assert Apply(cfg, s, a).readers == t.readers;
    more := Extend(cfg, run, s, a, t);
  }

  /** Main result: there is a run, for every endpoint and key, in which two callers miss together and the second
      still opens an upstream call of its own, the first one's answer being resident by then. */
  lemma SecondFlightRun(cfg: Config, endpoint: string, suffix: string) returns (run: Run, t: State)
    requires cfg.maxEntries > 0 && '|' !in endpoint
    ensures EndsIn(cfg, run, t)
    ensures run.acts == [Start(endpoint, suffix), Start(endpoint, suffix), ReadClock(0), ReadClock(1), ReadCache(0),
                         ReadCache(1), Join(0), FetchOk(0), StoreCall(0), CloseCall(0), Join(1)]
    ensures |t.calls| == 2 && t.calls[0].key == t.calls[1].key == MakeKey(endpoint, suffix)
    ensures t.calls[0].phase.Closed? && t.calls[1].phase.Fetching? && Lookup(t.entries, MakeKey(endpoint, suffix)).Some?
  {
    run := TwoMisses(cfg, endpoint, suffix);
    var s := Early(Readers(endpoint, MakeKey(endpoint, suffix), MISSED, MISSED));
    var s1, s2, s3, s4;
    s1, s2, s3, s4, t := SecondFlight(cfg, s, 0, 1);
    hide Does, EndsIn, MakeKey, Lookup;
    run := Extend(cfg, run, s, Join(0), s1);
    run := Extend(cfg, run, s1, FetchOk(0), s2);
    run := Extend(cfg, run, s2, StoreCall(0), s3);
    run := Extend(cfg, run, s3, CloseCall(0), s4);
    run := Extend(cfg, run, s4, Join(1), t);
  }
}
