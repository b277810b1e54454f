/** Where values come from (internal/fleet/cache.go, fetchStore): whatever is stored or handed out is what the upstream
    had, for that key, at a step of the call that brought it.
 */
module CacheOrigins {
  import opened Options
  import opened Upstream
  import opened Policies
  import opened CacheSpec
  import opened CacheProtocol
  import opened CacheInvariants
  import opened CacheTheorems

  // ---------------------------------------------------------------- what the upstream has

  predicate Publishes(a: Action, key: string) { a.Publish? && a.key == key }

  /** The last step before j that published the key. */
  ghost predicate PublishedAt(run: Run, j: nat, key: string, p: nat) {
    p < j <= |run.acts| && Publishes(run.acts[p], key) && forall q :: p < q < j ==> !Publishes(run.acts[q], key)
  }

  /** The version the upstream has of the key before step j: the last one published, 0 before any was. */
  ghost predicate UpstreamHas(run: Run, j: nat, key: string, version: nat) {
    && j <= |run.acts|
    && ((exists p: nat :: PublishedAt(run, j, key, p) && version == run.acts[p].version) ||
        (version == 0 && forall q :: 0 <= q < j ==> !Publishes(run.acts[q], key)))
  }

  lemma {:induction false} UpstreamIs(cfg: Config, run: Run, j: nat, key: string)
    requires IsRun(cfg, run) && j <= |run.acts|
    ensures UpstreamHas(run, j, key, Version(run.states[j].upstream, key))
  {
    hide Apply;
    if j > 0 {
      UpstreamIs(cfg, run, j - 1, key);
      assert Follows(cfg, run, j - 1);
      UpstreamStep(cfg, run.states[j - 1], run.acts[j - 1], key);
      hide IsRun, Version;
      if Publishes(run.acts[j - 1], key) {
        assert PublishedAt(run, j, key, j - 1);
      } else if p: nat :| PublishedAt(run, j - 1, key, p) &&
                          Version(run.states[j - 1].upstream, key) == run.acts[p].version {
        assert PublishedAt(run, j, key, p);
      }
    }
  }

  lemma UpstreamStep(cfg: Config, s: State, a: Action, key: string)
    requires Enabled(s, a) && cfg.maxEntries > 0
    ensures Version(Apply(cfg, s, a).upstream, key) ==
            if Publishes(a, key) then a.version else Version(s.upstream, key)
  {
    hide PolicyFor, Lookup, StoreStep, Decide, MakeKey, Resolve;
  }

  // ---------------------------------------------------------------- calls

  /** At step j call c, which was of this key and had no outcome yet, met it: a version the upstream had then, or
      the fault. */
  ghost predicate FetchedAt(run: Run, j: nat, c: nat, key: string, reply: Reply) {
    && j < |run.acts| < |run.states| && c < |run.states[j].calls|
    && run.states[j].calls[c].key == key && run.states[j].calls[c].phase.Fetching?
    && (if reply.Ok? then
          run.acts[j] == FetchOk(c) && reply.val.endpoint == EndpointOf(key) &&
          UpstreamHas(run, j, key, reply.val.version)
        else run.acts[j] == FetchFail(c, reply.fault))
  }

  /** Only its fetch gives a call an outcome. */
  lemma OutcomeStep(cfg: Config, s: State, a: Action, c: nat)
    requires Enabled(s, a) && cfg.maxEntries > 0 && c < |Apply(cfg, s, a).calls|
    requires ReplyOf(Apply(cfg, s, a).calls[c]).Some? && (c < |s.calls| ==> ReplyOf(s.calls[c]).None?)
    ensures var call := Apply(cfg, s, a).calls[c];
      && c < |s.calls| && s.calls[c].phase.Fetching? && s.calls[c].key == call.key
      && match ReplyOf(call).value
         case Ok(val) => a == FetchOk(c) && val == Payload(s.calls[c].endpoint, Version(s.upstream, call.key))
         case Fail(fault) => a == FetchFail(c, fault)
  {
    hide StoreStep;
    if !Flies(a) {
      CallsKept(cfg, s, a);
      hide Apply;
    } else if a.Join? || a.RefreshJoin? {
      CallsJoined(cfg, s, a);
      hide Apply;
    }
  }

  /** Main result: whatever outcome a call has in any state of any run, it met it at an earlier step of its own. */
  lemma {:induction false} CallWasFetched(cfg: Config, run: Run, i: nat, c: nat) returns (j: nat)
    requires IsRun(cfg, run) && i < |run.states| && c < |run.states[i].calls|
    requires ReplyOf(run.states[i].calls[c]).Some?
    ensures j < i && FetchedAt(run, j, c, run.states[i].calls[c].key, ReplyOf(run.states[i].calls[c]).value)
  {
    hide Apply, Inv, ReplyOf, CallGrows, FetchedAt;
    assert i > 0;
    var s, a := run.states[i - 1], run.acts[i - 1];
    assert Follows(cfg, run, i - 1);
    AlwaysInv(cfg, run, i - 1);
    StepGrows(cfg, s, a);
    if c < |s.calls| && ReplyOf(s.calls[c]).Some? {
      j := CallWasFetched(cfg, run, i - 1, c);
      SameOutcome(s, s.calls[c], run.states[i].calls[c]);
    } else {
      j := i - 1;
      OutcomeStep(cfg, s, a, c);
      Met(cfg, run, j, c);
    }
  }

  lemma SameOutcome(s: State, a: Call, b: Call)
    requires CallGrows(s, a, b) && ReplyOf(a).Some?
    ensures b.key == a.key && ReplyOf(b) == ReplyOf(a)
  {}

  lemma Met(cfg: Config, run: Run, j: nat, c: nat)
    requires IsRun(cfg, run) && j < |run.acts| && c < |run.states[j].calls| && run.states[j].calls[c].phase.Fetching?
    ensures var call := run.states[j].calls[c];
      && (run.acts[j] == FetchOk(c) ==>
            FetchedAt(run, j, c, call.key, Ok(Payload(call.endpoint, Version(run.states[j].upstream, call.key)))))
      && (run.acts[j].FetchFail? && run.acts[j].c == c ==> FetchedAt(run, j, c, call.key, Fail(run.acts[j].fault)))
  {
    var call := run.states[j].calls[c];
    UpstreamIs(cfg, run, j, call.key);
    AlwaysInv(cfg, run, j);
    assert CallOk(run.states[j], call);
    hide IsRun, UpstreamHas, EndpointOf, Version, StoresOk, ReaderOk, GuardsOk;
  }

  // ---------------------------------------------------------------- stores

  /** At step k call c stored this entry, with the clock of that step. */
  ghost predicate StoredAt(run: Run, k: nat, c: nat, e: Entry) {
    && k < |run.acts| < |run.states| && run.acts[k] == StoreCall(c) && c < |run.states[k].calls|
    && run.states[k].calls[c].key == e.key && run.states[k].now == e.fetchedAt
  }

  lemma StoreOfStep(cfg: Config, s: State, a: Action, e: Entry)
    requires Enabled(s, a) && cfg.maxEntries > 0 && e in Apply(cfg, s, a).stores && e !in s.stores
    ensures a.StoreCall? && a.c < |s.calls| && e.key == s.calls[a.c].key && e.fetchedAt == s.now
    ensures ReplyOf(s.calls[a.c]) == Some(Ok(e.val))
  {
    if !a.StoreCall? {
      CacheKept(cfg, s, a);
    }
    hide StoreStep;
  }

  /** Main result: every entry ever stored was fetched and then stored by one call, which read the clock as it did. */
  lemma {:induction false} StoreWasFetched(cfg: Config, run: Run, i: nat, e: Entry) returns (j: nat, k: nat, c: nat)
    requires IsRun(cfg, run) && i < |run.states| && e in run.states[i].stores
    ensures j < k < i && FetchedAt(run, j, c, e.key, Ok(e.val)) && StoredAt(run, k, c, e)
  {
    hide Apply, ReplyOf, FetchedAt;
    assert i > 0;
    var s, a := run.states[i - 1], run.acts[i - 1];
    assert Follows(cfg, run, i - 1);
    if e in s.stores {
      j, k, c := StoreWasFetched(cfg, run, i - 1, e);
    } else {
      StoreOfStep(cfg, s, a, e);
      k, c := i - 1, a.c;
      j := CallWasFetched(cfg, run, k, c);
    }
  }

  // ---------------------------------------------------------------- answers

  /** Main result: every outcome handed out by any read of any run is one that a call of that key met upstream; a value
      from the cache is that of the store whose age decided, and an error is the one met. */
  lemma AnswerWasFetched(cfg: Config, run: Run, i: nat) returns (j: nat, c: nat)
    requires IsRun(cfg, run) && i < |run.acts| && run.acts[i].Return? && Enabled(run.states[i], run.acts[i])
    ensures j < i && FetchedAt(run, j, c, run.states[i].readers[run.acts[i].r].key, AnswerAt(run, i).reply)
    ensures var a := AnswerAt(run, i);
            a.call.None? ==> a.seen.Some? && exists k: nat :: j < k < i && StoredAt(run, k, c, a.seen.value)
  {
    hide Apply, FetchedAt, StoredAt;
    var s, r := run.states[i], run.acts[i].r;
    AlwaysInv(cfg, run, i);
    AnsweredOk(cfg, s, r);
    var a := s.readers[r].phase.answer;
    hide Inv, TooStale, ClockOk, IsRun;
    if a.call.Some? && s.calls[a.call.value].phase.reply == a.reply {
      c := a.call.value;
      j := CallWasFetched(cfg, run, i, c);
    } else {
      var k;
      j, k, c := StoreWasFetched(cfg, run, i, a.seen.value);
    }
  }
}
