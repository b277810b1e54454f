/** Outages (internal/fleet/cache.go): while every upstream call fails transiently, whatever stays resident keeps
    answering with the same value.
 */
module CacheOutage {
  import opened Options
  import opened Upstream
  import opened Policies
  import opened CacheSpec
  import opened CacheProtocol
  import opened CacheInvariants
  import opened CacheTheorems

  /** No upstream call succeeds, and those that fail do so transiently. */
  predicate OutageAct(a: Action) { !a.FetchOk? && (a.FetchFail? ==> Retryable(a.fault)) }

  /** From one state of a run to another only outage steps happen. */
  ghost predicate Outage(cfg: Config, run: Run, from: nat, i: nat) {
    IsRun(cfg, run) && from <= i < |run.states| && forall j :: from <= j < i ==> OutageAct(run.acts[j])
  }

  // ---------------------------------------------------------------- what an outage can still store

  /** A call with a success that is still to be stored. */
  predicate Holds(c: Call) { c.phase.Fetched? && c.phase.reply.Ok? }

  ghost function PendingKeys(s: State): set<string> {
    set c | 0 <= c < |s.calls| && Holds(s.calls[c]) :: s.calls[c].key
  }

  /** Only successes that were pending when the outage began are stored, or still pending. */
  ghost predicate Extends(base: State, s: State) {
    && |base.stores| <= |s.stores| && s.stores[..|base.stores|] == base.stores
    && (forall j :: |base.stores| <= j < |s.stores| ==> s.stores[j].key in PendingKeys(base))
    && (forall c :: 0 <= c < |s.calls| && Holds(s.calls[c]) ==> s.calls[c].key in PendingKeys(base))
  }

  lemma StoresExtend(cfg: Config, base: State, s: State, a: Action)
    requires Extends(base, s) && Enabled(s, a) && OutageAct(a) && cfg.maxEntries > 0
    ensures Extends(base, Apply(cfg, s, a))
  {
    hide PendingKeys;
    if a.StoreCall? {
      hide StoreStep;
      assert Holds(s.calls[a.c]);
    } else {
      CacheKept(cfg, s, a);
      HoldersStay(cfg, s, a);
      hide Apply;
    }
  }

  /** Without a successful fetch no call comes to hold a success. */
  lemma HoldersStay(cfg: Config, s: State, a: Action)
    requires Enabled(s, a) && OutageAct(a) && cfg.maxEntries > 0 && !a.StoreCall?
    ensures var t := Apply(cfg, s, a);
      |s.calls| <= |t.calls| && forall c :: 0 <= c < |t.calls| && Holds(t.calls[c]) ==>
        c < |s.calls| && Holds(s.calls[c]) && t.calls[c].key == s.calls[c].key
  {
    if !Flies(a) {
      CallsKept(cfg, s, a);
      hide Apply;
    } else if a.Join? || a.RefreshJoin? {
      CallsJoined(cfg, s, a);
      hide Apply;
    }
  }

  lemma {:induction false} OutageExtends(cfg: Config, run: Run, from: nat, i: nat)
    requires Outage(cfg, run, from, i)
    ensures Extends(run.states[from], run.states[i])
  {
    hide Apply, Extends, OutageAct;
    if i == from {
      ExtendsItself(run.states[from]);
    } else {
      OutageExtends(cfg, run, from, i - 1);
      assert Follows(cfg, run, i - 1);
      StoresExtend(cfg, run.states[from], run.states[i - 1], run.acts[i - 1]);
    }
  }

  lemma ExtendsItself(s: State)
    ensures Extends(s, s)
  {}

  // ---------------------------------------------------------------- when an entry is safe

  predicate CalmReply(e: Entry, reply: Reply) {
    if reply.Ok? then reply.val == e.val else Retryable(reply.fault)
  }

  /** What calls of e's key have fetched and still have to store or show is e's value or a transient failure. */
  ghost predicate Settled(s: State, e: Entry) {
    forall c :: 0 <= c < |s.calls| && s.calls[c].key == e.key && s.calls[c].phase.Fetched? ==>
      CalmReply(e, s.calls[c].phase.reply)
  }

  /** The other keys that are stored behind position at, or have a success that can be. */
  ghost function Rivals(s: State, at: nat): set<string>
    requires at < |s.stores|
  {
    (LaterKeys(s.stores, at) + PendingKeys(s)) - {s.stores[at].key}
  }

  /** The last store of its key stays within the bound even when everything pending is stored behind it. */
  ghost predicate Room(cfg: Config, s: State, at: nat) {
    IsLastStore(s.stores, at) && |Rivals(s, at)| < cfg.maxEntries
  }

  /** What has been stored since for e's key is e's value again. */
  ghost predicate Restores(base: State, s: State, e: Entry) {
    && |base.stores| <= |s.stores| && Settled(s, e)
    && (forall j :: |base.stores| <= j < |s.stores| && s.stores[j].key == e.key ==> s.stores[j].val == e.val)
  }

  lemma StepRestores(cfg: Config, base: State, s: State, a: Action, e: Entry)
    requires Restores(base, s, e) && Enabled(s, a) && OutageAct(a) && cfg.maxEntries > 0
    ensures Restores(base, Apply(cfg, s, a), e)
  {
    if a.StoreCall? {
      StoreRestores(cfg, base, s, a.c, e);
      hide *;
    } else {
      CacheKept(cfg, s, a);
      FetchedStay(cfg, s, a);
      hide Apply;
    }
  }

  lemma StoreRestores(cfg: Config, base: State, s: State, c: nat, e: Entry)
    requires Restores(base, s, e) && Enabled(s, StoreCall(c)) && cfg.maxEntries > 0
    ensures Restores(base, Apply(cfg, s, StoreCall(c)), e)
  {
    hide StoreStep;
    assert s.calls[c].key == e.key ==> CalmReply(e, s.calls[c].phase.reply);
  }

  /** In an outage what is fetched is a transient failure. */
  lemma FetchedStay(cfg: Config, s: State, a: Action)
    requires Enabled(s, a) && OutageAct(a) && cfg.maxEntries > 0 && !a.StoreCall?
    ensures var t := Apply(cfg, s, a); forall c :: 0 <= c < |t.calls| && t.calls[c].phase.Fetched? ==>
        (c < |s.calls| && t.calls[c] == s.calls[c]) ||
        (t.calls[c].phase.reply.Fail? && Retryable(t.calls[c].phase.reply.fault))
  {
    if !Flies(a) {
      CallsKept(cfg, s, a);
      hide Apply;
    } else if a.Join? || a.RefreshJoin? {
      CallsJoined(cfg, s, a);
      hide Apply;
    }
  }

  lemma {:induction false} OutageRestores(cfg: Config, run: Run, from: nat, i: nat, e: Entry)
    requires Outage(cfg, run, from, i) && Settled(run.states[from], e)
    ensures Restores(run.states[from], run.states[i], e)
  {
    hide Apply, Settled, OutageAct;
    if from < i {
      OutageRestores(cfg, run, from, i - 1, e);
      assert Follows(cfg, run, i - 1);
      hide Restores;
      StepRestores(cfg, run.states[from], run.states[i - 1], run.acts[i - 1], e);
    }
  }

  lemma {:induction false} LastFrom(history: seq<Entry>, i: nat) returns (last: nat)
    requires i < |history|
    ensures i <= last && IsLastStore(history, last) && history[last].key == history[i].key
    decreases |history| - i
  {
    last := i;
    if !IsLastStore(history, i) {
      var j :| i < j < |history| && history[j].key == history[i].key;
      last := LastFrom(history, j);
    }
  }

  /** The key's last store shows the same value, with none but the rivals behind it. */
  lemma StaysLast(base: State, s: State, at: nat) returns (last: nat)
    requires IsLastStore(base.stores, at) && Extends(base, s) && Restores(base, s, base.stores[at])
    ensures var e := base.stores[at];
      && IsLastStore(s.stores, last) && s.stores[last].key == e.key && s.stores[last].val == e.val
      && LaterKeys(s.stores, last) <= Rivals(base, at)
      && (e.key !in PendingKeys(base) ==> last == at && s.stores[last] == e)
  {
    hide PendingKeys, Settled;
    var n := |base.stores|;
    forall j | 0 <= j < n ensures s.stores[j] == base.stores[j] {
      assert s.stores[..n][j] == base.stores[j];
    }
    last := LastFrom(s.stores, at);
  }

  /** Main result: in an outage the last store of a settled key shows the same value all along, and is resident exactly
      while fewer than bound distinct other keys have been stored after it; only keys with a success pending at the
      start can be added to those. */
  lemma OutageResident(cfg: Config, run: Run, from: nat, i: nat, at: nat) returns (last: nat)
    requires Outage(cfg, run, from, i)
    requires IsLastStore(run.states[from].stores, at)
    requires Settled(run.states[from], run.states[from].stores[at])
    ensures var base, s := run.states[from], run.states[i];
      var e := base.stores[at];
      && IsLastStore(s.stores, last) && s.stores[last].key == e.key && s.stores[last].val == e.val
      && (s.stores[last] in s.entries <==> |LaterKeys(s.stores, last)| < cfg.maxEntries)
      && LaterKeys(s.stores, last) <= Rivals(base, at)
      && (Room(cfg, base, at) ==> s.stores[last] in s.entries)
      && (e.key !in PendingKeys(base) ==> last == at && s.stores[last] == e)
  {
    var base, s := run.states[from], run.states[i];
    OutageExtends(cfg, run, from, i);
    OutageRestores(cfg, run, from, i, base.stores[at]);
    last := StaysLast(base, s, at);
    InvStores(cfg, run, i);
    hide Extends, Restores, PendingKeys, LaterKeys, IsLastStore, Settled, IsRun, Rivals;
    ResidentIff(s.stores, cfg.maxEntries, last);
    SmallerSet(LaterKeys(s.stores, last), Rivals(base, at));
  }

  lemma InvStores(cfg: Config, run: Run, i: nat)
    requires IsRun(cfg, run) && i < |run.states|
    ensures cfg.maxEntries > 0 && run.states[i].entries == StoreAll(run.states[i].stores, cfg.maxEntries)
  {
    AlwaysInv(cfg, run, i);
    hide IsRun, CallOk, ReaderOk, GuardsOk, StoreAll;
  }

  lemma SmallerSet(a: set<string>, b: set<string>)
    requires a <= b
    ensures |a| <= |b|
  {
    assert b == a + (b - a);
  }

  // ---------------------------------------------------------------- what readers of one resident entry get

  /** A call of the entry's key that was not over when the outage began brings nothing else. */
  predicate CalmCall(base: State, e: Entry, c: nat, call: Call) {
    !IsClosed(base, c) && call.key == e.key && ReplyOf(call).Some? ==> CalmReply(e, ReplyOf(call).value)
  }

  /** The entry of the same key and value, whenever it was stored. */
  predicate Shows(e: Entry, x: Entry) { x.key == e.key && x.val == e.val }

  predicate ShowsSome(e: Entry, seen: Option<Entry>) { seen.Some? && Shows(e, seen.value) }

  /** A reader of the outage that can only end with the entry's value. */
  predicate CalmReader(base: State, s: State, e: Entry, rd: Reader) {
    rd.key == e.key ==>
      match rd.phase
      case AtGuard(_, x) => Shows(e, x)
      case Claimed(_, x) => Shows(e, x)
      case Counted(_, x) => Shows(e, x)
      case AtFlight(_, seen) => ShowsSome(e, seen)
      case Waiting(_, seen, c) => ShowsSome(e, seen) && c < |s.calls| && s.calls[c].key == e.key && !IsClosed(base, c)
      case Answered(a) => a.reply == Ok(e.val)
      case Returned(a) => a.reply == Ok(e.val)
      case _ => true
  }

  ghost predicate Calm(base: State, s: State, e: Entry) {
    && |base.readers| <= |s.readers|
    && (forall c: nat :: IsClosed(base, c) ==> IsClosed(s, c))
    && (forall c :: 0 <= c < |s.calls| ==> CalmCall(base, e, c, s.calls[c]))
    && (forall r :: |base.readers| <= r < |s.readers| ==> CalmReader(base, s, e, s.readers[r]))
  }

  lemma CalmStart(cfg: Config, s: State, e: Entry)
    requires Inv(cfg, s) && Settled(s, e) && e in s.entries
    ensures Calm(s, s, e)
  {
    hide EndpointOf, StoreAll, ReaderOk, GuardsOk, RefreshersOk, CountOk, FlightsOk;
    assert e.val == Payload(EndpointOf(e.key), Version(s.latest, e.key));
    forall c | 0 <= c < |s.calls| ensures CalmCall(s, e, c, s.calls[c]) {
      assert CallOk(s, s.calls[c]);
    }
  }

  lemma CalmCalls(cfg: Config, base: State, s: State, a: Action, e: Entry)
    requires Inv(cfg, s) && Calm(base, s, e) && Enabled(s, a) && OutageAct(a)
    ensures var t := Apply(cfg, s, a);
      && (forall c: nat :: IsClosed(base, c) ==> IsClosed(t, c))
      && (forall c :: 0 <= c < |t.calls| ==> CalmCall(base, e, c, t.calls[c]))
  {
    assert cfg.maxEntries > 0 by { Bounded(cfg, s); }
    StepGrows(cfg, s, a);
    hide Inv, Apply, CalmReader, Enabled;
    var t := Apply(cfg, s, a);
    forall c: nat | IsClosed(base, c) ensures IsClosed(t, c) {
      assert CallGrows(s, s.calls[c], t.calls[c]);
    }
    forall c | 0 <= c < |t.calls| ensures CalmCall(base, e, c, t.calls[c]) {
      if c < |s.calls| {
        assert CallGrows(s, s.calls[c], t.calls[c]) && CalmCall(base, e, c, s.calls[c]);
      }
      NewReply(cfg, s, a, c);
    }
  }

  /** In an outage a call that gains a reply gains a transient failure. */
  lemma NewReply(cfg: Config, s: State, a: Action, c: nat)
    requires Enabled(s, a) && OutageAct(a) && cfg.maxEntries > 0 && c < |Apply(cfg, s, a).calls|
    requires c < |s.calls| ==> ReplyOf(s.calls[c]).None? || ReplyOf(Apply(cfg, s, a).calls[c]) == ReplyOf(s.calls[c])
    ensures var reply := ReplyOf(Apply(cfg, s, a).calls[c]);
      reply.Some? && (c < |s.calls| ==> ReplyOf(s.calls[c]).None?) ==> reply.value.Fail? && Retryable(reply.value.fault)
  {
    hide StoreStep;
    if !Flies(a) {
      CallsKept(cfg, s, a);
      hide Apply;
    } else if a.Join? || a.RefreshJoin? {
      CallsJoined(cfg, s, a);
      hide Apply;
    }
  }

  lemma Bounded(cfg: Config, s: State)
    requires Inv(cfg, s)
    ensures cfg.maxEntries > 0
  {}

  lemma CalmReaders(cfg: Config, base: State, s: State, a: Action, e: Entry, r: nat)
    requires Inv(cfg, s) && Calm(base, s, e) && Enabled(s, a) && cfg.maxEntries > 0
    requires ShowsSome(e, Lookup(s.entries, e.key)) && |base.readers| <= r < |Apply(cfg, s, a).readers|
    requires forall c: nat :: IsClosed(base, c) ==> IsClosed(Apply(cfg, s, a), c)
    ensures CalmReader(base, Apply(cfg, s, a), e, Apply(cfg, s, a).readers[r])
  {
    hide Inv, Apply, CalmCall, Enabled;
    CallKeys(cfg, s, a);
    if Moves(a, r) {
      MoverGoes(cfg, s, a, r);
      hide Calm;
      CalmMoved(cfg, base, s, a, Apply(cfg, s, a), e, r);
    } else {
      OthersStay(cfg, s, a, r);
    }
  }

  lemma CalmMoved(cfg: Config, base: State, s: State, a: Action, t: State, e: Entry, r: nat)
    requires Inv(cfg, s) && Calm(base, s, e) && Enabled(s, a) && cfg.maxEntries > 0 && t == Apply(cfg, s, a)
    requires ShowsSome(e, Lookup(s.entries, e.key)) && |base.readers| <= r < |s.readers| && Moves(a, r)
    requires forall c: nat :: IsClosed(base, c) ==> IsClosed(t, c)
    requires r < |t.readers| && t.readers[r] == s.readers[r].(phase := NextPhase(cfg, s, a, r))
    ensures CalmReader(base, t, e, t.readers[r])
  {
    hide Inv, Apply;
    assert CalmReader(base, s, e, s.readers[r]);
    if a.Join? {
      InvFlights(cfg, s);
      JoinCarries(cfg, s, r);
      hide NextPhase;
    } else if a.Collect? {
      CalmCollected(base, s, e, s.readers[r].phase.call);
    } else {
      hide Calm;
    }
  }

  lemma CalmCollected(base: State, s: State, e: Entry, c: nat)
    requires Calm(base, s, e) && IsClosed(s, c)
    ensures !IsClosed(base, c) && s.calls[c].key == e.key ==> CalmReply(e, s.calls[c].phase.reply)
  {
    assert CalmCall(base, e, c, s.calls[c]);
  }

  lemma StepCalm(cfg: Config, base: State, s: State, a: Action, e: Entry)
    requires Inv(cfg, s) && Calm(base, s, e) && Enabled(s, a) && OutageAct(a)
    requires ShowsSome(e, Lookup(s.entries, e.key))
    ensures Calm(base, Apply(cfg, s, a), e)
  {
    assert cfg.maxEntries > 0 by { Bounded(cfg, s); }
    var t := Apply(cfg, s, a);
    CalmCalls(cfg, base, s, a, e);
    StepContinues(cfg, s, a);
    forall r | |base.readers| <= r < |t.readers| ensures CalmReader(base, t, e, t.readers[r]) {
      CalmReaders(cfg, base, s, a, e, r);
    }
    hide Apply, Inv, CalmCall, CalmReader, IsClosed;
  }

  lemma {:induction false} OutageStaysCalm(cfg: Config, run: Run, from: nat, i: nat, at: nat)
    requires Outage(cfg, run, from, i) && Room(cfg, run.states[from], at)
    requires Settled(run.states[from], run.states[from].stores[at])
    ensures Calm(run.states[from], run.states[i], run.states[from].stores[at])
  {
    var base := run.states[from];
    OutageParts(cfg, run, from, i);
    assert at < |base.stores|;
    hide *;
    if i == from {
      AlwaysInv(cfg, run, from);
      RoomResident(cfg, run, from, at);
      CalmStart(cfg, base, base.stores[at]);
    } else {
      OutageStaysCalm(cfg, run, from, i - 1, at);
      OutageLookup(cfg, run, from, i - 1, at);
      CalmFollows(cfg, run, i - 1, base, base.stores[at]);
    }
  }

  lemma OutageParts(cfg: Config, run: Run, from: nat, i: nat)
    requires Outage(cfg, run, from, i)
    ensures IsRun(cfg, run) && from <= i < |run.states| && |run.states| == |run.acts| + 1
    ensures from < i ==> Outage(cfg, run, from, i - 1) && OutageAct(run.acts[i - 1])
  {
    hide OutageAct, Apply;
  }

  lemma CalmFollows(cfg: Config, run: Run, i: nat, base: State, e: Entry)
    requires IsRun(cfg, run) && i < |run.acts| && |run.states| == |run.acts| + 1 && OutageAct(run.acts[i])
    requires Calm(base, run.states[i], e) && ShowsSome(e, Lookup(run.states[i].entries, e.key))
    ensures Calm(base, run.states[i + 1], e)
  {
    hide Inv, Calm, Apply, Lookup, ShowsSome, OutageAct;
    AlwaysInv(cfg, run, i);
    assert Follows(cfg, run, i);
    hide IsRun;
    StepCalm(cfg, base, run.states[i], run.acts[i], e);
  }

  lemma RoomResident(cfg: Config, run: Run, i: nat, at: nat)
    requires IsRun(cfg, run) && i < |run.states| && Room(cfg, run.states[i], at)
    ensures run.states[i].stores[at] in run.states[i].entries
  {
    var s := run.states[i];
    InvStores(cfg, run, i);
    NotBehindItself(s.stores, at);
    hide PendingKeys, LaterKeys, IsRun, StoreAll, IsLastStore;
    SmallerSet(LaterKeys(s.stores, at), Rivals(s, at));
    ResidentIff(s.stores, cfg.maxEntries, at);
  }

  lemma NotBehindItself(history: seq<Entry>, at: nat)
    requires IsLastStore(history, at)
    ensures history[at].key !in LaterKeys(history, at)
  {}

  /** As long as the outage lasts a lookup of the key finds its value. */
  lemma OutageLookup(cfg: Config, run: Run, from: nat, i: nat, at: nat)
    requires Outage(cfg, run, from, i) && Room(cfg, run.states[from], at)
    requires Settled(run.states[from], run.states[from].stores[at])
    ensures var e := run.states[from].stores[at]; ShowsSome(e, Lookup(run.states[i].entries, e.key))
  {
    var last := OutageResident(cfg, run, from, i, at);
    AlwaysInv(cfg, run, i);
    hide Outage, Rivals, Settled, Inv, LaterKeys, PendingKeys, IsLastStore;
    OneEntry(cfg, run.states[i], run.states[i].stores[last]);
  }

  /** Main result: in an outage, a read of a settled key whose entry has room returns that entry's value, however
      many other keys' successes are still stored meanwhile, and the value stays resident. */
  lemma OutageKeepsAnswering(cfg: Config, run: Run, from: nat, i: nat, at: nat)
    requires Outage(cfg, run, from, i) && i < |run.acts| && Room(cfg, run.states[from], at)
    requires Settled(run.states[from], run.states[from].stores[at])
    requires run.acts[i].Return? && Enabled(run.states[i], run.acts[i])
    requires run.acts[i].r >= |run.states[from].readers|
    requires run.states[i].readers[run.acts[i].r].key == run.states[from].stores[at].key
    ensures AnswerAt(run, i).reply == Ok(run.states[from].stores[at].val)
    ensures var e := run.states[from].stores[at]; ShowsSome(e, Lookup(run.states[i].entries, e.key))
  {
    var base, s, r := run.states[from], run.states[i], run.acts[i].r;
    OutageStaysCalm(cfg, run, from, i, at);
    OutageLookup(cfg, run, from, i, at);
    hide Outage, Room, Settled, IsLastStore;
    assert CalmReader(base, s, base.stores[at], s.readers[r]);
  }

  /** Main result: if nothing is pending when the outage begins, the cache does not change at all, so there is room
      for exactly the entries that are resident. */
  lemma OutageFreezes(cfg: Config, run: Run, from: nat, i: nat)
    requires Outage(cfg, run, from, i) && PendingKeys(run.states[from]) == {}
    ensures run.states[i].entries == run.states[from].entries
    ensures forall at: nat :: IsLastStore(run.states[from].stores, at) ==>
              (Room(cfg, run.states[from], at) <==> run.states[from].stores[at] in run.states[from].entries)
  {
    var base, s := run.states[from], run.states[i];
    OutageExtends(cfg, run, from, i);
    NothingStored(base, s);
    AlwaysInv(cfg, run, i);
    AlwaysInv(cfg, run, from);
    hide Extends, LaterKeys, IsLastStore, StoreAll, CallOk, ReaderOk, GuardsOk, Outage;
    forall at: nat | IsLastStore(base.stores, at) ensures Room(cfg, base, at) <==> base.stores[at] in base.entries {
      ResidentIff(base.stores, cfg.maxEntries, at);
      NotBehindItself(base.stores, at);
      assert Rivals(base, at) == LaterKeys(base.stores, at);
    }
  }

  lemma NothingStored(base: State, s: State)
    requires Extends(base, s) && PendingKeys(base) == {}
    ensures s.stores == base.stores
  {
    if |s.stores| > |base.stores| {
      FromPending(base, s, |base.stores|);
    } else {
      assert s.stores == s.stores[..|base.stores|];
    }
  }

  lemma FromPending(base: State, s: State, j: nat)
    requires Extends(base, s) && |base.stores| <= j < |s.stores|
    ensures PendingKeys(base) != {}
  {
    assert s.stores[j].key in PendingKeys(base);
  }

  lemma OneEntry(cfg: Config, s: State, e: Entry)
    requires Inv(cfg, s) && e in s.entries
    ensures Lookup(s.entries, e.key) == Some(e)
  {
    ContentsChronological(s.stores, cfg.maxEntries);
    LookupDistinct(s.entries, e);
  }

  lemma {:induction false} LookupDistinct(s: seq<Entry>, e: Entry)
    requires Distinct(s) && e in s
    ensures Lookup(s, e.key) == Some(e)
  {
    var i :| 0 <= i < |s| && s[i] == e;
    if i > 0 {
      assert s[1..][i - 1] == e;
      assert Distinct(s[1..]);
      LookupDistinct(s[1..], e);
    }
  }
}
