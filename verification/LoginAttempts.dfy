/** Single-use login attempts (internal/auth/oidc.go, Begin and consume). The random values and the clock
    are parameters.
 */
module LoginAttempts {
  import opened Options

  datatype Attempt = Attempt(binding: string, nonce: string, verifier: string, expires: int)

  const TTL := 300_000_000_000
  const MAX_ATTEMPTS := 1024

  type Table = map<string, Attempt>

  /** The attempts that have not expired: expiry is strict, an attempt is gone at its expiry instant. */
  function Purged(m: Table, now: int): Table { map s | s in m && m[s].expires > now :: m[s] }

  function BeginStep(m: Table, state: string, a: Attempt, now: int): (Table, bool) {
    var kept := Purged(m, now);
    if |kept| >= MAX_ATTEMPTS then (kept, false) else (kept[state := a], true)
  }

  function ConsumeStep(m: Table, state: string, binding: string, now: int): (Table, Option<Attempt>) {
    if state !in m || binding == "" || m[state].binding != binding then (m, None)
    else (m - {state}, if m[state].expires > now then Some(m[state]) else None)
  }

  class Attempts {
    var attempts: Table

    constructor ()
      ensures attempts == map[]
    {
      attempts := map[];
    }

    method Begin(state: string, binding: string, nonce: string, verifier: string, now: int) returns (ok: bool)
      modifies this
      ensures (attempts, ok) == BeginStep(old(attempts), state, Attempt(binding, nonce, verifier, now + TTL), now)
    {
      var todo := attempts.Keys;
      while todo != {}
        invariant todo <= attempts.Keys
        invariant attempts.Keys <= old(attempts).Keys
        invariant forall s :: s in attempts ==> attempts[s] == old(attempts)[s]
        invariant forall s :: s in old(attempts) ==> (s in attempts <==> s in todo || old(attempts)[s].expires > now)
        decreases todo
      {
        var s :| s in todo;
        todo := todo - {s};
        if attempts[s].expires <= now {
          attempts := attempts - {s};
        }
      }
      assert attempts == Purged(old(attempts), now);
      if |attempts| >= MAX_ATTEMPTS {
        return false;
      }
      attempts := attempts[state := Attempt(binding, nonce, verifier, now + TTL)];
      ok := true;
    }

    method Consume(state: string, binding: string, now: int) returns (r: Option<Attempt>)
      modifies this
      ensures (attempts, r) == ConsumeStep(old(attempts), state, binding, now)
    {
      if state !in attempts || binding == "" || attempts[state].binding != binding {
        return None;
      }
      var a := attempts[state];
      attempts := attempts - {state};
      if a.expires <= now {
        return None;
      }
      r := Some(a);
    }
  }

  // ---------------------------------------------------------------- histories

  datatype Event =
    | Begins(state: string, binding: string, nonce: string, verifier: string, now: int)
    | Consumes(state: string, binding: string, now: int)

  function AttemptOf(e: Event): Attempt
    requires e.Begins?
  {
    Attempt(e.binding, e.nonce, e.verifier, e.now + TTL)
  }

  function Step(m: Table, e: Event): Table {
    if e.Begins? then BeginStep(m, e.state, AttemptOf(e), e.now).0 else ConsumeStep(m, e.state, e.binding, e.now).0
  }

  function TableAfter(events: seq<Event>): Table {
    if events == [] then map[] else Step(TableAfter(events[..|events| - 1]), events[|events| - 1])
  }

  predicate ClockForward(events: seq<Event>) {
    forall i, j :: 0 <= i < j < |events| ==> events[i].now <= events[j].now
  }

  predicate AllBefore(events: seq<Event>, now: int) { forall i :: 0 <= i < |events| ==> events[i].now <= now }

  /** The generator of states does not repeat itself and never yields an empty binding. */
  predicate Fresh(events: seq<Event>) {
    && (forall i :: 0 <= i < |events| && events[i].Begins? ==> events[i].binding != "")
    && (forall i, j :: 0 <= i < j < |events| ==> Distinct(events[i], events[j]))
  }

  predicate Distinct(a: Event, b: Event) { a.Begins? && b.Begins? ==> a.state != b.state }

  /** e presents the state of the attempt begun by b, with the binding it was begun with. */
  predicate Presents(e: Event, b: Event) { e.Consumes? && e.state == b.state && e.binding == b.binding }

  predicate Used(events: seq<Event>, i: nat)
    requires i < |events|
  {
    exists j :: i < j < |events| && Presents(events[j], events[i])
  }

  /** The Begin at i found fewer than 1024 pending attempts. */
  ghost predicate Issued(events: seq<Event>, i: nat)
    requires i < |events|
    decreases i, 1
  {
    events[i].Begins? && |Pending(events[..i], events[i].now)| < 1024
  }

  /** Attempt a was issued for this state by event i and has not been presented since. */
  ghost predicate Held(events: seq<Event>, i: nat, state: string, a: Attempt)
    decreases i, 2
  {
    i < |events| && Issued(events, i) && !Used(events, i) && events[i].state == state && AttemptOf(events[i]) == a
  }

  /** In nanoseconds. */
  const FIVE_MINUTES := 5 * 60 * 1_000_000_000

  /** Issued, not presented since, and less than five minutes old: the reference the table must agree with. */
  ghost predicate Open(events: seq<Event>, i: nat, now: int)
    decreases i, 2
  {
    i < |events| && Issued(events, i) && !Used(events, i) && now < events[i].now + FIVE_MINUTES
  }

  /** Some open attempt was issued for this state with this binding. */
  ghost predicate OpenFor(events: seq<Event>, i: nat, state: string, binding: string, now: int) {
    Open(events, i, now) && events[i].state == state && events[i].binding == binding
  }

  ghost function Pending(events: seq<Event>, now: int): set<string>
    decreases |events|, 0
  {
    set i | 0 <= i < |events| && Open(events, i, now) :: events[i].state
  }

  /** The table holds only issued, unused attempts ... */
  ghost predicate Sound(m: Table, events: seq<Event>) {
    forall s :: s in m ==> exists i: nat :: Held(events, i, s, m[s])
  }

  /** ... and all of them that are not expired. */
  ghost predicate Complete(m: Table, events: seq<Event>, now: int) {
    forall i: nat :: Open(events, i, now) ==> HasAttempt(m, events[i])
  }

  predicate HasAttempt(m: Table, e: Event) { e.Begins? && e.state in m && m[e.state] == AttemptOf(e) }

  ghost predicate Agrees(m: Table, events: seq<Event>, now: int) { Sound(m, events) && Complete(m, events, now) }

  // ---------------------------------------------------------------- one more event

  /** What is kept after purging is what is pending. */
  lemma PurgedIsPending(m: Table, events: seq<Event>, now: int)
    requires Agrees(m, events, now)
    ensures Purged(m, now).Keys == Pending(events, now)
    ensures |Purged(m, now)| == |Pending(events, now)|
  {
    hide Issued, Used;
    forall s | s in Purged(m, now) ensures s in Pending(events, now) {
      var i: nat :| Held(events, i, s, m[s]);
      IssuedBegins(events, i);
      assert Open(events, i, now);
    }
    forall s | s in Pending(events, now) ensures s in Purged(m, now) {
      var i :| 0 <= i < |events| && Open(events, i, now) && events[i].state == s;
      assert HasAttempt(m, events[i]);
    }
    assert |Purged(m, now)| == |Purged(m, now).Keys|;
  }

  lemma IssuedBegins(events: seq<Event>, i: nat)
    requires i < |events|
    ensures Issued(events, i) ==> events[i].Begins?
  {}

  /** One more event changes earlier verdicts only by presenting an attempt. */
  lemma EarlierVerdicts(events: seq<Event>, e: Event, i: nat)
    requires i < |events|
    ensures Issued(events + [e], i) == Issued(events, i)
    ensures Used(events + [e], i) <==> Used(events, i) || Presents(e, events[i])
  {
    var all := events + [e];
    assert all[..i] == events[..i];
    if Used(events, i) {
      var j :| i < j < |events| && Presents(events[j], events[i]);
      assert all[j] == events[j];
    }
    if Presents(e, events[i]) {
      assert all[|events|] == e;
    }
  }

  lemma HeldLater(events: seq<Event>, e: Event, i: nat, s: string, a: Attempt)
    requires Held(events, i, s, a) && !Presents(e, events[i])
    ensures Held(events + [e], i, s, a)
  {
    hide Issued, Used, Presents;
    EarlierVerdicts(events, e, i);
    IssuedBegins(events, i);
  }

  lemma OpenEarlier(events: seq<Event>, e: Event, i: nat, now: int)
    requires i < |events| && Open(events + [e], i, now)
    ensures Open(events, i, now) && !Presents(e, events[i])
  {
    hide Issued, Used, Presents;
    EarlierVerdicts(events, e, i);
  }

  /** The newest Begin is issued exactly when the table had room, and nothing has presented it yet. */
  lemma NewestBegin(m: Table, events: seq<Event>, e: Event)
    requires Agrees(m, events, e.now) && e.Begins?
    ensures var all := events + [e];
      && (Issued(all, |events|) <==> |Purged(m, e.now)| < MAX_ATTEMPTS)
      && !Used(all, |events|)
  {
    PurgedIsPending(m, events, e.now);
    assert (events + [e])[..|events|] == events;
  }

  lemma SoundBegin(m: Table, events: seq<Event>, e: Event)
    requires Agrees(m, events, e.now) && e.Begins?
    ensures Sound(Step(m, e), events + [e])
  {
    var all, n, t := events + [e], |events|, Step(m, e);
    NewestBegin(m, events, e);
    hide Issued, Used, Complete;
    forall s | s in t ensures exists i: nat :: Held(all, i, s, t[s]) {
      if s == e.state && |Purged(m, e.now)| < MAX_ATTEMPTS {
        assert Held(all, n, s, t[s]);
      } else {
        var i: nat :| Held(events, i, s, m[s]);
        HeldLater(events, e, i, s, m[s]);
      }
    }
  }

  lemma CompleteBegin(m: Table, events: seq<Event>, e: Event)
    requires Agrees(m, events, e.now) && e.Begins? && Fresh(events + [e])
    ensures Complete(Step(m, e), events + [e], e.now)
  {
    var all, n, t := events + [e], |events|, Step(m, e);
    NewestBegin(m, events, e);
    hide Issued, Used, Sound, Fresh;
    forall i: nat | Open(all, i, e.now) ensures HasAttempt(t, all[i]) {
      if i < n {
        OpenEarlier(events, e, i, e.now);
        assert HasAttempt(m, events[i]);
        FreshPair(all, i, n);
      }
    }
  }

  lemma FreshPair(events: seq<Event>, i: nat, j: nat)
    requires Fresh(events) && i < |events| && j < |events| && i != j && events[i].Begins? && events[j].Begins?
    ensures events[i].state != events[j].state
  {
    assert if i < j then Distinct(events[i], events[j]) else Distinct(events[j], events[i]);
  }

  lemma NonemptyBinding(events: seq<Event>, i: nat)
    requires Fresh(events) && i < |events| && events[i].Begins?
    ensures events[i].binding != ""
  {}

  lemma SoundConsume(m: Table, events: seq<Event>, e: Event)
    requires Agrees(m, events, e.now) && e.Consumes? && Fresh(events)
    ensures Sound(Step(m, e), events + [e])
  {
    var all, t := events + [e], Step(m, e);
    hide Issued, Used, Complete, Fresh;
    forall s | s in t ensures exists i: nat :: Held(all, i, s, t[s]) {
      var i: nat :| Held(events, i, s, m[s]);
      IssuedBegins(events, i);
      NonemptyBinding(events, i);
      HeldLater(events, e, i, s, m[s]);
    }
  }

  lemma CompleteConsume(m: Table, events: seq<Event>, e: Event)
    requires Agrees(m, events, e.now) && e.Consumes?
    ensures Complete(Step(m, e), events + [e], e.now)
  {
    var all, n, t := events + [e], |events|, Step(m, e);
    hide Issued, Used, Sound;
    forall i: nat | Open(all, i, e.now) ensures HasAttempt(t, all[i]) {
      IssuedBegins(all, i);
      assert i < n;
      OpenEarlier(events, e, i, e.now);
      assert HasAttempt(m, events[i]);
    }
  }

  lemma AgreesLater(m: Table, events: seq<Event>, now: int, later: int)
    requires Agrees(m, events, now) && now <= later
    ensures Agrees(m, events, later)
  {
    hide Issued, Used, Sound;
    forall i: nat | Open(events, i, later) ensures HasAttempt(m, events[i]) {
      assert Open(events, i, now);
    }
  }

  // ---------------------------------------------------------------- whole runs

  /** Main result: with fresh states and a clock that never goes back the table always agrees with the
      history. */
  lemma {:induction false} AlwaysAgrees(events: seq<Event>, now: int)
    requires ClockForward(events) && Fresh(events) && AllBefore(events, now)
    ensures Agrees(TableAfter(events), events, now)
  {
    if events == [] {
    } else {
      var before, e := events[..|events| - 1], events[|events| - 1];
      assert events == before + [e];
      AlwaysAgrees(before, e.now);
      hide Agrees, Fresh, Step;
      if e.Begins? {
        SoundBegin(TableAfter(before), before, e);
        CompleteBegin(TableAfter(before), before, e);
      } else {
        FreshPrefix(events);
        SoundConsume(TableAfter(before), before, e);
        CompleteConsume(TableAfter(before), before, e);
      }
      BothAgree(TableAfter(events), events, e.now);
      AgreesLater(TableAfter(events), events, e.now, now);
    }
  }

  lemma BothAgree(m: Table, events: seq<Event>, now: int)
    requires Sound(m, events) && Complete(m, events, now)
    ensures Agrees(m, events, now)
  {}

  lemma FreshPrefix(events: seq<Event>)
    requires Fresh(events) && events != []
    ensures Fresh(events[..|events| - 1])
  {}

  /** The attempt that this Begin asked for, each part in its place. */
  predicate Returns(a: Attempt, e: Event)
    requires e.Begins?
  {
    a.binding == e.binding && a.nonce == e.nonce && a.verifier == e.verifier && a.expires == e.now + FIVE_MINUTES
  }

  /** Main result: consume succeeds exactly for a state that was issued with that binding less than five
      minutes ago and not presented with it since, and hands back that very attempt. */
  lemma ConsumeIff(events: seq<Event>, state: string, binding: string, now: int)
    requires ClockForward(events) && Fresh(events) && AllBefore(events, now)
    ensures var r := ConsumeStep(TableAfter(events), state, binding, now).1;
      && (r.Some? <==> exists i: nat :: OpenFor(events, i, state, binding, now))
      && (forall i: nat :: OpenFor(events, i, state, binding, now) ==>
            events[i].Begins? && r.Some? && Returns(r.value, events[i]))
  {
    AlwaysAgrees(events, now);
    hide TableAfter, Issued, Used, Fresh, ClockForward, AllBefore;
    var m := TableAfter(events);
    forall i: nat | OpenFor(events, i, state, binding, now)
      ensures events[i].Begins? && ConsumeStep(m, state, binding, now).1.Some?
      ensures Returns(ConsumeStep(m, state, binding, now).1.value, events[i])
    {
      IssuedBegins(events, i);
      NonemptyBinding(events, i);
      assert HasAttempt(m, events[i]);
    }
    if ConsumeStep(m, state, binding, now).1.Some? {
      var i: nat :| Held(events, i, state, m[state]);
      IssuedBegins(events, i);
      assert OpenFor(events, i, state, binding, now);
    }
  }

  /** A failed consume leaves the table alone unless it removed an attempt that had expired. */
  lemma FailedConsume(m: Table, state: string, binding: string, now: int)
    requires ConsumeStep(m, state, binding, now).1.None?
    ensures Purged(ConsumeStep(m, state, binding, now).0, now) == Purged(m, now)
    ensures state in m && m[state].binding != binding ==> ConsumeStep(m, state, binding, now).0 == m
  {}

  /** A Begin leaves nothing expired behind, even when it is refused. */
  lemma BeginPurges(m: Table, state: string, a: Attempt, now: int)
    ensures var next := BeginStep(m, state, a, now).0;
            forall s :: s in next && (s != state || !BeginStep(m, state, a, now).1) ==> s in m && m[s].expires > now
  {}

  /** Without a binding nothing is consumed, not even an attempt that was begun without one. */
  lemma EmptyBinding(m: Table, state: string, now: int)
    ensures ConsumeStep(m, state, "", now) == (m, None)
  {}

  // ---------------------------------------------------------------- single use, whatever the clock does

  /** A state is in the table only after an attempt was begun with it. */
  lemma {:induction false} WasBegun(events: seq<Event>, state: string) returns (i: nat)
    requires state in TableAfter(events)
    ensures i < |events| && events[i].Begins? && events[i].state == state
  {
    var n := |events| - 1;
    if state in TableAfter(events[..n]) {
      i := WasBegun(events[..n], state);
    } else {
      i := n;
    }
  }

  /** A state that is gone comes back only by being begun again. */
  lemma {:induction false} StaysGone(events: seq<Event>, i: nat, state: string)
    requires i <= |events| && state !in TableAfter(events[..i])
    requires forall k :: i <= k < |events| && events[k].Begins? ==> events[k].state != state
    ensures state !in TableAfter(events)
  {
    if i == |events| {
      assert events[..i] == events;
    } else {
      var before := events[..|events| - 1];
      assert before[..i] == events[..i];
      StaysGone(before, i, state);
    }
  }

  /** Main result: no state is consumed twice in a run, even if the clock goes back. */
  lemma AtMostOnce(events: seq<Event>, i: nat, j: nat)
    requires Fresh(events) && i < j < |events|
    requires events[i].Consumes? && events[j].Consumes? && events[i].state == events[j].state
    requires ConsumeStep(TableAfter(events[..i]), events[i].state, events[i].binding, events[i].now).1.Some?
    ensures ConsumeStep(TableAfter(events[..j]), events[j].state, events[j].binding, events[j].now).1.None?
  {
    var state := events[i].state;
    var b := WasBegun(events[..i], state);
    assert events[..i + 1][..i] == events[..i];
    assert state !in TableAfter(events[..i + 1]);
    forall k | i + 1 <= k < j && events[k].Begins? ensures events[k].state != state {
      FreshPair(events, b, k);
    }
    assert events[..j][..i + 1] == events[..i + 1];
    hide TableAfter, Fresh;
    StaysGone(events[..j], i + 1, state);
  }

  /** Main result: Begin refuses exactly when 1024 attempts are pending. */
  lemma BeginIff(events: seq<Event>, state: string, a: Attempt, now: int)
    requires ClockForward(events) && Fresh(events) && AllBefore(events, now)
    ensures BeginStep(TableAfter(events), state, a, now).1 <==> |Pending(events, now)| < 1024
  {
    AlwaysAgrees(events, now);
    PurgedIsPending(TableAfter(events), events, now);
  }

  /** Main result: the table never exceeds the cap, whatever the clock and the callers do. */
  lemma {:induction false} Bounded(events: seq<Event>)
    ensures |TableAfter(events)| <= 1024
  {
    if events == [] {
    } else {
      var m, e := TableAfter(events[..|events| - 1]), events[|events| - 1];
      Bounded(events[..|events| - 1]);
      if e.Begins? {
        Shrinks(m, Purged(m, e.now));
      } else {
        Shrinks(m, m - {e.state});
      }
    }
  }

  lemma Shrinks(m: Table, n: Table)
    requires n.Keys <= m.Keys
    ensures |n| <= |m|
  {
    assert m.Keys == n.Keys + (m.Keys - n.Keys);
    assert |m| == |m.Keys| && |n| == |n.Keys|;
  }
}
