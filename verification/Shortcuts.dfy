/** The global keyboard shortcuts with the g leader (web/src/hooks/useShortcuts.ts). Timers are the browser's:
    a pending one has an identity and a due time in milliseconds, and may ring or be cleared.
 */
module Shortcuts {
  import opened Options

  const LEADER_TIMEOUT := 1_000

  /** The bindings a caller can declare; "g g" is not one of them. */
  const BINDINGS: set<string> := {
    "ArrowDown", "ArrowUp", "j", "k", "Enter", "Escape", "a", "c", "r", "i", "n", "/", "g a", "g f", "g s", "?"
  }

  /** A key press with the handlers bound at that moment, or a timer calling back. */
  datatype Event =
    | Press(key: string, typing: bool, modified: bool, bound: set<string>, time: int)
    | Ring(id: nat, time: int)

  /** A handler that was called, for the key alone or for the key after the leader. */
  datatype Fired = Single(key: string) | Combo(key: string)

  datatype State = State(active: bool, timer: Option<nat>, pending: map<nat, int>, nextId: nat)

  const START := State(false, None, map[], 0)

  function ClearLeader(s: State): State {
    if s.timer.None? then s.(active := false)
    else s.(active := false, timer := None, pending := s.pending - {s.timer.value})
  }

  function ArmLeader(s: State, time: int): State {
    s.(active := true, timer := Some(s.nextId), pending := s.pending[s.nextId := time + LEADER_TIMEOUT],
       nextId := s.nextId + 1)
  }

  /** A timer that has been cleared does not ring. */
  function RingStep(s: State, id: nat): State {
    if id in s.pending then ClearLeader(s.(pending := s.pending - {id})) else s
  }

  predicate Ignored(e: Event)
    requires e.Press?
  {
    e.key != "Escape" && (e.typing || e.modified)
  }

  /** The keydown handler: the new state and the handlers called. */
  function PressStep(s: State, e: Event): (State, seq<Fired>)
    requires e.Press?
  {
    if e.key == "Escape" then (ClearLeader(s), if "Escape" in e.bound then [Single("Escape")] else [])
    else if Ignored(e) then (s, [])
    else
      var t := if s.active then ClearLeader(s) else s;
      if s.active && "g " + e.key in e.bound then (t, [Combo(e.key)])
      else if e.key == "g" then (ArmLeader(t, e.time), [])
      else (t, if e.key in e.bound then [Single(e.key)] else [])
  }

  class Keyboard {
    var leaderActive: bool
    var leaderTimer: Option<nat>
    var pending: map<nat, int>
    var nextId: nat
    var calls: seq<Fired>

    function View(): State
      reads this
    {
      State(leaderActive, leaderTimer, pending, nextId)
    }

    constructor ()
      ensures View() == START && calls == []
    {
      leaderActive, leaderTimer, pending, nextId, calls := false, None, map[], 0, [];
    }

    method Clear()
      modifies this
      ensures View() == ClearLeader(old(View())) && calls == old(calls)
    {
      leaderActive := false;
      if leaderTimer.Some? {
        pending := pending - {leaderTimer.value};
        leaderTimer := None;
      }
    }

    method SetTimeout(due: int) returns (id: nat)
      modifies this
      ensures id == old(nextId) && nextId == id + 1 && pending == old(pending)[id := due]
      ensures leaderActive == old(leaderActive) && leaderTimer == old(leaderTimer) && calls == old(calls)
    {
      id := nextId;
      pending, nextId := pending[id := due], nextId + 1;
    }

    method TimerRings(id: nat)
      modifies this
      ensures View() == RingStep(old(View()), id) && calls == old(calls)
    {
      if id in pending {
        pending := pending - {id};
        Clear();
      }
    }

    method KeyDown(e: Event)
      requires e.Press?
      modifies this
      ensures View() == PressStep(old(View()), e).0
      ensures calls == old(calls) + PressStep(old(View()), e).1
    {
      if e.key == "Escape" {
        if "Escape" in e.bound {
          calls := calls + [Single("Escape")];
        }
        Clear();
        return;
      }
      if e.typing || e.modified {
        return;
      }
      if leaderActive {
        Clear();
        if "g " + e.key in e.bound {
          calls := calls + [Combo(e.key)];
          return;
        }
      }
      if e.key == "g" {
        leaderActive := true;
        var id := SetTimeout(e.time + LEADER_TIMEOUT);
        leaderTimer := Some(id);
        return;
      }
      if e.key in e.bound {
        calls := calls + [Single(e.key)];
      }
    }
  }

  // ---------------------------------------------------------------- every interleaving

  function Step(s: State, e: Event): State {
    if e.Press? then PressStep(s, e).0 else RingStep(s, e.id)
  }

  function After(run: seq<Event>): State {
    if run == [] then START else Step(After(run[..|run| - 1]), run[|run| - 1])
  }

  /** The leader is up exactly while its own timer is the one pending timer. */
  ghost predicate OneTimer(s: State) {
    && (forall id :: id in s.pending ==> id < s.nextId)
    && (if s.active then s.timer.Some? && s.pending.Keys == {s.timer.value}
        else s.timer.None? && s.pending == map[])
  }

  lemma OneTimerStep(s: State, e: Event)
    requires OneTimer(s)
    ensures OneTimer(Step(s, e))
  {}

  /** Main result: whatever is pressed and whenever timers ring, at most one timer is pending and it belongs to
      the leader that is up, so no earlier timer can take a later leader down. */
  lemma {:induction false} AlwaysOneTimer(run: seq<Event>)
    ensures OneTimer(After(run))
  {
    if run == [] {
    } else {
      AlwaysOneTimer(run[..|run| - 1]);
      OneTimerStep(After(run[..|run| - 1]), run[|run| - 1]);
    }
  }

  /** At most one handler is called for a key, and only a bound one. */
  lemma OneHandler(s: State, e: Event)
    requires e.Press?
    ensures |PressStep(s, e).1| <= 1
    ensures forall f :: f in PressStep(s, e).1 ==> f.key == e.key
    ensures forall f :: f in PressStep(s, e).1 ==> (if f.Combo? then "g " + f.key else f.key) in e.bound
    ensures e.key != "Escape" && (e.typing || e.modified) ==> PressStep(s, e) == (s, [])
  {}

  // ---------------------------------------------------------------- every run, late timers or not

  predicate Declared(e: Event) { e.Press? ==> e.bound <= BINDINGS }

  predicate AllDeclared(run: seq<Event>) { forall i :: 0 <= i < |run| ==> Declared(run[i]) }

  /** A key that counts: Escape, or one pressed outside text fields and without Ctrl, Meta or Alt. */
  predicate Counts(e: Event) { e.Press? && (e.key == "Escape" || (!e.typing && !e.modified)) }

  /** How many keys that count were a g; each of them sets the timer of that number. */
  function Gs(run: seq<Event>): nat {
    if run == [] then 0
    else Gs(run[..|run| - 1]) + if Counts(run[|run| - 1]) && run[|run| - 1].key == "g" then 1 else 0
  }

  /** The g at p is the last key that counted, and its own timer has not rung since. */
  predicate LedBy(run: seq<Event>, p: nat) {
    && p < |run| && Counts(run[p]) && run[p].key == "g"
    && forall q :: p < q < |run| ==> !Counts(run[q]) && (run[q].Ring? ==> run[q].id != Gs(run[..p]))
  }

  /** The flag is up for the last g, with the number of its timer, or no g leads. */
  ghost predicate Follows(s: State, run: seq<Event>) {
    && s.nextId == Gs(run)
    && (if s.active then exists p: nat :: LedBy(run, p) && s.timer == Some(Gs(run[..p]))
        else forall p: nat :: !LedBy(run, p))
  }

  lemma LedByStep(run: seq<Event>, e: Event, p: nat)
    requires p < |run|
    ensures LedBy(run + [e], p) <==> LedBy(run, p) && !Counts(e) && (e.Ring? ==> e.id != Gs(run[..p]))
    ensures (run + [e])[..p] == run[..p]
  {
    var all := run + [e];
    assert all[..p] == run[..p] && all[|run|] == e;
    forall q | p < q < |run| ensures all[q] == run[q] {}
  }

  lemma FollowsStep(s: State, run: seq<Event>, e: Event)
    requires OneTimer(s) && Follows(s, run) && Declared(e)
    ensures Follows(Step(s, e), run + [e])
  {
    var all, n, t := run + [e], |run|, Step(s, e);
    assert all[..n] == run && all[n] == e;
    NoDoubleG();
    if Counts(e) {
      NowLedBy(run, e);
      if e.key == "g" {
        assert LedBy(all, n);
      }
      hide LedBy;
    } else {
      forall p: nat ensures LedBy(all, p) <==> LedBy(run, p) && (e.Ring? ==> e.id != Gs(run[..p])) {
        if p < n {
          LedByStep(run, e, p);
        }
      }
      if s.active {
        var p: nat :| LedBy(run, p) && s.timer == Some(Gs(run[..p]));
        OneLeads(run, p);
        LedByStep(run, e, p);
      }
      hide LedBy, Gs;
    }
  }

  /** After a key that counts only that key can lead. */
  lemma NowLedBy(run: seq<Event>, e: Event)
    requires Counts(e)
    ensures forall p: nat :: LedBy(run + [e], p) ==> p == |run| && e.key == "g"
  {
    assert (run + [e])[|run|] == e;
  }

  lemma OneLeads(run: seq<Event>, p: nat)
    requires LedBy(run, p)
    ensures forall q: nat :: LedBy(run, q) ==> q == p
  {}

  lemma {:induction false} AlwaysFollows(run: seq<Event>)
    requires AllDeclared(run)
    ensures Follows(After(run), run)
  {
    if run == [] {
    } else {
      var before, e := run[..|run| - 1], run[|run| - 1];
      assert run == before + [e];
      AlwaysFollows(before);
      AlwaysOneTimer(before);
      hide Follows, OneTimer, Step;
      FollowsStep(After(before), before, e);
    }
  }

  /** What a key does, told from the keys and rings before it alone. */
  ghost function Outcome(run: seq<Event>, e: Event): seq<Fired>
    requires e.Press?
  {
    if !Counts(e) then []
    else if e.key != "Escape" && (exists p: nat :: LedBy(run, p)) && "g " + e.key in e.bound then [Combo(e.key)]
    else if e.key != "g" && e.key in e.bound then [Single(e.key)]
    else []
  }

  /** Main result: in every run, with timers ringing late or never, each key calls exactly the handlers that the
      keys and rings before it call for. */
  lemma KeysInEveryRun(run: seq<Event>, e: Event)
    requires e.Press? && AllDeclared(run) && Declared(e)
    ensures PressStep(After(run), e).1 == Outcome(run, e)
  {
    NoDoubleG();
    AlwaysFollows(run);
    hide After, LedBy, Gs;
  }

  /** Main result: a g binding fires on a key exactly when the last key that counted was a g whose timer has not rung
      since. */
  lemma ComboIff(run: seq<Event>, e: Event)
    requires e.Press? && AllDeclared(run) && Declared(e) && "g " + e.key in e.bound
    ensures Combo(e.key) in PressStep(After(run), e).1 <==>
              Counts(e) && e.key != "Escape" && exists p: nat :: LedBy(run, p)
  {
    KeysInEveryRun(run, e);
    hide PressStep, After, LedBy;
  }

  /** A bare Shift press is a key that counts: between g and a it takes the leader down, and a fires alone. */
  lemma ShiftCounts(bound: set<string>, time: int)
    requires bound <= BINDINGS && "a" in bound && "g a" in bound
    ensures var g, shift, a := Press("g", false, false, bound, time), Press("Shift", false, false, bound, time),
                               Press("a", false, false, bound, time);
            PressStep(After([g]), a).1 == [Combo("a")] && PressStep(After([g, shift]), a).1 == [Single("a")]
  {
    var g, shift := Press("g", false, false, bound, time), Press("Shift", false, false, bound, time);
    assert [g][..0] == [] && [g, shift][..1] == [g];
    assert "g " + "a" == "g a" && "g " + "Shift" == "g Shift" && "g Shift" !in BINDINGS;
    NoDoubleG();
  }

  // ---------------------------------------------------------------- what a user sees

  /** Timers ring once due, and no press is handled while a due timer has yet to ring. */
  ghost predicate OnTime(s: State, e: Event) {
    if e.Press? then forall id :: id in s.pending ==> e.time < s.pending[id]
    else e.id in s.pending && s.pending[e.id] <= e.time
  }

  ghost predicate Punctual(run: seq<Event>) {
    && (forall i, j :: 0 <= i < j < |run| ==> run[i].time <= run[j].time)
    && (forall i :: 0 <= i < |run| ==> OnTime(After(run[..i]), run[i]))
  }

  /** The last key that counted. */
  function LastKey(run: seq<Event>): (last: Option<Event>)
    ensures last.Some? ==> last.value.Press?
  {
    if run == [] then None
    else
      var e := run[|run| - 1];
      if Counts(e) then Some(e) else LastKey(run[..|run| - 1])
  }

  /** The last key was a g, less than a second before. */
  predicate Leads(last: Option<Event>, time: int) {
    last.Some? && last.value.Press? && last.value.key == "g" && time < last.value.time + 1_000
  }

  /** What a key does, told from the last key alone, with no leader flag and no timer. */
  function Expected(last: Option<Event>, e: Event): seq<Fired>
    requires e.Press?
  {
    if !Counts(e) then []
    else if e.key != "Escape" && Leads(last, e.time) && "g " + e.key in e.bound then [Combo(e.key)]
    else if e.key != "g" && e.key in e.bound then [Single(e.key)]
    else []
  }

  /** The leader is up for the last g, or time has run past it. */
  ghost predicate Tracks(s: State, last: Option<Event>, now: int) {
    if s.active then
      && s.timer.Some? && last.Some? && last.value.Press? && last.value.key == "g"
      && s.pending == map[s.timer.value := last.value.time + LEADER_TIMEOUT]
    else
      !Leads(last, now)
  }

  lemma TracksStep(s: State, last: Option<Event>, now: int, e: Event)
    requires OneTimer(s) && Tracks(s, last, now) && now <= e.time && OnTime(s, e) && Declared(e)
    ensures Tracks(Step(s, e), if Counts(e) then Some(e) else last, e.time)
    ensures e.Press? ==> PressStep(s, e).1 == Expected(last, e)
  {
    NoDoubleG();
    if e.Press? && s.active {
      assert s.timer.value in s.pending;
    }
  }

  lemma NoDoubleG()
    ensures "g g" !in BINDINGS && "g" !in BINDINGS && "g " + "g" == "g g"
  {}

  lemma {:induction false} AlwaysTracks(run: seq<Event>, now: int)
    requires Punctual(run) && AllDeclared(run)
    requires forall i :: 0 <= i < |run| ==> run[i].time <= now
    ensures Tracks(After(run), LastKey(run), now)
  {
    if run == [] {
    } else {
      var before, e := run[..|run| - 1], run[|run| - 1];
      PunctualPrefix(run);
      AlwaysTracks(before, e.time);
      AlwaysOneTimer(before);
      hide Step, OneTimer, OnTime, Punctual;
      TracksStep(After(before), LastKey(before), e.time, e);
    }
  }

  lemma PunctualPrefix(run: seq<Event>)
    requires Punctual(run) && run != []
    ensures Punctual(run[..|run| - 1]) && OnTime(After(run[..|run| - 1]), run[|run| - 1])
  {
    var before := run[..|run| - 1];
    forall i | 0 <= i < |before| ensures OnTime(After(before[..i]), before[i]) {
      assert before[..i] == run[..i];
    }
  }

  /** Main result: the flag-and-timer machine does for every key of every punctual run what the last key and
      the clock alone say. */
  lemma KeysAsExpected(run: seq<Event>, e: Event)
    requires e.Press? && Punctual(run + [e]) && AllDeclared(run + [e])
    ensures PressStep(After(run), e).1 == Expected(LastKey(run), e)
  {
    var all := run + [e];
    assert all[..|all| - 1] == run && all[|all| - 1] == e;
    PunctualPrefix(all);
    forall i | 0 <= i < |run| ensures run[i].time <= e.time && Declared(run[i]) {
      assert all[i] == run[i];
    }
    AlwaysTracks(run, e.time);
    AlwaysOneTimer(run);
    hide Punctual, OnTime, OneTimer, Tracks, Step;
    TracksStep(After(run), LastKey(run), e.time, e);
  }

  /** Main result: a g binding fires on a key exactly when the last key that counted was a g pressed less than
      a second earlier. */
  lemma LeaderIff(run: seq<Event>, e: Event)
    requires e.Press? && Punctual(run + [e]) && AllDeclared(run + [e]) && "g " + e.key in e.bound
    ensures Combo(e.key) in PressStep(After(run), e).1 <==>
              Counts(e) && e.key != "Escape" && Leads(LastKey(run), e.time)
  {
    KeysAsExpected(run, e);
    hide PressStep, Leads, LastKey, After;
  }

  // ---------------------------------------------------------------- keys before an overdue timer rings

  predicate InOrder(run: seq<Event>) { forall i, j :: 0 <= i < j < |run| ==> run[i].time <= run[j].time }

  /** The event at q is the timer of the g at p. */
  predicate RingsFor(run: seq<Event>, p: nat, q: nat)
    requires p < |run| && q < |run|
  {
    run[q].Ring? && run[q].id == Gs(run[..p])
  }

  /** No timer rings before its second is over; it may ring at any time after, or never. */
  ghost predicate NeverEarly(run: seq<Event>) {
    forall p, q :: 0 <= p < q < |run| && Counts(run[p]) && run[p].key == "g" && RingsFor(run, p, q) ==>
      run[p].time + 1_000 <= run[q].time
  }

  /** A g leads although its second is over. */
  ghost predicate Overdue(run: seq<Event>, time: int) {
    exists p: nat :: LedBy(run, p) && run[p].time + 1_000 <= time
  }

  lemma {:induction false} LastKeyAt(run: seq<Event>) returns (p: nat)
    ensures LastKey(run).None? ==> forall q :: 0 <= q < |run| ==> !Counts(run[q])
    ensures LastKey(run).Some? ==> p < |run| && run[p] == LastKey(run).value && Counts(run[p]) &&
                                   forall q :: p < q < |run| ==> !Counts(run[q])
  {
    p := 0;
    if run != [] && !Counts(run[|run| - 1]) {
      p := LastKeyAt(run[..|run| - 1]);
    } else if run != [] {
      p := |run| - 1;
    }
  }

  /** Only the last key that counts can lead. */
  lemma LedIsLast(run: seq<Event>, p: nat)
    requires LedBy(run, p)
    ensures LastKey(run) == Some(run[p])
  {
    var last := LastKeyAt(run);
    hide LastKey, Counts;
  }

  /** A g younger than a second leads, whatever rings. */
  lemma YoungLeads(run: seq<Event>, time: int) returns (p: nat)
    requires NeverEarly(run) && Leads(LastKey(run), time)
    requires forall i :: 0 <= i < |run| ==> run[i].time <= time
    ensures LedBy(run, p) && run[p].time + 1_000 > time
  {
    p := LastKeyAt(run);
    hide LastKey, Counts, Gs;
  }

  /** Main result: as long as no timer rings early, a key does what the last key and the clock say, unless the timer of
      the g that leads is overdue and the key has a binding behind g: exactly then that binding fires too late. */
  lemma LateIff(run: seq<Event>, e: Event)
    requires e.Press? && InOrder(run + [e]) && NeverEarly(run) && AllDeclared(run + [e])
    ensures PressStep(After(run), e).1 == Expected(LastKey(run), e) <==>
              !(Overdue(run, e.time) && Counts(e) && e.key != "Escape" && "g " + e.key in e.bound)
  {
    var all := run + [e];
    assert all[|run|] == e && forall i :: 0 <= i < |run| ==> all[i] == run[i];
    KeysInEveryRun(run, e);
    if Leads(LastKey(run), e.time) {
      var p := YoungLeads(run, e.time);
      OneLeads(run, p);
    } else {
      forall p: nat | LedBy(run, p) ensures run[p].time + 1_000 <= e.time {
        LedIsLast(run, p);
      }
    }
    hide PressStep, After, LedBy, NeverEarly, LastKey, InOrder, AllDeclared;
  }
}
