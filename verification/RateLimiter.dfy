/** The login rate limiter (internal/api/v1/ratelimit.go): fixed windows per address, with an opportunistic
    sweep of expired windows. Times and durations are in nanoseconds; the clock is a parameter.
 */
module RateLimiter {
  const NANOS := 1_000_000_000
  const SWEEP_ABOVE := 1024

  datatype Limits = Limits(max: int, window: int)
  datatype Win = Win(count: int, reset: int)
  datatype Verdict = Verdict(ok: bool, retry: int)
  datatype Attempt = Attempt(key: string, now: int)

  type Table = map<string, Win>

  /** A window still counts at its reset instant. */
  predicate Live(m: Table, key: string, now: int) { key in m && now <= m[key].reset }

  function Swept(m: Table, now: int): Table { map k | k in m && now <= m[k].reset :: m[k] }

  /** The windows left when a new one is opened. */
  function Kept(sweeps: bool, m: Table, now: int): Table {
    if sweeps && |m| > SWEEP_ABOVE then Swept(m, now) else m
  }

  /** One call of allow; sweeps tells the real limiter from one that never drops a window. */
  function AllowStep(l: Limits, sweeps: bool, m: Table, a: Attempt): (Table, Verdict) {
    if !Live(m, a.key, a.now) then (Kept(sweeps, m, a.now)[a.key := Win(1, a.now + l.window)], Verdict(true, 0))
    else if m[a.key].count >= l.max then (m, Verdict(false, m[a.key].reset - a.now))
    else (m[a.key := Win(m[a.key].count + 1, m[a.key].reset)], Verdict(true, 0))
  }

  class HitWindow {
    var count: int
    var reset: int

    constructor (count: int, reset: int)
      ensures this.count == count && this.reset == reset
    {
      this.count, this.reset := count, reset;
    }
  }

  class Limiter {
    const limits: Limits
    var hits: map<string, HitWindow>

    /** No two addresses share a window object. */
    ghost predicate Valid()
      reads this
    {
      forall a, b :: a in hits && b in hits && a != b ==> hits[a] != hits[b]
    }

    ghost function View(): Table
      reads this, hits.Values
    {
      map k | k in hits :: Win(hits[k].count, hits[k].reset)
    }

    constructor (max: int, window: int)
      ensures Valid() && limits == Limits(max, window) && View() == map[]
    {
      limits, hits := Limits(max, window), map[];
    }

    method Allow(key: string, now: int) returns (ok: bool, retry: int)
      requires Valid()
      modifies this, hits.Values
      ensures Valid() && fresh(hits.Values - old(hits.Values))
      ensures (View(), Verdict(ok, retry)) == AllowStep(limits, true, old(View()), Attempt(key, now))
    {
      hide Kept, Swept;
      if key !in hits || now > hits[key].reset {
        OpenWindow(key, now);
        return true, 0;
      }
      var w := hits[key];
      if w.count >= limits.max {
        return false, w.reset - now;
      }
      ghost var before := View();
      w.count := w.count + 1;
      assert View() == before[key := Win(w.count, w.reset)];
      return true, 0;
    }

    method OpenWindow(key: string, now: int)
      requires Valid()
      modifies this`hits
      ensures Valid() && fresh(hits.Values - old(hits.Values))
      ensures View() == Kept(true, old(View()), now)[key := Win(1, now + limits.window)]
    {
      hide Swept;
      ghost var before := View();
      SameSize(hits, before);
      if |hits| > SWEEP_ABOVE {
        Sweep(now);
      }
      PutWindow(key, now + limits.window);
    }

    method PutWindow(key: string, reset: int)
      requires Valid()
      modifies this`hits
      ensures Valid() && fresh(hits.Values - old(hits.Values))
      ensures View() == old(View())[key := Win(1, reset)]
    {
      var w := new HitWindow(1, reset);
      hits := hits[key := w];
      assert View() == old(View())[key := Win(1, reset)];
    }

    method Sweep(now: int)
      requires Valid()
      modifies this`hits
      ensures Valid() && hits.Keys <= old(hits).Keys && hits.Values <= old(hits).Values
      ensures forall k :: k in hits ==> hits[k] == old(hits)[k]
      ensures View() == Swept(old(View()), now)
    {
      var todo := hits.Keys;
      while todo != {}
        invariant hits.Keys <= old(hits).Keys
        invariant forall k :: k in hits ==> hits[k] == old(hits)[k]
        invariant forall k :: k in old(hits) ==> (k in hits <==> k in todo || now <= old(hits)[k].reset)
        decreases todo
      {
        var k :| k in todo;
        todo := todo - {k};
        if k in hits && now > hits[k].reset {
          hits := hits - {k};
        }
      }
    }
  }

  lemma SameSize(hits: map<string, HitWindow>, view: Table)
    requires view.Keys == hits.Keys
    ensures |view| == |hits|
  {
    assert |view.Keys| == |view| && |hits.Keys| == |hits|;
  }

  // ---------------------------------------------------------------- runs

  predicate ClockForward(run: seq<Attempt>) {
    forall i, j :: 0 <= i < j < |run| ==> run[i].now <= run[j].now
  }

  predicate AllBefore(run: seq<Attempt>, now: int) { forall i :: 0 <= i < |run| ==> run[i].now <= now }

  function TableAfter(l: Limits, sweeps: bool, run: seq<Attempt>): Table {
    if run == [] then map[]
    else AllowStep(l, sweeps, TableAfter(l, sweeps, run[..|run| - 1]), run[|run| - 1]).0
  }

  /** The verdict on the last attempt of a run. */
  function VerdictOf(l: Limits, sweeps: bool, run: seq<Attempt>): Verdict
    requires run != []
  {
    AllowStep(l, sweeps, TableAfter(l, sweeps, run[..|run| - 1]), run[|run| - 1]).1
  }

  // ---------------------------------------------------------------- the sweep cannot be observed

  /** The two tables have the same live windows. */
  ghost predicate Similar(m: Table, n: Table, now: int) {
    forall k :: (Live(m, k, now) <==> Live(n, k, now)) && (Live(m, k, now) ==> m[k] == n[k])
  }

  lemma SimilarStep(l: Limits, m: Table, n: Table, a: Attempt)
    requires Similar(m, n, a.now)
    ensures AllowStep(l, true, m, a).1 == AllowStep(l, false, n, a).1
    ensures Similar(AllowStep(l, true, m, a).0, AllowStep(l, false, n, a).0, a.now)
  {
    assert Live(m, a.key, a.now) <==> Live(n, a.key, a.now);
  }

  lemma SimilarLater(m: Table, n: Table, now: int, later: int)
    requires Similar(m, n, now) && now <= later
    ensures Similar(m, n, later)
  {
    forall k ensures (Live(m, k, later) <==> Live(n, k, later)) && (Live(m, k, later) ==> m[k] == n[k]) {
      assert Live(m, k, later) ==> Live(m, k, now);
      assert Live(n, k, later) ==> Live(n, k, now);
    }
  }

  lemma {:induction false} AlwaysSimilar(l: Limits, run: seq<Attempt>, now: int)
    requires ClockForward(run) && AllBefore(run, now)
    ensures Similar(TableAfter(l, true, run), TableAfter(l, false, run), now)
  {
    if run == [] {
    } else {
      var before, a := run[..|run| - 1], run[|run| - 1];
      AlwaysSimilar(l, before, a.now);
      hide Similar, AllowStep;
      SimilarStep(l, TableAfter(l, true, before), TableAfter(l, false, before), a);
      SimilarLater(TableAfter(l, true, run), TableAfter(l, false, run), a.now, now);
    }
  }

  /** A table of up to 1024 windows is left alone. */
  lemma NoSweepBelow(l: Limits, m: Table, a: Attempt)
    requires |m| <= 1024
    ensures AllowStep(l, true, m, a) == AllowStep(l, false, m, a)
  {}

  /** Main result: the sweep never changes a verdict. */
  lemma SweepUnobservable(l: Limits, run: seq<Attempt>)
    requires ClockForward(run) && run != []
    ensures VerdictOf(l, true, run) == VerdictOf(l, false, run)
  {
    var before, a := run[..|run| - 1], run[|run| - 1];
    AlwaysSimilar(l, before, a.now);
    hide Similar, AllowStep, TableAfter;
    SimilarStep(l, TableAfter(l, true, before), TableAfter(l, false, before), a);
  }

  // ---------------------------------------------------------------- the size of the table

  /** The addresses that tried within one window length before instant t. */
  ghost function Recent(l: Limits, run: seq<Attempt>, t: int): set<string> {
    set i | 0 <= i < |run| && t - l.window <= run[i].now <= t :: run[i].key
  }

  /** Every window kept was opened by an attempt of its address. */
  ghost predicate Traced(l: Limits, m: Table, run: seq<Attempt>) {
    forall k :: k in m ==> exists i :: 0 <= i < |run| && run[i].key == k && m[k].reset == run[i].now + l.window
  }

  lemma {:induction false} AlwaysTraced(l: Limits, run: seq<Attempt>)
    ensures Traced(l, TableAfter(l, true, run), run)
  {
    if run == [] {
    } else {
      var before, a := run[..|run| - 1], run[|run| - 1];
      AlwaysTraced(l, before);
      var m, t := TableAfter(l, true, before), TableAfter(l, true, run);
      forall k | k in t ensures exists i :: 0 <= i < |run| && run[i].key == k && t[k].reset == run[i].now + l.window {
        if k == a.key && !Live(m, k, a.now) {
          assert run[|run| - 1].key == k;
        } else {
          assert k in m && t[k].reset == m[k].reset;
          var i :| 0 <= i < |before| && before[i].key == k && m[k].reset == before[i].now + l.window;
          assert run[i] == before[i];
        }
      }
    }
  }

  /** Few windows are kept, or all of them were live at instant t; and none was opened later. */
  predicate Small(l: Limits, m: Table, t: int) {
    && (|m| <= SWEEP_ABOVE + 1 || forall k :: k in m ==> t <= m[k].reset)
    && forall k :: k in m ==> m[k].reset - l.window <= t
  }

  lemma SmallStep(l: Limits, m: Table, a: Attempt, t: int)
    requires Small(l, m, t) && l.window >= 0 && t <= a.now
    ensures Small(l, AllowStep(l, true, m, a).0, if Live(m, a.key, a.now) then t else a.now)
  {
    if Live(m, a.key, a.now) {
      PutSize(m, a.key, Win(m[a.key].count + 1, m[a.key].reset));
    } else {
      var kept := Kept(true, m, a.now);
      PutSize(kept, a.key, Win(1, a.now + l.window));
      KeptSmall(m, a.now);
      hide Kept;
    }
  }

  lemma PutSize(m: Table, key: string, w: Win)
    ensures |m[key := w]| <= |m| + 1 && (key in m ==> |m[key := w]| == |m|)
  {
    var n := m[key := w];
    assert n.Keys == m.Keys + {key} && |n| == |n.Keys| && |m| == |m.Keys|;
  }

  lemma KeptSmall(m: Table, now: int)
    ensures var kept := Kept(true, m, now);
      && (|kept| <= SWEEP_ABOVE || forall k :: k in kept ==> now <= kept[k].reset)
      && forall k :: k in kept ==> k in m && kept[k] == m[k]
  {}

  /** t is the instant of the last attempt so far that opened a window. */
  lemma {:induction false} AlwaysSmall(l: Limits, run: seq<Attempt>) returns (t: int)
    requires l.window >= 0 && ClockForward(run) && run != []
    ensures Small(l, TableAfter(l, true, run), t) && t <= run[|run| - 1].now
    ensures exists i :: 0 <= i < |run| && run[i].now == t
  {
    var before, a := run[..|run| - 1], run[|run| - 1];
    if before == [] {
      t := a.now;
    } else {
      t := AlwaysSmall(l, before);
      var i :| 0 <= i < |before| && before[i].now == t;
      assert run[i].now == t && before[|before| - 1] == run[|run| - 2];
      SmallStep(l, TableAfter(l, true, before), a, t);
      hide Small;
      if !Live(TableAfter(l, true, before), a.key, a.now) {
        t := a.now;
      }
    }
  }

  /** Main result: the sweep keeps the table small: 1025 windows at most, or no more than there were addresses trying
      within one window length before some attempt, over every run with a clock that never goes back. */
  lemma TableStaysSmall(l: Limits, run: seq<Attempt>) returns (t: int)
    requires l.window >= 0 && ClockForward(run) && run != []
    ensures exists i :: 0 <= i < |run| && run[i].now == t
    ensures |TableAfter(l, true, run)| <= 1025 || |TableAfter(l, true, run)| <= |Recent(l, run, t)|
  {
    t := AlwaysSmall(l, run);
    AlwaysTraced(l, run);
    hide TableAfter;
    var m := TableAfter(l, true, run);
    if |m| > SWEEP_ABOVE + 1 {
      forall k | k in m.Keys ensures k in Recent(l, run, t) {
        var i :| 0 <= i < |run| && run[i].key == k && m[k].reset == run[i].now + l.window;
        assert run[i].key in Recent(l, run, t);
      }
      var rest := Recent(l, run, t) - m.Keys;
      assert Recent(l, run, t) == m.Keys + rest && |m| == |m.Keys|;
    }
  }

  // ---------------------------------------------------------------- the sliding bound

  /** How many attempts of a key were let through in the closed interval from a to b. */
  function Granted(l: Limits, run: seq<Attempt>, key: string, a: int, b: int): nat {
    if run == [] then 0
    else
      var last := run[|run| - 1];
      Granted(l, run[..|run| - 1], key, a, b) +
      if last.key == key && a <= last.now <= b && VerdictOf(l, true, run).ok then 1 else 0
  }

  /** A limit below one still lets the opening attempt of each window through. */
  function PerWindow(l: Limits): int { if l.max >= 1 then l.max else 1 }

  /** n times x, by repeated addition. */
  function Times(n: nat, x: int): int { if n == 0 then 0 else Times(n - 1, x) + x }

  lemma {:induction false} TimesIs(n: nat, x: int)
    ensures Times(n, x) == n * x
  {
    if n > 0 {
      TimesIs(n - 1, x);
    }
  }

  lemma TimesStep(n: nat, x: int)
    ensures Times(0, x) == 0 && Times(1, x) == x && Times(n + 1, x) == Times(n, x) + x
  {}

  lemma {:induction false} TimesGrows(m: nat, n: nat, x: nat)
    requires m <= n
    ensures Times(m, x) <= Times(n, x)
  {
    if m < n {
      TimesGrows(m, n - 1, x);
    }
  }

  /** Since instant a, the key has used k windows, the first opened at f and the last still in the table,
      and was let through g times. */
  predicate Paced(l: Limits, w: Win, a: int, g: nat, k: nat, f: int) {
    && k >= 1 && f + l.window >= a
    && g <= Times(k - 1, PerWindow(l)) + w.count - (if f < a then 1 else 0)
    && w.reset >= f + Times(k, l.window) && (k >= 2 ==> w.reset > f + Times(k, l.window))
  }

  ghost predicate Tally(l: Limits, m: Table, key: string, a: int, g: nat, k: nat, f: int) {
    if key !in m then g == 0
    else
      && 1 <= m[key].count <= PerWindow(l)
      && (g == 0 ==> m[key].reset - l.window < a)
      && (g > 0 ==> Paced(l, m[key], a, g, k, f))
  }

  /** One attempt: a new window adds one to k, an old one only counts up. */
  lemma TallyStep(l: Limits, m: Table, key: string, a: int, g: nat, k: nat, f: int, at: int) returns (k': nat, f': int)
    requires l.window >= 0 && Tally(l, m, key, a, g, k, f) && (g > 0 ==> at >= a)
    ensures var (t, v) := AllowStep(l, false, m, Attempt(key, at));
            Tally(l, t, key, a, if at >= a && v.ok then g + 1 else g, k', f')
  {
    OneAtLeast(l);
    hide PerWindow, Times;
    if Live(m, key, at) {
      k', f' := if g == 0 then 1 else k, if g == 0 then m[key].reset - l.window else f;
    } else {
      k', f' := if g == 0 then 1 else k + 1, if g == 0 then at else f;
    }
    TimesStep(k, l.window);
    TimesStep(if k == 0 then 0 else k - 1, PerWindow(l));
  }

  lemma OneAtLeast(l: Limits)
    ensures PerWindow(l) >= 1 && PerWindow(l) >= l.max
  {}

  lemma {:induction false} GrantedLate(l: Limits, run: seq<Attempt>, key: string, a: int, b: int)
    requires ClockForward(run) && Granted(l, run, key, a, b) > 0
    ensures run != [] && run[|run| - 1].now >= a
  {
    hide VerdictOf;
    if run != [] && Granted(l, run[..|run| - 1], key, a, b) > 0 {
      GrantedLate(l, run[..|run| - 1], key, a, b);
    }
  }

  lemma {:induction false} AlwaysTally(l: Limits, run: seq<Attempt>, key: string, a: int, b: int)
    returns (k: nat, f: int)
    requires ClockForward(run) && AllBefore(run, b) && l.window >= 0
    ensures Tally(l, TableAfter(l, false, run), key, a, Granted(l, run, key, a, b), k, f)
    ensures key in TableAfter(l, false, run) ==> TableAfter(l, false, run)[key].reset - l.window <= b
  {
    if run == [] {
      k, f := 1, 0;
    } else {
      var before, last := run[..|run| - 1], run[|run| - 1];
      k, f := AlwaysTally(l, before, key, a, b);
      SweepUnobservable(l, run);
      if Granted(l, before, key, a, b) > 0 {
        GrantedLate(l, before, key, a, b);
      }
      if last.key == key {
        hide Tally;
        k, f := TallyStep(l, TableAfter(l, false, before), key, a, Granted(l, before, key, a, b), k, f, last.now);
      }
    }
  }

  lemma {:induction false} GrantedUpTo(l: Limits, run: seq<Attempt>, key: string, a: int, b: int) returns (n: nat)
    requires ClockForward(run)
    ensures n <= |run| && ClockForward(run[..n]) && AllBefore(run[..n], b)
    ensures Granted(l, run[..n], key, a, b) == Granted(l, run, key, a, b)
  {
    hide VerdictOf;
    if run == [] || run[|run| - 1].now <= b {
      n := |run|;
      assert run[..n] == run;
    } else {
      n := GrantedUpTo(l, run[..|run| - 1], key, a, b);
      assert run[..|run| - 1][..n] == run[..n];
    }
  }

  /** k full windows fit into what n window lengths allow. */
  lemma WindowCount(l: Limits, w: Win, a: int, g: nat, k: nat, f: int, n: nat)
    requires l.window >= 0 && w.count <= PerWindow(l)
    requires Paced(l, w, a, g, k, f) && w.reset - l.window <= a + Times(n, l.window)
    ensures g <= Times(n + 1, PerWindow(l)) - (if n >= 1 then 1 else 0)
  {
    OneAtLeast(l);
    hide PerWindow, Times;
    var most := if f < a || n == 0 then n + 1 else n;
    TimesStep(n, l.window);
    TimesStep(n, PerWindow(l));
    TimesStep(n + 1, l.window);
    TimesStep(k - 1, PerWindow(l));
    if k > most {
      TimesGrows(most + 1, k, l.window);
      assert false;
    } else {
      TimesGrows(k, most, PerWindow(l));
    }
  }

  /** Main result: in any closed interval of n window lengths one key is let through at most
      (n + 1) * max times, one less when n is at least 1, over every run with a clock that never goes back. */
  lemma SlidingBound(l: Limits, run: seq<Attempt>, key: string, a: int, n: nat)
    requires ClockForward(run) && l.window >= 0
    ensures Granted(l, run, key, a, a + n * l.window) <= (n + 1) * PerWindow(l) - if n >= 1 then 1 else 0
  {
    var b := a + n * l.window;
    OneAtLeast(l);
    TimesIs(n, l.window);
    TimesIs(n + 1, PerWindow(l));
    TimesGrows(1, n + 1, PerWindow(l));
    var m := GrantedUpTo(l, run, key, a, b);
    var k, f := AlwaysTally(l, run[..m], key, a, b);
    hide Granted, TableAfter, PerWindow, Paced, Times;
    TimesStep(0, PerWindow(l));
    var g, t := Granted(l, run[..m], key, a, b), TableAfter(l, false, run[..m]);
    if g > 0 {
      WindowCount(l, t[key], a, g, k, f, n);
    }
  }

  function Burst(key: string, at: int, n: nat): seq<Attempt> {
    if n == 0 then [] else Burst(key, at, n - 1) + [Attempt(key, at)]
  }

  /** The key's window after a run, if it is still kept. */
  ghost predicate HasWindow(l: Limits, run: seq<Attempt>, key: string, w: Win) {
    key in TableAfter(l, true, run) && TableAfter(l, true, run)[key] == w
  }

  lemma LastGranted(l: Limits, run: seq<Attempt>, key: string, at: int, w: Win, a: int, b: int)
    requires HasWindow(l, run, key, w) && at <= w.reset && w.count < l.max && a <= at <= b
    ensures HasWindow(l, run + [Attempt(key, at)], key, Win(w.count + 1, w.reset))
    ensures Granted(l, run + [Attempt(key, at)], key, a, b) == Granted(l, run, key, a, b) + 1
  {
    hide Kept;
    assert (run + [Attempt(key, at)])[..|run|] == run;
  }

  lemma WindowOpened(l: Limits, run: seq<Attempt>, key: string, at: int, a: int, b: int)
    requires !Live(TableAfter(l, true, run), key, at)
    ensures HasWindow(l, run + [Attempt(key, at)], key, Win(1, at + l.window))
    ensures Granted(l, run + [Attempt(key, at)], key, a, b) ==
              Granted(l, run, key, a, b) + if a <= at <= b then 1 else 0
  {
    hide Kept;
    assert (run + [Attempt(key, at)])[..|run|] == run;
  }

  /** Attempts within a window that has room for them are all let through. */
  lemma {:induction false} BurstGranted(l: Limits, run: seq<Attempt>, key: string, at: int, n: nat, w: Win,
                                        a: int, b: int)
    requires HasWindow(l, run, key, w) && at <= w.reset && w.count + n <= l.max && a <= at <= b
    ensures HasWindow(l, run + Burst(key, at, n), key, Win(w.count + n, w.reset))
    ensures Granted(l, run + Burst(key, at, n), key, a, b) == Granted(l, run, key, a, b) + n
  {
    hide HasWindow, Granted;
    if n == 0 {
      assert run + Burst(key, at, n) == run;
    } else {
      var w' := Win(w.count + n - 1, w.reset);
      BurstGranted(l, run, key, at, n - 1, w, a, b);
      LastGranted(l, run + Burst(key, at, n - 1), key, at, w', a, b);
      assert run + Burst(key, at, n) == run + Burst(key, at, n - 1) + [Attempt(key, at)];
    }
  }

  /** An attempt that opens a window and then as many more, at one instant, as the window has room for. */
  function Fill(l: Limits, key: string, start: int, at: int): seq<Attempt>
    requires l.max >= 1
  {
    [Attempt(key, start)] + Burst(key, at, l.max - 1)
  }

  lemma FillGranted(l: Limits, run: seq<Attempt>, key: string, start: int, at: int, a: int, b: int)
    requires l.max >= 1 && start <= at <= start + l.window && a <= at <= b
    requires !Live(TableAfter(l, true, run), key, start)
    ensures HasWindow(l, run + Fill(l, key, start, at), key, Win(l.max, start + l.window))
    ensures Granted(l, run + Fill(l, key, start, at), key, a, b) ==
              Granted(l, run, key, a, b) + l.max - if a <= start <= b then 0 else 1
  {
    hide Granted, Burst, HasWindow;
    var started := run + [Attempt(key, start)];
    WindowOpened(l, run, key, start, a, b);
    BurstGranted(l, started, key, at, l.max - 1, Win(1, start + l.window), a, b);
    assert run + Fill(l, key, start, at) == started + Burst(key, at, l.max - 1);
  }

  /** A window filled at its last instant, and then window after window, each filled as soon as the one before it
      is over. */
  function Train(l: Limits, key: string, n: nat): seq<Attempt>
    requires l.max >= 1
  {
    if n == 0 then Fill(l, key, 0, l.window)
    else Train(l, key, n - 1) + Fill(l, key, Times(n, l.window + 1), Times(n, l.window + 1))
  }

  /** Main result: the bound is reached: n window lengths can see (n + 1) * max - 1 attempts let through, for any n
      up to the window length in nanoseconds. */
  lemma BoundIsReached(l: Limits, key: string, n: nat)
    requires l.max >= 1 && 1 <= n <= l.window
    ensures ClockForward(Train(l, key, n))
    ensures Granted(l, Train(l, key, n), key, n, n + n * l.window) == (n + 1) * l.max - 1
  {
    TrainClock(l, key, n);
    TimesIs(n, l.window + 1);
    TimesIs(n + 1, l.max);
    TimesGrows(n, n, l.window + 1);
    assert n * (l.window + 1) == n * l.window + n;
    hide *;
    TrainGranted(l, key, n, n, n + n * l.window);
  }

  lemma {:induction false} TrainGranted(l: Limits, key: string, k: nat, a: int, b: int)
    requires l.max >= 1 && l.window >= 1 && 0 < a <= l.window && Times(k, l.window + 1) <= b && l.window <= b
    ensures HasWindow(l, Train(l, key, k), key, Win(l.max, Times(k, l.window + 1) + l.window))
    ensures Granted(l, Train(l, key, k), key, a, b) == Times(k + 1, l.max) - 1
  {
    hide *;
    TrainStep(l, key, k);
    TimesStep(k, l.max);
    if k == 0 {
      NothingYet(l, key, a, b);
      FillGranted(l, [], key, 0, l.window, a, b);
    } else {
      var at := Times(k, l.window + 1);
      TimesStep(k - 1, l.window + 1);
      TimesGrows(1, k, l.window + 1);
      TimesStep(0, l.window + 1);
      TrainGranted(l, key, k - 1, a, b);
      PastReset(l, Train(l, key, k - 1), key, Win(l.max, Times(k - 1, l.window + 1) + l.window), at);
      FillGranted(l, Train(l, key, k - 1), key, at, at, a, b);
    }
  }

  lemma TrainStep(l: Limits, key: string, k: nat)
    requires l.max >= 1
    ensures k == 0 ==> Train(l, key, k) == [] + Fill(l, key, 0, l.window) && Times(0, l.window + 1) == 0
    ensures var at := Times(k, l.window + 1);
            k > 0 ==> Train(l, key, k) == Train(l, key, k - 1) + Fill(l, key, at, at)
  {}

  lemma NothingYet(l: Limits, key: string, a: int, b: int)
    ensures !Live(TableAfter(l, true, []), key, 0) && Granted(l, [], key, a, b) == 0
  {}

  lemma PastReset(l: Limits, run: seq<Attempt>, key: string, w: Win, at: int)
    requires HasWindow(l, run, key, w) && at > w.reset
    ensures !Live(TableAfter(l, true, run), key, at)
  {}

  lemma {:induction false} TrainClock(l: Limits, key: string, n: nat)
    requires l.max >= 1 && l.window >= 1
    ensures ClockForward(Train(l, key, n)) && AllBefore(Train(l, key, n), Times(n, l.window + 1) + l.window)
  {
    var at := Times(n, l.window + 1);
    BurstTimes(key, l.window, l.max - 1);
    BurstTimes(key, at, l.max - 1);
    hide Burst;
    if n > 0 {
      TrainClock(l, key, n - 1);
    }
  }

  lemma {:induction false} BurstTimes(key: string, at: int, n: nat)
    ensures forall i :: 0 <= i < |Burst(key, at, n)| ==> Burst(key, at, n)[i].now == at
  {
    if n > 0 {
      BurstTimes(key, at, n - 1);
    }
  }

  /** More than (n + 1) * max attempts of a key in n window lengths. */
  ghost predicate Exceeds(l: Limits, run: seq<Attempt>, key: string, a: int, n: nat) {
    ClockForward(run) && Granted(l, run, key, a, a + n * l.window) > (n + 1) * l.max
  }

  /** Main result: some run exceeds (n + 1) * max exactly when max is below one, because the attempt that opens a
      window is let through unseen. */
  lemma ExceededIff(l: Limits, n: nat)
    requires l.window >= 0
    ensures (exists run: seq<Attempt>, key, a :: Exceeds(l, run, key, a, n)) <==> l.max < 1
  {
    if l.max < 1 {
      OneGranted(l, "", n);
    } else {
      forall run: seq<Attempt>, key, a ensures !Exceeds(l, run, key, a, n) {
        if ClockForward(run) {
          SlidingBound(l, run, key, a, n);
        }
      }
    }
  }

  lemma OneGranted(l: Limits, key: string, n: nat)
    requires l.max < 1 && l.window >= 0
    ensures Exceeds(l, [Attempt(key, 0)], key, 0, n)
  {
    var run := [Attempt(key, 0)];
    assert run[..0] == [];
    TimesIs(n, l.window);
    TimesGrows(0, n, l.window);
    assert (n + 1) * l.max <= 0;
  }

  // ---------------------------------------------------------------- Retry-After

  /** The header: the whole seconds left, plus one. */
  function RetryAfter(retry: int): int { retry / NANOS + 1 }

  lemma {:induction false} OthersDoNotMatter(l: Limits, run: seq<Attempt>, others: seq<Attempt>, key: string)
    requires forall i :: 0 <= i < |others| ==> others[i].key != key
    requires key in TableAfter(l, false, run)
    ensures key in TableAfter(l, false, run + others)
    ensures TableAfter(l, false, run + others)[key] == TableAfter(l, false, run)[key]
  {
    if others == [] {
      assert run + others == run;
    } else {
      var rest := others[..|others| - 1];
      OthersDoNotMatter(l, run, rest, key);
      assert (run + others)[..|run + others| - 1] == run + rest;
    }
  }

  /** Main result: after a rejection the advertised number of seconds is the least whole number of seconds
      after which the same key, not having tried in between, is let through again. */
  lemma RetryAfterIsExact(l: Limits, run: seq<Attempt>, others: seq<Attempt>, seconds: nat)
    requires run != [] && !VerdictOf(l, true, run).ok
    requires forall i :: 0 <= i < |others| ==> others[i].key != run[|run| - 1].key
    requires ClockForward(Retried(run, others, seconds))
    ensures VerdictOf(l, true, Retried(run, others, seconds)).ok <==>
              seconds >= RetryAfter(VerdictOf(l, true, run).retry)
  {
    var last, all := run[|run| - 1], Retried(run, others, seconds);
    var before, m := run[..|run| - 1], TableAfter(l, false, run[..|run| - 1]);
    ClockPrefix(all, |run|);
    assert all[..|run|] == run && all[..|all| - 1] == run + others;
    SweepUnobservable(l, run);
    SweepUnobservable(l, all);
    OthersDoNotMatter(l, run, others, last.key);
    SecondsPast(m[last.key].reset - last.now, seconds);
  }

  function Retried(run: seq<Attempt>, others: seq<Attempt>, seconds: nat): seq<Attempt>
    requires run != []
  {
    run + others + [Attempt(run[|run| - 1].key, run[|run| - 1].now + seconds * 1_000_000_000)]
  }

  lemma ClockPrefix(run: seq<Attempt>, n: nat)
    requires ClockForward(run) && n <= |run|
    ensures ClockForward(run[..n])
  {}

  lemma SecondsPast(retry: int, seconds: nat)
    ensures seconds * NANOS > retry <==> seconds >= RetryAfter(retry)
  {}
}
