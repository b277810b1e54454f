/** The rows the mock lists (internal/fleet/mock.go): how its events are built, which rows an endpoint selects,
    and the order it gives them.
 */
module MockRows {
  import opened Lex
  import opened MockIds
  import opened Options

  /** One row of a listing; every kind has an identifier that doubles as its cursor. */
  datatype Row =
    | EventRow(id: string, ts: int, host: string, severity: string, kind: string, level: Option<string>)
    | HostRow(id: string, status: string, risk: Option<Risk>)
    | RiskRow(id: string, score: real, bucket: string, topTool: string)
    | ComplianceRow(id: string, applied: int, drift: int, expired: bool, failures: int)

  /** The current risk of a host; its top tool is taken as given. */
  datatype Risk = Risk(score: real, bucket: string, topTool: string)

  datatype Policy = Policy(applied: int, expired: bool)

  datatype Host = Host(id: string, status: string, risk: Option<Risk>, policy: Option<Policy>, drift: int,
                       failures: int)

  /** Listings resume by identifier, so no two rows may share one and none may be empty. */
  ghost predicate Distinct(rows: seq<Row>) {
    (forall i, j :: 0 <= i < j < |rows| ==> rows[i].id != rows[j].id) && Named(rows)
  }

  predicate Named(rows: seq<Row>) { forall i :: 0 <= i < |rows| ==> rows[i].id != "" }

  ghost predicate Descending(rows: seq<Row>) {
    forall i, j :: 0 <= i < j < |rows| ==> Less(rows[j].id, rows[i].id)
  }

  // ---------------------------------------------------------------- building events

  const STAGGER := 2_640_000_000_000
  const NANOS_PER_MILLI := 1_000_000

  datatype Recipe = Recipe(host: string, severity: string, kind: string, level: Option<string>)

  /** 44 minutes before the event before it. */
  function Stamp(seed: int, i: nat): int { seed - i * STAGGER }

  function EventAt(seed: int, recipes: seq<Recipe>, i: nat): Row
    requires i < |recipes| < COUNTERS
  {
    var r, ts := recipes[i], Stamp(seed, i);
    EventRow(UuidAt(ts / NANOS_PER_MILLI, |recipes| - i), ts, r.host, r.severity, r.kind, r.level)
  }

  function InsertEvent(t: seq<Row>, e: Row): seq<Row> {
    if t == [] then [e]
    else if Less(t[|t| - 1].id, e.id) then InsertEvent(t[..|t| - 1], e) + [t[|t| - 1]]
    else t + [e]
  }

  /** The stable sort by descending identifier. */
  function SortById(s: seq<Row>): seq<Row> {
    if s == [] then [] else InsertEvent(SortById(s[..|s| - 1]), s[|s| - 1])
  }

  lemma {:induction false} SortByIdKeeps(s: seq<Row>)
    requires Descending(s)
    ensures SortById(s) == s
  {
    if s == [] {
    } else {
      var before, e := s[..|s| - 1], s[|s| - 1];
      SortByIdKeeps(before);
      assert s == before + [e];
      if before != [] {
        LessAsymmetric(e.id, before[|before| - 1].id);
      }
    }
  }

  lemma {:induction false} InsertEventAt(t: seq<Row>, e: Row) returns (k: nat)
    ensures k <= |t| && InsertEvent(t, e) == t[..k] + [e] + t[k..]
    ensures k > 0 ==> !Less(t[k - 1].id, e.id)
    ensures forall i :: k <= i < |t| ==> Less(t[i].id, e.id)
  {
    hide Less;
    if t != [] && Less(t[|t| - 1].id, e.id) {
      k := InsertEventAt(t[..|t| - 1], e);
    } else {
      k := |t|;
    }
  }

  /** An event with an identifier of its own finds its one place. */
  lemma InsertedDescends(t: seq<Row>, e: Row, k: nat)
    requires Descending(t) && k <= |t| && (k > 0 ==> !Less(t[k - 1].id, e.id))
    requires forall i :: k <= i < |t| ==> Less(t[i].id, e.id)
    requires forall i :: 0 <= i < |t| ==> t[i].id != e.id
    ensures Descending(t[..k] + [e] + t[k..])
  {
    hide Less;
    var u := t[..k] + [e] + t[k..];
    forall i | 0 <= i < k ensures Less(e.id, t[i].id) {
      LessTotal(t[k - 1].id, e.id);
      if i < k - 1 {
        LessTransitive(e.id, t[k - 1].id, t[i].id);
      }
    }
    forall i, j | 0 <= i < j < |u| ensures Less(u[j].id, u[i].id) {
      assert u[i] == if i < k then t[i] else if i == k then e else t[i - 1];
      assert u[j] == if j < k then t[j] else if j == k then e else t[j - 1];
    }
  }

  ghost predicate Unlike(a: Row, b: Row) { a.id != b.id }

  lemma {:induction false} SortByIdDescends(s: seq<Row>)
    requires forall i, j :: 0 <= i < j < |s| ==> Unlike(s[i], s[j])
    ensures Descending(SortById(s)) && multiset(SortById(s)) == multiset(s)
  {
    hide Less, InsertEvent;
    if s == [] {
    } else {
      var before, e := s[..|s| - 1], s[|s| - 1];
      SortByIdDescends(before);
      assert s == before + [e];
      var t := SortById(before);
      forall i | 0 <= i < |t| ensures t[i].id != e.id {
        assert t[i] in multiset(before);
        var j :| 0 <= j < |before| && before[j] == t[i];
        assert Unlike(s[j], e);
      }
      var k := InsertEventAt(t, e);
      InsertedDescends(t, e, k);
      RowsAround(t, e, k);
      hide Descending;
    }
  }

  /** The whole span of the events lies where 48 bits of milliseconds reach. */
  predicate InEpoch(seed: int, n: nat) {
    n > 0 ==> 0 <= Stamp(seed, n - 1) / NANOS_PER_MILLI && seed / NANOS_PER_MILLI < EPOCH
  }

  lemma OlderIsLess(seed: int, recipes: seq<Recipe>, i: nat, j: nat)
    requires i < j < |recipes| < COUNTERS && InEpoch(seed, |recipes|)
    ensures Less(EventAt(seed, recipes, j).id, EventAt(seed, recipes, i).id)
  {
    hide Less, UuidAt, Stamp, GroupsOf;
    var n := |recipes|;
    StampOrder(seed, i, j);
    StampOrder(seed, j, n - 1);
    StampOrder(seed, 0, i);
    assert EventAt(seed, recipes, i).id == UuidAt(Stamp(seed, i) / NANOS_PER_MILLI, n - i);
    assert EventAt(seed, recipes, j).id == UuidAt(Stamp(seed, j) / NANOS_PER_MILLI, n - j);
    LaterIsGreater(Stamp(seed, j) / NANOS_PER_MILLI, n - j, Stamp(seed, i) / NANOS_PER_MILLI, n - i);
  }

  lemma StampOrder(seed: int, i: nat, j: nat)
    ensures i < j ==> Stamp(seed, j) / NANOS_PER_MILLI < Stamp(seed, i) / NANOS_PER_MILLI
    ensures i == j ==> Stamp(seed, j) / NANOS_PER_MILLI == Stamp(seed, i) / NANOS_PER_MILLI
    ensures Stamp(seed, 0) == seed
  {
    WholeMillis(seed, i);
    WholeMillis(seed, j);
  }

  lemma WholeMillis(seed: int, i: nat)
    ensures Stamp(seed, i) / NANOS_PER_MILLI == seed / NANOS_PER_MILLI - i * 2_640_000
  {}

  /** One event per recipe, newest first. */
  function Built(seed: int, recipes: seq<Recipe>): seq<Row>
    requires |recipes| < COUNTERS
  {
    seq(|recipes|, i requires 0 <= i < |recipes| => EventAt(seed, recipes, i))
  }

  method BuildEvents(seed: int, recipes: seq<Recipe>) returns (events: seq<Row>)
    requires |recipes| < COUNTERS
    ensures events == SortById(Built(seed, recipes))
  {
    hide UuidAt, SortById;
    events := [];
    for i := 0 to |recipes|
      invariant |events| == i
      invariant forall k :: 0 <= k < i ==> events[k] == EventAt(seed, recipes, k)
    {
      var r, ts := recipes[i], Stamp(seed, i);
      var id := UuidAt(ts / NANOS_PER_MILLI, |recipes| - i);
      events := events + [EventRow(id, ts, r.host, r.severity, r.kind, r.level)];
    }
    assert events == Built(seed, recipes);
    events := SortById(events);
  }

  lemma OwnIds(seed: int, recipes: seq<Recipe>, i: nat, j: nat)
    requires i < j < |recipes| < COUNTERS
    ensures Unlike(EventAt(seed, recipes, i), EventAt(seed, recipes, j))
  {
    hide UuidAt, Stamp;
    var n := |recipes|;
    UuidOrder(Stamp(seed, i) / NANOS_PER_MILLI, n - i, Stamp(seed, j) / NANOS_PER_MILLI, n - j);
    assert EventAt(seed, recipes, i).id == UuidAt(Stamp(seed, i) / NANOS_PER_MILLI, n - i);
    assert EventAt(seed, recipes, j).id == UuidAt(Stamp(seed, j) / NANOS_PER_MILLI, n - j);
  }

  /** The recipe's event, 44 minutes older for every recipe before it. */
  predicate ShowsRecipe(e: Row, seed: int, r: Recipe, i: nat) {
    && e.EventRow? && e.ts == seed - i * 44 * 60 * 1_000_000_000
    && e.host == r.host && e.severity == r.severity && e.kind == r.kind && e.level == r.level
  }

  /** Main result: whatever the seed, every recipe's event is listed once and the identifiers strictly descend;
      and while the milliseconds fit 48 bits that is the order of the recipes, newest first. */
  lemma BuiltEvents(seed: int, recipes: seq<Recipe>)
    requires |recipes| < COUNTERS
    ensures var events := SortById(Built(seed, recipes));
      && Descending(events) && Named(events) && multiset(events) == multiset(Built(seed, recipes))
      && (InEpoch(seed, |recipes|) ==> events == Built(seed, recipes))
    ensures forall i :: 0 <= i < |recipes| ==> ShowsRecipe(Built(seed, recipes)[i], seed, recipes[i], i)
  {
    assert forall i :: 0 <= i < |recipes| ==> ShowsRecipe(Built(seed, recipes)[i], seed, recipes[i], i) by {
      hide UuidAt;
    }
    hide EventAt, Less, Unlike, InEpoch, SortById;
    var built := Built(seed, recipes);
    forall i, j | 0 <= i < j < |built| ensures Unlike(built[i], built[j]) {
      OwnIds(seed, recipes, i, j);
    }
    SortByIdDescends(built);
    NamedEvents(seed, recipes);
    if InEpoch(seed, |recipes|) {
      forall i, j | 0 <= i < j < |built| ensures Less(built[j].id, built[i].id) {
        OlderIsLess(seed, recipes, i, j);
      }
      SortByIdKeeps(built);
    }
  }

  lemma NamedEvents(seed: int, recipes: seq<Recipe>)
    requires |recipes| < COUNTERS && multiset(SortById(Built(seed, recipes))) == multiset(Built(seed, recipes))
    ensures Named(SortById(Built(seed, recipes)))
  {
    hide UuidAt, Stamp, SortById;
    var built, events := Built(seed, recipes), SortById(Built(seed, recipes));
    forall i | 0 <= i < |events| ensures events[i].id != "" {
      assert events[i] in multiset(built);
      var j :| 0 <= j < |built| && built[j] == events[i];
      UuidLength(Stamp(seed, j) / NANOS_PER_MILLI, |recipes| - j);
    }
  }

  // ---------------------------------------------------------------- selecting rows

  datatype EventsParams = EventsParams(cursor: string, limit: int, hostIds: seq<string>, severity: seq<string>,
                                       kinds: seq<string>, since: Option<int>, until: Option<int>,
                                       minBucket: string)
  datatype HostsParams = HostsParams(cursor: string, limit: int, status: seq<string>, bucket: seq<string>)
  datatype RiskParams = RiskParams(cursor: string, limit: int, tool: seq<string>, minBucket: string)

  /** Unknown buckets rank below every known one. */
  function BucketRank(b: string): nat {
    if b == "low" then 1 else if b == "medium" then 2 else if b == "high" then 3 else if b == "critical" then 4 else 0
  }

  predicate BucketAtLeast(have: string, min: string) { BucketRank(have) >= BucketRank(min) }

  /** An empty filter lets everything through. */
  predicate Allows(filter: seq<string>, x: string) { |filter| > 0 ==> x in filter }

  predicate MatchesEvent(e: Row, p: EventsParams) {
    && e.EventRow?
    && (p.since.Some? ==> e.ts >= p.since.value)
    && (p.until.Some? ==> e.ts < p.until.value)
    && Allows(p.hostIds, e.host) && Allows(p.severity, e.severity) && Allows(p.kinds, e.kind)
    && (p.minBucket != "" && e.kind == "ai_guard_risk_assessed" ==>
          e.level.Some? && BucketAtLeast(e.level.value, p.minBucket))
  }

  predicate MatchesHost(h: Host, p: HostsParams) {
    Allows(p.status, h.status) && (|p.bucket| > 0 ==> h.risk.Some? && h.risk.value.bucket in p.bucket)
  }

  predicate MatchesRisk(h: Host, p: RiskParams) {
    && h.risk.Some? && Allows(p.tool, h.risk.value.topTool)
    && (p.minBucket != "" ==> BucketAtLeast(h.risk.value.bucket, p.minBucket))
  }

  function Matching(events: seq<Row>, p: EventsParams): seq<Row> {
    if events == [] then []
    else
      var before, e := Matching(events[..|events| - 1], p), events[|events| - 1];
      if MatchesEvent(e, p) then before + [e] else before
  }

  function HostRows(hosts: seq<Host>, p: HostsParams): seq<Row> {
    if hosts == [] then []
    else
      var before, h := HostRows(hosts[..|hosts| - 1], p), hosts[|hosts| - 1];
      if MatchesHost(h, p) then before + [HostRow(h.id, h.status, h.risk)] else before
  }

  function RiskRows(hosts: seq<Host>, p: RiskParams): seq<Row> {
    if hosts == [] then []
    else
      var before, h := RiskRows(hosts[..|hosts| - 1], p), hosts[|hosts| - 1];
      if MatchesRisk(h, p) then before + [RiskRow(h.id, h.risk.value.score, h.risk.value.bucket, h.risk.value.topTool)]
      else before
  }

  function ComplianceOf(h: Host): Row {
    var policy := if h.policy.Some? then h.policy.value else Policy(0, false);
    ComplianceRow(h.id, policy.applied, h.drift, policy.expired, h.failures)
  }

  function ComplianceRows(hosts: seq<Host>): seq<Row> {
    if hosts == [] then [] else ComplianceRows(hosts[..|hosts| - 1]) + [ComplianceOf(hosts[|hosts| - 1])]
  }

  ghost predicate DistinctHosts(hosts: seq<Host>) {
    && (forall i, j :: 0 <= i < j < |hosts| ==> hosts[i].id != hosts[j].id)
    && (forall i :: 0 <= i < |hosts| ==> hosts[i].id != "")
  }

  ghost predicate FromHosts(rows: seq<Row>, hosts: seq<Host>) {
    forall i :: 0 <= i < |rows| ==> exists j :: 0 <= j < |hosts| && rows[i].id == hosts[j].id
  }

  /** Every listing of hosts keeps their identifiers apart. */
  lemma {:induction false} HostRowsDistinct(hosts: seq<Host>, p: HostsParams, q: RiskParams)
    requires DistinctHosts(hosts)
    ensures Distinct(HostRows(hosts, p)) && FromHosts(HostRows(hosts, p), hosts)
    ensures Distinct(RiskRows(hosts, q)) && FromHosts(RiskRows(hosts, q), hosts)
    ensures Distinct(ComplianceRows(hosts)) && FromHosts(ComplianceRows(hosts), hosts)
  {
    hide MatchesHost, MatchesRisk;
    if hosts == [] {
    } else {
      var before, h := hosts[..|hosts| - 1], hosts[|hosts| - 1];
      HostRowsDistinct(before, p, q);
      assert hosts == before + [h];
      OneMoreRow(HostRows(before, p), before, h, HostRow(h.id, h.status, h.risk));
      if MatchesRisk(h, q) {
        RiskRowsStep(before, h, q);
        OneMoreRow(RiskRows(before, q), before, h, RiskRows(hosts, q)[|RiskRows(before, q)|]);
      }
      OneMoreRow(ComplianceRows(before), before, h, ComplianceOf(h));
      hide Distinct, FromHosts;
    }
  }

  lemma RiskRowsStep(hosts: seq<Host>, h: Host, q: RiskParams)
    requires MatchesRisk(h, q)
    ensures var rows, all := RiskRows(hosts, q), RiskRows(hosts + [h], q);
            |all| == |rows| + 1 && all == rows + [all[|rows|]] && all[|rows|].id == h.id
  {
    assert (hosts + [h])[..|hosts|] == hosts;
  }

  lemma OneMoreRow(rows: seq<Row>, hosts: seq<Host>, h: Host, r: Row)
    requires Distinct(rows) && FromHosts(rows, hosts) && DistinctHosts(hosts + [h]) && r.id == h.id
    ensures Distinct(rows + [r]) && FromHosts(rows + [r], hosts + [h]) && FromHosts(rows, hosts + [h])
  {
    var all := hosts + [h];
    assert all[|hosts|] == h;
    forall i | 0 <= i < |rows| ensures rows[i].id != r.id && exists j :: 0 <= j < |all| && rows[i].id == all[j].id {
      var j :| 0 <= j < |hosts| && rows[i].id == hosts[j].id;
      assert all[j] == hosts[j];
    }
  }

  lemma {:induction false} MatchingDescends(events: seq<Row>, p: EventsParams)
    requires Descending(events)
    ensures Descending(Matching(events, p))
    ensures forall r :: r in Matching(events, p) ==> r in events
  {
    hide MatchesEvent, Less;
    if events == [] {
    } else {
      var before, e := events[..|events| - 1], events[|events| - 1];
      MatchingDescends(before, p);
      forall r | r in Matching(before, p) ensures Less(e.id, r.id) && r in events {
        var i :| 0 <= i < |before| && before[i] == r;
        assert events[i] == r;
      }
    }
  }

  // ---------------------------------------------------------------- what the filters let through

  /** Low, medium, high and critical, in this order; a bucket of another name is below them all. */
  predicate AtLeast(have: string, min: string) {
    && (min == "low" ==> have == "low" || have == "medium" || have == "high" || have == "critical")
    && (min == "medium" ==> have == "medium" || have == "high" || have == "critical")
    && (min == "high" ==> have == "high" || have == "critical")
    && (min == "critical" ==> have == "critical")
  }

  predicate Passes(filter: seq<string>, x: string) { filter == [] || x in filter }

  /** From since on, before until, and of a host, severity, kind and risk level asked for. */
  predicate EventAsked(e: Row, p: EventsParams) {
    && e.EventRow?
    && (p.since == None || p.since.value <= e.ts) && (p.until == None || e.ts < p.until.value)
    && Passes(p.hostIds, e.host) && Passes(p.severity, e.severity) && Passes(p.kinds, e.kind)
    && (p.minBucket == "" || e.kind != "ai_guard_risk_assessed" ||
        (e.level.Some? && AtLeast(e.level.value, p.minBucket)))
  }

  predicate HostAsked(h: Host, p: HostsParams) {
    && (p.status == [] || h.status in p.status)
    && (p.bucket == [] || (h.risk.Some? && h.risk.value.bucket in p.bucket))
  }

  predicate RiskAsked(h: Host, p: RiskParams) {
    && h.risk.Some? && Passes(p.tool, h.risk.value.topTool)
    && (p.minBucket == "" || AtLeast(h.risk.value.bucket, p.minBucket))
  }

  lemma FiltersAsk(e: Row, ep: EventsParams, h: Host, hp: HostsParams, rp: RiskParams)
    ensures MatchesEvent(e, ep) <==> EventAsked(e, ep)
    ensures MatchesHost(h, hp) <==> HostAsked(h, hp)
    ensures MatchesRisk(h, rp) <==> RiskAsked(h, rp)
  {}

  /** at names, in order, the positions below n that are chosen. */
  ghost predicate Picks(at: seq<nat>, n: nat, chosen: set<nat>) {
    (forall i, j :: 0 <= i < j < |at| ==> at[i] < at[j]) && forall k: nat :: k in at <==> k < n && k in chosen
  }

  lemma PicksMore(at: seq<nat>, n: nat, chosen: set<nat>)
    requires Picks(at, n, chosen)
    ensures Picks(if n in chosen then at + [n] else at, n + 1, chosen)
  {
    forall i | 0 <= i < |at| ensures at[i] < n { assert at[i] in at; }
  }

  ghost function EventsAsked(events: seq<Row>, p: EventsParams): set<nat> {
    set k: nat | k < |events| && EventAsked(events[k], p)
  }

  ghost function HostsAsked(hosts: seq<Host>, p: HostsParams): set<nat> {
    set k: nat | k < |hosts| && HostAsked(hosts[k], p)
  }

  ghost function RisksAsked(hosts: seq<Host>, p: RiskParams): set<nat> {
    set k: nat | k < |hosts| && RiskAsked(hosts[k], p)
  }

  /** Each row is the event at its position. */
  predicate ShowsEvents(rows: seq<Row>, events: seq<Row>, at: seq<nat>) {
    |rows| == |at| && forall i :: 0 <= i < |at| ==> at[i] < |events| && rows[i] == events[at[i]]
  }

  predicate ShowsHosts(rows: seq<Row>, hosts: seq<Host>, at: seq<nat>) {
    |rows| == |at| && forall i :: 0 <= i < |at| ==> at[i] < |hosts| && ShowsHost(rows[i], hosts[at[i]])
  }

  predicate ShowsRisks(rows: seq<Row>, hosts: seq<Host>, at: seq<nat>) {
    |rows| == |at| && forall i :: 0 <= i < |at| ==> at[i] < |hosts| && ShowsRisk(rows[i], hosts[at[i]])
  }

  lemma OneMoreEvent(events: seq<Row>, rows: seq<Row>, at: seq<nat>, n: nat)
    requires n < |events| && ShowsEvents(rows, events, at)
    ensures ShowsEvents(rows + [events[n]], events, at + [n])
  {}

  lemma OneMoreHost(hosts: seq<Host>, before: seq<Row>, rows: seq<Row>, at: seq<nat>, n: nat)
    requires n < |hosts| && ShowsHosts(before, hosts, at)
    requires |rows| == |before| + 1 && rows[..|before|] == before && ShowsHost(rows[|before|], hosts[n])
    ensures ShowsHosts(rows, hosts, at + [n])
  {
    hide ShowsHost;
    assert forall i :: 0 <= i < |before| ==> rows[i] == before[i];
  }

  lemma OneMoreRisk(hosts: seq<Host>, before: seq<Row>, rows: seq<Row>, at: seq<nat>, n: nat)
    requires n < |hosts| && ShowsRisks(before, hosts, at)
    requires |rows| == |before| + 1 && rows[..|before|] == before && ShowsRisk(rows[|before|], hosts[n])
    ensures ShowsRisks(rows, hosts, at + [n])
  {
    hide ShowsRisk;
    assert forall i :: 0 <= i < |before| ==> rows[i] == before[i];
  }

  lemma NextEvent(events: seq<Row>, p: EventsParams, n: nat)
    requires n < |events|
    ensures n in EventsAsked(events, p) <==> EventAsked(events[n], p)
    ensures var before := Matching(events[..n], p);
            Matching(events[..n + 1], p) == if n in EventsAsked(events, p) then before + [events[n]] else before
  {
    assert events[..n + 1][..n] == events[..n];
    FiltersAsk(events[n], p, NO_HOST, ALL_HOSTS, ALL_RISKS);
    hide MatchesEvent, EventAsked;
  }

  lemma NextHost(hosts: seq<Host>, p: HostsParams, n: nat)
    requires n < |hosts|
    ensures var before, rows := HostRows(hosts[..n], p), HostRows(hosts[..n + 1], p);
            if n in HostsAsked(hosts, p) then
              |rows| == |before| + 1 && rows[..|before|] == before && ShowsHost(rows[|before|], hosts[n])
            else rows == before
  {
    assert hosts[..n + 1][..n] == hosts[..n];
    FiltersAsk(HostRow("", "", None), ALL_EVENTS, hosts[n], p, ALL_RISKS);
    hide MatchesHost, HostAsked;
  }

  lemma NextRisk(hosts: seq<Host>, p: RiskParams, n: nat)
    requires n < |hosts|
    ensures var before, rows := RiskRows(hosts[..n], p), RiskRows(hosts[..n + 1], p);
            if n in RisksAsked(hosts, p) then
              |rows| == |before| + 1 && rows[..|before|] == before && ShowsRisk(rows[|before|], hosts[n])
            else rows == before
  {
    assert hosts[..n + 1][..n] == hosts[..n];
    FiltersAsk(HostRow("", "", None), ALL_EVENTS, hosts[n], ALL_HOSTS, p);
    hide BucketAtLeast, Allows, AtLeast, Passes;
  }

  lemma NoEvents(events: seq<Row>, p: EventsParams)
    ensures Picks([], 0, EventsAsked(events, p)) && ShowsEvents(Matching(events[..0], p), events, [])
  {
    hide EventsAsked;
  }

  lemma NoHosts(hosts: seq<Host>, p: HostsParams)
    ensures Picks([], 0, HostsAsked(hosts, p)) && ShowsHosts(HostRows(hosts[..0], p), hosts, [])
  {
    hide HostsAsked;
  }

  lemma NoRisks(hosts: seq<Host>, p: RiskParams)
    ensures Picks([], 0, RisksAsked(hosts, p)) && ShowsRisks(RiskRows(hosts[..0], p), hosts, [])
  {
    hide RisksAsked;
  }

  /** Main result: an event listing holds exactly the events asked for, each as it is and in their order ... */
  lemma {:induction false} EventsAre(events: seq<Row>, p: EventsParams, n: nat) returns (at: seq<nat>)
    requires n <= |events|
    ensures Picks(at, n, EventsAsked(events, p)) && ShowsEvents(Matching(events[..n], p), events, at)
  {
    hide *;
    if n == 0 {
      at := [];
      NoEvents(events, p);
    } else {
      at := EventsAre(events, p, n - 1);
      NextEvent(events, p, n - 1);
      PicksMore(at, n - 1, EventsAsked(events, p));
      if n - 1 in EventsAsked(events, p) {
        OneMoreEvent(events, Matching(events[..n - 1], p), at, n - 1);
        at := at + [n - 1];
      }
    }
  }

  const NO_HOST := Host("", "", None, None, 0, 0)
  const ALL_HOSTS := HostsParams("", 0, [], [])
  const ALL_RISKS := RiskParams("", 0, [], "")
  const ALL_EVENTS := EventsParams("", 0, [], [], [], None, None, "")

  /** ... a host listing the hosts asked for, with their status and risk ... */
  lemma {:induction false} HostsAre(hosts: seq<Host>, p: HostsParams, n: nat) returns (at: seq<nat>)
    requires n <= |hosts|
    ensures Picks(at, n, HostsAsked(hosts, p)) && ShowsHosts(HostRows(hosts[..n], p), hosts, at)
  {
    hide *;
    if n == 0 {
      at := [];
      NoHosts(hosts, p);
    } else {
      at := HostsAre(hosts, p, n - 1);
      NextHost(hosts, p, n - 1);
      PicksMore(at, n - 1, HostsAsked(hosts, p));
      if n - 1 in HostsAsked(hosts, p) {
        OneMoreHost(hosts, HostRows(hosts[..n - 1], p), HostRows(hosts[..n], p), at, n - 1);
        at := at + [n - 1];
      }
    }
  }

  predicate ShowsHost(r: Row, h: Host) { r.HostRow? && r.id == h.id && r.status == h.status && r.risk == h.risk }

  predicate ShowsRisk(r: Row, h: Host) {
    && r.RiskRow? && h.risk.Some? && r.id == h.id && r.score == h.risk.value.score
    && r.bucket == h.risk.value.bucket && r.topTool == h.risk.value.topTool
  }

  /** A host without a policy counts as having version 0 applied and nothing expired. */
  predicate ShowsCompliance(r: Row, h: Host) {
    && r.ComplianceRow? && r.id == h.id && r.drift == h.drift && r.failures == h.failures
    && (h.policy.Some? ==> r.applied == h.policy.value.applied && r.expired == h.policy.value.expired)
    && (h.policy.None? ==> r.applied == 0 && !r.expired)
  }

  /** ... a risk listing, before it is sorted, the risks asked for ... */
  lemma {:induction false} RisksAre(hosts: seq<Host>, p: RiskParams, n: nat) returns (at: seq<nat>)
    requires n <= |hosts|
    ensures Picks(at, n, RisksAsked(hosts, p)) && ShowsRisks(RiskRows(hosts[..n], p), hosts, at)
  {
    hide *;
    if n == 0 {
      at := [];
      NoRisks(hosts, p);
    } else {
      at := RisksAre(hosts, p, n - 1);
      NextRisk(hosts, p, n - 1);
      PicksMore(at, n - 1, RisksAsked(hosts, p));
      if n - 1 in RisksAsked(hosts, p) {
        OneMoreRisk(hosts, RiskRows(hosts[..n - 1], p), RiskRows(hosts[..n], p), at, n - 1);
        at := at + [n - 1];
      }
    }
  }

  /** ... and a compliance listing every host. */
  lemma {:induction false} ComplianceIs(hosts: seq<Host>, i: nat)
    requires i < |hosts|
    ensures |ComplianceRows(hosts)| == |hosts| && ShowsCompliance(ComplianceRows(hosts)[i], hosts[i])
  {
    var before := hosts[..|hosts| - 1];
    if before != [] {
      ComplianceIs(before, if i < |before| then i else 0);
    }
  }

  // ---------------------------------------------------------------- the order of the risk listing

  function ScoreOf(r: Row): (v: real)
    ensures r.RiskRow? ==> v == r.score
  {
    if r.RiskRow? then r.score else 0.0
  }

  function InsertScore(t: seq<Row>, r: Row): seq<Row> {
    if t == [] then [r]
    else if ScoreOf(r) > ScoreOf(t[|t| - 1]) then InsertScore(t[..|t| - 1], r) + [t[|t| - 1]]
    else t + [r]
  }

  /** The stable sort by descending score. */
  function SortByScore(s: seq<Row>): seq<Row> {
    if s == [] then [] else InsertScore(SortByScore(s[..|s| - 1]), s[|s| - 1])
  }

  predicate ByScore(s: seq<Row>) { forall i, j :: 0 <= i < j < |s| ==> ScoreOf(s[i]) >= ScoreOf(s[j]) }

  /** The rows with one score, in order. */
  function WithScore(s: seq<Row>, v: real): seq<Row> {
    if s == [] then []
    else
      var before := WithScore(s[..|s| - 1], v);
      if ScoreOf(s[|s| - 1]) == v then before + [s[|s| - 1]] else before
  }

  /** The new row goes behind the last row that does not score less. */
  lemma {:induction false} InsertScoreAt(t: seq<Row>, r: Row) returns (k: nat)
    ensures k <= |t| && InsertScore(t, r) == t[..k] + [r] + t[k..]
    ensures k > 0 ==> ScoreOf(t[k - 1]) >= ScoreOf(r)
    ensures forall i :: k <= i < |t| ==> ScoreOf(t[i]) < ScoreOf(r)
  {
    if t != [] && ScoreOf(r) > ScoreOf(t[|t| - 1]) {
      k := InsertScoreAt(t[..|t| - 1], r);
    } else {
      k := |t|;
    }
  }

  lemma InsertScoreSorts(t: seq<Row>, r: Row)
    requires ByScore(t)
    ensures ByScore(InsertScore(t, r)) && multiset(InsertScore(t, r)) == multiset(t) + multiset{r}
  {
    var k := InsertScoreAt(t, r);
    hide InsertScore, ScoreOf;
    RowsAround(t, r, k);
    hide ByScore;
    SortedAround(t, r, k);
  }

  lemma RowsAround(t: seq<Row>, r: Row, k: nat)
    requires k <= |t|
    ensures multiset(t[..k] + [r] + t[k..]) == multiset(t) + multiset{r}
  {
    assert t == t[..k] + t[k..];
  }

  lemma SortedAround(t: seq<Row>, r: Row, k: nat)
    requires ByScore(t) && k <= |t| && (k > 0 ==> ScoreOf(t[k - 1]) >= ScoreOf(r))
    requires forall i :: k <= i < |t| ==> ScoreOf(t[i]) < ScoreOf(r)
    ensures ByScore(t[..k] + [r] + t[k..])
  {
    hide ScoreOf;
    var u := t[..k] + [r] + t[k..];
    forall i, j | 0 <= i < j < |u| ensures ScoreOf(u[i]) >= ScoreOf(u[j]) {
      assert u[i] == if i < k then t[i] else if i == k then r else t[i - 1];
      assert u[j] == if j < k then t[j] else if j == k then r else t[j - 1];
    }
  }

  lemma {:induction false} InsertScoreStable(t: seq<Row>, r: Row, v: real)
    requires ByScore(t)
    ensures WithScore(InsertScore(t, r), v) == WithScore(t + [r], v)
  {
    assert (t + [r])[..|t|] == t;
    if t == [] {
    } else {
      var before, last := t[..|t| - 1], t[|t| - 1];
      if ScoreOf(r) > ScoreOf(last) {
        InsertScoreStable(before, r, v);
        assert (before + [r])[..|before|] == before;
        var u := InsertScore(before, r);
        assert (u + [last])[..|u|] == u;
        if ScoreOf(r) == v {
          assert ScoreOf(last) != v;
        }
      }
    }
  }

  /** Main result: the sort orders by score, keeps every row ... */
  lemma {:induction false} SortByScoreSorts(s: seq<Row>)
    ensures ByScore(SortByScore(s)) && multiset(SortByScore(s)) == multiset(s)
    ensures var t := SortByScore(s); forall i, j :: 0 <= i < j < |t| && t[i].RiskRow? && t[j].RiskRow? ==>
              t[i].score >= t[j].score
  {
    if s == [] {
    } else {
      var before, r := s[..|s| - 1], s[|s| - 1];
      SortByScoreSorts(before);
      assert s == before + [r];
      InsertScoreSorts(SortByScore(before), r);
      hide InsertScore, ByScore;
    }
  }

  /** ... and leaves rows of equal score in their order. */
  lemma {:induction false} SortByScoreStable(s: seq<Row>, v: real)
    ensures WithScore(SortByScore(s), v) == WithScore(s, v)
  {
    if s == [] {
    } else {
      var before, r := s[..|s| - 1], s[|s| - 1];
      SortByScoreStable(before, v);
      SortByScoreSorts(before);
      InsertScoreStable(SortByScore(before), r, v);
      assert (SortByScore(before) + [r])[..|SortByScore(before)|] == SortByScore(before);
      hide InsertScore, ByScore;
    }
  }

  /** s and t have the same rows with score v, in the same order. */
  predicate SameAt(s: seq<Row>, t: seq<Row>, v: real) { WithScore(s, v) == WithScore(t, v) }

  function LastScore(s: seq<Row>): real { if s == [] then 0.0 else ScoreOf(s[|s| - 1]) }

  /** Main result: no other ordering is sorted and stable, so this is what any stable sort returns. */
  lemma {:induction false} StableSortUnique(s: seq<Row>, t: seq<Row>)
    requires ByScore(s) && ByScore(t)
    requires forall v :: SameAt(s, t, v)
    ensures s == t
  {
    hide WithScore, ScoreOf, ByScore, SameAt;
    if s == [] || t == [] {
      assert SameAt(s, t, LastScore(if s == [] then t else s));
      EmptyTogether(s, t);
    } else {
      assert SameAt(s, t, LastScore(s)) && SameAt(s, t, LastScore(t));
      LastScoresMeet(s, t);
      var p, q := s[..|s| - 1], t[..|t| - 1];
      LastsMeet(s, t);
      forall w ensures SameAt(p, q, w) {
        assert SameAt(s, t, w);
        SamePrefix(s, t, w);
      }
      ByScorePrefix(s);
      ByScorePrefix(t);
      StableSortUnique(p, q);
      assert s == p + [s[|s| - 1]] && t == q + [t[|t| - 1]];
    }
  }

  lemma ByScorePrefix(s: seq<Row>)
    requires ByScore(s) && s != []
    ensures ByScore(s[..|s| - 1])
  {
    hide ScoreOf;
  }

  lemma EmptyTogether(s: seq<Row>, t: seq<Row>)
    requires (s == [] || t == []) && SameAt(s, t, LastScore(if s == [] then t else s))
    ensures s == t
  {
    hide ScoreOf;
  }

  /** Neither list can end in a score the other ends above. */
  lemma LastScoresMeet(s: seq<Row>, t: seq<Row>)
    requires ByScore(s) && ByScore(t) && s != [] && t != []
    requires SameAt(s, t, LastScore(s)) && SameAt(s, t, LastScore(t))
    ensures LastScore(s) == LastScore(t)
  {
    EndsAbove(s, t);
    EndsAbove(t, s);
    hide *;
  }

  lemma EndsAbove(s: seq<Row>, t: seq<Row>)
    requires ByScore(t) && s != [] && t != [] && SameAt(s, t, LastScore(s))
    ensures LastScore(s) >= LastScore(t)
  {
    hide ScoreOf;
    if LastScore(s) < LastScore(t) {
      NoneBelow(t, LastScore(s));
    }
  }

  /** Rows of one score that agree, the last one included, agree in the last row ... */
  lemma LastsMeet(s: seq<Row>, t: seq<Row>)
    requires s != [] && t != [] && LastScore(s) == LastScore(t) && SameAt(s, t, LastScore(s))
    ensures s[|s| - 1] == t[|t| - 1]
  {
    var v := LastScore(s);
    DropLast(s, v);
    DropLast(t, v);
    hide WithScore, ScoreOf;
    SameEnd(WithScore(s[..|s| - 1], v), s[|s| - 1], WithScore(t[..|t| - 1], v), t[|t| - 1]);
  }

  /** ... and in those before it. */
  lemma SamePrefix(s: seq<Row>, t: seq<Row>, w: real)
    requires s != [] && t != [] && s[|s| - 1] == t[|t| - 1] && SameAt(s, t, w)
    ensures SameAt(s[..|s| - 1], t[..|t| - 1], w)
  {
    DropLast(s, w);
    DropLast(t, w);
    hide WithScore;
    var a, p, q := s[|s| - 1], WithScore(s[..|s| - 1], w), WithScore(t[..|t| - 1], w);
    if ScoreOf(a) == w {
      SameEnd(p, a, q, a);
    }
  }

  lemma SameEnd(p: seq<Row>, a: Row, q: seq<Row>, b: Row)
    requires p + [a] == q + [b]
    ensures p == q && a == b
  {
    assert p == (p + [a])[..|p + [a]| - 1] && q == (q + [b])[..|q + [b]| - 1];
    assert a == (p + [a])[|p + [a]| - 1];
  }

  lemma DropLast(s: seq<Row>, w: real)
    requires s != []
    ensures var p := WithScore(s, w);
            if ScoreOf(s[|s| - 1]) == w then p == WithScore(s[..|s| - 1], w) + [s[|s| - 1]]
            else p == WithScore(s[..|s| - 1], w)
  {}

  lemma {:induction false} NoneBelow(s: seq<Row>, v: real)
    requires forall i :: 0 <= i < |s| ==> ScoreOf(s[i]) > v
    ensures WithScore(s, v) == []
  {
    if s == [] {
    } else {
      NoneBelow(s[..|s| - 1], v);
    }
  }

  lemma DistinctInsert(t: seq<Row>, r: Row, k: nat)
    requires Distinct(t) && r.id != "" && k <= |t|
    requires forall i :: 0 <= i < |t| ==> t[i].id != r.id
    ensures Distinct(t[..k] + [r] + t[k..])
  {
    var u := t[..k] + [r] + t[k..];
    forall i | 0 <= i < |u| ensures u[i] == if i < k then t[i] else if i == k then r else t[i - 1] {}
  }

  lemma {:induction false} SortByScoreDistinct(s: seq<Row>)
    requires Distinct(s)
    ensures Distinct(SortByScore(s))
  {
    if s == [] {
    } else {
      var before, r := s[..|s| - 1], s[|s| - 1];
      SortByScoreDistinct(before);
      SortByScoreSorts(before);
      var t := SortByScore(before);
      forall i | 0 <= i < |t| ensures t[i].id != r.id {
        assert t[i] in multiset(before);
        var j :| 0 <= j < |before| && before[j] == t[i];
        assert s[j] == t[i];
      }
      var k := InsertScoreAt(t, r);
      DistinctInsert(t, r, k);
      hide InsertScore, Distinct;
    }
  }
}
