/** The page methods of the mock (internal/fleet/mock.go) and the walks over them. */
module MockPaging {
  import opened Lex
  import opened MockRows
  import opened Options

  datatype Page = Page(rows: seq<Row>, next: Option<string>)

  /** The page size that a limit asks for: 100 without one, and never more than 1000. */
  predicate Sized(l: nat, limit: int) {
    (limit <= 0 ==> l == 100) && (1 <= limit <= 1000 ==> l == limit) && (limit > 1000 ==> l == 1000)
  }

  function ClampLimit(n: int): (l: nat)
    ensures 1 <= l <= 1000 && Sized(l, n)
  {
    if n <= 0 then 100 else if n > 1000 then 1000 else n
  }

  /** How an endpoint resumes: by comparing identifiers with the cursor, or by looking for it. */
  datatype Seek = ByOrder | ById

  function Below(rows: seq<Row>, cursor: string): seq<Row> {
    if rows == [] then []
    else
      var before, r := Below(rows[..|rows| - 1], cursor), rows[|rows| - 1];
      if cursor == "" || Less(r.id, cursor) then before + [r] else before
  }

  /** The position after the first row with the cursor's identifier, or 0 when there is none. */
  function StartAfter(rows: seq<Row>, cursor: string): (k: nat)
    ensures k <= |rows|
  {
    if rows == [] || cursor == "" then 0
    else
      var k := StartAfter(rows[..|rows| - 1], cursor);
      if k == 0 && rows[|rows| - 1].id == cursor then |rows| else k
  }

  /** What is left to list after a cursor. */
  function Rest(rows: seq<Row>, seek: Seek, cursor: string): seq<Row> {
    if seek.ByOrder? then Below(rows, cursor) else rows[StartAfter(rows, cursor)..]
  }

  function PageOf(rest: seq<Row>, limit: nat): Page
    requires limit >= 1
  {
    if |rest| > limit then Page(rest[..limit], Some(rest[limit - 1].id)) else Page(rest, None)
  }

  // ---------------------------------------------------------------- the methods

  method Events(events: seq<Row>, p: EventsParams) returns (page: Page)
    ensures page == PageOf(Rest(Matching(events, p), ByOrder, p.cursor), ClampLimit(p.limit))
  {
    hide MatchesEvent, Less;
    var limit := ClampLimit(p.limit);
    var filtered: seq<Row> := [];
    for i := 0 to |events|
      invariant filtered == Below(Matching(events[..i], p), p.cursor)
    {
      var e := events[i];
      assert events[..i + 1][..i] == events[..i];
      var before := Matching(events[..i], p);
      assert (before + [e])[..|before|] == before;
      if p.cursor != "" && !Less(e.id, p.cursor) {
        continue;
      }
      if !MatchesEvent(e, p) {
        continue;
      }
      filtered := filtered + [e];
    }
    assert events[..|events|] == events;
    page := Truncate(filtered, limit);
  }

  method Truncate(rest: seq<Row>, limit: nat) returns (page: Page)
    requires limit >= 1
    ensures page == PageOf(rest, limit)
  {
    var rows, next := rest, None;
    if |rows| > limit {
      rows := rows[..limit];
      next := Some(rows[|rows| - 1].id);
    }
    page := Page(rows, next);
  }

  /** The second half of the three host listings: find the cursor, cut there, cut to the limit. */
  method Resume(all: seq<Row>, cursor: string, limit: nat) returns (page: Page)
    requires limit >= 1
    ensures page == PageOf(Rest(all, ById, cursor), limit)
  {
    var startIdx := 0;
    if cursor != "" {
      for i := 0 to |all|
        invariant StartAfter(all[..i], cursor) == 0 && startIdx == 0
      {
        assert all[..i + 1][..i] == all[..i];
        if all[i].id == cursor {
          startIdx := i + 1;
          FirstHit(all, i, cursor);
          break;
        }
      }
      assert all[..|all|] == all;
    }
    if startIdx >= |all| {
      return Page([], None);
    }
    page := Truncate(all[startIdx..], limit);
  }

  lemma {:induction false} FirstHit(rows: seq<Row>, i: nat, cursor: string)
    requires i < |rows| && cursor != "" && rows[i].id == cursor && StartAfter(rows[..i], cursor) == 0
    ensures StartAfter(rows, cursor) == i + 1
  {
    if i == |rows| - 1 {
    } else {
      assert rows[..|rows| - 1][..i] == rows[..i];
      FirstHit(rows[..|rows| - 1], i, cursor);
    }
  }

  method FleetHosts(hosts: seq<Host>, p: HostsParams) returns (page: Page)
    ensures page == PageOf(Rest(HostRows(hosts, p), ById, p.cursor), ClampLimit(p.limit))
  {
    hide MatchesHost, Rest;
    var rows: seq<Row> := [];
    for i := 0 to |hosts|
      invariant rows == HostRows(hosts[..i], p)
    {
      assert hosts[..i + 1][..i] == hosts[..i];
      var h := hosts[i];
      if !MatchesHost(h, p) {
        continue;
      }
      rows := rows + [HostRow(h.id, h.status, h.risk)];
    }
    assert hosts[..|hosts|] == hosts;
    page := Resume(rows, p.cursor, ClampLimit(p.limit));
  }

  method FleetRisk(hosts: seq<Host>, p: RiskParams) returns (page: Page)
    ensures page == PageOf(Rest(SortByScore(RiskRows(hosts, p)), ById, p.cursor), ClampLimit(p.limit))
  {
    hide Rest, SortByScore;
    var rows: seq<Row> := [];
    for i := 0 to |hosts|
      invariant rows == RiskRows(hosts[..i], p)
    {
      assert hosts[..i + 1][..i] == hosts[..i];
      var h := hosts[i];
      if h.risk.None? {
        continue;
      }
      var risk := h.risk.value;
      if |p.tool| > 0 && risk.topTool !in p.tool {
        continue;
      }
      if p.minBucket != "" && !BucketAtLeast(risk.bucket, p.minBucket) {
        continue;
      }
      rows := rows + [RiskRow(h.id, risk.score, risk.bucket, risk.topTool)];
    }
    assert hosts[..|hosts|] == hosts;
    rows := SortByScore(rows);
    page := Resume(rows, p.cursor, ClampLimit(p.limit));
  }

  method FleetCompliance(hosts: seq<Host>, cursor: string, limit: int) returns (page: Page)
    ensures page == PageOf(Rest(ComplianceRows(hosts), ById, cursor), ClampLimit(limit))
  {
    hide Rest;
    var rows: seq<Row> := [];
    for i := 0 to |hosts|
      invariant rows == ComplianceRows(hosts[..i])
    {
      assert hosts[..i + 1][..i] == hosts[..i];
      var applied, expired := 0, false;
      if hosts[i].policy.Some? {
        applied, expired := hosts[i].policy.value.applied, hosts[i].policy.value.expired;
      }
      rows := rows + [ComplianceRow(hosts[i].id, applied, hosts[i].drift, expired, hosts[i].failures)];
    }
    assert hosts[..|hosts|] == hosts;
    page := Resume(rows, cursor, ClampLimit(limit));
  }

  // ---------------------------------------------------------------- walks

  /** What lets a listing resume from the identifier of any of its rows. */
  ghost predicate Resumable(rows: seq<Row>, seek: Seek) {
    if seek.ById? then Distinct(rows) else Descending(rows) && Named(rows)
  }

  lemma {:induction false} BelowAt(rows: seq<Row>, k: nat)
    requires Descending(rows) && k < |rows| && rows[k].id != ""
    ensures Below(rows, rows[k].id) == rows[k + 1..]
  {
    hide Less;
    var before, last := rows[..|rows| - 1], rows[|rows| - 1];
    if k == |rows| - 1 {
      NoneBelow(before, last);
      LessIrreflexive(last.id);
      assert rows == before + [last];
    } else {
      BelowAt(before, k);
      assert rows[k + 1..] == before[k + 1..] + [last];
    }
  }

  lemma {:induction false} NoneBelow(rows: seq<Row>, r: Row)
    requires Descending(rows + [r]) && r.id != ""
    ensures Below(rows, r.id) == []
  {
    hide Less;
    if rows == [] {
    } else {
      var before, last := rows[..|rows| - 1], rows[|rows| - 1];
      var all := rows + [r];
      assert all[|rows| - 1] == last && all[|rows|] == r;
      LessAsymmetric(r.id, last.id);
      forall i, j | 0 <= i < j <= |before| ensures Less((before + [r])[j].id, (before + [r])[i].id) {
        assert Less(all[if j < |before| then j else |rows|].id, all[i].id);
      }
      NoneBelow(before, r);
    }
  }

  lemma {:induction false} BelowAll(rows: seq<Row>)
    ensures Below(rows, "") == rows
  {
    if rows == [] {
    } else {
      BelowAll(rows[..|rows| - 1]);
      assert rows == rows[..|rows| - 1] + [rows[|rows| - 1]];
    }
  }

  lemma {:induction false} NotYet(rows: seq<Row>, cursor: string)
    requires forall i :: 0 <= i < |rows| ==> rows[i].id != cursor
    ensures StartAfter(rows, cursor) == 0
  {
    if rows != [] {
      NotYet(rows[..|rows| - 1], cursor);
    }
  }

  /** Resuming from a row leaves exactly the rows after it. */
  lemma RestAt(rows: seq<Row>, seek: Seek, k: nat)
    requires Resumable(rows, seek) && k < |rows|
    ensures Rest(rows, seek, rows[k].id) == rows[k + 1..]
  {
    if seek.ByOrder? {
      BelowAt(rows, k);
    } else {
      NotYet(rows[..k], rows[k].id);
      FirstHit(rows, k, rows[k].id);
    }
  }

  /** Main result: what is left to list after any cursor: behind the first row that has it, or everything if there is no
      such row or no cursor; by order, the rows whose identifiers sort before it. */
  lemma RestIs(rows: seq<Row>, seek: Seek, cursor: string) returns (k: nat)
    requires seek.ByOrder? ==> Descending(rows)
    ensures k <= |rows| && Rest(rows, seek, cursor) == rows[k..] && (cursor == "" ==> k == 0)
    ensures seek.ById? && cursor != "" && k > 0 ==> rows[k - 1].id == cursor
    ensures seek.ById? && cursor != "" ==>
              forall i :: 0 <= i < (if k > 0 then k - 1 else |rows|) ==> rows[i].id != cursor
    ensures seek.ByOrder? && cursor != "" ==> forall i :: 0 <= i < |rows| ==> (Less(rows[i].id, cursor) <==> k <= i)
  {
    if cursor == "" {
      k := 0;
      BelowAll(rows);
    } else if seek.ById? {
      k := FirstWith(rows, cursor);
    } else {
      k := BelowFrom(rows, cursor);
    }
  }

  lemma {:induction false} FirstWith(rows: seq<Row>, cursor: string) returns (k: nat)
    requires cursor != ""
    ensures k == StartAfter(rows, cursor) <= |rows| && (k > 0 ==> rows[k - 1].id == cursor)
    ensures forall i :: 0 <= i < (if k > 0 then k - 1 else |rows|) ==> rows[i].id != cursor
  {
    if rows == [] {
      k := 0;
    } else {
      k := FirstWith(rows[..|rows| - 1], cursor);
      if k == 0 && rows[|rows| - 1].id == cursor {
        k := |rows|;
      }
    }
  }

  lemma {:induction false} BelowFrom(rows: seq<Row>, cursor: string) returns (k: nat)
    requires Descending(rows) && cursor != ""
    ensures k <= |rows| && Below(rows, cursor) == rows[k..]
    ensures forall i :: 0 <= i < |rows| ==> (Less(rows[i].id, cursor) <==> k <= i)
  {
    hide Less;
    if rows == [] {
      k := 0;
    } else {
      var before, last := rows[..|rows| - 1], rows[|rows| - 1];
      k := BelowFrom(before, cursor);
      assert rows == before + [last];
      if k < |before| {
        LessTransitive(last.id, before[k].id, cursor);
      } else if !Less(last.id, cursor) {
        k := |rows|;
      }
    }
  }

  /** All the pages from a position on, each fetched with the cursor of the one before. */
  function Follow(rows: seq<Row>, seek: Seek, limit: nat, cursor: string, fetches: nat): seq<Row>
    requires limit >= 1
    decreases fetches
  {
    var page := PageOf(Rest(rows, seek, cursor), limit);
    if page.next.None? || fetches == 0 then page.rows
    else page.rows + Follow(rows, seek, limit, page.next.value, fetches - 1)
  }

  /** From a position the walk lists the rest, and it needs no more than a fetch for every limit rows. */
  lemma {:induction false} FollowsFrom(rows: seq<Row>, seek: Seek, limit: nat, cursor: string, k: nat, fetches: nat)
    requires Resumable(rows, seek) && limit >= 1 && k <= |rows| && Rest(rows, seek, cursor) == rows[k..]
    requires fetches * limit + limit >= |rows| - k
    ensures Follow(rows, seek, limit, cursor, fetches) == rows[k..]
    decreases fetches
  {
    hide Rest, Resumable;
    var rest := rows[k..];
    if |rest| > limit && fetches > 0 {
      RestAt(rows, seek, k + limit - 1);
      assert fetches * limit == (fetches - 1) * limit + limit;
      FollowsFrom(rows, seek, limit, rest[limit - 1].id, k + limit, fetches - 1);
      assert rest == rest[..limit] + rows[k + limit..];
    }
  }

  lemma EnoughPages(n: nat, limit: nat)
    requires limit >= 1
    ensures n / limit * limit + limit >= n
  {}

  /** Main result: following cursors from the start lists every row exactly once and in order, whatever the page
      size. */
  lemma WalkIsComplete(rows: seq<Row>, seek: Seek, limit: nat)
    requires Resumable(rows, seek) && limit >= 1
    ensures Follow(rows, seek, limit, "", |rows| / limit) == rows
  {
    assert Rest(rows, seek, "") == rows[0..] by {
      BelowAll(rows);
    }
    hide *;
    EnoughPages(|rows|, limit);
    FollowsFrom(rows, seek, limit, "", 0, |rows| / limit);
  }

  /** Main result: the four walks of the mock, for every filter and limit. */
  lemma MockWalks(events: seq<Row>, hosts: seq<Host>, ep: EventsParams, hp: HostsParams, rp: RiskParams, limit: int)
    requires Descending(events) && DistinctHosts(hosts)
    requires Named(events)
    ensures var n := ClampLimit(limit);
      && WalksTo(Matching(events, ep), ByOrder, n)
      && WalksTo(HostRows(hosts, hp), ById, n)
      && WalksTo(SortByScore(RiskRows(hosts, rp)), ById, n)
      && WalksTo(ComplianceRows(hosts), ById, n)
  {
    MatchingDescends(events, ep);
    assert Named(Matching(events, ep)) by {
      forall i | 0 <= i < |Matching(events, ep)| ensures Matching(events, ep)[i].id != "" {
        assert Matching(events, ep)[i] in events;
      }
    }
    HostRowsDistinct(hosts, hp, rp);
    SortByScoreDistinct(RiskRows(hosts, rp));
    hide Matching, HostRows, RiskRows, ComplianceRows, SortByScore, Distinct, Descending, DistinctHosts;
    WalkIsComplete(Matching(events, ep), ByOrder, ClampLimit(limit));
    WalkIsComplete(HostRows(hosts, hp), ById, ClampLimit(limit));
    WalkIsComplete(SortByScore(RiskRows(hosts, rp)), ById, ClampLimit(limit));
    WalkIsComplete(ComplianceRows(hosts), ById, ClampLimit(limit));
  }

  predicate WalksTo(rows: seq<Row>, seek: Seek, limit: nat)
    requires limit >= 1
  {
    Follow(rows, seek, limit, "", |rows| / limit) == rows
  }
}
