/** Pages of the triage list as callers see them (internal/triage/repo.go, ListByStatus): limits,
    errors, textual cursors, and whole sessions of following NextCursor over a changing history.
 */
module ListPages {
  import opened Lex
  import opened Options
  import opened Timestamps
  import opened Cursors
  import opened Triage
  import opened TriageTime
  import opened TriageHistory
  import opened Keyset
  import Walk

  // ---------------------------------------------------------------- one page

  datatype ListOpts = ListOpts(statuses: seq<string>, limit: int, cursor: string)
  datatype ListResult = ListResult(rows: seq<Row>, nextCursor: string)

  function ClampLimit(n: int): (l: nat)
    ensures 1 <= l <= 1000
  {
    if n <= 0 then 50 else if n > 1000 then 1000 else n
  }

  function Effective(statuses: seq<string>): seq<string> { if statuses == [] then STATUSES else statuses }

  predicate Malformed(cursor: string) { cursor != "" && DecodeCursor(cursor).None? }

  function After(cursor: string): Option<Pos>
    requires !Malformed(cursor)
  {
    if cursor == "" then None
    else
      var p := DecodeCursor(cursor).value;
      Some(Pos(FormatTS(p.at), p.host, p.event))
  }

  function ScanRows(s: seq<StoredRow>): (r: seq<Row>)
    ensures |r| == |s| && forall i :: 0 <= i < |s| ==> r[i] == ScanRow(s[i])
  {
    seq(|s|, i requires 0 <= i < |s| => ScanRow(s[i]))
  }

  /** What is handed out of a stored row, column by column. */
  predicate Shows(row: Row, r: StoredRow) {
    && row.host == r.host && row.event == r.event && row.status == r.status && row.assignee == r.assignee
    && row.snapshot == r.snapshot && row.createdAt == ScanTime(r.createdAt) && row.updatedAt == ScanTime(r.updatedAt)
  }

  predicate Lists(rows: seq<Row>, all: seq<StoredRow>) {
    |rows| == |all| && forall i :: 0 <= i < |rows| ==> Shows(rows[i], all[i])
  }

  lemma ScansList(rows: seq<Row>, all: seq<StoredRow>)
    ensures Lists(rows, all) <==> rows == ScanRows(all)
  {
    hide ScanTime;
    if Lists(rows, all) {
      forall i | 0 <= i < |rows| ensures rows[i] == ScanRow(all[i]) {
        assert Shows(rows[i], all[i]);
      }
    }
  }

  function CursorOf(r: StoredRow): string { EncodeCursor(ScanTime(r.updatedAt), r.host, r.event) }

  /** Cutting the limit + 1 selected rows to a page: the extra row only says that there is more. */
  function PageOf(raw: seq<StoredRow>, limit: nat): ListResult
    requires limit > 0
  {
    if |raw| > limit then ListResult(ScanRows(raw[..limit]), CursorOf(raw[limit - 1]))
    else ListResult(ScanRows(raw), "")
  }

  predicate AllKnown(statuses: seq<string>) { forall s :: s in statuses ==> s in STATUSES }

  /** One row more than the limit is selected, behind the cursor's position. */
  ghost function PageFor(rows: Table, o: ListOpts): ListResult
    requires Keyed(rows) && !Malformed(o.cursor)
  {
    var limit := ClampLimit(o.limit);
    PageOf(Selected(rows, Effective(o.statuses), After(o.cursor), limit + 1), limit)
  }

  /** The answer of ListByStatus, errors first. */
  ghost function ListSpec(rows: Table, o: ListOpts): Result<ListResult>
    requires Keyed(rows)
  {
    if !AllKnown(Effective(o.statuses)) then Err(InvalidStatus)
    else if Malformed(o.cursor) then Err(MalformedCursor)
    else Ok(PageFor(rows, o))
  }

  lemma ListOk(rows: Table, o: ListOpts, page: ListResult)
    requires Keyed(rows) && ListSpec(rows, o) == Ok(page)
    ensures !Malformed(o.cursor) && page == PageFor(rows, o)
  {
    hide PageFor, Malformed, AllKnown, Effective, Keyed;
  }

  /** Main result: the cursor text resumes exactly behind its row if the host holds no separator; with one it
      resumes before the row, which then matches again. */
  lemma CursorResumes(r: StoredRow)
    requires FormatTS(ScanTime(r.updatedAt)) == r.updatedAt
    ensures CursorOf(r) != "" && !Malformed(CursorOf(r)) && After(CursorOf(r)).Some?
    ensures After(CursorOf(r)) == Some(PosOf(r)) <==> '|' !in r.host
    ensures Beyond(After(CursorOf(r)), PosOf(r)) <==> '|' in r.host
  {
    hide FormatTS, ScanTime, DecodeCursor;
    CursorRoundTrip(ScanTime(r.updatedAt), r.host, r.event);
    BeforeOrder(PosOf(r), PosOf(r));
    if '|' in r.host {
      CursorCut(ScanTime(r.updatedAt), r.host, r.event);
      PrefixLess(Cursors.Head(r.host), r.host);
    }
  }

  lemma {:induction false} PrefixLess(a: string, b: string)
    requires a < b
    ensures Less(a, b)
  {
    if a != [] {
      PrefixLess(a[1..], b[1..]);
    }
  }

  // ---------------------------------------------------------------- sessions

  /** Page i was answered from tables[i] for cursors[i]; each next cursor comes from the page before. */
  datatype Session = Session(statuses: seq<string>, limit: int, tables: seq<Table>, cursors: seq<string>,
                             pages: seq<ListResult>)

  ghost predicate Answers(w: Session, i: nat)
    requires i < |w.tables| == |w.cursors| == |w.pages|
  {
    Keyed(w.tables[i]) && ListSpec(w.tables[i], ListOpts(w.statuses, w.limit, w.cursors[i])) == Ok(w.pages[i])
  }

  ghost predicate IsSession(w: Session) {
    && |w.tables| == |w.cursors| == |w.pages| > 0
    && w.cursors[0] == ""
    && (forall i :: 0 <= i < |w.pages| ==> Answers(w, i))
    && (forall i :: 0 < i < |w.pages| ==> w.cursors[i] == w.pages[i - 1].nextCursor && w.cursors[i] != "")
  }

  /** Stamps that scan back exactly. */
  ghost predicate Canonical(rows: Table) {
    forall k :: k in rows ==> FormatTS(ScanTime(rows[k].updatedAt)) == rows[k].updatedAt
  }

  ghost predicate Live(w: Session) {
    && (forall i :: 0 <= i < |w.tables| ==> Canonical(w.tables[i]))
    && (forall i :: 0 < i < |w.tables| ==> Walk.Ahead(w.tables[i - 1], w.tables[i]))
  }

  /** The row whose cursor leads on from page i has a host without the separator. */
  predicate PlainCut(w: Session, i: nat)
    requires i < |w.pages|
  {
    var rows := w.pages[i].rows;
    rows != [] ==> '|' !in rows[|rows| - 1].host
  }

  predicate PlainCuts(w: Session) { forall i :: 0 <= i < |w.pages| - 1 ==> PlainCut(w, i) }

  ghost function FromOf(w: Session, i: nat): Option<Pos>
    requires IsSession(w) && i < |w.pages|
  {
    assert Answers(w, i);
    ListOk(w.tables[i], ListOpts(w.statuses, w.limit, w.cursors[i]), w.pages[i]);
    After(w.cursors[i])
  }

  ghost function SelectedFor(w: Session, i: nat): seq<StoredRow>
    requires IsSession(w) && i < |w.pages|
  {
    assert Answers(w, i);
    Selected(w.tables[i], Effective(w.statuses), FromOf(w, i), ClampLimit(w.limit) + 1)
  }

  /** The session on positions and stored rows. */
  ghost function TrailOf(w: Session): Walk.Trail
    requires IsSession(w)
  {
    Walk.Trail(Effective(w.statuses), ClampLimit(w.limit), w.tables,
               seq(|w.pages|, i requires 0 <= i < |w.pages| => FromOf(w, i)),
               seq(|w.pages|, i requires 0 <= i < |w.pages| => SelectedFor(w, i)))
  }

  /** What page i shows and which row's cursor leads on. */
  lemma PageFacts(w: Session, i: nat)
    requires IsSession(w) && Live(w) && i < |w.pages|
    ensures var s, limit := SelectedFor(w, i), ClampLimit(w.limit);
      && w.pages[i].rows == ScanRows(Walk.Cut(s, limit))
      && (w.pages[i].nextCursor == "" <==> |s| <= limit)
      && (i + 1 < |w.pages| ==> |s| > limit > 0 && w.cursors[i + 1] == CursorOf(s[limit - 1]))
  {
    hide FormatTS, ScanTime, Malformed, After, CursorOf, ScanRow, ListSpec, Hit;
    assert Answers(w, i);
    ListOk(w.tables[i], ListOpts(w.statuses, w.limit, w.cursors[i]), w.pages[i]);
    var s, limit := SelectedFor(w, i), ClampLimit(w.limit);
    if |s| > limit {
      CutRow(w, i);
      CursorResumes(s[limit - 1]);
    }
    if i + 1 < |w.pages| {
      assert w.cursors[i + 1] == w.pages[i].nextCursor;
    }
  }

  /** The last row of a cut page is stored, matches, and has a stamp that scans back. */
  lemma CutRow(w: Session, i: nat)
    requires IsSession(w) && Live(w) && i < |w.pages| && |SelectedFor(w, i)| > ClampLimit(w.limit)
    ensures var r := SelectedFor(w, i)[ClampLimit(w.limit) - 1];
      && FormatTS(ScanTime(r.updatedAt)) == r.updatedAt
      && Walk.KeyOf(r) in w.tables[i] && w.tables[i][Walk.KeyOf(r)] == r
      && Hit(w.tables[i], Effective(w.statuses), None, r)
  {
    hide FormatTS, ScanTime, ListSpec, FromOf, Hit;
    assert Answers(w, i);
    var s, limit := SelectedFor(w, i), ClampLimit(w.limit);
    Walk.SelectedRow(w.tables[i], Effective(w.statuses), FromOf(w, i), limit + 1, s, s[limit - 1]);
    assert Canonical(w.tables[i]);
  }

  /** Whether the next page resumes exactly behind the last row is for that row's host to say. */
  lemma CutResumes(w: Session, i: nat)
    requires IsSession(w) && Live(w) && i + 1 < |w.pages|
    ensures var s, limit := SelectedFor(w, i), ClampLimit(w.limit);
      && |s| > limit > 0 && FromOf(w, i + 1).Some?
      && (FromOf(w, i + 1) == Some(PosOf(s[limit - 1])) <==> PlainCut(w, i))
      && (Beyond(FromOf(w, i + 1), PosOf(s[limit - 1])) <==> !PlainCut(w, i))
  {
    hide *;
    PageFacts(w, i);
    CutRow(w, i);
    FromIs(w, i + 1);
    var s, limit := SelectedFor(w, i), ClampLimit(w.limit);
    PlainIs(w, i, s, limit);
    CursorResumes(s[limit - 1]);
  }

  lemma FromIs(w: Session, i: nat)
    requires IsSession(w) && i < |w.pages|
    ensures !Malformed(w.cursors[i]) && FromOf(w, i) == After(w.cursors[i])
  {
    hide Malformed, After, ListSpec;
    assert Answers(w, i);
    ListOk(w.tables[i], ListOpts(w.statuses, w.limit, w.cursors[i]), w.pages[i]);
  }

  lemma PlainIs(w: Session, i: nat, s: seq<StoredRow>, limit: nat)
    requires i < |w.pages| && |s| > limit > 0 && w.pages[i].rows == ScanRows(Walk.Cut(s, limit))
    ensures PlainCut(w, i) <==> '|' !in s[limit - 1].host
  {
    hide ScanTime;
  }

  /** A session read through its textual cursors is a walk that at worst steps back. */
  lemma SessionIsLoose(w: Session)
    requires IsSession(w) && Live(w)
    ensures var t := TrailOf(w);
      && Walk.IsLoose(t)
      && (forall i :: 0 <= i < |w.pages| ==> w.pages[i].rows == ScanRows(Walk.Page(t, i)))
      && (Walk.Complete(t) <==> w.pages[|w.pages| - 1].nextCursor == "")
  {
    hide Malformed, After, ScanRow, ListSpec, Hit, IsSelection, Canonical, Walk.Ahead;
    var t := TrailOf(w);
    forall i | 0 <= i < |w.pages|
      ensures Walk.Selects(t, i) && w.pages[i].rows == ScanRows(Walk.Page(t, i))
      ensures w.pages[i].nextCursor == "" <==> |t.selected[i]| <= t.limit
      ensures i > 0 ==> Walk.Lags(t, i)
    {
      PageInWalk(w, i);
      if i > 0 { PageInWalk(w, i - 1); }
    }
    hide IsSession, Live;
    FirstFrom(w);
  }

  /** It is a proper walk when the hosts of the cursors' rows hold no separator. */
  lemma SessionIsWalk(w: Session)
    requires IsSession(w) && Live(w) && PlainCuts(w)
    ensures var t := TrailOf(w);
      && Walk.IsWalk(t) && Walk.IsLoose(t)
      && (forall i :: 0 <= i < |w.pages| ==> w.pages[i].rows == ScanRows(Walk.Page(t, i)))
      && (Walk.Complete(t) <==> w.pages[|w.pages| - 1].nextCursor == "")
  {
    SessionIsLoose(w);
    SessionSizes(w);
    assert forall i :: 0 <= i < |w.pages| - 1 ==> PlainCut(w, i);
    hide *;
    var t := TrailOf(w);
    forall i | 0 < i < |w.pages| ensures Walk.Resumes(t, i) {
      PageInWalk(w, i - 1);
    }
    LooseIsWalk(t);
  }

  lemma LooseIsWalk(t: Walk.Trail)
    requires Walk.IsLoose(t) && forall i :: 0 < i < |t.tables| ==> Walk.Resumes(t, i)
    ensures Walk.IsWalk(t)
  {
    hide Walk.Selects, Walk.Lags, Walk.Resumes;
  }

  lemma PageInWalk(w: Session, i: nat)
    requires IsSession(w) && Live(w) && i < |w.pages|
    ensures var t := TrailOf(w);
      && Walk.Selects(t, i) && w.pages[i].rows == ScanRows(Walk.Page(t, i))
      && (w.pages[i].nextCursor == "" <==> |t.selected[i]| <= t.limit)
      && (i + 1 < |w.pages| ==> Walk.Lags(t, i + 1) && (PlainCut(w, i) ==> Walk.Resumes(t, i + 1)))
  {
    PageSelects(w, i);
    PageFacts(w, i);
    if i + 1 < |w.pages| {
      PageLags(w, i);
    }
    hide IsSession, Live, SelectedFor, Walk.Selects, Walk.Lags, Walk.Resumes, ClampLimit, PlainCut, FromOf, ScanRows;
    hide Walk.Cut;
  }

  lemma PageLags(w: Session, i: nat)
    requires IsSession(w) && Live(w) && i + 1 < |w.pages|
    ensures Walk.Lags(TrailOf(w), i + 1) && (PlainCut(w, i) ==> Walk.Resumes(TrailOf(w), i + 1))
  {
    CutResumes(w, i);
    var t := TrailOf(w);
    assert |t.tables| == |t.froms| == |t.selected| == |w.pages| && Walk.Ahead(t.tables[i], t.tables[i + 1]);
    assert t.froms[i + 1] == FromOf(w, i + 1) && t.selected[i] == SelectedFor(w, i) && t.limit == ClampLimit(w.limit);
    hide *;
    LagsOrResumes(t, i, PlainCut(w, i));
  }

  lemma LagsOrResumes(t: Walk.Trail, i: nat, plain: bool)
    requires i + 1 < |t.tables| == |t.froms| == |t.selected| && |t.selected[i]| > t.limit > 0
    requires t.froms[i + 1].Some? && Walk.Ahead(t.tables[i], t.tables[i + 1])
    requires t.froms[i + 1] == Some(PosOf(t.selected[i][t.limit - 1])) <==> plain
    requires Beyond(t.froms[i + 1], PosOf(t.selected[i][t.limit - 1])) <==> !plain
    ensures Walk.Lags(t, i + 1) && (plain ==> Walk.Resumes(t, i + 1))
  {
    hide Before, Walk.Ahead;
  }

  lemma PageSelects(w: Session, i: nat)
    requires IsSession(w) && i < |w.pages|
    ensures Walk.Selects(TrailOf(w), i)
  {
    hide Malformed, After, ScanRow, ListSpec, Hit, IsSelection, CursorOf, FromOf;
    assert Answers(w, i);
  }

  lemma FirstFrom(w: Session)
    requires IsSession(w)
    ensures FromOf(w, 0) == None
  {
    hide DecodeCursor, FormatTS, ListSpec;
  }

  // ---------------------------------------------------------------- histories

  /** The session reads the tables that a history of calls has produced at the given cut points. */
  ghost predicate ReadsHistory(w: Session, ops: seq<Stamped>, cuts: seq<nat>) {
    && |cuts| == |w.tables|
    && (forall i :: 0 <= i < |cuts| ==> cuts[i] <= |ops| && w.tables[i] == Replay(ops[..cuts[i]]).rows)
    && (forall i :: 0 < i < |cuts| ==> cuts[i - 1] <= cuts[i])
  }

  lemma {:induction false} ReplayCanonical(ops: seq<Stamped>)
    ensures Keyed(Replay(ops).rows) && Canonical(Replay(ops).rows)
  {
    hide FormatTS, ParseTS, ScanRow;
    if ops != [] {
      var before, s := ops[..|ops| - 1], ops[|ops| - 1];
      ReplayCanonical(before);
      hide Replay;
      ExecCanonical(Replay(before), s);
      ReplayLast(ops);
    }
  }

  lemma ReplayLast(ops: seq<Stamped>)
    requires ops != []
    ensures Replay(ops) == Exec(Replay(ops[..|ops| - 1]), ops[|ops| - 1])
  {}

  lemma ExecCanonical(db: Db, s: Stamped)
    requires Keyed(db.rows) && Canonical(db.rows)
    ensures Keyed(Exec(db, s).rows) && Canonical(Exec(db, s).rows)
  {
    hide FormatTS, ParseTS, ScanRow, ScanTime, AppendLog;
    StampNow(s.now);
  }

  lemma AheadStep(db: Db, s: Stamped)
    requires InTime(db, s.now)
    ensures Walk.Ahead(db.rows, Exec(db, s).rows)
  {
    hide FormatTS, ParseTS, ScanRow, ScanTime, AppendLog, LogInTime;
    StampNow(s.now);
    forall k | k in db.rows
      ensures !Less(FormatTS(s.now), db.rows[k].updatedAt) && !Less(db.rows[k].updatedAt, db.rows[k].updatedAt)
    {
      assert RowInTime(db.rows[k], s.now);
      StampOrder(FormatTS(s.now), db.rows[k].updatedAt, s.now);
      StampPast(db.rows[k].updatedAt, s.now);
      LessIrreflexive(db.rows[k].updatedAt);
    }
  }

  lemma {:induction false} ReplayAhead(ops: seq<Stamped>, m: nat, n: nat)
    requires ClockForward(ops) && m <= n <= |ops|
    ensures Walk.Ahead(Replay(ops[..m]).rows, Replay(ops[..n]).rows)
  {
    hide Exec, Walk.Ahead, InTime;
    if m == n {
      AheadItself(Replay(ops[..m]).rows);
    } else {
      ReplayAhead(ops, m, n - 1);
      assert ops[..n][..n - 1] == ops[..n - 1];
      AlwaysInTime(ops[..n - 1], ops[n - 1].now);
      AheadStep(Replay(ops[..n - 1]), ops[n - 1]);
      AheadTransitive(Replay(ops[..m]).rows, Replay(ops[..n - 1]).rows, Replay(ops[..n]).rows);
    }
  }

  lemma AheadItself(a: Table)
    ensures Walk.Ahead(a, a)
  {
    forall k | k in a ensures !Less(a[k].updatedAt, a[k].updatedAt) {
      LessIrreflexive(a[k].updatedAt);
    }
  }

  lemma AheadTransitive(a: Table, b: Table, c: Table)
    requires Walk.Ahead(a, b) && Walk.Ahead(b, c)
    ensures Walk.Ahead(a, c)
  {
    hide Less;
    forall k | k in a ensures k in c && !Less(c[k].updatedAt, a[k].updatedAt) {
      NotLessTransitive(a[k].updatedAt, b[k].updatedAt, c[k].updatedAt);
    }
  }

  lemma NotLessTransitive(a: string, b: string, c: string)
    requires !Less(b, a) && !Less(c, b)
    ensures !Less(c, a)
  {
    LessTotal(a, b);
    if Less(c, a) && a != b { LessTransitive(c, a, b); }
  }

  lemma HistoryIsLive(w: Session, ops: seq<Stamped>, cuts: seq<nat>)
    requires IsSession(w) && ReadsHistory(w, ops, cuts) && ClockForward(ops)
    ensures Live(w)
  {
    hide FormatTS, ScanTime, Replay, ListSpec;
    forall i | 0 <= i < |w.tables| ensures Canonical(w.tables[i]) {
      ReplayCanonical(ops[..cuts[i]]);
    }
    forall i | 0 < i < |w.tables| ensures Walk.Ahead(w.tables[i - 1], w.tables[i]) {
      assert cuts[i - 1] <= cuts[i];
      ReplayAhead(ops, cuts[i - 1], cuts[i]);
    }
  }

  function RowKey(r: Row): Key { Key(r.host, r.event) }

  /** Main result: following NextCursor while any calls run in between, no row comes back twice, as long as the
      rows that end a page have hosts without the separator. */
  lemma NoRowTwice(w: Session, ops: seq<Stamped>, cuts: seq<nat>, i: nat, a: nat, j: nat, b: nat)
    requires IsSession(w) && ReadsHistory(w, ops, cuts) && ClockForward(ops) && PlainCuts(w)
    requires i <= j < |w.pages| && a < |w.pages[i].rows| && b < |w.pages[j].rows| && (i == j ==> a < b)
    ensures RowKey(w.pages[i].rows[a]) != RowKey(w.pages[j].rows[b])
  {
    hide Walk.IsWalk, IsSession, ReadsHistory, TrailOf, Live, ClockForward, PlainCuts, FormatTS, ParseTS;
    HistoryIsLive(w, ops, cuts);
    SessionIsWalk(w);
    SessionSizes(w);
    Walk.NoRowTwice(TrailOf(w), i, a, j, b);
  }

  lemma SessionSizes(w: Session)
    requires IsSession(w)
    ensures |w.pages| == |w.tables| == |TrailOf(w).tables| == |TrailOf(w).selected| == |TrailOf(w).froms| > 0
    ensures TrailOf(w).tables == w.tables
    ensures TrailOf(w).statuses == Effective(w.statuses) && TrailOf(w).limit == ClampLimit(w.limit)
  {}

  /** Main result: a session that ran to the end returned every matching row that no call touched meanwhile,
      whatever the hosts; with the result above, exactly once. */
  lemma EveryStillRow(w: Session, ops: seq<Stamped>, cuts: seq<nat>, k: Key)
    requires IsSession(w) && ReadsHistory(w, ops, cuts) && ClockForward(ops)
    requires w.pages[|w.pages| - 1].nextCursor == ""
    requires k in w.tables[0]
    requires forall i :: 0 <= i < |w.tables| ==> k in w.tables[i] && w.tables[i][k] == w.tables[0][k]
    requires w.tables[0][k].status in Effective(w.statuses)
    ensures exists i, a :: 0 <= i < |w.pages| && 0 <= a < |w.pages[i].rows| &&
              Told(ops[..cuts[0]], k, w.pages[i].rows[a])
  {
    hide Walk.IsLoose, ReadsHistory, TrailOf, Live, ClockForward, FormatTS, ParseTS, ListSpec, Told;
    HistoryIsLive(w, ops, cuts);
    SessionIsLoose(w);
    SessionSizes(w);
    Walk.EveryStillRow(TrailOf(w), k);
    var i :| 0 <= i < |w.pages| && Walk.OnPage(TrailOf(w), i, k);
    var a := RowShown(w, i, k);
    FirstTable(w, ops, cuts, k);
  }

  lemma FirstTable(w: Session, ops: seq<Stamped>, cuts: seq<nat>, k: Key)
    requires IsSession(w) && ReadsHistory(w, ops, cuts) && k in w.tables[0]
    ensures |cuts| > 0 && cuts[0] <= |ops| && Told(ops[..cuts[0]], k, ScanRow(w.tables[0][k]))
  {
    RowIsTold(ops[..cuts[0]], k);
    hide Replay, Told, ScanRow, ListSpec;
  }

  /** A key on page i of the walk is a row of page i of the session, as stored when the page was read. */
  lemma RowShown(w: Session, i: nat, k: Key) returns (a: nat)
    requires IsSession(w) && Live(w) && i < |TrailOf(w).selected| && Walk.OnPage(TrailOf(w), i, k)
    ensures i < |w.pages| && a < |w.pages[i].rows|
    ensures k in w.tables[i] && w.pages[i].rows[a] == ScanRow(w.tables[i][k])
  {
    hide Walk.IsLoose, Live, FormatTS, ParseTS, ListSpec, Walk.Selects;
    SessionSizes(w);
    PageInWalk(w, i);
    hide IsSession, TrailOf;
    a :| 0 <= a < |Walk.Page(TrailOf(w), i)| && Walk.KeyOf(Walk.Page(TrailOf(w), i)[a]) == k;
    Walk.PageRow(TrailOf(w), i, a);
  }

  function Concat(pages: seq<ListResult>): seq<Row> {
    if pages == [] then [] else Concat(pages[..|pages| - 1]) + pages[|pages| - 1].rows
  }

  lemma ConcatSnoc(pages: seq<ListResult>, page: ListResult)
    ensures Concat(pages + [page]) == Concat(pages) + page.rows
  {
    assert (pages + [page])[..|pages|] == pages;
  }

  lemma ScanConcat(a: seq<StoredRow>, b: seq<StoredRow>)
    ensures ScanRows(a + b) == ScanRows(a) + ScanRows(b)
  {
    hide ScanRow;
  }

  lemma {:induction false} ConcatIsShown(w: Session, t: Walk.Trail, m: nat)
    requires m <= |w.pages| == |t.selected|
    requires forall i :: 0 <= i < |w.pages| ==> w.pages[i].rows == ScanRows(Walk.Page(t, i))
    ensures Concat(w.pages[..m]) == ScanRows(Walk.Shown(t, m))
  {
    hide ScanRow;
    if m > 0 {
      ConcatIsShown(w, t, m - 1);
      assert w.pages[..m] == w.pages[..m - 1] + [w.pages[m - 1]];
      ConcatSnoc(w.pages[..m - 1], w.pages[m - 1]);
      ScanConcat(Walk.Shown(t, m - 1), Walk.Page(t, m - 1));
      hide Concat, Walk.Page, ScanRows;
    }
  }

  /** Main result: with no calls in between, the pages of a session that ran to the end concatenate
      to the whole filtered list in order. */
  lemma QuietSession(w: Session)
    requires IsSession(w) && Live(w) && PlainCuts(w) && w.pages[|w.pages| - 1].nextCursor == ""
    requires forall i :: 0 <= i < |w.tables| ==> w.tables[i] == w.tables[0]
    ensures Keyed(w.tables[0])
    ensures Lists(Concat(w.pages), SortedAll(w.tables[0], Effective(w.statuses), None))
  {
    hide Walk.IsWalk, TrailOf, Live, FormatTS, ParseTS, ListSpec;
    assert Answers(w, 0);
    SessionIsWalk(w);
    SessionSizes(w);
    Walk.FrozenWalk(TrailOf(w));
    ConcatIsShown(w, TrailOf(w), |w.pages|);
    assert w.pages[..|w.pages|] == w.pages;
    ScansList(Concat(w.pages), SortedAll(w.tables[0], Effective(w.statuses), None));
    hide Lists, Shows;
  }

  /** Main result: the number of pages is bounded by the rows there are. */
  lemma SessionEnds(w: Session, ops: seq<Stamped>, cuts: seq<nat>)
    requires IsSession(w) && ReadsHistory(w, ops, cuts) && ClockForward(ops) && PlainCuts(w)
    ensures ClampLimit(w.limit) * (|w.pages| - 1) <= |w.tables[|w.tables| - 1]|
  {
    hide Walk.IsWalk, ReadsHistory, TrailOf, Live, ClockForward, PlainCuts, FormatTS, ParseTS, ListSpec;
    HistoryIsLive(w, ops, cuts);
    SessionIsWalk(w);
    SessionSizes(w);
    Walk.WalkEnds(TrailOf(w));
  }
}
