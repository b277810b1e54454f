/** What the calls of the triage store answer (internal/triage/repo.go), told from the history of calls alone: pages of
    the list, errors included, and the log of a row.
 */
module TriageAnswers {
  import opened Lex
  import opened Options
  import opened Timestamps
  import opened Cursors
  import opened Triage
  import opened TriageTime
  import opened TriageHistory
  import opened Keyset
  import opened ListPages

  // ---------------------------------------------------------------- what a page must be

  /** Newest first, then by host, then by event. */
  predicate Comes(a: Row, b: Row) {
    || a.updatedAt > b.updatedAt
    || (a.updatedAt == b.updatedAt && (Less(a.host, b.host) || (a.host == b.host && Less(a.event, b.event))))
  }

  predicate Wanted(statuses: seq<string>, status: string) {
    if statuses == [] then KnownStatus(status) else status in statuses
  }

  /** The row lies behind the place the cursor names. */
  predicate Behind(cursor: string, row: Row) {
    cursor != "" && DecodeCursor(cursor).Some? ==>
      var p := DecodeCursor(cursor).value;
      || row.updatedAt < p.at
      || (row.updatedAt == p.at && (Less(p.host, row.host) || (p.host == row.host && Less(p.event, row.event))))
  }

  /** The calls tell this row, and the options ask for it. */
  ghost predicate Asked(ops: History, opts: ListOpts, row: Row) {
    Told(ops, RowKey(row), row) && Wanted(opts.statuses, row.status) && Behind(opts.cursor, row)
  }

  predicate Sized(n: nat, limit: int) {
    (limit <= 0 ==> n == 50) && (1 <= limit <= 1000 ==> n == limit) && (limit > 1000 ==> n == 1000)
  }

  predicate Ordered(rows: seq<Row>) { forall a, b :: 0 <= a < b < |rows| ==> Comes(rows[a], rows[b]) }

  function CursorTo(row: Row): string { EncodeCursor(row.updatedAt, row.host, row.event) }

  /** The first n rows asked for, in order, and a cursor to the last of them exactly if there are more. */
  ghost predicate PageTold(ops: History, opts: ListOpts, page: ListResult, n: nat) {
    && Sized(n, opts.limit) && |page.rows| <= n && Ordered(page.rows)
    && (forall row :: row in page.rows ==> Asked(ops, opts, row))
    && (forall row :: Asked(ops, opts, row) && row !in page.rows ==>
          |page.rows| == n && forall a :: 0 <= a < n ==> Comes(page.rows[a], row))
    && (page.nextCursor == "" <==> forall row :: Asked(ops, opts, row) ==> row in page.rows)
    && (page.nextCursor != "" ==> |page.rows| == n > 0 && page.nextCursor == CursorTo(page.rows[n - 1]))
  }

  /** The answer of ListByStatus: an unknown status is refused first, then a cursor that cannot be read. */
  ghost predicate ListTold(ops: History, opts: ListOpts, r: Result<ListResult>) {
    if exists s :: s in opts.statuses && !KnownStatus(s) then r == Err(InvalidStatus)
    else if opts.cursor != "" && DecodeCursor(opts.cursor).None? then r == Err(MalformedCursor)
    else r.Ok? && exists n: nat :: PageTold(ops, opts, r.value, n)
  }

  // ---------------------------------------------------------------- stored rows and rows told

  /** A row with its stamps as text and as instants. */
  predicate Stamps(r: StoredRow) {
    FormatTS(ScanTime(r.updatedAt)) == r.updatedAt
  }

  lemma OrderScans(a: StoredRow, b: StoredRow)
    requires Stamps(a) && Stamps(b)
    ensures Before(PosOf(a), PosOf(b)) <==> Comes(ScanRow(a), ScanRow(b))
  {
    TextOrderIsTimeOrder(ScanTime(a.updatedAt), ScanTime(b.updatedAt));
    TextOrderIsTimeOrder(ScanTime(b.updatedAt), ScanTime(a.updatedAt));
    hide FormatTS, ScanTime, Less;
  }

  lemma BehindScans(cursor: string, r: StoredRow)
    requires Stamps(r) && !Malformed(cursor)
    ensures Beyond(After(cursor), PosOf(r)) <==> Behind(cursor, ScanRow(r))
  {
    if cursor != "" {
      var p := DecodeCursor(cursor).value;
      TextOrderIsTimeOrder(ScanTime(r.updatedAt), p.at);
      TextOrderIsTimeOrder(p.at, ScanTime(r.updatedAt));
    }
    hide FormatTS, ScanTime, Less, DecodeCursor;
  }

  lemma WantedScans(statuses: seq<string>, status: string)
    ensures status in Effective(statuses) <==> Wanted(statuses, status)
    ensures AllKnown(Effective(statuses)) <==> forall s :: s in statuses ==> KnownStatus(s)
  {}

  /** A row the list may show, as stored. */
  ghost predicate Stored(ops: History, opts: ListOpts, r: StoredRow)
    requires !Malformed(opts.cursor)
  {
    Hit(Replay(ops).rows, Effective(opts.statuses), After(opts.cursor), r)
  }

  lemma StoredStamps(ops: History, r: StoredRow)
    requires Key(r.host, r.event) in Replay(ops).rows && Replay(ops).rows[Key(r.host, r.event)] == r
    ensures Stamps(r)
  {
    ReplayCanonical(ops);
    hide Replay, FormatTS, ScanTime;
  }

  lemma StoredAsked(ops: History, opts: ListOpts, r: StoredRow)
    requires !Malformed(opts.cursor) && Stored(ops, opts, r)
    ensures Asked(ops, opts, ScanRow(r)) && Stamps(r)
  {
    var key := Key(r.host, r.event);
    RowIsTold(ops, key);
    StoredStamps(ops, r);
    BehindScans(opts.cursor, r);
    WantedScans(opts.statuses, r.status);
    hide Replay, Told, Behind, Beyond, Stamps, Wanted, ScanTime, After;
  }

  lemma AskedStored(ops: History, opts: ListOpts, row: Row) returns (r: StoredRow)
    requires !Malformed(opts.cursor) && Asked(ops, opts, row)
    ensures Stored(ops, opts, r) && row == ScanRow(r)
  {
    var key := RowKey(row);
    RowIsTold(ops, key);
    ToldCreates(ops, key, row);
    hide Creates;
    r := Replay(ops).rows[key];
    ToldOnce(ops, key, row, ScanRow(r));
    KeyStamps(ops, key);
    BehindScans(opts.cursor, r);
    WantedScans(opts.statuses, r.status);
    hide Replay, Told, Behind, Beyond, Stamps, Wanted, ScanTime, After;
  }

  lemma KeyStamps(ops: History, key: Key)
    requires key in Replay(ops).rows
    ensures var r := Replay(ops).rows[key]; Key(r.host, r.event) == key && Stamps(r)
  {
    ReplayCanonical(ops);
    hide Replay, FormatTS, ScanTime;
  }

  lemma ToldCreates(ops: History, key: Key, row: Row)
    requires Told(ops, key, row)
    ensures exists p :: Creates(ops, key, p)
  {
    hide Creates, StatusNow, AssigneeNow;
    var f, l :| ToldBy(ops, key, row, f, l);
    assert Writes(ops, key, f);
  }

  // ---------------------------------------------------------------- the page

  /** Main result: after any history the list answers, for all options, the page that the calls tell. */
  lemma ListIsTold(ops: History, opts: ListOpts)
    ensures Keyed(Replay(ops).rows) && ListTold(ops, opts, ListSpec(Replay(ops).rows, opts))
  {
    ReplayCanonical(ops);
    WantedScans(opts.statuses, "");
    hide Replay, PageTold, PageFor, AllKnown, KnownStatus, Effective, Canonical, Keyed, DecodeCursor;
    if (forall s :: s in opts.statuses ==> KnownStatus(s)) && !Malformed(opts.cursor) {
      PageIsTold(ops, opts);
      assert PageTold(ops, opts, PageFor(Replay(ops).rows, opts), ClampLimit(opts.limit));
    }
  }

  lemma PageIsTold(ops: History, opts: ListOpts)
    requires Keyed(Replay(ops).rows) && !Malformed(opts.cursor)
    ensures PageTold(ops, opts, PageFor(Replay(ops).rows, opts), ClampLimit(opts.limit))
  {
    var n, after := ClampLimit(opts.limit), After(opts.cursor);
    var raw := Selected(Replay(ops).rows, Effective(opts.statuses), after, n + 1);
    SizedLimit(opts.limit);
    PageShown(ops, opts, raw, n);
    hide *;
  }

  lemma SizedLimit(limit: int)
    ensures Sized(ClampLimit(limit), limit)
  {}

  /** What the query selects, cut to n rows, is the page told. */
  lemma PageShown(ops: History, opts: ListOpts, raw: seq<StoredRow>, n: nat)
    requires !Malformed(opts.cursor) && Sized(n, opts.limit) && n > 0
    requires IsSelection(Replay(ops).rows, Effective(opts.statuses), After(opts.cursor), n + 1, raw)
    ensures PageTold(ops, opts, PageOf(raw, n), n)
  {
    hide *;
    PageRows(raw, n);
    PageMembers(ops, opts, raw, n);
    PageRest(ops, opts, raw, n);
    CursorShown(raw, n);
    if |raw| > n {
      BeyondPage(ops, opts, raw, n);
    }
    Assembled(ops, opts, PageOf(raw, n), n, |raw| > n);
  }

  lemma Assembled(ops: History, opts: ListOpts, page: ListResult, n: nat, more: bool)
    requires Sized(n, opts.limit) && n > 0 && |page.rows| <= n && (more ==> |page.rows| == n)
    requires Ordered(page.rows) && forall row :: row in page.rows ==> Asked(ops, opts, row)
    requires forall row :: Asked(ops, opts, row) && row !in page.rows ==>
               more && forall a :: 0 <= a < n ==> Comes(page.rows[a], row)
    requires page.nextCursor != "" <==> more
    requires more ==> page.nextCursor == CursorTo(page.rows[n - 1])
    requires more ==> exists row :: Asked(ops, opts, row) && row !in page.rows
    ensures PageTold(ops, opts, page, n)
  {
    hide Asked, Comes, CursorTo, Sized, Ordered;
  }

  lemma PageRows(raw: seq<StoredRow>, n: nat)
    requires n > 0
    ensures PageOf(raw, n).rows == ScanRows(if |raw| > n then raw[..n] else raw)
    ensures |PageOf(raw, n).rows| == if |raw| > n then n else |raw|
  {}

  lemma PageMembers(ops: History, opts: ListOpts, raw: seq<StoredRow>, n: nat)
    requires !Malformed(opts.cursor) && n > 0
    requires IsSelection(Replay(ops).rows, Effective(opts.statuses), After(opts.cursor), n + 1, raw)
    ensures Ordered(PageOf(raw, n).rows) && forall row :: row in PageOf(raw, n).rows ==> Asked(ops, opts, row)
  {
    hide *;
    RawOrdered(ops, opts, raw, n + 1);
    PageRows(raw, n);
    assert raw[..|raw|] == raw;
    CutMembers(ops, opts, raw, if |raw| > n then n else |raw|);
  }

  lemma CutMembers(ops: History, opts: ListOpts, raw: seq<StoredRow>, m: nat)
    requires m <= |raw| && forall i :: 0 <= i < |raw| ==> Asked(ops, opts, ScanRow(raw[i]))
    requires forall i, j :: 0 <= i < j < |raw| ==> Comes(ScanRow(raw[i]), ScanRow(raw[j]))
    ensures Ordered(ScanRows(raw[..m])) && forall row :: row in ScanRows(raw[..m]) ==> Asked(ops, opts, row)
  {
    hide Asked, Comes, ScanRow;
  }

  lemma PageRest(ops: History, opts: ListOpts, raw: seq<StoredRow>, n: nat)
    requires !Malformed(opts.cursor) && n > 0
    requires IsSelection(Replay(ops).rows, Effective(opts.statuses), After(opts.cursor), n + 1, raw)
    ensures forall row :: Asked(ops, opts, row) && row !in PageOf(raw, n).rows ==>
              |raw| > n && forall a :: 0 <= a < n ==> Comes(PageOf(raw, n).rows[a], row)
  {
    hide *;
    PageRows(raw, n);
    var rows := PageOf(raw, n).rows;
    forall row | Asked(ops, opts, row) && row !in rows
      ensures |raw| > n && forall a :: 0 <= a < n ==> Comes(rows[a], row)
    {
      forall i | 0 <= i < |raw| && i < n ensures ScanRow(raw[i]) != row {
        assert rows[i] in rows;
      }
      Missing(ops, opts, raw, n, row);
    }
  }

  lemma RawOrdered(ops: History, opts: ListOpts, raw: seq<StoredRow>, n: nat)
    requires !Malformed(opts.cursor)
    requires IsSelection(Replay(ops).rows, Effective(opts.statuses), After(opts.cursor), n, raw)
    ensures |raw| <= n
    ensures forall i :: 0 <= i < |raw| ==> Asked(ops, opts, ScanRow(raw[i])) && Stamps(raw[i])
    ensures forall i, j :: 0 <= i < j < |raw| ==> Comes(ScanRow(raw[i]), ScanRow(raw[j]))
  {
    hide Asked, Stamps, Comes, ScanRow, Hit, Before, After, Effective, Replay;
    forall i | 0 <= i < |raw| ensures Asked(ops, opts, ScanRow(raw[i])) && Stamps(raw[i]) {
      assert raw[i] in raw;
      StoredAsked(ops, opts, raw[i]);
    }
    forall i, j | 0 <= i < j < |raw| ensures Comes(ScanRow(raw[i]), ScanRow(raw[j])) {
      OrderScans(raw[i], raw[j]);
    }
  }

  /** A row asked for that is not among the first n comes after them. */
  lemma Missing(ops: History, opts: ListOpts, raw: seq<StoredRow>, n: nat, row: Row)
    requires !Malformed(opts.cursor) && Asked(ops, opts, row)
    requires IsSelection(Replay(ops).rows, Effective(opts.statuses), After(opts.cursor), n + 1, raw)
    requires forall i :: 0 <= i < |raw| && i < n ==> ScanRow(raw[i]) != row
    ensures |raw| > n && forall a :: 0 <= a < n ==> Comes(ScanRow(raw[a]), row)
  {
    RawOrdered(ops, opts, raw, n + 1);
    hide Stamps, Comes, ScanRow, Hit, Before, After, Effective, Replay;
    var r := AskedStored(ops, opts, row);
    StoredAsked(ops, opts, r);
    hide Asked;
    if r in raw {
      var i :| 0 <= i < |raw| && raw[i] == r;
    } else {
      forall a | 0 <= a < n ensures Comes(ScanRow(raw[a]), row) {
        assert raw[a] in raw;
        OrderScans(raw[a], r);
      }
    }
  }

  /** The row behind a full page is asked for and not on it. */
  lemma BeyondPage(ops: History, opts: ListOpts, raw: seq<StoredRow>, n: nat)
    requires !Malformed(opts.cursor) && |raw| > n
    requires IsSelection(Replay(ops).rows, Effective(opts.statuses), After(opts.cursor), n + 1, raw)
    ensures Asked(ops, opts, ScanRow(raw[n])) && ScanRow(raw[n]) !in ScanRows(raw[..n])
  {
    RawOrdered(ops, opts, raw, n + 1);
    hide Asked, Stamps, ScanRow, IsSelection, After, Effective, Replay;
    forall i | 0 <= i < n ensures ScanRow(raw[i]) != ScanRow(raw[n]) {
      NotBeforeItself(ScanRow(raw[n]));
    }
  }

  lemma NotBeforeItself(row: Row)
    ensures !Comes(row, row)
  {
    LessIrreflexive(row.host);
    LessIrreflexive(row.event);
  }

  lemma CursorShown(raw: seq<StoredRow>, n: nat)
    requires n > 0
    ensures PageOf(raw, n).nextCursor != "" <==> |raw| > n
    ensures var page := PageOf(raw, n);
            |raw| > n ==> |page.rows| == n && page.nextCursor == CursorTo(page.rows[n - 1])
  {
    hide FormatTS, ScanTime;
  }

  // ---------------------------------------------------------------- one row, one note

  ghost predicate Exists(ops: History, key: Key) { exists p :: Creates(ops, key, p) }

  /** The answer of GetByEventKey. */
  ghost predicate RowTold(ops: History, key: Key, r: Result<Row>) {
    if Exists(ops, key) then r.Ok? && Told(ops, key, r.value) else r == Err(NotFound)
  }

  /** The answer of Upsert, as the first call after ops: what is missing or unknown, or the row with this call in. */
  ghost predicate UpsertTold(ops: History, input: UpsertInput, now: Instant, r: Result<Row>) {
    var key := Key(input.host, input.event);
    if input.host == "" || input.event == "" || input.actor == "" then r == Err(MissingFields)
    else if input.status != "" && !KnownStatus(input.status) then r == Err(InvalidStatus)
    else if !Exists(ops, key) && input.snapshot == "" then r == Err(MissingFields)
    else r.Ok? && Told(ops + [Stamped(DoUpsert(input), now)], key, r.value)
  }

  /** The answer of AppendNote, as the first call after ops. */
  ghost predicate NoteTold(ops: History, key: Key, author: string, body: string, now: Instant, r: Result<Note>) {
    if key.host == "" || key.event == "" || author == "" || body == "" then r == Err(MissingFields)
    else if !Exists(ops, key) then r == Err(NotFound)
    else
      && r.Ok? && r.value.host == key.host && r.value.event == key.event && r.value.createdAt == now
      && r.value.author == author && r.value.body == body
  }

  lemma RowIsAnswered(ops: History, key: Key)
    ensures var rows := Replay(ops).rows;
            RowTold(ops, key, if key in rows then Ok(ScanRow(rows[key])) else Err(NotFound))
  {
    RowIsTold(ops, key);
    hide Replay, Told, ScanRow, Creates;
  }

  /** Main result: after any history an upsert answers what the calls, with this one, tell. */
  lemma UpsertIsTold(ops: History, input: UpsertInput, now: Instant)
    ensures UpsertTold(ops, input, now, UpsertStep(Replay(ops), input, now).1)
  {
    var s, key := Stamped(DoUpsert(input), now), Key(input.host, input.event);
    RowIsTold(ops, key);
    RowIsTold(ops + [s], key);
    LastCall(ops, s);
    hide Replay, Told, ScanRow, Creates, FormatTS, AppendLog;
  }

  /** Main result: and a note what it was given. */
  lemma NoteIsTold(ops: History, key: Key, author: string, body: string, now: Instant)
    ensures NoteTold(ops, key, author, body, now, NoteStep(Replay(ops), key, author, body, now).1)
  {
    RowIsTold(ops, key);
    hide Replay, Told, ScanRow, Creates, FormatTS;
  }

  // ---------------------------------------------------------------- the log of a row

  /** What a caller reads of the entry that the call at p left. */
  ghost predicate ReadAs(ops: History, p: nat, e: LogEntry) {
    && p < |ops| && Key(e.host, e.event) == KeyAt(ops, p) && e.actor == Input(ops, p).actor && e.at == ops[p].now
    && (if FirstWrite(ops, KeyAt(ops, p), p) then
          e.from == None && e.to == if Input(ops, p).status == "" then "open" else Input(ops, p).status
        else
          e.from.Some? && StatusNow(ops[..p], KeyAt(ops, p), e.from.value) && e.to == Input(ops, p).status)
  }

  /** Exactly the logged calls of the key, in their order. */
  ghost predicate EntriesTold(ops: History, key: Key, at: seq<nat>, entries: seq<LogEntry>) {
    && |at| == |entries| && Increasing(at)
    && (forall i :: 0 <= i < |at| ==> ReadAs(ops, at[i], entries[i]))
    && (forall p: nat :: p in at <==> Logged(ops, p) && KeyAt(ops, p) == key)
  }

  /** The entries of one key, where they stand in the log. */
  lemma {:induction false} LogOfAt(log: seq<StoredLog>, key: Key) returns (idx: seq<nat>)
    ensures |idx| == |LogOf(log, key)| && Increasing(idx)
    ensures forall i :: 0 <= i < |idx| ==> idx[i] < |log| && LogOf(log, key)[i] == log[idx[i]]
    ensures forall j: nat :: j in idx <==> j < |log| && Key(log[j].host, log[j].event) == key
  {
    if log == [] {
      idx := [];
    } else {
      var n := |log| - 1;
      idx := LogOfAt(log[..n], key);
      forall i | 0 <= i < |idx| ensures idx[i] < n { assert idx[i] in idx; }
      if Key(log[n].host, log[n].event) == key {
        idx := idx + [n];
      }
    }
  }

  lemma SaysIsRead(ops: History, p: nat, n: nat, e: StoredLog)
    requires EntrySays(ops, p, n, e)
    ensures ReadAs(ops, p, ScanLog(e))
  {
    StampNow(ops[p].now);
    hide FormatTS, ScanTime, FirstWrite, StatusNow, Input, KeyAt;
  }

  /** Read under a clock that never went back. */
  ghost predicate LogRead(ops: History, key: Key, entries: seq<LogEntry>) {
    ClockForward(ops) ==> exists at :: EntriesTold(ops, key, at, entries)
  }

  lemma LogIsRead(ops: History, key: Key, entries: seq<LogEntry>)
    requires |entries| == |OrderedLog(LogOf(Replay(ops).log, key))|
    requires forall i :: 0 <= i < |entries| ==> entries[i] == ScanLog(OrderedLog(LogOf(Replay(ops).log, key))[i])
    ensures LogRead(ops, key, entries)
  {
    hide EntriesTold, OrderedLog, LogOf, Replay, ScanLog, ClockForward;
    if ClockForward(ops) {
      var at := EntriesAreTold(ops, key, entries);
    }
  }

  /** Main result: under a clock that never goes back the log of a row is read as the calls that moved it, each with its
      actor, its statuses and its time, in their order. */
  lemma EntriesAreTold(ops: History, key: Key, entries: seq<LogEntry>) returns (at: seq<nat>)
    requires ClockForward(ops) && |entries| == |OrderedLog(LogOf(Replay(ops).log, key))|
    requires forall i :: 0 <= i < |entries| ==> entries[i] == ScanLog(OrderedLog(LogOf(Replay(ops).log, key))[i])
    ensures EntriesTold(ops, key, at, entries)
  {
    hide *;
    var log := Replay(ops).log;
    LogInOrder(ops, key);
    var all := LogIsTold(ops);
    SameLength(ops, all, log);
    var idx := LogOfAt(log, key);
    forall i | 0 <= i < |idx| ensures idx[i] < |all| { assert idx[i] in idx; }
    at := seq(|idx|, i requires 0 <= i < |idx| => all[idx[i]]);
    Picked(ops, key, all, log, idx, at);
    forall i | 0 <= i < |at| ensures ReadAs(ops, at[i], entries[i]) {
      EntryAt(ops, all, log, idx[i]);
      SaysIsRead(ops, at[i], idx[i] + 1, log[idx[i]]);
    }
    AllRead(ops, key, at, entries);
  }

  lemma SameLength(ops: History, all: seq<nat>, log: seq<StoredLog>)
    requires LogTold(ops, all, log)
    ensures |all| == |log|
  {}

  lemma AllRead(ops: History, key: Key, at: seq<nat>, entries: seq<LogEntry>)
    requires |at| == |entries| && Increasing(at) && forall i :: 0 <= i < |at| ==> ReadAs(ops, at[i], entries[i])
    requires forall p: nat :: p in at <==> Logged(ops, p) && KeyAt(ops, p) == key
    ensures EntriesTold(ops, key, at, entries)
  {
    hide ReadAs, Logged, KeyAt;
  }

  lemma EntryAt(ops: History, all: seq<nat>, log: seq<StoredLog>, j: nat)
    requires LogTold(ops, all, log) && j < |all|
    ensures j < |log| && EntrySays(ops, all[j], j + 1, log[j]) && Logged(ops, all[j])
    ensures KeyAt(ops, all[j]) == Key(log[j].host, log[j].event)
  {
    hide Logged, FirstWrite, StatusNow, Input, KeyAt;
    assert all[j] in all;
  }

  /** The entries of the key stand for its logged calls. */
  lemma Picked(ops: History, key: Key, all: seq<nat>, log: seq<StoredLog>, idx: seq<nat>, at: seq<nat>)
    requires LogTold(ops, all, log) && Increasing(idx)
    requires forall j: nat :: j in idx <==> j < |log| && Key(log[j].host, log[j].event) == key
    requires |at| == |idx| && forall i :: 0 <= i < |idx| ==> idx[i] < |all| && at[i] == all[idx[i]]
    ensures Increasing(at)
    ensures forall p: nat :: p in at <==> Logged(ops, p) && KeyAt(ops, p) == key
  {
    assert Increasing(all) && |all| == |log| && forall p: nat :: p in all <==> Logged(ops, p);
    forall j: nat | j < |all| ensures Logged(ops, all[j]) && KeyAt(ops, all[j]) == Key(log[j].host, log[j].event) {
      EntryAt(ops, all, log, j);
    }
    hide LogTold, Logged, KeyAt;
    forall p: nat | Logged(ops, p) && KeyAt(ops, p) == key ensures p in at {
      var j: nat :| j < |all| && all[j] == p;
      assert j in idx;
      var i :| 0 <= i < |idx| && idx[i] == j;
      assert at[i] == p;
    }
    forall p: nat | p in at ensures Logged(ops, p) && KeyAt(ops, p) == key {
      var i :| 0 <= i < |at| && at[i] == p;
      assert idx[i] in idx;
    }
  }

  lemma LogInOrder(ops: History, key: Key)
    requires ClockForward(ops)
    ensures OrderedLog(LogOf(Replay(ops).log, key)) == LogOf(Replay(ops).log, key)
  {
    if ops != [] {
      AlwaysInTime(ops, ops[|ops| - 1].now);
      LogOfAscends(Replay(ops).log, key, ops[|ops| - 1].now);
      hide Replay;
      OrderedIdentity(LogOf(Replay(ops).log, key));
    }
  }
}
