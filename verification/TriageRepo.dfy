/** The triage store (internal/triage/repo.go): the calls of Repo, step by step, on tables it updates
    in place. The clock is a parameter of each call.
 */
module TriageRepo {
  import opened Options
  import opened Timestamps
  import opened Cursors
  import opened Triage
  import opened TriageTime
  import opened TriageHistory
  import opened TriageAnswers
  import opened Keyset
  import opened ListPages

  function ScanLogs(s: seq<StoredLog>): seq<LogEntry> { seq(|s|, i requires 0 <= i < |s| => ScanLog(s[i])) }

  class Repo {
    var rows: map<Key, StoredRow>
    var notes: seq<StoredNote>
    var log: seq<StoredLog>
    ghost var history: History

    function State(): Db
      reads this
    {
      Db(rows, notes, log)
    }

    /** The tables are what the calls so far leave, and agree; every call keeps it. */
    ghost predicate Valid()
      reads this
    {
      State() == Replay(history) && Audited(State())
    }

    constructor ()
      ensures Valid() && history == [] && State() == EMPTY
    {
      rows, notes, log, history := map[], [], [], [];
      new;
      AlwaysAudited([]);
    }

    method Upsert(input: UpsertInput, now: Instant) returns (r: Result<Row>)
      requires Valid()
      modifies this
      ensures Valid() && history == old(history) + [Stamped(DoUpsert(input), now)]
      ensures (State(), r) == UpsertStep(old(State()), input, now)
      ensures UpsertTold(old(history), input, now, r)
    {
      hide FormatTS, ParseTS, Audited, Replay, UpsertTold, ScanTime;
      AuditedStep(State(), Stamped(DoUpsert(input), now));
      UpsertIsTold(history, input, now);
      LastCall(history, Stamped(DoUpsert(input), now));
      history := history + [Stamped(DoUpsert(input), now)];
      if input.host == "" || input.event == "" || input.actor == "" {
        return Err(MissingFields);
      }
      if input.status != "" && input.status !in STATUSES {
        return Err(InvalidStatus);
      }
      var key := Key(input.host, input.event);
      if key !in rows {
        if |input.snapshot| == 0 {
          return Err(MissingFields);
        }
        var status := input.status;
        if status == "" {
          status := "open";
        }
        var row := StoredRow(input.host, input.event, status, input.assignee, input.snapshot,
                             FormatTS(now), FormatTS(now));
        rows := rows[key := row];
        AppendLogTx(key, input.actor, None, status, now);
        return Ok(ScanRow(row));
      }
      var existing := rows[key];
      var updated := existing.(updatedAt := FormatTS(now));
      var from: Option<string> := None;
      if input.status != "" && input.status != existing.status {
        from := Some(existing.status);
        updated := updated.(status := input.status);
      }
      if input.clearAssignee {
        updated := updated.(assignee := None);
      } else if input.assignee.Some? {
        updated := updated.(assignee := input.assignee);
      }
      rows := rows[key := updated];
      if from.Some? {
        AppendLogTx(key, input.actor, from, updated.status, now);
      }
      r := Ok(ScanRow(updated));
    }

    method AppendLogTx(key: Key, actor: string, from: Option<string>, to: string, at: Instant)
      modifies this`log
      ensures log == AppendLog(old(log), key, actor, from, to, at)
    {
      log := log + [StoredLog(|log| + 1, key.host, key.event, actor, from, to, FormatTS(at))];
    }

    method GetByEventKey(key: Key) returns (r: Result<Row>)
      requires Valid()
      ensures r == if key in rows then Ok(ScanRow(rows[key])) else Err(NotFound)
      ensures RowTold(history, key, r)
    {
      RowIsAnswered(history, key);
      hide Audited, Replay, RowTold, ScanRow;
      if key !in rows {
        return Err(NotFound);
      }
      r := Ok(ScanRow(rows[key]));
    }

    method AppendNote(key: Key, author: string, body: string, now: Instant) returns (r: Result<Note>)
      requires Valid()
      modifies this`notes, this`history
      ensures Valid() && history == old(history) + [Stamped(DoNote(key, author, body), now)]
      ensures (State(), r) == NoteStep(old(State()), key, author, body, now)
      ensures NoteTold(old(history), key, author, body, now, r)
    {
      hide FormatTS, ParseTS, Audited, Replay, NoteTold, RowTold;
      AuditedStep(State(), Stamped(DoNote(key, author, body), now));
      NoteIsTold(history, key, author, body, now);
      LastCall(history, Stamped(DoNote(key, author, body), now));
      if key.host == "" || key.event == "" || author == "" || body == "" {
        history := history + [Stamped(DoNote(key, author, body), now)];
        return Err(MissingFields);
      }
      var found := GetByEventKey(key);
      history := history + [Stamped(DoNote(key, author, body), now)];
      if found.Err? {
        return Err(found.error);
      }
      var id := |notes| + 1;
      notes := notes + [StoredNote(id, key.host, key.event, author, body, FormatTS(now))];
      r := Ok(Note(id, key.host, key.event, author, body, now));
    }

    /** SELECT ... FROM triage_log WHERE key ORDER BY at, id. */
    method SelectLog(key: Key) returns (found: seq<StoredLog>)
      ensures found == OrderedLog(LogOf(log, key))
    {
      hide LogOf, OrderedLog, InsertLog;
      found := [];
      var i := 0;
      NothingSelected(log[..0], key);
      while i < |log|
        invariant i <= |log|
        invariant found == OrderedLog(LogOf(log[..i], key))
      {
        SelectStep(log, i, key);
        if log[i].host == key.host && log[i].event == key.event {
          found := InsertLog(found, log[i]);
        }
        i := i + 1;
      }
      assert log[..|log|] == log;
    }

    method ListLog(key: Key) returns (r: Result<seq<LogEntry>>)
      requires Valid()
      ensures if Exists(history, key) then r.Ok? && LogRead(history, key, r.value) else r == Err(NotFound)
      ensures r == if key in rows then Ok(ScanLogs(OrderedLog(LogOf(log, key)))) else Err(NotFound)
    {
      hide ScanTime, OrderedLog, LogOf, ScanRow, Audited, Replay, Exists, LogRead;
      var found := GetByEventKey(key);
      if found.Err? {
        return Err(NotFound);
      }
      var entries := SelectLog(key);
      var out := [];
      var i := 0;
      while i < |entries|
        invariant i <= |entries|
        invariant out == ScanLogs(entries[..i])
      {
        out := out + [ScanLog(entries[i])];
        i := i + 1;
      }
      assert entries[..|entries|] == entries;
      LogIsRead(history, key, out);
      r := Ok(out);
    }

    /** SELECT ... FROM triage WHERE ... ORDER BY ... LIMIT n. */
    method SelectRows(statuses: seq<string>, after: Option<Pos>, n: nat) returns (out: seq<StoredRow>)
      requires Valid()
      ensures out == Selected(rows, statuses, after, n)
    {
      hide Before, Hit, IsSelection;
      var sorted: seq<StoredRow> := [];
      var todo := rows.Keys;
      while todo != {}
        invariant todo <= rows.Keys
        invariant Ascending(sorted)
        invariant forall r :: r in sorted <==> Hit(rows, statuses, after, r) && Key(r.host, r.event) in rows.Keys - todo
        decreases todo
      {
        var k :| k in todo;
        ghost var before := sorted;
        if Hit(rows, statuses, after, rows[k]) {
          DistinctPositions(sorted, rows[k]);
          InsertRowAscends(sorted, rows[k]);
          sorted := InsertRow(sorted, rows[k]);
        }
        todo := todo - {k};
        forall r ensures r in sorted <==> Hit(rows, statuses, after, r) && Key(r.host, r.event) in rows.Keys - todo {
          HitIsStored(rows, statuses, after, r);
        }
      }
      forall r ensures r in sorted <==> Hit(rows, statuses, after, r) {
        HitIsStored(rows, statuses, after, r);
      }
      FirstHits(rows, statuses, after, n, sorted);
      out := if |sorted| <= n then sorted else sorted[..n];
      SelectionUnique(rows, statuses, after, n, out, Selected(rows, statuses, after, n));
    }

    method CheckStatuses(statuses: seq<string>) returns (ok: bool)
      ensures ok <==> AllKnown(statuses)
    {
      for i := 0 to |statuses|
        invariant forall j :: 0 <= j < i ==> statuses[j] in STATUSES
      {
        if statuses[i] !in STATUSES {
          return false;
        }
      }
      ok := true;
    }

    method ScanAll(found: seq<StoredRow>) returns (out: seq<Row>)
      ensures out == ScanRows(found)
    {
      hide ScanRow;
      out := [];
      for k := 0 to |found|
        invariant out == ScanRows(found[..k])
      {
        out := out + [ScanRow(found[k])];
      }
      assert found[..|found|] == found;
    }

    method ListByStatus(opts: ListOpts) returns (r: Result<ListResult>)
      requires Valid()
      ensures r == ListSpec(rows, opts)
      ensures ListTold(history, opts, r)
    {
      ListIsTold(history, opts);
      hide Replay, ListTold, Audited;
      hide FormatTS, ParseTS, ScanRow, DecodeCursor, EncodeCursor, AllKnown, Selected, Keyed;
      var limit := ClampLimit(opts.limit);
      var statuses := opts.statuses;
      if |statuses| == 0 {
        statuses := STATUSES;
      }
      var known := CheckStatuses(statuses);
      if !known {
        return Err(InvalidStatus);
      }
      var after: Option<Pos> := None;
      if opts.cursor != "" {
        var decoded := DecodeCursor(opts.cursor);
        if decoded.None? {
          return Err(MalformedCursor);
        }
        after := Some(Pos(FormatTS(decoded.value.at), decoded.value.host, decoded.value.event));
      }
      var found := SelectRows(statuses, after, limit + 1);
      var out := ScanAll(found);
      var nextCursor := "";
      if |out| > limit {
        out := out[..limit];
        nextCursor := CursorOf(found[limit - 1]);
        assert out == ScanRows(found[..limit]);
      }
      r := Ok(ListResult(out, nextCursor));
    }
  }

  lemma NothingSelected(log: seq<StoredLog>, key: Key)
    requires log == []
    ensures OrderedLog(LogOf(log, key)) == []
  {}

  lemma SelectStep(log: seq<StoredLog>, i: nat, key: Key)
    requires i < |log|
    ensures OrderedLog(LogOf(log[..i + 1], key)) ==
            if Key(log[i].host, log[i].event) == key then InsertLog(OrderedLog(LogOf(log[..i], key)), log[i])
            else OrderedLog(LogOf(log[..i], key))
  {
    hide InsertLog;
    assert log[..i + 1] == log[..i] + [log[i]];
    LogAppended(log[..i], log[i], key);
    var matching := LogOf(log[..i], key);
    assert (matching + [log[i]])[..|matching|] == matching;
    assert matching + [] == matching;
  }

  lemma DistinctPositions(sorted: seq<StoredRow>, r: StoredRow)
    requires forall x :: x in sorted ==> Key(x.host, x.event) != Key(r.host, r.event)
    ensures forall x :: x in sorted ==> PosOf(x) != PosOf(r)
  {}

  lemma HitIsStored(rows: Table, statuses: seq<string>, after: Option<Pos>, r: StoredRow)
    ensures Hit(rows, statuses, after, r) ==> Key(r.host, r.event) in rows && rows[Key(r.host, r.event)] == r
  {}
}
