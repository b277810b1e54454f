/** The triage tables and the statements that change them (internal/triage): rows keyed by
    (host, event), notes, and the audit log. Each statement is one transaction on one connection.
 */
module Triage {
  import opened Options
  import opened Timestamps

  // ---------------------------------------------------------------- tables

  datatype Key = Key(host: string, event: string)

  /** A row as stored: both timestamps are text columns. */
  datatype StoredRow = StoredRow(host: string, event: string, status: string, assignee: Option<string>,
                                 snapshot: string, createdAt: string, updatedAt: string)

  datatype StoredNote = StoredNote(id: nat, host: string, event: string, author: string, body: string,
                                   createdAt: string)

  datatype StoredLog = StoredLog(id: nat, host: string, event: string, actor: string,
                                 from: Option<string>, to: string, at: string)

  datatype Db = Db(rows: map<Key, StoredRow>, notes: seq<StoredNote>, log: seq<StoredLog>)

  const EMPTY := Db(map[], [], [])

  const STATUSES: seq<string> := ["open", "acknowledged", "investigating", "resolved"]

  // ---------------------------------------------------------------- values handed to callers

  datatype Row = Row(host: string, event: string, status: string, assignee: Option<string>,
                     snapshot: string, createdAt: Instant, updatedAt: Instant)

  datatype Note = Note(id: nat, host: string, event: string, author: string, body: string, createdAt: Instant)

  datatype LogEntry = LogEntry(id: nat, host: string, event: string, actor: string,
                               from: Option<string>, to: string, at: Instant)

  datatype Error = MissingFields | InvalidStatus | NotFound | MalformedCursor

  datatype Result<+T> = Ok(value: T) | Err(error: Error)

  datatype UpsertInput = UpsertInput(host: string, event: string, status: string, assignee: Option<string>,
                                     clearAssignee: bool, snapshot: string, actor: string)

  /** The time an unreadable stamp scans to: the start of year 1. */
  const ZERO_TIME: Instant := 366 * DAY_SECONDS * NANOS

  /** That is Go's zero time. */
  lemma ZeroTime()
    ensures ZERO_TIME == FromCivil(Civil(1, 1, 1, 0, 0, 0, 0))
  {
    YearsAreGregorian(1);
  }

  function ScanTime(s: string): Instant {
    match ParseTS(s) case Some(t) => t case None => ZERO_TIME
  }

  function ScanRow(r: StoredRow): Row {
    Row(r.host, r.event, r.status, r.assignee, r.snapshot, ScanTime(r.createdAt), ScanTime(r.updatedAt))
  }

  function ScanLog(e: StoredLog): LogEntry {
    LogEntry(e.id, e.host, e.event, e.actor, e.from, e.to, ScanTime(e.at))
  }

  // ---------------------------------------------------------------- statements

  predicate Complete(input: UpsertInput) { input.host != "" && input.event != "" && input.actor != "" }

  predicate StatusOk(input: UpsertInput) { input.status == "" || input.status in STATUSES }

  /** The assignee after an update; clearing wins over setting. */
  function NextAssignee(current: Option<string>, input: UpsertInput): Option<string> {
    if input.clearAssignee then None else if input.assignee.Some? then input.assignee else current
  }

  function AppendLog(log: seq<StoredLog>, key: Key, actor: string, from: Option<string>, to: string, now: Instant)
    : seq<StoredLog>
  {
    log + [StoredLog(|log| + 1, key.host, key.event, actor, from, to, FormatTS(now))]
  }

  function Insert(db: Db, input: UpsertInput, now: Instant): Db {
    var key := Key(input.host, input.event);
    var status := if input.status == "" then "open" else input.status;
    var row := StoredRow(input.host, input.event, status, input.assignee, input.snapshot, FormatTS(now), FormatTS(now));
    db.(rows := db.rows[key := row], log := AppendLog(db.log, key, input.actor, None, status, now))
  }

  function Update(db: Db, input: UpsertInput, now: Instant): Db
    requires Key(input.host, input.event) in db.rows
  {
    var key := Key(input.host, input.event);
    var prev := db.rows[key];
    var moves := input.status != "" && input.status != prev.status;
    var row := prev.(status := if moves then input.status else prev.status,
                    assignee := NextAssignee(prev.assignee, input), updatedAt := FormatTS(now));
    db.(rows := db.rows[key := row],
        log := if moves then AppendLog(db.log, key, input.actor, Some(prev.status), row.status, now) else db.log)
  }

  /** The database and the answer after an upsert; every refusal leaves the database alone. */
  function UpsertStep(db: Db, input: UpsertInput, now: Instant): (Db, Result<Row>) {
    var key := Key(input.host, input.event);
    if !Complete(input) then (db, Err(MissingFields))
    else if !StatusOk(input) then (db, Err(InvalidStatus))
    else if key in db.rows then
      var next := Update(db, input, now);
      (next, Ok(ScanRow(next.rows[key])))
    else if input.snapshot == "" then (db, Err(MissingFields))
    else
      var next := Insert(db, input, now);
      (next, Ok(ScanRow(next.rows[key])))
  }

  function NoteStep(db: Db, key: Key, author: string, body: string, now: Instant): (Db, Result<Note>) {
    if key.host == "" || key.event == "" || author == "" || body == "" then (db, Err(MissingFields))
    else if key !in db.rows then (db, Err(NotFound))
    else
      var id := |db.notes| + 1;
      (db.(notes := db.notes + [StoredNote(id, key.host, key.event, author, body, FormatTS(now))]),
       Ok(Note(id, key.host, key.event, author, body, now)))
  }

  // ---------------------------------------------------------------- histories

  datatype Op = DoUpsert(input: UpsertInput) | DoNote(key: Key, author: string, body: string)
  datatype Stamped = Stamped(op: Op, now: Instant)

  function Exec(db: Db, s: Stamped): Db {
    match s.op
    case DoUpsert(input) => UpsertStep(db, input, s.now).0
    case DoNote(key, author, body) => NoteStep(db, key, author, body, s.now).0
  }

  /** The database reached by running the calls in order from an empty one. */
  function Replay(ops: seq<Stamped>): Db {
    if ops == [] then EMPTY else Exec(Replay(ops[..|ops| - 1]), ops[|ops| - 1])
  }

  predicate ClockForward(ops: seq<Stamped>) {
    forall i, j :: 0 <= i < j < |ops| ==> ops[i].now <= ops[j].now
  }

  // ---------------------------------------------------------------- the log agrees with the rows

  function LogOf(log: seq<StoredLog>, key: Key): (r: seq<StoredLog>)
    ensures forall e :: e in r ==> e in log
  {
    if log == [] then []
    else
      var e := log[|log| - 1];
      LogOf(log[..|log| - 1], key) + (if Key(e.host, e.event) == key then [e] else [])
  }

  /** A chain of real transitions that starts from nothing. */
  ghost predicate Chain(entries: seq<StoredLog>) {
    && (entries != [] ==> entries[0].from == None)
    && (forall i :: 0 < i < |entries| ==> entries[i].from == Some(entries[i - 1].to))
    && (forall i :: 0 <= i < |entries| ==> entries[i].from != Some(entries[i].to))
  }

  /** The log of one key exists exactly with its row, is a chain, and ends in the row's status. */
  ghost predicate Agrees(db: Db, k: Key) {
    var entries := LogOf(db.log, k);
    && (entries != [] <==> k in db.rows)
    && Chain(entries)
    && (k in db.rows ==> entries[|entries| - 1].to == db.rows[k].status)
  }

  ghost predicate Audited(db: Db) {
    && (forall k :: k in db.rows ==> db.rows[k].host == k.host && db.rows[k].event == k.event)
    && (forall k :: k in db.rows ==> db.rows[k].status in STATUSES)
    && (forall k :: Agrees(db, k))
    && (forall n :: n in db.notes ==> Key(n.host, n.event) in db.rows)
  }

  lemma LogAppended(log: seq<StoredLog>, e: StoredLog, k: Key)
    ensures LogOf(log + [e], k) == LogOf(log, k) + (if Key(e.host, e.event) == k then [e] else [])
  {
    assert (log + [e])[..|log|] == log;
  }

  /** Appending a transition from the current status keeps the key's log in step. */
  lemma AgreesAppended(db: Db, next: Db, e: StoredLog, k: Key)
    requires Agrees(db, k) && next.log == db.log + [e]
    requires k == Key(e.host, e.event) ==>
      && k in next.rows && next.rows[k].status == e.to && e.from != Some(e.to)
      && e.from == (if k in db.rows then Some(db.rows[k].status) else None)
    requires k != Key(e.host, e.event) ==> (k in next.rows <==> k in db.rows)
    requires k != Key(e.host, e.event) && k in db.rows ==> next.rows[k] == db.rows[k]
    ensures Agrees(next, k)
  {
    LogAppended(db.log, e, k);
  }

  lemma AuditedInsert(db: Db, input: UpsertInput, now: Instant)
    requires Audited(db) && StatusOk(input) && Key(input.host, input.event) !in db.rows
    ensures Audited(Insert(db, input, now))
  {
    hide FormatTS;
    var next := Insert(db, input, now);
    var e := next.log[|db.log|];
    forall k ensures Agrees(next, k) {
      hide LogOf, Chain;
      assert Agrees(db, k);
      AgreesAppended(db, next, e, k);
    }
  }

  lemma AuditedUpdate(db: Db, input: UpsertInput, now: Instant)
    requires Audited(db) && StatusOk(input) && Key(input.host, input.event) in db.rows
    ensures Audited(Update(db, input, now))
  {
    hide FormatTS;
    var next := Update(db, input, now);
    forall k ensures Agrees(next, k) {
      hide LogOf, Chain;
      assert Agrees(db, k);
      if |next.log| > |db.log| {
        AgreesAppended(db, next, next.log[|db.log|], k);
      }
    }
  }

  lemma AuditedStep(db: Db, s: Stamped)
    requires Audited(db)
    ensures Audited(Exec(db, s))
  {
    hide FormatTS;
    hide LogOf, Chain, Insert, Update, ScanRow;
    match s.op
    case DoUpsert(input) =>
      var key := Key(input.host, input.event);
      if Complete(input) && StatusOk(input) {
        if key in db.rows {
          AuditedUpdate(db, input, s.now);
        } else {
          AuditedInsert(db, input, s.now);
        }
      }
    case DoNote(key, author, body) =>
      forall k ensures Agrees(Exec(db, s), k) {
        assert Agrees(db, k);
      }
  }

  /** Main result: in every reachable database the audit log, the rows and the notes agree. */
  lemma {:induction false} AlwaysAudited(ops: seq<Stamped>)
    ensures Audited(Replay(ops))
  {
    if ops != [] {
      AlwaysAudited(ops[..|ops| - 1]);
      AuditedStep(Replay(ops[..|ops| - 1]), ops[|ops| - 1]);
    }
  }
}
