/** The triage store told from its calls (internal/triage/repo.go): what a row, a note and a log entry must be, by
    positions in the history alone.
 */
module TriageHistory {
  import opened Options
  import opened Timestamps
  import opened Triage
  import opened TriageTime

  type History = seq<Stamped>

  // ---------------------------------------------------------------- the calls that write a row

  predicate KnownStatus(s: string) { s == "open" || s == "acknowledged" || s == "investigating" || s == "resolved" }

  /** An upsert of the key that says who acts and names no unknown status. */
  predicate Names(s: Stamped, key: Key) {
    && s.op.DoUpsert? && s.op.input.host == key.host != "" && s.op.input.event == key.event != ""
    && s.op.input.actor != "" && (s.op.input.status == "" || KnownStatus(s.op.input.status))
  }

  /** Such an upsert with the evidence that a new row needs. */
  predicate Creates(ops: History, key: Key, p: int) {
    0 <= p < |ops| && Names(ops[p], key) && ops[p].op.input.snapshot != ""
  }

  /** The call at p writes the row: it or an earlier call brought the evidence. */
  ghost predicate Writes(ops: History, key: Key, p: int) {
    0 <= p < |ops| && Names(ops[p], key) && exists q :: q <= p && Creates(ops, key, q)
  }

  const BLANK := UpsertInput("", "", "", None, false, "", "")

  /** What the call at p asks for; nothing if it is no upsert. */
  function Input(ops: History, p: int): UpsertInput {
    if 0 <= p < |ops| && ops[p].op.DoUpsert? then ops[p].op.input else BLANK
  }

  ghost predicate FirstWrite(ops: History, key: Key, p: int) {
    Writes(ops, key, p) && forall q :: Writes(ops, key, q) ==> p <= q
  }

  ghost predicate LastWrite(ops: History, key: Key, p: int) {
    Writes(ops, key, p) && forall q :: Writes(ops, key, q) ==> q <= p
  }

  // ---------------------------------------------------------------- what the row must be

  /** The write at p is the last to name a status. */
  ghost predicate LastNamed(ops: History, key: Key, p: int) {
    && Writes(ops, key, p) && Input(ops, p).status != ""
    && forall q :: q > p && Writes(ops, key, q) ==> Input(ops, q).status == ""
  }

  /** The status named last, "open" if none ever was. */
  ghost predicate StatusNow(ops: History, key: Key, status: string) {
    || (exists p :: LastNamed(ops, key, p) && status == Input(ops, p).status)
    || (status == "open" && forall q :: Writes(ops, key, q) ==> Input(ops, q).status == "")
  }

  predicate Touches(input: UpsertInput) { input.clearAssignee || input.assignee.Some? }

  /** The write at p, not the first, is the last to clear or set the assignee. */
  ghost predicate LastTouched(ops: History, key: Key, first: int, p: int) {
    && Writes(ops, key, p) && p > first && Touches(Input(ops, p))
    && forall q :: q > p && Writes(ops, key, q) ==> !Touches(Input(ops, q))
  }

  /** None if that write cleared, else what it set; without one, what the first write gave. */
  ghost predicate AssigneeNow(ops: History, key: Key, first: int, assignee: Option<string>) {
    || (exists p :: LastTouched(ops, key, first, p) &&
          assignee == if Input(ops, p).clearAssignee then None else Input(ops, p).assignee)
    || (Writes(ops, key, first) && assignee == Input(ops, first).assignee &&
        forall q :: q > first && Writes(ops, key, q) ==> !Touches(Input(ops, q)))
  }

  /** The row of the key, first written at f and last at l: evidence and creation from the one, the time of the
      other. */
  ghost predicate ToldBy(ops: History, key: Key, row: Row, f: int, l: int) {
    && FirstWrite(ops, key, f) && LastWrite(ops, key, l)
    && row.host == key.host && row.event == key.event && row.snapshot == Input(ops, f).snapshot
    && StatusNow(ops, key, row.status) && AssigneeNow(ops, key, f, row.assignee)
    && MadeAt(ops, f, row.createdAt) && MadeAt(ops, l, row.updatedAt)
  }

  predicate MadeAt(ops: History, p: int, t: Instant) { 0 <= p < |ops| && ops[p].now == t }

  /** The row of the key as the calls tell it. */
  ghost predicate Told(ops: History, key: Key, row: Row) { exists f, l :: ToldBy(ops, key, row, f, l) }

  /** The calls tell one row at most. */
  lemma ToldOnce(ops: History, key: Key, a: Row, b: Row)
    requires Told(ops, key, a) && Told(ops, key, b)
    ensures a == b
  {
    hide Writes, Input, StatusNow, AssigneeNow;
    var f, l :| ToldBy(ops, key, a, f, l);
    var g, m :| ToldBy(ops, key, b, g, m);
    OneStatus(ops, key, a.status, b.status);
    OneAssignee(ops, key, f, a.assignee, b.assignee);
  }

  lemma OneStatus(ops: History, key: Key, s: string, t: string)
    requires StatusNow(ops, key, s) && StatusNow(ops, key, t)
    ensures s == t
  {
    hide Writes;
  }

  lemma OneAssignee(ops: History, key: Key, f: int, a: Option<string>, b: Option<string>)
    requires AssigneeNow(ops, key, f, a) && AssigneeNow(ops, key, f, b)
    ensures a == b
  {
    hide Writes;
  }

  // ---------------------------------------------------------------- one more call

  /** A call more does not change which of the earlier ones write. */
  lemma WritesSnoc(ops: History, s: Stamped, key: Key)
    ensures forall p :: p != |ops| ==> (Writes(ops + [s], key, p) <==> Writes(ops, key, p))
    ensures forall p :: Writes(ops, key, p) ==> 0 <= p < |ops|
    ensures forall p :: p != |ops| ==> (Creates(ops + [s], key, p) <==> Creates(ops, key, p))
    ensures Writes(ops + [s], key, |ops|) <==>
              Names(s, key) && (s.op.input.snapshot != "" || exists q :: Creates(ops, key, q))
    ensures (exists q :: Creates(ops + [s], key, q)) <==>
              (exists q :: Creates(ops, key, q)) || (Names(s, key) && s.op.input.snapshot != "")
  {
    var all := ops + [s];
    assert all[|ops|] == s && (Names(s, key) ==> s.op.DoUpsert?);
    hide Names;
    forall p | p != |ops| ensures Creates(all, key, p) <==> Creates(ops, key, p) {
      assert 0 <= p < |ops| ==> all[p] == ops[p];
    }
    forall p | p != |ops| ensures Writes(all, key, p) <==> Writes(ops, key, p) {
      assert 0 <= p < |ops| ==> all[p] == ops[p];
      if Writes(all, key, p) {
        var q :| q <= p && Creates(all, key, q);
        assert Creates(ops, key, q);
      }
      if Writes(ops, key, p) {
        var q :| q <= p && Creates(ops, key, q);
        assert Creates(all, key, q);
      }
    }
    assert Creates(all, key, |ops|) <==> Names(s, key) && s.op.input.snapshot != "";
    if q :| Creates(ops, key, q) {
      assert q <= |ops| && Creates(all, key, q);
    }
  }

  lemma InputSnoc(ops: History, s: Stamped)
    ensures forall p :: p != |ops| ==> Input(ops + [s], p) == Input(ops, p)
    ensures s.op.DoUpsert? ==> Input(ops + [s], |ops|) == s.op.input
    ensures forall p, t :: p != |ops| ==> (MadeAt(ops + [s], p, t) <==> MadeAt(ops, p, t))
    ensures MadeAt(ops + [s], |ops|, s.now)
  {
    assert (ops + [s])[|ops|] == s;
    assert forall p :: 0 <= p < |ops| ==> (ops + [s])[p] == ops[p];
  }

  lemma WriterInside(ops: History, key: Key, p: int)
    requires Writes(ops, key, p)
    ensures 0 <= p < |ops| && ops[p].op.DoUpsert?
  {}

  /** Without a write the row stays as told. */
  lemma ToldStays(ops: History, s: Stamped, key: Key, row: Row)
    requires Told(ops, key, row) && !Writes(ops + [s], key, |ops|)
    ensures Told(ops + [s], key, row)
  {
    WritesSnoc(ops, s, key);
    InputSnoc(ops, s);
    hide Writes, Creates, Names, Input, MadeAt;
    var f, l :| ToldBy(ops, key, row, f, l);
    WriterInside(ops, key, f);
    WriterInside(ops, key, l);
    StatusStays(ops, s, key, row.status);
    AssigneeStays(ops, s, key, f, row.assignee);
    hide StatusNow, AssigneeNow;
    assert ToldBy(ops + [s], key, row, f, l);
  }

  lemma StatusStays(ops: History, s: Stamped, key: Key, status: string)
    requires StatusNow(ops, key, status) && (Writes(ops + [s], key, |ops|) ==> Input(ops + [s], |ops|).status == "")
    ensures StatusNow(ops + [s], key, status)
  {
    WritesSnoc(ops, s, key);
    InputSnoc(ops, s);
    hide Writes, Creates, Names, Input;
    if p :| LastNamed(ops, key, p) && status == Input(ops, p).status {
      WriterInside(ops, key, p);
      assert LastNamed(ops + [s], key, p);
    }
  }

  lemma AssigneeStays(ops: History, s: Stamped, key: Key, first: int, a: Option<string>)
    requires AssigneeNow(ops, key, first, a) && 0 <= first < |ops|
    requires Writes(ops + [s], key, |ops|) ==> !Touches(Input(ops + [s], |ops|))
    ensures AssigneeNow(ops + [s], key, first, a)
  {
    WritesSnoc(ops, s, key);
    InputSnoc(ops, s);
    hide Writes, Creates, Names, Input;
    if p :| LastTouched(ops, key, first, p) &&
            a == if Input(ops, p).clearAssignee then None else Input(ops, p).assignee {
      WriterInside(ops, key, p);
      assert LastTouched(ops + [s], key, first, p);
    }
  }

  /** The row as its first write gives it. */
  function Begun(key: Key, s: Stamped): Row
    requires s.op.DoUpsert?
  {
    var input := s.op.input;
    Row(key.host, key.event, if input.status == "" then "open" else input.status, input.assignee, input.snapshot,
        s.now, s.now)
  }

  /** The row after a later write: the status it names, the assignee it touches, its time. */
  function Amended(row: Row, s: Stamped): Row
    requires s.op.DoUpsert?
  {
    var input := s.op.input;
    row.(status := if input.status == "" then row.status else input.status,
         assignee := if input.clearAssignee then None else if input.assignee.Some? then input.assignee
                     else row.assignee,
         updatedAt := s.now)
  }

  lemma ToldFirst(ops: History, s: Stamped, key: Key)
    requires (forall p :: !Writes(ops, key, p)) && Writes(ops + [s], key, |ops|) && s.op.DoUpsert?
    ensures Told(ops + [s], key, Begun(key, s))
  {
    WritesSnoc(ops, s, key);
    InputSnoc(ops, s);
    hide Writes, Creates, Names, Input, MadeAt;
    var all, n := ops + [s], |ops|;
    if s.op.input.status != "" {
      assert LastNamed(all, key, n);
    }
    assert ToldBy(all, key, Begun(key, s), n, n);
  }

  lemma ToldLater(ops: History, s: Stamped, key: Key, row: Row)
    requires Told(ops, key, row) && Writes(ops + [s], key, |ops|) && s.op.DoUpsert?
    ensures Told(ops + [s], key, Amended(row, s))
  {
    WritesSnoc(ops, s, key);
    InputSnoc(ops, s);
    hide Writes, Creates, Names, Input, MadeAt;
    var all, n := ops + [s], |ops|;
    var f, l :| ToldBy(ops, key, row, f, l);
    WriterInside(ops, key, f);
    if s.op.input.status == "" {
      StatusStays(ops, s, key, row.status);
    } else {
      assert LastNamed(all, key, n);
    }
    if Touches(s.op.input) {
      assert LastTouched(all, key, f, n);
    } else {
      AssigneeStays(ops, s, key, f, row.assignee);
    }
    assert AssigneeNow(all, key, f, Amended(row, s).assignee) && StatusNow(all, key, Amended(row, s).status);
    hide StatusNow, AssigneeNow;
    assert ToldBy(all, key, Amended(row, s), f, n);
  }

  type Rows = map<Key, StoredRow>

  /** What a call makes of the row of a key. */
  ghost predicate RowMoves(key: Key, s: Stamped, rows: Rows, next: Rows) {
    if Names(s, key) && (key in rows || s.op.input.snapshot != "") then
      key in next && ScanRow(next[key]) == if key in rows then Amended(ScanRow(rows[key]), s) else Begun(key, s)
    else
      (key in next <==> key in rows) && (key in rows ==> next[key] == rows[key])
  }

  lemma RowStep(db: Db, s: Stamped, key: Key)
    requires forall k :: k in db.rows ==> db.rows[k].host == k.host && db.rows[k].event == k.event
    ensures RowMoves(key, s, db.rows, Exec(db, s).rows)
  {
    StampNow(s.now);
    hide FormatTS, ScanTime, AppendLog;
    if s.op.DoUpsert? {
      UpsertRow(db, s.op.input, s.now, key);
      hide UpsertStep;
    }
  }

  lemma UpsertRow(db: Db, input: UpsertInput, now: Instant, key: Key)
    requires forall k :: k in db.rows ==> db.rows[k].host == k.host && db.rows[k].event == k.event
    requires ScanTime(FormatTS(now)) == now
    ensures RowMoves(key, Stamped(DoUpsert(input), now), db.rows, UpsertStep(db, input, now).0.rows)
  {
    hide FormatTS, ScanTime, AppendLog;
  }

  /** Main result: after any history a row exists exactly if some call created it, and what is read of it is told by
      the positions of the calls: whatever the others did. */
  lemma {:induction false} RowIsTold(ops: History, key: Key)
    ensures key in Replay(ops).rows <==> exists p :: Creates(ops, key, p)
    ensures key in Replay(ops).rows ==> Told(ops, key, ScanRow(Replay(ops).rows[key]))
  {
    hide Exec, ScanRow, Told, Names;
    if ops == [] {
      assert forall p :: !Creates(ops, key, p);
    } else {
      var before, s := ops[..|ops| - 1], ops[|ops| - 1];
      assert ops == before + [s];
      RowIsTold(before, key);
      AlwaysAudited(before);
      RowStep(Replay(before), s, key);
      WritesSnoc(before, s, key);
      NoWriter(before, key);
      hide Replay, Audited, Creates, Writes;
      assert Replay(ops) == Exec(Replay(before), s) by { LastCall(before, s); }
      TellStep(before, s, key, Replay(before).rows, Replay(ops).rows);
    }
  }

  lemma LastCall(before: History, s: Stamped)
    ensures Replay(before + [s]) == Exec(Replay(before), s)
  {
    assert (before + [s])[..|before|] == before;
  }

  lemma NoWriter(ops: History, key: Key)
    ensures (forall p :: !Creates(ops, key, p)) ==> forall p :: !Writes(ops, key, p)
  {}

  lemma TellStep(ops: History, s: Stamped, key: Key, rows: Rows, next: Rows)
    requires key in rows ==> Told(ops, key, ScanRow(rows[key]))
    requires key !in rows ==> forall p :: !Writes(ops, key, p)
    requires Writes(ops + [s], key, |ops|) <==> Names(s, key) && (s.op.input.snapshot != "" || key in rows)
    requires RowMoves(key, s, rows, next)
    ensures key in next ==> Told(ops + [s], key, ScanRow(next[key]))
  {
    hide Told, Writes, ScanTime;
    if !Writes(ops + [s], key, |ops|) {
      if key in rows {
        ToldStays(ops, s, key, ScanRow(rows[key]));
      }
    } else if key in rows {
      ToldLater(ops, s, key, ScanRow(rows[key]));
    } else {
      ToldFirst(ops, s, key);
    }
  }

  // ---------------------------------------------------------------- notes and log

  predicate Increasing(at: seq<nat>) { forall i, j :: 0 <= i < j < |at| ==> at[i] < at[j] }

  /** The call at p is a note with nothing missing, on a row that exists by then. */
  ghost predicate Noted(ops: History, p: int) {
    && 0 <= p < |ops| && ops[p].op.DoNote? && ops[p].op.key.host != "" && ops[p].op.key.event != ""
    && ops[p].op.author != "" && ops[p].op.body != "" && exists q :: q < p && Creates(ops, ops[p].op.key, q)
  }

  /** The note the call at p leaves, the n-th of all. */
  predicate NoteSays(ops: History, p: nat, n: nat, note: StoredNote) {
    && p < |ops| && ops[p].op.DoNote? && note.id == n
    && note.host == ops[p].op.key.host && note.event == ops[p].op.key.event
    && note.author == ops[p].op.author && note.body == ops[p].op.body && note.createdAt == FormatTS(ops[p].now)
  }

  /** The notes are those of the calls at these positions, and of no others. */
  ghost predicate NotesTold(ops: History, at: seq<nat>, notes: seq<StoredNote>) {
    && |at| == |notes| && Increasing(at)
    && (forall i :: 0 <= i < |at| ==> NoteSays(ops, at[i], i + 1, notes[i]))
    && (forall p: nat :: p in at <==> Noted(ops, p))
  }

  lemma NotedSnoc(ops: History, s: Stamped)
    ensures forall p: nat :: p != |ops| ==> (Noted(ops + [s], p) <==> Noted(ops, p))
    ensures Noted(ops + [s], |ops|) <==>
              && s.op.DoNote? && s.op.key.host != "" && s.op.key.event != "" && s.op.author != "" && s.op.body != ""
              && exists q :: Creates(ops, s.op.key, q)
    ensures forall p: nat :: Noted(ops, p) ==> p < |ops|
    ensures forall p: nat, n, note :: p < |ops| && NoteSays(ops, p, n, note) ==> NoteSays(ops + [s], p, n, note)
  {
    var all := ops + [s];
    assert all[|ops|] == s;
    forall p: nat | p != |ops| ensures Noted(all, p) <==> Noted(ops, p) {
      if p < |ops| && ops[p].op.DoNote? {
        assert all[p] == ops[p];
        WritesSnoc(ops, s, ops[p].op.key);
        hide Creates, Writes;
        assert forall q :: q < p ==> (Creates(all, ops[p].op.key, q) <==> Creates(ops, ops[p].op.key, q));
      }
    }
    if s.op.DoNote? {
      WritesSnoc(ops, s, s.op.key);
      CreatesWithin(ops, s.op.key);
      hide Creates, Writes;
      assert forall q :: q < |ops| ==> (Creates(all, s.op.key, q) <==> Creates(ops, s.op.key, q));
    }
  }

  lemma CreatesWithin(ops: History, key: Key)
    ensures forall p :: Creates(ops, key, p) ==> 0 <= p < |ops|
  {}

  lemma NoteStepSays(db: Db, s: Stamped)
    ensures var next := Exec(db, s).notes;
      if s.op.DoNote? && s.op.key.host != "" && s.op.key.event != "" && s.op.author != "" && s.op.body != "" &&
         s.op.key in db.rows
      then next == db.notes + [StoredNote(|db.notes| + 1, s.op.key.host, s.op.key.event, s.op.author, s.op.body,
                                          FormatTS(s.now))]
      else next == db.notes
  {
    hide FormatTS, ScanRow, AppendLog;
  }

  lemma NoteAppended(ops: History, s: Stamped, at: seq<nat>, notes: seq<StoredNote>, next: seq<StoredNote>)
    requires NotesTold(ops, at, notes)
    requires if Noted(ops + [s], |ops|) then
               |next| == |notes| + 1 && next[..|notes|] == notes && NoteSays(ops + [s], |ops|, |next|, next[|notes|])
             else next == notes
    ensures NotesTold(ops + [s], if Noted(ops + [s], |ops|) then at + [|ops|] else at, next)
  {
    NotedSnoc(ops, s);
    hide Noted, NoteSays;
    var all, more := ops + [s], if Noted(ops + [s], |ops|) then at + [|ops|] else at;
    forall i | 0 <= i < |at| ensures at[i] < |ops| && NoteSays(all, at[i], i + 1, next[i]) {
      assert at[i] in at && next[i] == notes[i];
    }
    forall p: nat ensures p in more <==> Noted(all, p) {
      assert p in more <==> p in at || (p == |ops| && Noted(all, p));
    }
  }

  lemma LastNoteSays(ops: History, s: Stamped)
    ensures var notes, next := Replay(ops).notes, Replay(ops + [s]).notes;
            if Noted(ops + [s], |ops|) then
              |next| == |notes| + 1 && next[..|notes|] == notes && NoteSays(ops + [s], |ops|, |next|, next[|notes|])
            else next == notes
  {
    NotedSnoc(ops, s);
    LastCall(ops, s);
    NoteStepSays(Replay(ops), s);
    if s.op.DoNote? {
      RowIsTold(ops, s.op.key);
    }
    assert (ops + [s])[|ops|] == s;
    hide Replay, Exec, Noted, Creates, Told, FormatTS, ScanRow;
  }

  /** Main result: after any history the notes are, in order and numbered from one, exactly what the complete note calls
      on existing rows said. */
  lemma {:induction false} NotesAreTold(ops: History) returns (at: seq<nat>)
    ensures NotesTold(ops, at, Replay(ops).notes)
  {
    if ops == [] {
      at := [];
    } else {
      var before, s := ops[..|ops| - 1], ops[|ops| - 1];
      assert ops == before + [s];
      at := NotesAreTold(before);
      hide *;
      LastNoteSays(before, s);
      NoteAppended(before, s, at, Replay(before).notes, Replay(ops).notes);
      at := if Noted(ops, |before|) then at + [|before|] else at;
    }
  }

  /** The call at p writes a row's first status, or one that differs from the status so far. */
  ghost predicate Logged(ops: History, p: int) {
    && 0 <= p < |ops| && ops[p].op.DoUpsert? && Writes(ops, KeyAt(ops, p), p)
    && (FirstWrite(ops, KeyAt(ops, p), p) ||
        (Input(ops, p).status != "" && !StatusNow(ops[..p], KeyAt(ops, p), Input(ops, p).status)))
  }

  function KeyAt(ops: History, p: int): Key { Key(Input(ops, p).host, Input(ops, p).event) }

  /** The entry the call at p leaves, the n-th of all: who moved the row, from what, to what and when. */
  ghost predicate EntrySays(ops: History, p: nat, n: nat, e: StoredLog) {
    && p < |ops| && e.id == n && Key(e.host, e.event) == KeyAt(ops, p) && e.actor == Input(ops, p).actor
    && e.at == FormatTS(ops[p].now)
    && (if FirstWrite(ops, KeyAt(ops, p), p) then
          e.from == None && e.to == if Input(ops, p).status == "" then "open" else Input(ops, p).status
        else
          e.from.Some? && StatusNow(ops[..p], KeyAt(ops, p), e.from.value) && e.to == Input(ops, p).status)
  }

  ghost predicate LogTold(ops: History, at: seq<nat>, log: seq<StoredLog>) {
    && |at| == |log| && Increasing(at)
    && (forall i :: 0 <= i < |at| ==> EntrySays(ops, at[i], i + 1, log[i]))
    && (forall p: nat :: p in at <==> Logged(ops, p))
  }

  lemma FirstSnoc(ops: History, s: Stamped, key: Key)
    ensures forall p :: p != |ops| ==> (FirstWrite(ops + [s], key, p) <==> FirstWrite(ops, key, p))
    ensures FirstWrite(ops + [s], key, |ops|) <==>
              Writes(ops + [s], key, |ops|) && forall p :: !Writes(ops, key, p)
  {
    WritesSnoc(ops, s, key);
    hide Writes, Creates, Names;
    forall p | p != |ops| ensures FirstWrite(ops + [s], key, p) <==> FirstWrite(ops, key, p) {
      assert Writes(ops, key, p) ==> p < |ops|;
    }
  }

  lemma LoggedSnoc(ops: History, s: Stamped, p: nat)
    requires p < |ops|
    ensures Logged(ops + [s], p) <==> Logged(ops, p)
    ensures forall n, e :: EntrySays(ops, p, n, e) ==> EntrySays(ops + [s], p, n, e)
  {
    var key := KeyAt(ops, p);
    InputSnoc(ops, s);
    WritesSnoc(ops, s, key);
    FirstSnoc(ops, s, key);
    assert (ops + [s])[..p] == ops[..p] && (ops + [s])[p] == ops[p];
    hide Writes, Creates, Names, Input, FirstWrite, StatusNow, FormatTS;
  }

  /** When the last call is logged, judged from the row before it. */
  lemma LoggedNow(ops: History, s: Stamped, key: Key)
    requires s.op.DoUpsert? && key == Key(s.op.input.host, s.op.input.event)
    ensures var rows := Replay(ops).rows;
      && (Logged(ops + [s], |ops|) <==>
            && Names(s, key) && (key in rows || s.op.input.snapshot != "")
            && (key in rows ==> s.op.input.status != "" && s.op.input.status != rows[key].status))
      && (Logged(ops + [s], |ops|) ==> (FirstWrite(ops + [s], key, |ops|) <==> key !in rows))
      && (key in rows ==> StatusNow(ops, key, rows[key].status))
  {
    var rows, all := Replay(ops).rows, ops + [s];
    assert all[..|ops|] == ops && all[|ops|] == s;
    InputSnoc(ops, s);
    RowIsTold(ops, key);
    WritesSnoc(ops, s, key);
    FirstSnoc(ops, s, key);
    FirstWriter(ops, key);
    if key in rows {
      StatusTold(ops, key, ScanRow(rows[key]), s.op.input.status);
      StatusTold(ops, key, ScanRow(rows[key]), rows[key].status);
    }
    hide Replay, Writes, Creates, Names, FirstWrite, StatusNow, Told, ScanTime, Input;
  }

  /** What the last call appends to the log. */
  lemma LogStepSays(ops: History, s: Stamped)
    ensures var log, next := Replay(ops).log, Replay(ops + [s]).log;
            if Logged(ops + [s], |ops|) then
              |next| == |log| + 1 && next[..|log|] == log && EntrySays(ops + [s], |ops|, |next|, next[|log|])
            else next == log
  {
    var db, all := Replay(ops), ops + [s];
    assert all[..|ops|] == ops && all[|ops|] == s;
    LastCall(ops, s);
    if s.op.DoUpsert? {
      var key := Key(s.op.input.host, s.op.input.event);
      InputSnoc(ops, s);
      LoggedNow(ops, s, key);
      AppendSays(db, s.op.input, s.now);
      UpsertExec(db, s);
      assert KeyAt(all, |ops|) == key;
      hide Replay, Exec, UpsertStep, Names, FirstWrite, StatusNow, Logged, FormatTS, Input, KeyAt;
    } else {
      hide Replay, FormatTS;
    }
  }

  lemma UpsertExec(db: Db, s: Stamped)
    requires s.op.DoUpsert?
    ensures Exec(db, s) == UpsertStep(db, s.op.input, s.now).0
  {}

  lemma StatusTold(ops: History, key: Key, row: Row, status: string)
    requires Told(ops, key, row)
    ensures StatusNow(ops, key, status) <==> status == row.status
  {
    hide Writes, Input, StatusNow, AssigneeNow, FirstWrite, LastWrite;
    if StatusNow(ops, key, status) {
      OneStatus(ops, key, status, row.status);
    }
  }

  lemma FirstWriter(ops: History, key: Key)
    ensures (exists p :: Creates(ops, key, p)) <==> !(forall p :: !Writes(ops, key, p))
  {
    if p :| Creates(ops, key, p) {
      assert Writes(ops, key, p);
    }
  }

  lemma AppendSays(db: Db, input: UpsertInput, now: Instant)
    ensures var next, key := UpsertStep(db, input, now).0.log, Key(input.host, input.event);
      if !Names(Stamped(DoUpsert(input), now), key) || (key !in db.rows && input.snapshot == "") then next == db.log
      else if key !in db.rows then
        next == db.log + [StoredLog(|db.log| + 1, input.host, input.event, input.actor, None,
                                    if input.status == "" then "open" else input.status, FormatTS(now))]
      else if input.status == "" || input.status == db.rows[key].status then next == db.log
      else
        next == db.log + [StoredLog(|db.log| + 1, input.host, input.event, input.actor, Some(db.rows[key].status),
                                    input.status, FormatTS(now))]
  {
    hide FormatTS, ScanRow;
  }

  lemma EntryAppended(ops: History, s: Stamped, at: seq<nat>, log: seq<StoredLog>, next: seq<StoredLog>)
    requires LogTold(ops, at, log)
    requires if Logged(ops + [s], |ops|) then
               |next| == |log| + 1 && next[..|log|] == log && EntrySays(ops + [s], |ops|, |next|, next[|log|])
             else next == log
    ensures LogTold(ops + [s], if Logged(ops + [s], |ops|) then at + [|ops|] else at, next)
  {
    var all, more := ops + [s], if Logged(ops + [s], |ops|) then at + [|ops|] else at;
    LoggedWithin(ops);
    LoggedWithin(all);
    hide Logged, EntrySays;
    forall p: nat | p < |ops| ensures Logged(all, p) <==> Logged(ops, p) {
      LoggedSnoc(ops, s, p);
    }
    forall i | 0 <= i < |at| ensures at[i] < |ops| && EntrySays(all, at[i], i + 1, next[i]) {
      assert at[i] in at && next[i] == log[i];
      LoggedSnoc(ops, s, at[i]);
    }
    forall p: nat ensures p in more <==> Logged(all, p) {
      assert p in more <==> p in at || (p == |ops| && Logged(all, p));
    }
  }

  /** Main result: after any history the log holds, in order and numbered from one, exactly one entry for each call that
      gave a row its first status or another one, with the actor, the statuses and the time of that call. */
  lemma {:induction false} LogIsTold(ops: History) returns (at: seq<nat>)
    ensures LogTold(ops, at, Replay(ops).log)
  {
    if ops == [] {
      at := [];
    } else {
      var before, s := ops[..|ops| - 1], ops[|ops| - 1];
      assert ops == before + [s];
      at := LogIsTold(before);
      hide *;
      LogStepSays(before, s);
      EntryAppended(before, s, at, Replay(before).log, Replay(ops).log);
      at := if Logged(ops, |before|) then at + [|before|] else at;
    }
  }

  lemma LoggedWithin(ops: History)
    ensures forall p: nat :: Logged(ops, p) ==> p < |ops|
  {}
}
