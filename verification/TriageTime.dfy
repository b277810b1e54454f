/** What a clock that never goes back gives the triage tables: stamps that compare like the order of
    the calls, so that ordering by the text column returns the audit log in the order it was written.
 */
module TriageTime {
  import opened Lex
  import opened Options
  import opened Timestamps
  import opened Triage

  /** A stored stamp of an instant not after the limit. */
  ghost predicate IsStamp(s: string, limit: Instant) {
    ParseTS(s).Some? && FormatTS(ParseTS(s).value) == s && ParseTS(s).value <= limit
  }

  lemma StampNow(t: Instant)
    ensures IsStamp(FormatTS(t), t) && ScanTime(FormatTS(t)) == t
  {
    ParseFormat(t);
  }

  /** Stamps compare as text like the instants they scan to. */
  lemma StampOrder(a: string, b: string, limit: Instant)
    requires IsStamp(a, limit) && IsStamp(b, limit)
    ensures Less(a, b) <==> ScanTime(a) < ScanTime(b)
    ensures a == b <==> ScanTime(a) == ScanTime(b)
  {
    TextOrderIsTimeOrder(ScanTime(a), ScanTime(b));
  }

  ghost predicate RowInTime(row: StoredRow, limit: Instant) {
    && IsStamp(row.createdAt, limit) && IsStamp(row.updatedAt, limit)
    && ScanTime(row.createdAt) <= ScanTime(row.updatedAt)
  }

  ghost predicate LogInTime(log: seq<StoredLog>, limit: Instant) {
    && (forall i :: 0 <= i < |log| ==> IsStamp(log[i].at, limit) && log[i].id == i + 1)
    && (forall i, j :: 0 <= i < j < |log| ==> ScanTime(log[i].at) <= ScanTime(log[j].at))
  }

  /** Every stamp is a stored stamp of the past, rows are created before they are updated, and the
      log was written in time order. */
  ghost predicate InTime(db: Db, limit: Instant) {
    && (forall k :: k in db.rows ==> RowInTime(db.rows[k], limit))
    && LogInTime(db.log, limit)
    && (forall n :: n in db.notes ==> IsStamp(n.createdAt, limit))
  }

  lemma InTimeLater(db: Db, t: Instant, u: Instant)
    requires InTime(db, t) && t <= u
    ensures InTime(db, u)
  {
    hide ParseTS, FormatTS, ScanTime;
    assert forall k :: k in db.rows ==> RowInTime(db.rows[k], t);
    assert forall n :: n in db.notes ==> IsStamp(n.createdAt, t);
  }

  lemma LogGrows(log: seq<StoredLog>, key: Key, actor: string, from: Option<string>, to: string, now: Instant)
    requires LogInTime(log, now)
    ensures LogInTime(AppendLog(log, key, actor, from, to, now), now)
  {
    hide ParseTS, FormatTS, ScanTime;
    StampNow(now);
    var next := AppendLog(log, key, actor, from, to, now);
    forall i | 0 <= i < |next| ensures IsStamp(next[i].at, now) && next[i].id == i + 1 && ScanTime(next[i].at) <= now {
      if i < |log| { StampPast(log[i].at, now); }
    }
  }

  lemma StampPast(s: string, limit: Instant)
    requires IsStamp(s, limit)
    ensures ScanTime(s) <= limit
  {}

  lemma InTimeStep(db: Db, s: Stamped)
    requires InTime(db, s.now)
    ensures InTime(Exec(db, s), s.now)
  {
    hide ParseTS, FormatTS, ScanTime, AppendLog, LogInTime, ScanRow;
    StampNow(s.now);
    match s.op
    case DoNote(key, author, body) =>
    case DoUpsert(input) =>
      var key := Key(input.host, input.event);
      LogGrows(db.log, key, input.actor, None, if input.status == "" then "open" else input.status, s.now);
      if key in db.rows {
        LogGrows(db.log, key, input.actor, Some(db.rows[key].status), input.status, s.now);
        assert RowInTime(db.rows[key], s.now);
        StampPast(db.rows[key].createdAt, s.now);
      }
  }

  /** Main result: with a clock that never goes back every reachable database is in time. */
  lemma {:induction false} AlwaysInTime(ops: seq<Stamped>, limit: Instant)
    requires ClockForward(ops) && forall i :: 0 <= i < |ops| ==> ops[i].now <= limit
    ensures InTime(Replay(ops), limit)
  {
    if ops != [] {
      var before, s := ops[..|ops| - 1], ops[|ops| - 1];
      AlwaysInTime(before, s.now);
      InTimeStep(Replay(before), s);
      InTimeLater(Replay(ops), s.now, limit);
    }
  }

  // ---------------------------------------------------------------- ORDER BY at ASC, id ASC

  predicate LogBefore(a: StoredLog, b: StoredLog) {
    Less(a.at, b.at) || (a.at == b.at && a.id < b.id)
  }

  function InsertLog(s: seq<StoredLog>, e: StoredLog): (r: seq<StoredLog>)
    ensures multiset(r) == multiset(s) + multiset{e}
  {
    if s == [] then [e]
    else
      var init, last := s[..|s| - 1], s[|s| - 1];
      assert s == init + [last];
      if LogBefore(e, last) then InsertLog(init, e) + [last] else s + [e]
  }

  function OrderedLog(s: seq<StoredLog>): (r: seq<StoredLog>)
    ensures multiset(r) == multiset(s)
  {
    if s == [] then []
    else
      assert s == s[..|s| - 1] + [s[|s| - 1]];
      InsertLog(OrderedLog(s[..|s| - 1]), s[|s| - 1])
  }

  ghost predicate AscendingLog(s: seq<StoredLog>) {
    forall i, j :: 0 <= i < j < |s| ==> LogBefore(s[i], s[j])
  }

  lemma LogBeforeOrder(a: StoredLog, b: StoredLog, c: StoredLog)
    ensures !LogBefore(a, a)
    ensures LogBefore(a, b) && LogBefore(b, c) ==> LogBefore(a, c)
    ensures a.id != b.id ==> LogBefore(a, b) || LogBefore(b, a)
  {
    LessIrreflexive(a.at);
    LessTotal(a.at, b.at);
    if Less(a.at, b.at) && Less(b.at, c.at) {
      LessTransitive(a.at, b.at, c.at);
    }
  }

  /** The query's order is ascending for entries with distinct ids. */
  lemma {:induction false} OrderedAscends(s: seq<StoredLog>)
    requires forall i, j :: 0 <= i < j < |s| ==> s[i].id != s[j].id
    ensures AscendingLog(OrderedLog(s))
  {
    if s != [] {
      var init, e := s[..|s| - 1], s[|s| - 1];
      OrderedAscends(init);
      var sorted := OrderedLog(init);
      forall x | x in sorted ensures x.id != e.id {
        assert x in multiset(sorted);
        assert x in multiset(init);
      }
      InsertAscends(sorted, e);
    }
  }

  lemma {:induction false} InsertAscends(s: seq<StoredLog>, e: StoredLog)
    requires AscendingLog(s) && forall x :: x in s ==> x.id != e.id
    ensures AscendingLog(InsertLog(s, e))
  {
    if s != [] {
      var init, last := s[..|s| - 1], s[|s| - 1];
      if LogBefore(e, last) {
        InsertAscends(init, e);
        forall x | x in InsertLog(init, e) ensures LogBefore(x, last) {
          assert x in multiset(InsertLog(init, e));
          assert x == e || x in multiset(init);
        }
      } else {
        forall x | x in s ensures LogBefore(x, e) {
          LogBeforeOrder(last, e, e);
          LogBeforeOrder(x, last, e);
        }
      }
    }
  }

  lemma {:induction false} OrderedIdentity(s: seq<StoredLog>)
    requires AscendingLog(s)
    ensures OrderedLog(s) == s
  {
    hide LogBefore;
    if s == [] {
    } else {
      var init, last := s[..|s| - 1], s[|s| - 1];
      OrderedIdentity(init);
      InsertLast(init, last);
      assert s == init + [last];
      hide InsertLog;
    }
  }

  lemma InsertLast(s: seq<StoredLog>, e: StoredLog)
    requires s != [] ==> LogBefore(s[|s| - 1], e)
    ensures InsertLog(s, e) == s + [e]
  {
    hide LogBefore;
    if s != [] {
      LogBeforeOrder(s[|s| - 1], e, s[|s| - 1]);
    }
  }

  /** The entries of one key keep the order in which they were written. */
  lemma {:induction false} LogOfAscends(log: seq<StoredLog>, key: Key, limit: Instant)
    requires LogInTime(log, limit)
    ensures AscendingLog(LogOf(log, key))
  {
    hide ParseTS, FormatTS, ScanTime;
    if log != [] {
      var init, last := log[..|log| - 1], log[|log| - 1];
      LogOfAscends(init, key, limit);
      forall x | x in LogOf(init, key) ensures LogBefore(x, last) {
        assert x in init;
        StampOrder(x.at, last.at, limit);
      }
    }
  }

  /** Main result: under a clock that never goes back, listing a key's log by (at, id) returns a
      chain of transitions from nothing to the row's current status. */
  lemma ListedLogIsChain(ops: seq<Stamped>, key: Key)
    requires ClockForward(ops) && key in Replay(ops).rows
    ensures var listed := OrderedLog(LogOf(Replay(ops).log, key));
      && Chain(listed) && listed != []
      && listed[|listed| - 1].to == Replay(ops).rows[key].status
  {
    hide Replay;
    var db := Replay(ops);
    AlwaysAudited(ops);
    assert Agrees(db, key);
    if ops != [] {
      AlwaysInTime(ops, ops[|ops| - 1].now);
      LogOfAscends(db.log, key, ops[|ops| - 1].now);
      OrderedIdentity(LogOf(db.log, key));
    } else {
      EmptyReplay();
    }
  }

  lemma EmptyReplay()
    ensures Replay([]) == EMPTY
  {}
}
