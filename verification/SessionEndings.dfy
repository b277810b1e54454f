/** Whether following NextCursor over a table that stands still comes to an end (internal/triage/repo.go,
    ListByStatus), told from the cursors and from the table.
 */
module SessionEndings {
  import opened Options
  import opened Timestamps
  import opened Triage
  import opened Keyset
  import opened ListPages
  import opened SessionRepeats
  import opened SessionStarts
  import Walk

  /** A session over this table alone. */
  ghost predicate Over(w: Session, rows: Table, statuses: seq<string>, limit: int) {
    Quiet(w) && |w.tables| > 0 && w.tables[0] == rows && w.statuses == statuses && w.limit == limit
  }

  ghost predicate Finished(w: Session) { w.pages != [] && w.pages[|w.pages| - 1].nextCursor == "" }

  /** Requests that are answered: a table as stored, and no unknown status. */
  ghost predicate Served(rows: Table, statuses: seq<string>) {
    Keyed(rows) && Canonical(rows) && AllKnown(Effective(statuses))
  }

  ghost predicate Ends(rows: Table, statuses: seq<string>, limit: int) {
    exists w :: Over(w, rows, statuses, limit) && Finished(w)
  }

  lemma OverListing(w: Session, rows: Table, statuses: seq<string>, limit: int, all: seq<StoredRow>)
    requires Over(w, rows, statuses, limit) && Ascending(all)
    requires forall r :: r in all <==> Hit(rows, Effective(statuses), None, r)
    ensures Listing(w, all) && ClampLimit(w.limit) == ClampLimit(limit) && |w.pages| > 0
  {
    hide Hit, Ascending;
  }

  // ---------------------------------------------------------------- sessions exist

  lemma Opened(rows: Table, statuses: seq<string>, limit: int) returns (w: Session)
    requires Served(rows, statuses)
    ensures Over(w, rows, statuses, limit) && |w.pages| == 1
  {
    hide PageFor, Canonical, AllKnown, Keyed, Walk.Ahead, Malformed;
    NoCursor();
    var page := PageFor(rows, ListOpts(statuses, limit, ""));
    w := Session(statuses, limit, [rows], [""], [page]);
    assert Answers(w, 0);
    hide ListSpec;
  }

  lemma NoCursor()
    ensures !Malformed("")
  {}

  lemma Extended(w: Session) returns (v: Session)
    requires Quiet(w) && !Finished(w)
    ensures Over(v, w.tables[0], w.statuses, w.limit) && |v.pages| == |w.pages| + 1
  {
    var n := |w.pages|;
    QuietParts(w);
    var rows, cursor := w.tables[0], w.pages[n - 1].nextCursor;
    LastCursor(w);
    var page := PageFor(rows, ListOpts(w.statuses, w.limit, cursor));
    v := Session(w.statuses, w.limit, w.tables + [rows], w.cursors + [cursor], w.pages + [page]);
    hide PageFor, Malformed, AllKnown, Canonical, Keyed, Quiet;
    ExtendedAnswers(w, v, rows, cursor, page);
    AheadItself(rows);
    hide IsSession, Answers, Walk.Ahead;
    ExtendedLive(w, v, rows);
    assert Quiet(v);
  }

  /** A cursor that is offered is well formed, and the statuses of a session are known. */
  lemma LastCursor(w: Session)
    requires Quiet(w) && !Finished(w)
    ensures !Malformed(w.pages[|w.pages| - 1].nextCursor) && w.pages[|w.pages| - 1].nextCursor != ""
    ensures AllKnown(Effective(w.statuses)) && Keyed(w.tables[0])
  {
    var i := |w.pages| - 1;
    assert Answers(w, i) && Answers(w, 0);
    PageFacts(w, i);
    ListOk(w.tables[i], ListOpts(w.statuses, w.limit, w.cursors[i]), w.pages[i]);
    hide Malformed, AllKnown, Canonical, Keyed, IsSession, CursorOf, FormatTS, ScanTime;
    OfferedCursor(w, i);
    CutRow(w, i);
    CursorResumes(SelectedFor(w, i)[ClampLimit(w.limit) - 1]);
  }

  lemma OfferedCursor(w: Session, i: nat)
    requires IsSession(w) && Live(w) && i < |w.pages| && w.pages[i].nextCursor != ""
    ensures |SelectedFor(w, i)| > ClampLimit(w.limit) > 0
    ensures w.pages[i].nextCursor == CursorOf(SelectedFor(w, i)[ClampLimit(w.limit) - 1])
  {
    hide Malformed, After, CursorOf, ScanRow, ListSpec, Hit;
    assert Answers(w, i);
    ListOk(w.tables[i], ListOpts(w.statuses, w.limit, w.cursors[i]), w.pages[i]);
  }

  lemma ExtendedAnswers(w: Session, v: Session, rows: Table, cursor: string, page: ListResult)
    requires IsSession(w) && Keyed(rows) && AllKnown(Effective(w.statuses)) && !Malformed(cursor) && cursor != ""
    requires page == PageFor(rows, ListOpts(w.statuses, w.limit, cursor))
    requires cursor == w.pages[|w.pages| - 1].nextCursor
    requires v == Session(w.statuses, w.limit, w.tables + [rows], w.cursors + [cursor], w.pages + [page])
    ensures IsSession(v)
  {
    hide PageFor, Malformed, AllKnown, Keyed;
    forall i | 0 <= i < |v.pages| ensures Answers(v, i) {
      if i < |w.pages| {
        assert Answers(w, i);
      }
    }
  }

  lemma ExtendedLive(w: Session, v: Session, rows: Table)
    requires Live(w) && |w.tables| > 0 && Walk.Ahead(rows, rows) && v.tables == w.tables + [rows]
    requires forall i :: 0 <= i < |w.tables| ==> w.tables[i] == rows
    ensures Live(v) && forall i :: 0 <= i < |v.tables| ==> v.tables[i] == v.tables[0]
  {
    hide Canonical, Walk.Ahead;
    assert Canonical(w.tables[0]);
  }

  /** A session of any length exists, unless it finishes before. */
  lemma {:induction false} Grown(rows: Table, statuses: seq<string>, limit: int, n: nat) returns (w: Session)
    requires Served(rows, statuses) && n > 0
    ensures Over(w, rows, statuses, limit) && |w.pages| <= n && (|w.pages| == n || Finished(w))
  {
    hide Served, Quiet;
    if n == 1 {
      w := Opened(rows, statuses, limit);
    } else {
      w := Grown(rows, statuses, limit, n - 1);
      if !Finished(w) {
        w := Extended(w);
      }
    }
  }

  // ---------------------------------------------------------------- cursors that come round

  ghost predicate NoCursorTwice(w: Session) {
    forall i, j :: 0 <= i < j < |w.cursors| ==> w.cursors[i] != w.cursors[j]
  }

  lemma SamePage(v: Session, w: Session, i: nat, j: nat)
    requires Quiet(v) && Quiet(w) && i < |v.pages| && j < |w.pages|
    requires |v.cursors| == |v.pages| && |w.cursors| == |w.pages|
    requires |v.tables| > 0 && |w.tables| > 0 && v.tables[0] == w.tables[0]
    requires v.statuses == w.statuses && v.limit == w.limit && v.cursors[i] == w.cursors[j]
    ensures v.pages[i] == w.pages[j]
  {
    hide ListSpec, Live;
    assert Answers(v, i) && Answers(w, j);
  }

  /** From two places with one cursor on a session goes through the same pages. */
  lemma {:induction false} Periodic(w: Session, i: nat, j: nat, m: nat)
    requires Quiet(w) && |w.cursors| == |w.pages| && |w.tables| > 0
    requires i < j && j + m < |w.pages| && w.cursors[i] == w.cursors[j]
    ensures w.cursors[i + m] == w.cursors[j + m] && w.pages[i + m] == w.pages[j + m]
  {
    if m > 0 {
      Periodic(w, i, j, m - 1);
      NextCursors(w, i + m);
      NextCursors(w, j + m);
    }
    hide Quiet;
    SamePage(w, w, i + m, j + m);
  }

  lemma NextCursors(w: Session, i: nat)
    requires Quiet(w) && 0 < i < |w.pages|
    ensures i < |w.cursors| && w.cursors[i] == w.pages[i - 1].nextCursor && w.cursors[i] != ""
  {
    hide Live, Answers;
  }

  /** Main result: once a cursor has been handed out twice the session never ends. */
  lemma RepeatNeverEnds(w: Session, i: nat, j: nat)
    requires Quiet(w) && |w.cursors| == |w.pages| && |w.tables| > 0
    requires i < j < |w.pages| && w.cursors[i] == w.cursors[j]
    ensures !Finished(w)
  {
    var m := |w.pages| - 1 - j;
    Periodic(w, i, j, m);
    NextCursors(w, i + m + 1);
    hide Quiet;
  }

  /** Main result: a session with more pages than the table has rows, plus one, has had a cursor twice. */
  lemma Pigeonhole(w: Session)
    requires Quiet(w) && |w.tables| > 0 && |w.pages| > |w.tables[0]| + 1
    ensures !NoCursorTwice(w)
  {
    QuietParts(w);
    CursorsCount(w);
    var rows := w.tables[0];
    forall i | 0 < i < |w.cursors| ensures w.cursors[i] in RowCursors(rows) {
      CursorOfRow(w, i);
    }
    hide Quiet, RowCursors, IsSession;
    RowCursorsSize(rows);
    LaterFit(w.cursors, RowCursors(rows));
  }

  lemma LaterFit(cursors: seq<string>, all: set<string>)
    requires cursors != [] && |cursors| > |all| + 1
    requires forall i :: 0 < i < |cursors| ==> cursors[i] in all
    ensures exists i, j :: 0 <= i < j < |cursors| && cursors[i] == cursors[j]
  {
    var later := cursors[1..];
    if forall i, j :: 0 <= i < j < |later| ==> later[i] != later[j] {
      DistinctFit(later, all);
    } else {
      var i, j :| 0 <= i < j < |later| && later[i] == later[j];
      assert cursors[i + 1] == cursors[j + 1];
    }
  }

  lemma CursorsCount(w: Session)
    requires IsSession(w)
    ensures |w.cursors| == |w.pages| > 0
  {}

  ghost function RowCursors(rows: Table): set<string> { set k | k in rows :: CursorOf(rows[k]) }

  lemma CursorOfRow(w: Session, i: nat)
    requires Quiet(w) && 0 < i < |w.pages|
    ensures i < |w.cursors| && |w.tables| > 0 && w.cursors[i] in RowCursors(w.tables[0])
  {
    hide CursorOf, ListSpec;
    PageFacts(w, i - 1);
    CutRow(w, i - 1);
    assert w.tables[i - 1] == w.tables[0];
    hide IsSession, Live, SelectedFor, Hit;
  }

  lemma {:induction false} RowCursorsSize(rows: Table)
    ensures |RowCursors(rows)| <= |rows|
    decreases |rows|
  {
    hide CursorOf;
    if rows.Keys == {} {
      assert RowCursors(rows) == {};
    } else {
      var k :| k in rows;
      var rest := rows - {k};
      assert rest.Keys == rows.Keys - {k} && |rest.Keys| == |rest| && |rows.Keys| == |rows|;
      RowCursorsSize(rest);
      assert RowCursors(rows) == RowCursors(rest) + {CursorOf(rows[k])};
    }
  }

  lemma {:induction false} DistinctFit(s: seq<string>, all: set<string>)
    requires forall i, j :: 0 <= i < j < |s| ==> s[i] != s[j]
    requires forall i :: 0 <= i < |s| ==> s[i] in all
    ensures |s| <= |all|
  {
    if s != [] {
      var last := s[|s| - 1];
      DistinctFit(s[..|s| - 1], all - {last});
    }
  }

  /** Two sessions over one table go through the same cursors and pages. */
  lemma {:induction false} Agree(v: Session, w: Session, rows: Table, statuses: seq<string>, limit: int, i: nat)
    requires Over(v, rows, statuses, limit) && Over(w, rows, statuses, limit) && i < |v.pages| && i < |w.pages|
    ensures i < |v.cursors| == |v.pages| && i < |w.cursors| == |w.pages|
    ensures v.cursors[i] == w.cursors[i] && v.pages[i] == w.pages[i]
  {
    QuietParts(v);
    QuietParts(w);
    CursorsCount(v);
    CursorsCount(w);
    if i == 0 {
      FirstCursor(v);
      FirstCursor(w);
    } else {
      Agree(v, w, rows, statuses, limit, i - 1);
      NextCursors(v, i);
      NextCursors(w, i);
    }
    hide Quiet, IsSession, Live;
    SamePage(v, w, i, i);
  }

  lemma FirstCursor(w: Session)
    requires IsSession(w)
    ensures |w.cursors| > 0 && w.cursors[0] == ""
  {}

  /** Main result: following the cursors over a table that stands still ends exactly if no cursor is ever handed out
      twice; then it takes at most one page more than the table has rows. */
  lemma EndsIff(rows: Table, statuses: seq<string>, limit: int)
    requires Served(rows, statuses)
    ensures Ends(rows, statuses, limit) <==> forall w :: Over(w, rows, statuses, limit) ==> NoCursorTwice(w)
    ensures forall w :: Over(w, rows, statuses, limit) && Finished(w) ==> |w.pages| <= |rows| + 1
  {
    hide Served, Finished, NoCursorTwice, Quiet;
    forall w | Over(w, rows, statuses, limit) && Finished(w) ensures |w.pages| <= |rows| + 1 {
      FinishedFits(w, rows, statuses, limit);
    }
    if Ends(rows, statuses, limit) {
      var w :| Over(w, rows, statuses, limit) && Finished(w);
      forall v | Over(v, rows, statuses, limit) ensures NoCursorTwice(v) {
        EndedOnce(v, w, rows, statuses, limit);
      }
    } else {
      var w := Grown(rows, statuses, limit, |rows| + 2);
      Pigeonhole(w);
    }
  }

  lemma FinishedFits(w: Session, rows: Table, statuses: seq<string>, limit: int)
    requires Over(w, rows, statuses, limit) && Finished(w)
    ensures |w.pages| <= |rows| + 1 && NoCursorTwice(w) && |w.cursors| == |w.pages|
  {
    QuietParts(w);
    CursorsCount(w);
    hide Quiet, IsSession, Finished;
    forall i, j | 0 <= i < j < |w.cursors| ensures w.cursors[i] != w.cursors[j] {
      if w.cursors[i] == w.cursors[j] {
        RepeatNeverEnds(w, i, j);
      }
    }
    if |w.pages| > |rows| + 1 {
      Pigeonhole(w);
    }
  }

  /** No session over the table goes on where a finished one has stopped. */
  lemma EndedOnce(v: Session, w: Session, rows: Table, statuses: seq<string>, limit: int)
    requires Over(v, rows, statuses, limit) && Over(w, rows, statuses, limit) && Finished(w)
    ensures |v.pages| <= |w.pages| && NoCursorTwice(v)
  {
    FinishedFits(w, rows, statuses, limit);
    QuietParts(v);
    CursorsCount(v);
    var n := |w.pages|;
    if |v.pages| > n {
      Agree(v, w, rows, statuses, limit, n - 1);
      NextCursors(v, n);
      assert false;
    } else {
      hide Over, IsSession, Quiet;
      forall i | 0 <= i < |v.cursors| ensures v.cursors[i] == w.cursors[i] {
        Agree(v, w, rows, statuses, limit, i);
      }
    }
  }
}
