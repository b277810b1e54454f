/** The list of the triage store judged from its table (internal/triage/repo.go, ListByStatus): which tables are
    listed once and in order, and over which following NextCursor never ends.
 */
module SessionTables {
  import opened Options
  import opened Timestamps
  import opened Triage
  import opened Keyset
  import opened ListPages
  import opened SessionRepeats
  import opened SessionStarts
  import opened SessionEndings
  import Walk

  /** The filtered table in the list's order. */
  ghost function TheList(rows: Table, statuses: seq<string>): (all: seq<StoredRow>)
    requires Keyed(rows)
    ensures Ascending(all) && forall r :: r in all <==> Hit(rows, Effective(statuses), None, r)
  {
    SortedAll(rows, Effective(statuses), None)
  }

  predicate PlainRow(r: StoredRow) { '|' !in r.host }

  /** The rows at which full pages end, short of the last row, have hosts without the separator. */
  ghost predicate PlainTable(all: seq<StoredRow>, limit: nat) {
    forall k :: k >= 1 && limit * k < |all| ==> PlainEnd(all, limit, k)
  }

  ghost predicate PlainEnd(all: seq<StoredRow>, limit: nat, k: int) {
    0 < limit * k <= |all| ==> PlainRow(all[limit * k - 1])
  }

  // ---------------------------------------------------------------- where pages begin

  /** While the rows that end full pages are plain, page i begins at limit * i. */
  lemma {:induction false} PlainPages(w: Session, all: seq<StoredRow>, limit: nat, i: nat)
    requires Listing(w, all) && limit == ClampLimit(w.limit) && i < |w.pages|
    requires forall k :: 1 <= k <= i ==> PlainEnd(all, limit, k)
    ensures Start(all, limit, i) == Some(limit * i) && (i > 0 ==> limit * i < |all|)
  {
    hide *;
    if i == 0 {
      ZeroStart(all, limit);
    } else {
      PlainPages(w, all, limit, i - 1);
      StartMoves(w, all, i - 1);
      PlainEndAt(all, limit, i);
    }
  }

  lemma ZeroStart(all: seq<StoredRow>, limit: nat)
    requires limit > 0
    ensures Start(all, limit, 0) == Some(0) && limit * 0 == 0
  {}

  lemma PlainEndAt(all: seq<StoredRow>, limit: nat, i: nat)
    requires limit > 0 && i > 0 && 0 <= limit * (i - 1) && limit * (i - 1) + limit < |all|
    ensures limit * i == limit * (i - 1) + limit
    ensures PlainEnd(all, limit, i) <==> '|' !in all[limit * (i - 1) + limit - 1].host
  {
    Walk.MulStep(limit, i);
  }

  lemma CutOf(w: Session, i: nat)
    requires PlainCuts(w) && i + 1 < |w.pages|
    ensures PlainCut(w, i)
  {}

  /** Main result: the rows that end the pages of a session are plain exactly when the rows at the multiples of the
      limit are, as far as the session went. */
  lemma PlainCutsIff(w: Session, all: seq<StoredRow>, limit: nat)
    requires Listing(w, all) && limit == ClampLimit(w.limit)
    ensures PlainCuts(w) <==> forall k :: 1 <= k < |w.pages| ==> PlainEnd(all, limit, k)
  {
    hide Listing, PlainCut, PlainEnd;
    if PlainCuts(w) {
      forall k | 1 <= k < |w.pages| ensures PlainEnd(all, limit, k) {
        CutsArePlain(w, all, limit, k);
      }
    }
    if forall k :: 1 <= k < |w.pages| ==> PlainEnd(all, limit, k) {
      forall i | 0 <= i < |w.pages| - 1 ensures PlainCut(w, i) {
        EndsArePlain(w, all, limit, i);
      }
    }
  }

  lemma EndsArePlain(w: Session, all: seq<StoredRow>, limit: nat, i: nat)
    requires Listing(w, all) && limit == ClampLimit(w.limit) && i + 1 < |w.pages|
    requires forall k :: 1 <= k < |w.pages| ==> PlainEnd(all, limit, k)
    ensures PlainCut(w, i)
  {
    hide *;
    PlainPages(w, all, limit, i);
    StartMoves(w, all, i);
    PlainEndAt(all, limit, i + 1);
  }

  lemma {:induction false} CutsArePlain(w: Session, all: seq<StoredRow>, limit: nat, k: nat)
    requires Listing(w, all) && limit == ClampLimit(w.limit) && PlainCuts(w) && 1 <= k < |w.pages|
    ensures PlainEnd(all, limit, k)
    decreases k
  {
    hide *;
    forall m | 1 <= m <= k - 1 ensures PlainEnd(all, limit, m) {
      CutsArePlain(w, all, limit, m);
    }
    PlainPages(w, all, limit, k - 1);
    StartMoves(w, all, k - 1);
    PlainEndAt(all, limit, k);
    CutOf(w, k - 1);
  }

  /** Main result: whether a session over a table that stands still repeats a row can be told before it starts, from
      the hosts at the multiples of the limit. */
  lemma TwiceOnTable(w: Session, rows: Table, statuses: seq<string>, limit: int)
    requires Over(w, rows, statuses, limit) && Keyed(rows)
    ensures var all := TheList(rows, statuses);
            NothingTwice(w) <==> forall k :: 1 <= k < |w.pages| ==> PlainEnd(all, ClampLimit(limit), k)
  {
    var all := TheList(rows, statuses);
    OverListing(w, rows, statuses, limit, all);
    hide Quiet, Listing, PlainCuts, NothingTwice, PlainEnd, TheList;
    TwiceIff(w);
    PlainCutsIff(w, all, ClampLimit(limit));
  }

  /** For a session that has ended that is the whole table. */
  lemma FinishedPlain(w: Session, all: seq<StoredRow>, limit: nat)
    requires Listing(w, all) && limit == ClampLimit(w.limit) && Finished(w)
    ensures PlainCuts(w) <==> PlainTable(all, limit)
  {
    hide Listing, PlainCuts, PlainEnd, Finished;
    PlainCutsIff(w, all, limit);
    var n := |w.pages|;
    if forall k :: 1 <= k < n ==> PlainEnd(all, limit, k) {
      AllPassed(w, all, limit);
      forall k | k >= 1 && limit * k < |all| ensures PlainEnd(all, limit, k) {
        Larger(limit, n, k);
      }
    }
    if PlainTable(all, limit) {
      forall k | 1 <= k < n ensures PlainEnd(all, limit, k) {
        PlainTableCut(w, all, limit, k);
      }
    }
  }

  lemma AllPassed(w: Session, all: seq<StoredRow>, limit: nat)
    requires Listing(w, all) && limit == ClampLimit(w.limit) && Finished(w)
    requires forall k :: 1 <= k < |w.pages| ==> PlainEnd(all, limit, k)
    ensures |w.pages| > 0 && limit * |w.pages| >= |all|
  {
    hide Listing, PlainEnd, Start;
    var n := |w.pages|;
    PlainPages(w, all, limit, n - 1);
    PageIsSlice(w, all, n - 1);
    Walk.MulStep(limit, n);
  }

  lemma Larger(limit: nat, n: int, k: int)
    ensures n <= k ==> limit * n <= limit * k
  {
    if n <= k {
      assert limit * k == limit * n + limit * (k - n);
    }
  }

  /** Every page end a session passes is one the table form speaks of. */
  lemma {:induction false} PlainTableCut(w: Session, all: seq<StoredRow>, limit: nat, k: nat)
    requires Listing(w, all) && limit == ClampLimit(w.limit) && PlainTable(all, limit) && 1 <= k < |w.pages|
    ensures PlainEnd(all, limit, k)
    decreases k
  {
    hide *;
    forall m | 1 <= m <= k - 1 ensures PlainEnd(all, limit, m) {
      PlainTableCut(w, all, limit, m);
    }
    PlainPages(w, all, limit, k - 1);
    StartMoves(w, all, k - 1);
    PlainEndAt(all, limit, k);
    PlainTableEnd(all, limit, k);
  }

  lemma PlainTableEnd(all: seq<StoredRow>, limit: nat, k: nat)
    requires PlainTable(all, limit) && k >= 1 && limit * k < |all|
    ensures PlainEnd(all, limit, k)
  {}

  // ---------------------------------------------------------------- which tables are listed to an end

  /** Page i is the last one. */
  ghost predicate LastAt(all: seq<StoredRow>, limit: nat, i: nat)
    requires limit > 0
  {
    Start(all, limit, i).Some? && Start(all, limit, i).value + limit >= |all|
  }

  /** Main result: following the cursors ends exactly if the starts computed from the table reach a last page. */
  lemma EndsOnTable(rows: Table, statuses: seq<string>, limit: int)
    requires Served(rows, statuses)
    ensures Ends(rows, statuses, limit) <==>
              exists i: nat :: LastAt(TheList(rows, statuses), ClampLimit(limit), i)
  {
    var all := TheList(rows, statuses);
    if Ends(rows, statuses, limit) {
      var w :| Over(w, rows, statuses, limit) && Finished(w);
      OverListing(w, rows, statuses, limit, all);
      hide Over, Start, Listing, TheList;
      PageIsSlice(w, all, |w.pages| - 1);
      assert LastAt(all, ClampLimit(limit), |w.pages| - 1);
    }
    forall i: nat | LastAt(all, ClampLimit(limit), i) ensures Ends(rows, statuses, limit) {
      EndsAt(rows, statuses, limit, all, i);
    }
  }

  lemma EndsAt(rows: Table, statuses: seq<string>, limit: int, all: seq<StoredRow>, i: nat)
    requires Served(rows, statuses) && LastAt(all, ClampLimit(limit), i)
    requires Ascending(all) && forall r :: r in all <==> Hit(rows, Effective(statuses), None, r)
    ensures Ends(rows, statuses, limit)
  {
    var w := Grown(rows, statuses, limit, i + 1);
    OverListing(w, rows, statuses, limit, all);
    hide Over, Start, Listing, Served;
    if !Finished(w) {
      PageIsSlice(w, all, i);
    }
    assert Over(w, rows, statuses, limit) && Finished(w);
  }

  /** Main result: a row with the separator that is not the last of the list is never passed by pages of one row, so
      the session never ends; if it is the first, it is all that is ever shown. */
  lemma SeparatorLoops(w: Session, all: seq<StoredRow>, p: nat, i: nat)
    requires Listing(w, all) && ClampLimit(w.limit) == 1 && i < |w.pages|
    requires p + 1 < |all| && !PlainRow(all[p])
    ensures w.pages[i].nextCursor != ""
    ensures p == 0 ==> Lists(w.pages[i].rows, [all[0]])
  {
    StuckBefore(w, all, p, i);
    hide Listing, Start;
    PageIsSlice(w, all, i);
    if p == 0 {
      OneTaken(all);
    }
  }

  lemma OneTaken(all: seq<StoredRow>)
    requires |all| > 1
    ensures Take(all[0..], 1) == [all[0]]
  {
    hide ScanTime;
    assert all[0..] == all;
  }

  lemma {:induction false} StuckBefore(w: Session, all: seq<StoredRow>, p: nat, i: nat)
    requires Listing(w, all) && ClampLimit(w.limit) == 1 && i < |w.pages|
    requires p + 1 < |all| && !PlainRow(all[p])
    ensures Start(all, 1, i).Some? && Start(all, 1, i).value <= p
  {
    hide Start, Listing;
    if i == 0 {
      ZeroStart(all, 1);
    } else {
      StuckBefore(w, all, p, i - 1);
      StartMoves(w, all, i - 1);
      hide PlainCut, ClampLimit;
    }
  }

  /** Main result: a table whose page ends are plain is listed to an end. */
  lemma PlainEnds(rows: Table, statuses: seq<string>, limit: int)
    requires Served(rows, statuses)
    requires PlainTable(TheList(rows, statuses), ClampLimit(limit))
    ensures Ends(rows, statuses, limit)
  {
    var all, l := TheList(rows, statuses), ClampLimit(limit);
    var w := Grown(rows, statuses, limit, |all| + 1);
    OverListing(w, rows, statuses, limit, all);
    hide Served, Over, TheList, Listing;
    if !Finished(w) {
      var i := |all|;
      forall k | 1 <= k <= i ensures PlainEnd(all, l, k) {
        PlainTableCut(w, all, l, k);
      }
      PlainPages(w, all, l, i);
      PageIsSlice(w, all, i);
      AtLeast(l, i);
    }
    assert Over(w, rows, statuses, limit) && Finished(w);
  }

  lemma AtLeast(l: nat, i: nat)
    requires l > 0
    ensures l * i >= i
  {}

  /** Main result: pages of one row come to an end exactly over a table in which no row but the last has a host with
      the separator. */
  lemma OneRowPages(rows: Table, statuses: seq<string>, limit: int)
    requires Served(rows, statuses) && ClampLimit(limit) == 1
    ensures var all := TheList(rows, statuses);
            Ends(rows, statuses, limit) <==> forall p :: 0 <= p < |all| - 1 ==> PlainRow(all[p])
  {
    var all := TheList(rows, statuses);
    hide TheList, Served, PlainRow;
    if Ends(rows, statuses, limit) {
      var w :| Over(w, rows, statuses, limit) && Finished(w);
      OverListing(w, rows, statuses, limit, all);
      forall p | 0 <= p < |all| - 1 ensures PlainRow(all[p]) {
        if !PlainRow(all[p]) {
          SeparatorLoops(w, all, p, |w.pages| - 1);
        }
      }
    }
    if forall p :: 0 <= p < |all| - 1 ==> PlainRow(all[p]) {
      forall k | k >= 1 && 1 * k < |all| ensures PlainEnd(all, 1, k) {
        assert PlainRow(all[k - 1]);
      }
      PlainEnds(rows, statuses, limit);
    }
  }

  /** Main result: a finished session that lists the whole filtered table once and in order exists exactly over a
      table whose page ends are plain. */
  lemma ListedOnTable(rows: Table, statuses: seq<string>, limit: int)
    requires Served(rows, statuses)
    ensures var all := TheList(rows, statuses);
            (exists w :: Over(w, rows, statuses, limit) && Finished(w) && Lists(Concat(w.pages), all)) <==>
            PlainTable(all, ClampLimit(limit))
  {
    var all := TheList(rows, statuses);
    hide Served, ScanRows, Concat;
    forall w | Over(w, rows, statuses, limit) && Finished(w)
      ensures Lists(Concat(w.pages), all) <==> PlainTable(all, ClampLimit(limit))
    {
      OverListing(w, rows, statuses, limit, all);
      FinishedPlain(w, all, ClampLimit(limit));
      ListingIff(w);
    }
    if PlainTable(all, ClampLimit(limit)) {
      PlainEnds(rows, statuses, limit);
      var w :| Over(w, rows, statuses, limit) && Finished(w);
      assert Lists(Concat(w.pages), all);
    }
  }

  // ---------------------------------------------------------------- a history that cannot be listed

  function Upserted(host: string, event: string, now: Instant): Stamped {
    Stamped(DoUpsert(UpsertInput(host, event, "", None, false, "{}", "ops")), now)
  }

  /** Two events of one host are taken up. */
  function TwoRows(host: string, e: string, f: string, now: Instant): seq<Stamped> {
    [Upserted(host, e, now), Upserted(host, f, now)]
  }

  lemma OneUpsert(ops: seq<Stamped>, host: string, event: string, now: Instant)
    requires host != "" && event != "" && Key(host, event) !in Replay(ops).rows
    ensures var rows := Replay(ops + [Upserted(host, event, now)]).rows;
      && Key(host, event) in rows && rows[Key(host, event)].status == "open"
      && rows[Key(host, event)].host == host && rows[Key(host, event)].event == event
      && rows.Keys == Replay(ops).rows.Keys + {Key(host, event)}
      && forall k :: k in Replay(ops).rows ==> rows[k] == Replay(ops).rows[k]
  {
    hide FormatTS, ScanRow;
    var all := ops + [Upserted(host, event, now)];
    assert all[..|ops|] == ops && all[|ops|] == Upserted(host, event, now);
  }

  lemma TwoRowsServed(host: string, e: string, f: string, now: Instant)
    requires host != "" && e != "" && f != "" && e != f
    ensures Served(Replay(TwoRows(host, e, f, now)).rows, []) && ClockForward(TwoRows(host, e, f, now))
    ensures var rows := Replay(TwoRows(host, e, f, now)).rows; Opens(rows, Key(host, e)) && Opens(rows, Key(host, f))
    ensures Replay(TwoRows(host, e, f, now)).rows.Keys == {Key(host, e), Key(host, f)}
  {
    ReplayCanonical(TwoRows(host, e, f, now));
    hide Replay, Canonical, Keyed;
    NothingReplayed();
    var one, two := Upserted(host, e, now), Upserted(host, f, now);
    OneUpsert([], host, e, now);
    assert [] + [one] == [one] && [one] + [two] == TwoRows(host, e, f, now);
    OneUpsert([one], host, f, now);
    hide Upserted;
  }

  lemma NothingReplayed()
    ensures Replay([]).rows == map[]
  {}

  predicate Opens(rows: Table, k: Key) {
    k in rows && rows[k].status == "open" && rows[k].host == k.host && rows[k].event == k.event
  }

  lemma TwoListed(rows: Table, all: seq<StoredRow>, host: string, e: string, f: string)
    requires rows.Keys == {Key(host, e), Key(host, f)} && e != f && '|' in host
    requires Opens(rows, Key(host, e)) && Opens(rows, Key(host, f))
    requires forall r :: r in all <==> Hit(rows, Effective([]), None, r)
    ensures |all| >= 2 && !PlainRow(all[0])
  {
    var r, q := rows[Key(host, e)], rows[Key(host, f)];
    assert STATUSES[0] == "open";
    assert r in all && q in all && r != q;
    assert Hit(rows, Effective([]), None, all[0]);
  }

  /** Main result: after two ordinary calls for any host with the separator the list can be followed for ever, one
      row at a time: there are sessions of every length, every page shows the same row and offers another. */
  lemma EndlessHistory(host: string, e: string, f: string, now: Instant, n: nat) returns (w: Session, cuts: seq<nat>)
    requires '|' in host && e != "" && f != "" && e != f && n > 0
    ensures IsSession(w) && ReadsHistory(w, TwoRows(host, e, f, now), cuts) && ClockForward(TwoRows(host, e, f, now))
    ensures ClampLimit(w.limit) == 1 && |w.pages| == n
    ensures forall i :: 0 <= i < n ==> w.pages[i].nextCursor != "" && |w.pages[i].rows| == 1
    ensures forall i :: 0 <= i < n ==> w.pages[i].rows == w.pages[0].rows
  {
    hide *;
    var ops := TwoRows(host, e, f, now);
    var rows := Replay(ops).rows;
    TwoRowsServed(host, e, f, now);
    ServedKeyed(rows, []);
    var all := TheList(rows, []);
    TwoListed(rows, all, host, e, f);
    w := StuckSession(rows, all, n);
    forall i | 0 <= i < n ensures w.pages[i].rows == ScanRows([all[0]]) {
      ScansList(w.pages[i].rows, [all[0]]);
    }
    cuts := seq(n, i => |ops|);
    OverReads(w, rows, ops, cuts);
  }

  lemma ServedKeyed(rows: Table, statuses: seq<string>)
    requires Served(rows, statuses)
    ensures Keyed(rows)
  {}

  lemma StuckSession(rows: Table, all: seq<StoredRow>, n: nat) returns (w: Session)
    requires Served(rows, []) && n > 0 && |all| >= 2 && !PlainRow(all[0])
    requires Ascending(all) && forall r :: r in all <==> Hit(rows, Effective([]), None, r)
    ensures Over(w, rows, [], 1) && ClampLimit(w.limit) == 1 && |w.pages| == n
    ensures forall i :: 0 <= i < n ==> w.pages[i].nextCursor != "" && Lists(w.pages[i].rows, [all[0]])
  {
    hide Served, Over, PlainRow, Hit, Ascending, Listing, ScanRow;
    w := Grown(rows, [], 1, n);
    OverListing(w, rows, [], 1, all);
    forall i | 0 <= i < |w.pages| ensures w.pages[i].nextCursor != "" && Lists(w.pages[i].rows, [all[0]]) {
      SeparatorLoops(w, all, 0, i);
    }
  }

  lemma OverReads(w: Session, rows: Table, ops: seq<Stamped>, cuts: seq<nat>)
    requires Over(w, rows, [], 1) && rows == Replay(ops).rows && |cuts| == |w.pages|
    requires forall i :: 0 <= i < |cuts| ==> cuts[i] == |ops|
    ensures IsSession(w) && ReadsHistory(w, ops, cuts)
  {
    QuietParts(w);
    assert ops[..|ops|] == ops;
    hide IsSession, Live;
  }
}
