/** Where the list of the triage store shows rows twice (internal/triage/repo.go, ListByStatus with encodeCursor):
    exactly behind a cursor whose host holds the separator.
 */
module SessionRepeats {
  import opened Options
  import opened Triage
  import opened Keyset
  import opened ListPages
  import Walk

  /** No key is shown at two places of the session. */
  ghost predicate NothingTwice(w: Session) {
    forall i, a, j, b :: At(w, i, a) && At(w, j, b) && (i != j || a != b) ==> KeyAt(w, i, a) != KeyAt(w, j, b)
  }

  predicate At(w: Session, i: int, a: int) { 0 <= i < |w.pages| && 0 <= a < |w.pages[i].rows| }

  function KeyAt(w: Session, i: int, a: int): Key
    requires At(w, i, a)
  {
    RowKey(w.pages[i].rows[a])
  }

  /** No call changes the table while the session reads it. */
  ghost predicate Quiet(w: Session) {
    IsSession(w) && Live(w) && forall i :: 0 <= i < |w.tables| ==> w.tables[i] == w.tables[0]
  }

  /** Every matching row behind the position is selected no earlier than the first of the selection. */
  lemma FirstSelected(rows: Table, statuses: seq<string>, from: Option<Pos>, n: nat, s: seq<StoredRow>, r: StoredRow)
    requires IsSelection(rows, statuses, from, n, s) && n > 0 && Hit(rows, statuses, from, r)
    ensures s != [] && Hit(rows, statuses, from, s[0]) && Walk.NotAfter(PosOf(s[0]), PosOf(r))
  {
    hide Before, Hit;
    if r !in s {
      assert s[0] in s;
    } else {
      var i :| 0 <= i < |s| && s[i] == r;
      assert s[0] in s;
    }
  }

  /** What page i + 1 shows first: a row that is not behind the last row of page i. */
  lemma StepsBack(w: Session, i: nat)
    requires Quiet(w) && i + 1 < |w.pages| && !PlainCut(w, i)
    ensures var s, last := SelectedFor(w, i + 1), SelectedFor(w, i);
      && |last| > ClampLimit(w.limit) > 0 && s != []
      && Hit(w.tables[0], Effective(w.statuses), None, s[0])
      && Walk.NotAfter(PosOf(s[0]), PosOf(last[ClampLimit(w.limit) - 1]))
  {
    QuietTables(w, i);
    hide *;
    CutResumes(w, i);
    CutRow(w, i);
    Selection(w, i + 1);
    var rows, st, from, s := w.tables[0], Effective(w.statuses), FromOf(w, i + 1), SelectedFor(w, i + 1);
    var r := SelectedFor(w, i)[ClampLimit(w.limit) - 1];
    HitFrom(rows, st, from, r);
    FirstSelected(rows, st, from, ClampLimit(w.limit) + 1, s, r);
    HitFrom(rows, st, from, s[0]);
  }

  lemma QuietTables(w: Session, i: nat)
    requires Quiet(w) && i + 1 < |w.pages|
    ensures IsSession(w) && Live(w) && |w.tables| == |w.pages|
    ensures w.tables[i] == w.tables[0] && w.tables[i + 1] == w.tables[0]
  {}

  lemma HitFrom(rows: Table, statuses: seq<string>, from: Option<Pos>, r: StoredRow)
    ensures Hit(rows, statuses, from, r) <==> Hit(rows, statuses, None, r) && Beyond(from, PosOf(r))
  {}

  lemma Selection(w: Session, i: nat)
    requires IsSession(w) && i < |w.pages|
    ensures IsSelection(w.tables[i], Effective(w.statuses), FromOf(w, i), ClampLimit(w.limit) + 1, SelectedFor(w, i))
    ensures ClampLimit(w.limit) > 0
  {
    hide ListSpec, FromOf;
    assert Answers(w, i);
  }

  /** The page behind a separator begins with a row that was shown before. */
  lemma ReturnsAgain(w: Session, i: nat) returns (j: nat, a: nat)
    requires Quiet(w) && i + 1 < |w.pages| && !PlainCut(w, i)
    ensures j <= i && At(w, j, a) && At(w, i + 1, 0) && KeyAt(w, j, a) == KeyAt(w, i + 1, 0)
  {
    hide IsSession, Live, Quiet, SelectedFor, TrailOf, PlainCut, Walk.OnPage, Hit, ScanRow, ListSpec, FromOf, RowKey;
    StepsBack(w, i);
    j := BackOnPage(w, i);
    QuietParts(w);
    SessionSizes(w);
    a := RowShown(w, j, Walk.KeyOf(SelectedFor(w, i + 1)[0]));
    FirstRow(w, i + 1);
    StoredHit(w.tables[j], Effective(w.statuses), SelectedFor(w, i + 1)[0]);
    ScanKey(SelectedFor(w, i + 1)[0]);
  }

  lemma StoredHit(rows: Table, statuses: seq<string>, r: StoredRow)
    requires Hit(rows, statuses, None, r)
    ensures Walk.KeyOf(r) in rows && rows[Walk.KeyOf(r)] == r && r.status in statuses
  {}

  lemma ScanKey(r: StoredRow)
    ensures RowKey(ScanRow(r)) == Walk.KeyOf(r)
  {
    hide ScanTime;
  }

  lemma BackOnPage(w: Session, i: nat) returns (j: nat)
    requires Quiet(w) && i + 1 < |w.pages| && !PlainCut(w, i) && SelectedFor(w, i + 1) != []
    ensures j <= i && j < |TrailOf(w).selected| && Walk.OnPage(TrailOf(w), j, Walk.KeyOf(SelectedFor(w, i + 1)[0]))
  {
    hide IsSession, Live, Quiet, SelectedFor, TrailOf, PlainCut, Walk.OnPage, Hit, ListSpec, FromOf, Walk.NotAfter;
    hide Walk.IsLoose;
    StepsBack(w, i);
    QuietParts(w);
    SessionIsLoose(w);
    SessionSizes(w);
    TrailSelected(w, i);
    var x := SelectedFor(w, i + 1)[0];
    StoredHit(w.tables[0], Effective(w.statuses), x);
    j := ShownBefore(w, TrailOf(w), i, Walk.KeyOf(x));
  }

  lemma TrailSelected(w: Session, i: nat)
    requires IsSession(w) && i < |w.pages|
    ensures i < |TrailOf(w).selected| && TrailOf(w).selected[i] == SelectedFor(w, i)
  {}

  lemma QuietParts(w: Session)
    requires Quiet(w)
    ensures IsSession(w) && Live(w) && |w.tables| == |w.pages| > 0
    ensures forall i :: 0 <= i < |w.tables| ==> w.tables[i] == w.tables[0]
  {}

  lemma FirstRow(w: Session, i: nat)
    requires IsSession(w) && Live(w) && i < |w.pages| && SelectedFor(w, i) != []
    ensures At(w, i, 0) && KeyAt(w, i, 0) == Walk.KeyOf(SelectedFor(w, i)[0])
  {
    PageFacts(w, i);
    Selection(w, i);
    hide IsSession, Live, SelectedFor, ScanTime, IsSelection;
  }

  /** A row that is not behind the end of page i has been shown on page i or earlier. */
  lemma ShownBefore(w: Session, t: Walk.Trail, i: nat, k: Key) returns (j: nat)
    requires Quiet(w) && i < |w.pages| && t == TrailOf(w) && Walk.IsLoose(t) && |t.tables| == |w.pages|
    requires k in w.tables[0] && w.tables[0][k].status in t.statuses && |t.selected[i]| > t.limit
    requires Walk.NotAfter(PosOf(w.tables[0][k]), PosOf(t.selected[i][t.limit - 1]))
    ensures j <= i && Walk.OnPage(t, j, k)
  {
    hide IsSession, Live, Walk.OnPage, Before;
    assert Walk.Untouched(t, i, k);
    BeforeOrder(PosOf(w.tables[0][k]), PosOf(t.selected[i][t.limit - 1]));
    if Walk.Behind(t.froms[i], t.tables[i], k) {
      Walk.PassedMeansReturned(t, i, k);
      j :| 0 <= j < i && Walk.OnPage(t, j, k);
    } else {
      Walk.OnPageOrLater(t, i, k);
      j := i;
    }
  }

  /** Main result: without writes a session shows nothing twice exactly when no row that ends a page has a host
      with the separator. */
  lemma TwiceIff(w: Session)
    requires Quiet(w)
    ensures NothingTwice(w) <==> PlainCuts(w)
  {
    hide IsSession, Live, TrailOf, PlainCut;
    if PlainCuts(w) {
      NothingRepeats(w);
    } else {
      var i :| 0 <= i < |w.pages| - 1 && !PlainCut(w, i);
      var j, a := ReturnsAgain(w, i);
    }
  }

  lemma NothingRepeats(w: Session)
    requires IsSession(w) && Live(w) && PlainCuts(w)
    ensures NothingTwice(w)
  {
    SessionIsWalk(w);
    SessionSizes(w);
    hide IsSession, Live, TrailOf, PlainCut, Walk.IsWalk, ScanTime;
    forall i, a, j, b | At(w, i, a) && At(w, j, b) && (i != j || a != b) ensures KeyAt(w, i, a) != KeyAt(w, j, b) {
      if i < j || (i == j && a < b) {
        Walk.NoRowTwice(TrailOf(w), i, a, j, b);
      } else {
        Walk.NoRowTwice(TrailOf(w), j, b, i, a);
      }
    }
  }

  // ---------------------------------------------------------------- the whole list

  /** Where page i starts in the concatenation. */
  function Offset(pages: seq<ListResult>, i: nat): nat
    requires i <= |pages|
  {
    |Concat(pages[..i])|
  }

  lemma {:induction false} ConcatAt(pages: seq<ListResult>, i: nat, a: nat)
    requires i < |pages| && a < |pages[i].rows|
    ensures Offset(pages, i) + a < |Concat(pages)| && Concat(pages)[Offset(pages, i) + a] == pages[i].rows[a]
  {
    var n := |pages| - 1;
    assert pages == pages[..n] + [pages[n]];
    ConcatSnoc(pages[..n], pages[n]);
    if i < n {
      ConcatAt(pages[..n], i, a);
      assert pages[..n][..i] == pages[..i];
    }
  }

  lemma {:induction false} OffsetGrows(pages: seq<ListResult>, i: nat, j: nat)
    requires i < j <= |pages|
    ensures Offset(pages, i) + |pages[i].rows| <= Offset(pages, j)
  {
    assert pages[..j] == pages[..j - 1] + [pages[j - 1]];
    ConcatSnoc(pages[..j - 1], pages[j - 1]);
    if i + 1 < j {
      OffsetGrows(pages, i, j - 1);
    }
  }

  /** Main result: without writes the pages of a session that ran to the end concatenate to the whole filtered
      list in order exactly when no row that ends a page has a host with the separator. */
  lemma ListingIff(w: Session)
    requires Quiet(w) && w.pages[|w.pages| - 1].nextCursor == ""
    ensures Keyed(w.tables[0])
    ensures Lists(Concat(w.pages), SortedAll(w.tables[0], Effective(w.statuses), None)) <==> PlainCuts(w)
  {
    FirstKeyed(w);
    hide *;
    if PlainCuts(w) {
      QuietParts(w);
      QuietSession(w);
    } else {
      var rows, statuses := w.tables[0], Effective(w.statuses);
      ListedTwice(w, rows, statuses, SortedAll(rows, statuses, None));
    }
  }

  lemma FirstKeyed(w: Session)
    requires IsSession(w)
    ensures Keyed(w.tables[0])
  {
    assert Answers(w, 0);
  }

  lemma RepeatListed(w: Session) returns (p: nat, q: nat)
    requires Quiet(w) && !PlainCuts(w)
    ensures p < q < |Concat(w.pages)| && RowKey(Concat(w.pages)[p]) == RowKey(Concat(w.pages)[q])
  {
    hide Quiet, PlainCut, Concat, Offset;
    var i :| 0 <= i < |w.pages| - 1 && !PlainCut(w, i);
    var j, a := ReturnsAgain(w, i);
    ConcatAt(w.pages, j, a);
    ConcatAt(w.pages, i + 1, 0);
    OffsetGrows(w.pages, j, i + 1);
    p, q := Offset(w.pages, j) + a, Offset(w.pages, i + 1);
  }

  lemma ListedTwice(w: Session, rows: Table, statuses: seq<string>, all: seq<StoredRow>)
    requires Quiet(w) && !PlainCuts(w)
    requires Ascending(all) && forall r :: r in all <==> Hit(rows, statuses, None, r)
    ensures !Lists(Concat(w.pages), all)
  {
    hide *;
    ScansList(Concat(w.pages), all);
    var p, q := RepeatListed(w);
    if q < |all| {
      KeysApart(rows, statuses, all, p, q);
      ScannedKey(all, p);
      ScannedKey(all, q);
    }
  }

  lemma ScannedKey(all: seq<StoredRow>, p: nat)
    requires p < |all|
    ensures RowKey(ScanRows(all)[p]) == Walk.KeyOf(all[p])
  {
    hide ScanTime;
  }

  lemma KeysApart(rows: Table, statuses: seq<string>, all: seq<StoredRow>, p: nat, q: nat)
    requires Ascending(all) && (forall r :: r in all <==> Hit(rows, statuses, None, r)) && p < q < |all|
    ensures Walk.KeyOf(all[p]) != Walk.KeyOf(all[q])
  {
    hide Before;
    assert Before(PosOf(all[p]), PosOf(all[q]));
    BeforeOrder(PosOf(all[p]), PosOf(all[q]));
    assert Hit(rows, statuses, None, all[p]) && Hit(rows, statuses, None, all[q]);
  }
}
