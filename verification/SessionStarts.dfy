/** Sessions over a table that stands still (internal/triage/repo.go, ListByStatus): each page is a slice of the one
    sorted list, and where the slices begin can be told from the table alone.
 */
module SessionStarts {
  import opened Options
  import opened Triage
  import opened Keyset
  import opened ListPages
  import opened SessionRepeats
  import Walk

  /** The whole filtered list a session reads. */
  ghost predicate Listing(w: Session, all: seq<StoredRow>) {
    && Quiet(w) && Ascending(all)
    && forall r :: r in all <==> Hit(w.tables[0], Effective(w.statuses), None, r)
  }

  /** How many rows of the list are not behind a position. */
  function FirstBeyond(all: seq<StoredRow>, from: Option<Pos>): (k: nat)
    ensures k <= |all|
  {
    if all == [] || Beyond(from, PosOf(all[0])) then 0 else 1 + FirstBeyond(all[1..], from)
  }

  lemma {:induction false} BeyondFrom(all: seq<StoredRow>, from: Option<Pos>, j: nat)
    requires Ascending(all) && j < |all|
    ensures Beyond(from, PosOf(all[j])) <==> FirstBeyond(all, from) <= j
  {
    hide Before;
    if Beyond(from, PosOf(all[0])) {
      if j > 0 && from.Some? {
        BeforeTransitive(from.value, PosOf(all[0]), PosOf(all[j]));
      }
    } else if j > 0 {
      BeyondFrom(all[1..], from, j - 1);
    }
  }

  function Take(s: seq<StoredRow>, n: nat): seq<StoredRow> { if |s| <= n then s else s[..n] }

  /** The query answers a slice of the list. */
  lemma SelectedSlice(rows: Table, statuses: seq<string>, from: Option<Pos>, n: nat, s: seq<StoredRow>,
                      all: seq<StoredRow>)
    requires IsSelection(rows, statuses, from, n, s)
    requires Ascending(all) && forall r :: r in all <==> Hit(rows, statuses, None, r)
    ensures s == Take(all[FirstBeyond(all, from)..], n)
  {
    hide IsSelection, FirstBeyond, Before, Hit, Beyond;
    var k := FirstBeyond(all, from);
    var rest := all[k..];
    forall r ensures r in rest <==> Hit(rows, statuses, from, r) {
      HitFrom(rows, statuses, from, r);
      if r in rest {
        var j :| 0 <= j < |rest| && rest[j] == r;
        assert all[k + j] == r;
        BeyondFrom(all, from, k + j);
      }
      if r in all {
        var j :| 0 <= j < |all| && all[j] == r;
        BeyondFrom(all, from, j);
        assert j >= k ==> rest[j - k] == r;
      }
    }
    FirstHits(rows, statuses, from, n, rest);
    SelectionUnique(rows, statuses, from, n, s, Take(rest, n));
  }

  /** Where a cursor that was made from a row resumes. */
  function ResumesAt(r: StoredRow): Option<Pos> {
    if Malformed(CursorOf(r)) then None else After(CursorOf(r))
  }

  /** Where page i begins in the list, if the session has a page i. */
  function Start(all: seq<StoredRow>, limit: nat, i: nat): (s: Option<nat>)
    requires limit > 0
    ensures s.Some? ==> s.value <= |all|
  {
    if i == 0 then Some(0)
    else
      match Start(all, limit, i - 1)
      case None => None
      case Some(s) => if s + limit < |all| then Some(FirstBeyond(all, ResumesAt(all[s + limit - 1]))) else None
  }

  /** Main result: page i of a session begins where the table says, shows the rows from there on, and offers another
      page exactly if more rows follow. */
  lemma PageIsSlice(w: Session, all: seq<StoredRow>, i: nat)
    requires Listing(w, all) && i < |w.pages|
    ensures var s, limit := Start(all, ClampLimit(w.limit), i), ClampLimit(w.limit);
      && s.Some? && s.value == FirstBeyond(all, FromOf(w, i))
      && SelectedFor(w, i) == Take(all[s.value..], limit + 1)
      && Lists(w.pages[i].rows, Take(all[s.value..], limit))
      && (w.pages[i].nextCursor != "" <==> s.value + limit < |all|)
  {
    hide *;
    ListingQuiet(w, all);
    QuietParts(w);
    StartIs(w, all, i);
    Selection(w, i);
    PageFacts(w, i);
    SelectedSlice(w.tables[0], Effective(w.statuses), FromOf(w, i), ClampLimit(w.limit) + 1, SelectedFor(w, i), all);
    var rest := all[FirstBeyond(all, FromOf(w, i))..];
    TakeCut(rest, ClampLimit(w.limit));
    ScansList(w.pages[i].rows, Take(rest, ClampLimit(w.limit)));
  }

  lemma TakeCut(rest: seq<StoredRow>, limit: nat)
    ensures Walk.Cut(Take(rest, limit + 1), limit) == Take(rest, limit)
    ensures |Take(rest, limit + 1)| <= limit <==> |rest| <= limit
    ensures |rest| > limit > 0 ==> Take(rest, limit + 1)[limit - 1] == rest[limit - 1]
  {}

  lemma ListingQuiet(w: Session, all: seq<StoredRow>)
    requires Listing(w, all)
    ensures Quiet(w) && Ascending(all)
    ensures |w.tables| > 0 ==> forall r :: r in all <==> Hit(w.tables[0], Effective(w.statuses), None, r)
  {}

  lemma {:induction false} StartIs(w: Session, all: seq<StoredRow>, i: nat)
    requires Listing(w, all) && IsSession(w) && i < |w.pages|
    ensures ClampLimit(w.limit) > 0
    ensures Start(all, ClampLimit(w.limit), i) == Some(FirstBeyond(all, FromOf(w, i)))
  {
    hide *;
    var limit := ClampLimit(w.limit);
    Selection(w, i);
    if i == 0 {
      FirstFrom(w);
      StartZero(all, limit);
    } else {
      StartIs(w, all, i - 1);
      ListingQuiet(w, all);
      QuietParts(w);
      Selection(w, i - 1);
      PageFacts(w, i - 1);
      CutRow(w, i - 1);
      FromIs(w, i);
      var k, s := FirstBeyond(all, FromOf(w, i - 1)), SelectedFor(w, i - 1);
      SelectedSlice(w.tables[0], Effective(w.statuses), FromOf(w, i - 1), limit + 1, s, all);
      TakeCut(all[k..], limit);
      assert s[limit - 1] == all[k + limit - 1];
      NextStart(all, limit, i, k, w.cursors[i]);
    }
  }

  lemma StartZero(all: seq<StoredRow>, limit: nat)
    requires limit > 0
    ensures Start(all, limit, 0) == Some(FirstBeyond(all, None))
  {}

  lemma NextStart(all: seq<StoredRow>, limit: nat, i: nat, k: nat, cursor: string)
    requires limit > 0 && i > 0 && Start(all, limit, i - 1) == Some(k) && k + limit < |all|
    requires cursor == CursorOf(all[k + limit - 1]) && !Malformed(cursor)
    ensures Start(all, limit, i) == Some(FirstBeyond(all, After(cursor)))
  {
    hide FirstBeyond, Malformed, After, CursorOf;
  }

  /** A plain row is resumed behind, another row not even at it. */
  lemma StartMoves(w: Session, all: seq<StoredRow>, i: nat)
    requires Listing(w, all) && i + 1 < |w.pages|
    ensures var limit := ClampLimit(w.limit);
            var s, t := Start(all, limit, i), Start(all, limit, i + 1);
      && s.Some? && t.Some? && limit > 0 && s.value + limit < |all|
      && (if PlainCut(w, i) then t.value == s.value + limit else t.value < s.value + limit)
      && (PlainCut(w, i) <==> '|' !in all[s.value + limit - 1].host)
  {
    hide *;
    ListingQuiet(w, all);
    QuietParts(w);
    PageIsSlice(w, all, i);
    PageIsSlice(w, all, i + 1);
    PageFacts(w, i);
    CutResumes(w, i);
    Selection(w, i);
    var limit, k := ClampLimit(w.limit), FirstBeyond(all, FromOf(w, i));
    TakeCut(all[k..], limit);
    var q := k + limit - 1;
    assert SelectedFor(w, i)[limit - 1] == all[q];
    PlainIs(w, i, SelectedFor(w, i), limit);
    BeyondFrom(all, FromOf(w, i + 1), q);
    if PlainCut(w, i) {
      BehindItself(all, q);
    }
  }

  lemma BehindItself(all: seq<StoredRow>, q: nat)
    requires Ascending(all) && q < |all|
    ensures FirstBeyond(all, Some(PosOf(all[q]))) == q + 1
  {
    hide FirstBeyond, Before;
    BeforeOrder(PosOf(all[q]), PosOf(all[q]));
    BeyondFrom(all, Some(PosOf(all[q])), q);
    if q + 1 < |all| {
      BeyondFrom(all, Some(PosOf(all[q])), q + 1);
    }
  }
}
