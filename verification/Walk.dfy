/** Following the triage list page by page while upserts go on (internal/triage/types.go:
    "pagination is stable under concurrent updates"), on positions and stored rows.
 */
module Walk {
  import opened Lex
  import opened Options
  import opened Triage
  import opened Keyset

  function KeyOf(r: StoredRow): Key { Key(r.host, r.event) }

  /** Page i selects from tables[i] what lies behind froms[i]; selected[i] is limit + 1 rows when
      there is more. */
  datatype Trail = Trail(statuses: seq<string>, limit: nat, tables: seq<Table>, froms: seq<Option<Pos>>,
                         selected: seq<seq<StoredRow>>)

  /** Rows stay, and a touched row's stamp never goes back. */
  ghost predicate Ahead(a: Table, b: Table) {
    forall k :: k in a ==> k in b && !Less(b[k].updatedAt, a[k].updatedAt)
  }

  function Cut(s: seq<StoredRow>, limit: nat): seq<StoredRow> { if |s| > limit then s[..limit] else s }

  ghost predicate Selects(w: Trail, i: nat)
    requires i < |w.tables| == |w.froms| == |w.selected|
  {
    Keyed(w.tables[i]) && IsSelection(w.tables[i], w.statuses, w.froms[i], w.limit + 1, w.selected[i])
  }

  ghost predicate Resumes(w: Trail, i: nat)
    requires 0 < i < |w.tables| == |w.froms| == |w.selected|
  {
    && |w.selected[i - 1]| > w.limit > 0
    && w.froms[i] == Some(PosOf(w.selected[i - 1][w.limit - 1]))
    && Ahead(w.tables[i - 1], w.tables[i])
  }

  /** The next page may also start before the last row of this one. */
  ghost predicate Lags(w: Trail, i: nat)
    requires 0 < i < |w.tables| == |w.froms| == |w.selected|
  {
    && |w.selected[i - 1]| > w.limit > 0 && w.froms[i].Some?
    && NotAfter(w.froms[i].value, PosOf(w.selected[i - 1][w.limit - 1]))
    && Ahead(w.tables[i - 1], w.tables[i])
  }

  predicate NotAfter(p: Pos, q: Pos) { p == q || Before(p, q) }

  /** A walk that may step back between pages. */
  ghost predicate IsLoose(w: Trail) {
    && |w.tables| == |w.froms| == |w.selected| > 0
    && w.limit > 0 && w.froms[0] == None
    && (forall i :: 0 <= i < |w.tables| ==> Selects(w, i))
    && (forall i :: 0 < i < |w.tables| ==> Lags(w, i))
  }

  ghost predicate IsWalk(w: Trail) {
    && |w.tables| == |w.froms| == |w.selected| > 0
    && w.limit > 0 && w.froms[0] == None
    && (forall i :: 0 <= i < |w.tables| ==> Selects(w, i))
    && (forall i :: 0 < i < |w.tables| ==> Resumes(w, i))
  }

  lemma WalkIsLoose(w: Trail)
    requires IsWalk(w)
    ensures IsLoose(w)
  {
    hide IsSelection, Before, Ahead;
    forall i | 0 < i < |w.tables| ensures Lags(w, i) {
      assert Resumes(w, i);
    }
  }

  function Page(w: Trail, i: nat): seq<StoredRow>
    requires i < |w.selected|
  {
    Cut(w.selected[i], w.limit)
  }

  ghost predicate Complete(w: Trail)
    requires |w.selected| > 0
  {
    |w.selected[|w.selected| - 1]| <= w.limit
  }

  // ---------------------------------------------------------------- one step

  /** Where row k of a table sits, compared with a position. */
  ghost predicate Behind(c: Option<Pos>, t: Table, k: Key) { k in t && !Beyond(c, PosOf(t[k])) }

  /** Touching a row never carries it behind a cursor it was not behind. */
  lemma MovesForward(c: Option<Pos>, a: Table, b: Table, k: Key)
    requires Keyed(a) && Keyed(b) && Ahead(a, b) && Behind(c, a, k)
    ensures Behind(c, b, k)
  {
    var p, q := PosOf(a[k]), PosOf(b[k]);
    LaterStamp(p, q);
    if Beyond(c, q) && q != p {
      BeforeTransitive(c.value, q, p);
    }
  }

  lemma LaterStamp(p: Pos, q: Pos)
    requires p.host == q.host && p.event == q.event && !Less(q.at, p.at)
    ensures p == q || Before(q, p)
  {
    LessTotal(p.at, q.at);
  }

  lemma Apart(c: Option<Pos>, p: Pos, q: Pos)
    requires !Beyond(c, p) && Beyond(c, q)
    ensures Before(p, q)
  {
    hide Before;
    BeforeOrder(p, c.value);
    if p != c.value { BeforeTransitive(p, c.value, q); }
  }

  /** A selected row is stored under its key, matches, and lies behind the position. */
  lemma SelectedRow(t: Table, statuses: seq<string>, from: Option<Pos>, n: nat, s: seq<StoredRow>, r: StoredRow)
    requires IsSelection(t, statuses, from, n, s) && r in s
    ensures KeyOf(r) in t && t[KeyOf(r)] == r && r.status in statuses && Beyond(from, PosOf(r))
    ensures Hit(t, statuses, None, r)
  {
    hide Before;
    assert Hit(t, statuses, from, r);
  }

  /** Rows on the page sit at or before its last row, the rest behind it. */
  lemma CutPoint(s: seq<StoredRow>, limit: nat, r: StoredRow)
    requires Ascending(s) && |s| > limit > 0 && r in s
    ensures r in s[..limit] <==> !Before(PosOf(s[limit - 1]), PosOf(r))
  {
    hide Before;
    var i :| 0 <= i < |s| && s[i] == r;
    BeforeOrder(PosOf(r), PosOf(s[limit - 1]));
    if i < limit { assert s[..limit][i] == r; }
    if r in s[..limit] {
      var j :| 0 <= j < limit && s[..limit][j] == r;
      assert s[j] == r;
    }
  }

  // ---------------------------------------------------------------- no row twice

  ghost predicate OnPage(w: Trail, i: nat, k: Key)
    requires i < |w.selected|
  {
    exists a :: 0 <= a < |Page(w, i)| && KeyOf(Page(w, i)[a]) == k
  }

  lemma PageRow(w: Trail, i: nat, a: nat)
    requires i < |w.tables| == |w.froms| == |w.selected| && Selects(w, i) && a < |Page(w, i)|
    ensures var r := Page(w, i)[a];
      && KeyOf(r) in w.tables[i] && w.tables[i][KeyOf(r)] == r && r in w.selected[i] && a < |w.selected[i]|
      && r == w.selected[i][a] && Beyond(w.froms[i], PosOf(r)) && r.status in w.statuses
      && Hit(w.tables[i], w.statuses, None, r)
  {
    hide IsSelection, Before;
    SelectedRow(w.tables[i], w.statuses, w.froms[i], w.limit + 1, w.selected[i], Page(w, i)[a]);
  }

  /** The position a page leaves lies behind the one it started from. */
  lemma Advances(w: Trail, i: nat)
    requires IsWalk(w) && 0 < i < |w.tables|
    ensures w.froms[i].Some? && Beyond(w.froms[i - 1], w.froms[i].value)
    ensures |w.selected[i - 1]| > w.limit && w.froms[i] == Some(PosOf(w.selected[i - 1][w.limit - 1]))
  {
    hide IsSelection, Before;
    assert Resumes(w, i);
    PageRow(w, i - 1, w.limit - 1);
  }

  /** A row of page i - 1, or one behind its start already, is behind the start of page i. */
  lemma StaysBehind(w: Trail, i: nat, k: Key)
    requires IsWalk(w) && 0 < i < |w.tables|
    requires Behind(w.froms[i - 1], w.tables[i - 1], k) || OnPage(w, i - 1, k)
    ensures Behind(w.froms[i], w.tables[i], k)
  {
    hide IsSelection, Before;
    assert Selects(w, i - 1) && Selects(w, i) && Resumes(w, i);
    Advances(w, i);
    if Behind(w.froms[i - 1], w.tables[i - 1], k) {
      if Beyond(w.froms[i], PosOf(w.tables[i - 1][k])) {
        Apart(w.froms[i - 1], PosOf(w.tables[i - 1][k]), w.froms[i].value);
        BeforeOrder(PosOf(w.tables[i - 1][k]), w.froms[i].value);
      }
    } else {
      var a :| 0 <= a < |Page(w, i - 1)| && KeyOf(Page(w, i - 1)[a]) == k;
      PageRow(w, i - 1, a);
      PageCut(w, i - 1, a);
    }
    MovesForward(w.froms[i], w.tables[i - 1], w.tables[i], k);
  }

  lemma PageCut(w: Trail, i: nat, a: nat)
    requires IsWalk(w) && i < |w.tables| && a < |Page(w, i)| && |w.selected[i]| > w.limit
    ensures !Before(PosOf(w.selected[i][w.limit - 1]), PosOf(Page(w, i)[a]))
  {
    hide Before, Hit;
    assert Selects(w, i);
    CutPoint(w.selected[i], w.limit, Page(w, i)[a]);
  }

  lemma {:induction false} PagesStayBehind(w: Trail, i: nat, m: nat, k: Key)
    requires IsWalk(w) && i < m < |w.tables| && OnPage(w, i, k)
    ensures Behind(w.froms[m], w.tables[m], k)
  {
    hide IsSelection, Before, Behind, OnPage, IsWalk;
    if i + 1 < m {
      PagesStayBehind(w, i, m - 1, k);
    }
    StaysBehind(w, m, k);
  }

  /** Main result: no row is returned twice, whatever upserts run between the pages. */
  lemma NoRowTwice(w: Trail, i: nat, a: nat, j: nat, b: nat)
    requires IsWalk(w) && i <= j < |w.tables|
    requires a < |Page(w, i)| && b < |Page(w, j)| && (i == j ==> a < b)
    ensures KeyOf(Page(w, i)[a]) != KeyOf(Page(w, j)[b])
  {
    hide Before, Hit;
    PageRow(w, j, b);
    if i < j {
      PagesStayBehind(w, i, j, KeyOf(Page(w, i)[a]));
    } else {
      PageRow(w, i, a);
      assert Selects(w, i);
      var s := w.selected[i];
      assert Before(PosOf(s[a]), PosOf(s[b]));
      BeforeOrder(PosOf(s[a]), PosOf(s[b]));
    }
  }

  // ---------------------------------------------------------------- no still row missed

  /** k was returned on one of the first m pages. */
  ghost predicate Returned(w: Trail, m: nat, k: Key)
    requires m <= |w.selected|
  {
    exists i :: 0 <= i < m && OnPage(w, i, k)
  }

  ghost predicate Untouched(w: Trail, m: nat, k: Key)
    requires m < |w.tables|
  {
    k in w.tables[0] && forall i :: 0 <= i <= m ==> k in w.tables[i] && w.tables[i][k] == w.tables[0][k]
  }

  /** A matching row behind the start of page i is on the page unless the page stops before it. */
  lemma OnPageOrLater(w: Trail, i: nat, k: Key)
    requires IsLoose(w) && i < |w.tables| && k in w.tables[i]
    requires w.tables[i][k].status in w.statuses && Beyond(w.froms[i], PosOf(w.tables[i][k]))
    requires |w.selected[i]| > w.limit ==>
               !Before(PosOf(w.selected[i][w.limit - 1]), PosOf(w.tables[i][k]))
    ensures OnPage(w, i, k)
  {
    hide Before;
    var r, s := w.tables[i][k], w.selected[i];
    assert Selects(w, i);
    assert Hit(w.tables[i], w.statuses, w.froms[i], r);
    if |s| > w.limit {
      assert s[w.limit - 1] in s;
      assert r in s;
      CutPoint(s, w.limit, r);
    }
    assert r in Page(w, i);
    var a :| 0 <= a < |Page(w, i)| && Page(w, i)[a] == r;
  }

  lemma {:induction false} PassedMeansReturned(w: Trail, m: nat, k: Key)
    requires IsLoose(w) && m < |w.tables| && Untouched(w, m, k)
    requires w.tables[0][k].status in w.statuses && Behind(w.froms[m], w.tables[m], k)
    ensures Returned(w, m, k)
  {
    hide Before, IsSelection, Selects;
    if m > 0 {
      if Behind(w.froms[m - 1], w.tables[m - 1], k) {
        PassedMeansReturned(w, m - 1, k);
      } else {
        assert Lags(w, m);
        NotPast(w.froms[m].value, PosOf(w.selected[m - 1][w.limit - 1]), PosOf(w.tables[m][k]));
        OnPageOrLater(w, m - 1, k);
      }
    }
  }

  lemma NotPast(p: Pos, last: Pos, q: Pos)
    requires NotAfter(p, last) && !Before(p, q)
    ensures !Before(last, q)
  {
    if p != last && Before(last, q) {
      BeforeTransitive(p, last, q);
    }
  }

  /** Main result: a complete walk, even one that steps back between pages, returns every matching row that
      nobody touches meanwhile. */
  lemma EveryStillRow(w: Trail, k: Key)
    requires IsLoose(w) && Complete(w) && Untouched(w, |w.tables| - 1, k)
    requires w.tables[0][k].status in w.statuses
    ensures Returned(w, |w.tables|, k)
  {
    hide Before, IsSelection;
    var m := |w.tables| - 1;
    if Behind(w.froms[m], w.tables[m], k) {
      PassedMeansReturned(w, m, k);
    } else {
      OnPageOrLater(w, m, k);
    }
  }

  // ---------------------------------------------------------------- walks without writes

  ghost function Shown(w: Trail, m: nat): seq<StoredRow>
    requires m <= |w.selected|
  {
    if m == 0 then [] else Shown(w, m - 1) + Page(w, m - 1)
  }

  ghost predicate Frozen(w: Trail) {
    forall i :: 0 <= i < |w.tables| ==> w.tables[i] == w.tables[0]
  }

  /** What has been shown so far is in order and at or before the position. */
  lemma {:induction false} ShownAscends(w: Trail, m: nat)
    requires IsWalk(w) && Frozen(w) && m <= |w.tables|
    ensures Ascending(Shown(w, m))
    ensures forall x :: x in Shown(w, m) ==> Hit(w.tables[0], w.statuses, None, x)
    ensures m < |w.tables| ==> forall x :: x in Shown(w, m) ==> !Beyond(w.froms[m], PosOf(x))
  {
    hide Before, Hit, IsSelection;
    if m > 0 {
      ShownAscends(w, m - 1);
      var earlier, page := Shown(w, m - 1), Page(w, m - 1);
      forall x | x in page ensures Hit(w.tables[0], w.statuses, None, x) && Beyond(w.froms[m - 1], PosOf(x)) {
        var a :| 0 <= a < |page| && page[a] == x;
        PageRow(w, m - 1, a);
      }
      forall x, y | x in earlier && y in page ensures Before(PosOf(x), PosOf(y)) {
        Apart(w.froms[m - 1], PosOf(x), PosOf(y));
      }
      PageAscends(w, m - 1);
      if m < |w.tables| {
        Advances(w, m);
        forall x | x in Shown(w, m) ensures !Beyond(w.froms[m], PosOf(x)) {
          if x in page {
            var a :| 0 <= a < |page| && page[a] == x;
            PageCut(w, m - 1, a);
          } else {
            Apart(w.froms[m - 1], PosOf(x), w.froms[m].value);
            BeforeOrder(PosOf(x), w.froms[m].value);
          }
        }
      }
    }
  }

  lemma PageAscends(w: Trail, i: nat)
    requires IsWalk(w) && i < |w.tables|
    ensures Ascending(Page(w, i))
  {
    hide Before, Hit;
    assert Selects(w, i);
  }

  lemma {:induction false} PageInShown(w: Trail, i: nat, a: nat, m: nat)
    requires i < m <= |w.selected| && a < |Page(w, i)|
    ensures Page(w, i)[a] in Shown(w, m)
  {
    if i + 1 < m {
      PageInShown(w, i, a, m - 1);
    }
  }

  /** Main result: with no writes a complete walk concatenates to exactly the matching rows, in the
      list's order. */
  lemma FrozenWalk(w: Trail)
    requires IsWalk(w) && Frozen(w) && Complete(w)
    ensures Keyed(w.tables[0])
    ensures Shown(w, |w.tables|) == SortedAll(w.tables[0], w.statuses, None)
  {
    hide Before, IsSelection;
    assert Selects(w, 0);
    var n, rows := |w.tables|, w.tables[0];
    var shown, sorted := Shown(w, n), SortedAll(rows, w.statuses, None);
    ShownAscends(w, n);
    forall r | Hit(rows, w.statuses, None, r) ensures r in shown {
      WalkIsLoose(w);
      EveryStillRow(w, KeyOf(r));
      var i :| 0 <= i < n && OnPage(w, i, KeyOf(r));
      var a :| 0 <= a < |Page(w, i)| && KeyOf(Page(w, i)[a]) == KeyOf(r);
      PageRow(w, i, a);
      PageInShown(w, i, a, n);
    }
    OneListing(rows, w.statuses, shown, sorted);
  }

  lemma OneListing(rows: Table, statuses: seq<string>, a: seq<StoredRow>, b: seq<StoredRow>)
    requires Ascending(a) && forall r :: r in a <==> Hit(rows, statuses, None, r)
    requires Ascending(b) && forall r :: r in b <==> Hit(rows, statuses, None, r)
    ensures a == b
  {
    hide Before, Hit, IsSelection;
    var n := if |a| < |b| then |b| else |a|;
    FirstHits(rows, statuses, None, n, a);
    FirstHits(rows, statuses, None, n, b);
    SelectionUnique(rows, statuses, None, n, a, b);
  }

  // ---------------------------------------------------------------- walks end

  ghost function Keys(s: seq<StoredRow>): set<Key> { set a | 0 <= a < |s| :: KeyOf(s[a]) }

  lemma {:induction false} DistinctCount(s: seq<StoredRow>)
    requires forall i, j :: 0 <= i < j < |s| ==> KeyOf(s[i]) != KeyOf(s[j])
    ensures |Keys(s)| == |s|
  {
    if s != [] {
      var init := s[..|s| - 1];
      DistinctCount(init);
      assert Keys(s) == Keys(init) + {KeyOf(s[|s| - 1])} by {
        assert forall a :: 0 <= a < |init| ==> init[a] == s[a];
      }
    }
  }

  ghost function KeysShown(w: Trail, m: nat): set<Key>
    requires m <= |w.selected|
  {
    if m == 0 then {} else KeysShown(w, m - 1) + Keys(Page(w, m - 1))
  }

  lemma {:induction false} KeysShownAre(w: Trail, m: nat, k: Key)
    requires m <= |w.selected|
    ensures k in KeysShown(w, m) <==> Returned(w, m, k)
  {
    if m > 0 {
      KeysShownAre(w, m - 1, k);
      assert k in Keys(Page(w, m - 1)) <==> OnPage(w, m - 1, k);
    }
  }

  /** Every page but the last is full of rows not seen before. */
  lemma {:induction false} FullPages(w: Trail, m: nat)
    requires IsWalk(w) && m < |w.tables|
    ensures |KeysShown(w, m)| == w.limit * m
  {
    hide Before, Hit, IsSelection;
    if m > 0 {
      FullPages(w, m - 1);
      NextPageIsNew(w, m);
      hide IsWalk, Page, Keys;
      MulStep(w.limit, m);
    }
  }

  lemma NextPageIsNew(w: Trail, m: nat)
    requires IsWalk(w) && 0 < m < |w.tables|
    ensures |Keys(Page(w, m - 1))| == w.limit && KeysShown(w, m - 1) !! Keys(Page(w, m - 1))
  {
    hide Before, Hit, IsSelection, KeysShown;
    Advances(w, m);
    var page := Page(w, m - 1);
    forall a, b | 0 <= a < b < |page| ensures KeyOf(page[a]) != KeyOf(page[b]) {
      NoRowTwice(w, m - 1, a, m - 1, b);
    }
    DistinctCount(page);
    forall k | k in Keys(page) ensures k !in KeysShown(w, m - 1) {
      KeysShownAre(w, m - 1, k);
      var b :| 0 <= b < |page| && KeyOf(page[b]) == k;
      if Returned(w, m - 1, k) {
        var i :| 0 <= i < m - 1 && OnPage(w, i, k);
        var a :| 0 <= a < |Page(w, i)| && KeyOf(Page(w, i)[a]) == k;
        NoRowTwice(w, i, a, m - 1, b);
      }
    }
  }

  lemma MulStep(l: nat, m: nat)
    requires m > 0
    ensures l * m == l * (m - 1) + l
  {}

  /** Main result: a walk cannot outrun the table it reads, so with finitely many rows it ends. */
  lemma WalkEnds(w: Trail)
    requires IsWalk(w)
    ensures w.limit * (|w.tables| - 1) <= |w.tables[|w.tables| - 1]|
  {
    hide Before, Hit, IsSelection;
    var m := |w.tables| - 1;
    FullPages(w, m);
    forall k | k in KeysShown(w, m) ensures k in w.tables[m] {
      KeysShownAre(w, m, k);
      var i :| 0 <= i < m && OnPage(w, i, k);
      PagesStayBehind(w, i, m, k);
    }
    var rest := w.tables[m].Keys - KeysShown(w, m);
    assert w.tables[m].Keys == KeysShown(w, m) + rest;
  }
}
