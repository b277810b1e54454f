/** The paging query over the triage rows (internal/triage/repo.go, ListByStatus): newest first, ties
    by host and event, the first n rows behind a position.
 */
module Keyset {
  import opened Lex
  import opened Options
  import opened Triage

  type Table = map<Key, StoredRow>

  // ---------------------------------------------------------------- the order

  datatype Pos = Pos(at: string, host: string, event: string)

  function PosOf(r: StoredRow): Pos { Pos(r.updatedAt, r.host, r.event) }

  /** ORDER BY updated_at DESC, host_id ASC, event_id ASC. */
  predicate Before(p: Pos, q: Pos) {
    Less(q.at, p.at) || (p.at == q.at && (Less(p.host, q.host) || (p.host == q.host && Less(p.event, q.event))))
  }

  lemma BeforeOrder(p: Pos, q: Pos)
    ensures !Before(p, p)
    ensures p == q || Before(p, q) || Before(q, p)
    ensures Before(p, q) ==> !Before(q, p)
  {
    LessIrreflexive(p.at); LessIrreflexive(p.host); LessIrreflexive(p.event);
    LessTotal(p.at, q.at); LessTotal(p.host, q.host); LessTotal(p.event, q.event);
    if Less(p.at, q.at) { LessAsymmetric(p.at, q.at); }
    if Less(q.at, p.at) { LessAsymmetric(q.at, p.at); }
    if Less(p.host, q.host) { LessAsymmetric(p.host, q.host); }
    if Less(p.event, q.event) { LessAsymmetric(p.event, q.event); }
  }

  lemma BeforeTransitive(p: Pos, q: Pos, r: Pos)
    requires Before(p, q) && Before(q, r)
    ensures Before(p, r)
  {
    if Less(q.at, p.at) && Less(r.at, q.at) { LessTransitive(r.at, q.at, p.at); }
    if Less(p.host, q.host) && Less(q.host, r.host) { LessTransitive(p.host, q.host, r.host); }
    if Less(p.event, q.event) && Less(q.event, r.event) { LessTransitive(p.event, q.event, r.event); }
  }

  // ---------------------------------------------------------------- the query

  predicate Beyond(after: Option<Pos>, p: Pos) { after.None? || Before(after.value, p) }

  /** WHERE status IN (...) AND the row lies after the cursor. */
  predicate Hit(rows: Table, statuses: seq<string>, after: Option<Pos>, r: StoredRow) {
    Key(r.host, r.event) in rows && rows[Key(r.host, r.event)] == r && r.status in statuses && Beyond(after, PosOf(r))
  }

  ghost predicate Ascending(s: seq<StoredRow>) {
    forall i, j :: 0 <= i < j < |s| ==> Before(PosOf(s[i]), PosOf(s[j]))
  }

  /** What ORDER BY ... LIMIT n answers: the first n hits, in order. */
  ghost predicate IsSelection(rows: Table, statuses: seq<string>, after: Option<Pos>, n: nat, out: seq<StoredRow>) {
    && Ascending(out) && |out| <= n
    && (forall r :: r in out ==> Hit(rows, statuses, after, r))
    && (forall r :: Hit(rows, statuses, after, r) && r !in out ==>
          |out| == n && forall x :: x in out ==> Before(PosOf(x), PosOf(r)))
  }

  function InsertRow(s: seq<StoredRow>, r: StoredRow): (t: seq<StoredRow>)
    ensures forall x :: x in t <==> x == r || x in s
  {
    if s == [] then [r]
    else if Before(PosOf(r), PosOf(s[0])) then [r] + s
    else [s[0]] + InsertRow(s[1..], r)
  }

  lemma {:induction false} InsertRowAscends(s: seq<StoredRow>, r: StoredRow)
    requires Ascending(s) && forall x :: x in s ==> PosOf(x) != PosOf(r)
    ensures Ascending(InsertRow(s, r))
  {
    hide Before;
    if s != [] {
      BeforeOrder(PosOf(r), PosOf(s[0]));
      if Before(PosOf(r), PosOf(s[0])) {
        forall x | x in s ensures Before(PosOf(r), PosOf(x)) {
          if x != s[0] { BeforeTransitive(PosOf(r), PosOf(s[0]), PosOf(x)); }
        }
      } else {
        InsertRowAscends(s[1..], r);
        forall x | x in InsertRow(s[1..], r) ensures Before(PosOf(s[0]), PosOf(x)) {
          if x != r { assert x in s[1..]; }
        }
      }
    }
  }

  /** The rows of a table sit under their own keys. */
  ghost predicate Keyed(rows: Table) {
    forall k :: k in rows ==> Key(rows[k].host, rows[k].event) == k
  }

  /** A selection is unique. */
  lemma SelectionUnique(rows: Table, statuses: seq<string>, after: Option<Pos>, n: nat,
                        a: seq<StoredRow>, b: seq<StoredRow>)
    requires IsSelection(rows, statuses, after, n, a) && IsSelection(rows, statuses, after, n, b)
    ensures a == b
  {
    hide Before, Hit;
    AgreeUpTo(rows, statuses, after, n, a, b, if |a| < |b| then |a| else |b|);
    NoLonger(rows, statuses, after, n, a, b);
    NoLonger(rows, statuses, after, n, b, a);
  }

  /** A selection is not a proper beginning of another. */
  lemma NoLonger(rows: Table, statuses: seq<string>, after: Option<Pos>, n: nat,
                 a: seq<StoredRow>, b: seq<StoredRow>)
    requires IsSelection(rows, statuses, after, n, a) && IsSelection(rows, statuses, after, n, b)
    requires |a| < |b| ==> a == b[..|a|]
    ensures |b| <= |a|
  {
    hide Before, Hit;
    if |a| < |b| {
      assert b[|a|] in b;
      NewRow(b, |a|);
    }
  }

  lemma NewRow(s: seq<StoredRow>, i: nat)
    requires Ascending(s) && i < |s|
    ensures s[i] !in s[..i]
  {
    hide Before;
    forall j | 0 <= j < i ensures s[j] != s[i] {
      BeforeOrder(PosOf(s[j]), PosOf(s[i]));
    }
  }

  lemma {:induction false} AgreeUpTo(rows: Table, statuses: seq<string>, after: Option<Pos>, n: nat,
                                     a: seq<StoredRow>, b: seq<StoredRow>, i: nat)
    requires IsSelection(rows, statuses, after, n, a) && IsSelection(rows, statuses, after, n, b)
    requires i <= |a| && i <= |b|
    ensures a[..i] == b[..i]
  {
    hide Before;
    if i > 0 {
      AgreeUpTo(rows, statuses, after, n, a, b, i - 1);
      var x, y := a[i - 1], b[i - 1];
      if x != y {
        BeforeOrder(PosOf(x), PosOf(y));
        assert PosOf(x) != PosOf(y);
        NotMissed(rows, statuses, after, n, a, b, i - 1);
        NotMissed(rows, statuses, after, n, b, a, i - 1);
      }
    }
  }

  /** Two selections cannot part at i with a's row the earlier one. */
  lemma NotMissed(rows: Table, statuses: seq<string>, after: Option<Pos>, n: nat,
                  a: seq<StoredRow>, b: seq<StoredRow>, i: nat)
    requires IsSelection(rows, statuses, after, n, a) && IsSelection(rows, statuses, after, n, b)
    requires i < |a| && i < |b| && a[..i] == b[..i]
    ensures !Before(PosOf(a[i]), PosOf(b[i]))
  {
    hide Before, Hit;
    var x := a[i];
    BeforeOrder(PosOf(x), PosOf(b[i]));
    NewRow(a, i);
    if x in b {
      var j :| 0 <= j < |b| && b[j] == x;
      assert j >= i by {
        assert x !in b[..i];
      }
    }
  }

  /** All hits in order, then the first n: a selection always exists. */
  lemma {:induction false} SortedHits(rows: Table, statuses: seq<string>, after: Option<Pos>, keys: set<Key>)
    returns (s: seq<StoredRow>)
    requires Keyed(rows)
    ensures Ascending(s)
    ensures forall r :: r in s <==> Hit(rows, statuses, after, r) && Key(r.host, r.event) in keys
    decreases keys
  {
    hide Before;
    if keys == {} {
      s := [];
    } else {
      var k :| k in keys;
      s := SortedHits(rows, statuses, after, keys - {k});
      if k in rows && Hit(rows, statuses, after, rows[k]) {
        InsertRowAscends(s, rows[k]);
        s := InsertRow(s, rows[k]);
      }
    }
  }

  lemma FirstHits(rows: Table, statuses: seq<string>, after: Option<Pos>, n: nat, s: seq<StoredRow>)
    requires Ascending(s) && forall r :: r in s <==> Hit(rows, statuses, after, r)
    ensures IsSelection(rows, statuses, after, n, if |s| <= n then s else s[..n])
  {
    hide Before, Hit;
    var out := if |s| <= n then s else s[..n];
    forall r, x | Hit(rows, statuses, after, r) && r !in out && x in out ensures Before(PosOf(x), PosOf(r)) {
      assert r in s;
      var i :| 0 <= i < |s| && s[i] == r;
      var j :| 0 <= j < |out| && out[j] == x;
      InPrefix(s, |out|, i);
    }
  }

  lemma InPrefix(s: seq<StoredRow>, n: nat, i: nat)
    requires n <= |s| && i < |s|
    ensures i < n ==> s[i] in s[..n]
  {
    assert i < n ==> s[..n][i] == s[i];
  }

  /** The answer of the query. */
  ghost function Selected(rows: Table, statuses: seq<string>, after: Option<Pos>, n: nat): (out: seq<StoredRow>)
    requires Keyed(rows)
    ensures IsSelection(rows, statuses, after, n, out)
  {
    var s := SortedAll(rows, statuses, after);
    FirstHits(rows, statuses, after, n, s);
    if |s| <= n then s else s[..n]
  }

  ghost function SortedAll(rows: Table, statuses: seq<string>, after: Option<Pos>): (s: seq<StoredRow>)
    requires Keyed(rows)
    ensures Ascending(s) && forall r :: r in s <==> Hit(rows, statuses, after, r)
  {
    HitsExist(rows, statuses, after);
    var s: seq<StoredRow> :| Ascending(s) && forall r :: r in s <==> Hit(rows, statuses, after, r);
    s
  }

  lemma HitsExist(rows: Table, statuses: seq<string>, after: Option<Pos>)
    requires Keyed(rows)
    ensures exists s: seq<StoredRow> :: Ascending(s) && forall r :: r in s <==> Hit(rows, statuses, after, r)
  {
    var s := SortedHits(rows, statuses, after, rows.Keys);
  }
}
