/** Cursor paging in the browser (web/src/hooks/usePagedFleet.ts). The query library is assumed to keep the
    pages and the parameters they were fetched with side by side, and to fetch nothing when there is no next
    parameter.
 */
module PagedFleet {
  import opened Options

  datatype Row = Row(id: string, body: string)
  datatype Page = Page(next: Option<string>, rows: seq<Row>)
  datatype Data = Data(pages: seq<Page>, params: seq<Option<string>>)

  const NOTHING := Data([], [])

  /** An empty cursor counts as none. */
  predicate HasCursor(p: Page) { p.next.Some? && p.next.value != "" }

  function NextParam(last: Page, params: seq<Option<string>>): Option<string> {
    if HasCursor(last) && last.next !in params then last.next else None
  }

  predicate HasMore(d: Data) {
    d.pages != [] && NextParam(d.pages[|d.pages| - 1], d.params).Some?
  }

  predicate CursorRepeated(d: Data) {
    d.pages != [] && HasCursor(d.pages[|d.pages| - 1]) && d.pages[|d.pages| - 1].next in d.params
  }

  /** The first fetch, or the next one: the reply is appended with the parameter it was asked for. */
  function LoadMore(d: Data, reply: Page): Data {
    if d.pages == [] then Data([reply], [None])
    else
      var next := NextParam(d.pages[|d.pages| - 1], d.params);
      if next.None? then d else Data(d.pages + [reply], d.params + [next])
  }

  /** What a run of replies leaves; a refetch of every loaded page starts again from nothing. */
  function Loaded(replies: seq<Page>): Data {
    if replies == [] then NOTHING else LoadMore(Loaded(replies[..|replies| - 1]), replies[|replies| - 1])
  }

  // ---------------------------------------------------------------- cursors

  predicate Linked(d: Data, i: nat)
    requires i + 1 < |d.params| && |d.pages| == |d.params|
  {
    HasCursor(d.pages[i]) && d.params[i + 1] == d.pages[i].next
  }

  /** Each page after the first was fetched with the cursor of the page before it. */
  ghost predicate Chain(d: Data) {
    && |d.pages| == |d.params|
    && (d.params != [] ==> d.params[0] == None)
    && (forall i :: 0 <= i < |d.params| - 1 ==> Linked(d, i))
    && (forall i, j :: 0 <= i < j < |d.params| ==> d.params[i] != d.params[j])
  }

  lemma ChainKept(d: Data, reply: Page)
    requires Chain(d)
    ensures Chain(LoadMore(d, reply))
  {
    var e := LoadMore(d, reply);
    forall i | 0 <= i < |e.params| - 1 ensures Linked(e, i) {
      if i + 1 < |d.params| {
        assert Linked(d, i);
      }
    }
  }

  /** Main result: however the server behaves, the pages form a chain and no cursor is fetched twice. */
  lemma {:induction false} AlwaysChain(replies: seq<Page>)
    ensures Chain(Loaded(replies))
  {
    if replies == [] {
    } else {
      AlwaysChain(replies[..|replies| - 1]);
      ChainKept(Loaded(replies[..|replies| - 1]), replies[|replies| - 1]);
    }
  }

  ghost function Asked(params: seq<Option<string>>): set<Option<string>> { set i | 0 <= i < |params| :: params[i] }

  lemma {:induction false} AskedSize(params: seq<Option<string>>)
    requires forall i, j :: 0 <= i < j < |params| ==> params[i] != params[j]
    ensures |Asked(params)| == |params|
  {
    if params == [] {
    } else {
      var before := params[..|params| - 1];
      AskedSize(before);
      assert params == before + [params[|params| - 1]];
      assert Asked(params) == Asked(before) + {params[|params| - 1]};
    }
  }

  lemma SubsetSize(a: set<Option<string>>, b: set<Option<string>>)
    requires a <= b
    ensures |a| <= |b|
  {
    assert b == a + (b - a);
  }

  /** Main result: a server that hands out cursors from a set of N makes for at most N + 1 fetches. */
  lemma FetchBound(replies: seq<Page>, cursors: set<Option<string>>)
    requires forall i :: 0 <= i < |replies| && HasCursor(replies[i]) ==> replies[i].next in cursors
    ensures |Loaded(replies).pages| <= |cursors| + 1
  {
    AlwaysChain(replies);
    LoadedReplies(replies);
    var d := Loaded(replies);
    AskedSize(d.params);
    forall i | 0 <= i < |d.params| ensures d.params[i] in cursors + {None} {
      if i > 0 {
        assert Linked(d, i - 1) && d.pages[i - 1] in replies;
      }
    }
    SubsetSize(Asked(d.params), cursors + {None});
  }

  /** The last loaded page offers a cursor that has not been asked for yet. */
  predicate Goes(d: Data) {
    d.pages == [] || var next := d.pages[|d.pages| - 1].next; next.Some? && next.value != "" && next !in d.params
  }

  /** Main result: the replies are shown as they come, until one has no cursor or one asked for before; what comes after
      that is not fetched. */
  lemma {:induction false} LoadsReplies(replies: seq<Page>)
    ensures Loaded(replies).pages <= replies && |Loaded(replies).pages| == |Loaded(replies).params|
    ensures |Loaded(replies).pages| < |replies| ==> !Goes(Loaded(replies))
  {
    if replies == [] {
    } else {
      LoadsReplies(replies[..|replies| - 1]);
      LoadsOne(Loaded(replies[..|replies| - 1]), replies[|replies| - 1]);
      hide Goes, LoadMore;
    }
  }

  lemma LoadsOne(d: Data, reply: Page)
    requires |d.pages| == |d.params|
    ensures |LoadMore(d, reply).pages| == |LoadMore(d, reply).params|
    ensures if Goes(d) then LoadMore(d, reply).pages == d.pages + [reply] else LoadMore(d, reply) == d
  {}

  lemma {:induction false} LoadedReplies(replies: seq<Page>)
    ensures forall i :: 0 <= i < |Loaded(replies).pages| ==> Loaded(replies).pages[i] in replies
  {
    if replies == [] {
    } else {
      LoadedReplies(replies[..|replies| - 1]);
    }
  }

  /** No more pages and no repetition means the last page had no cursor, or an empty one. */
  lemma EndOfList(d: Data)
    requires d.pages != []
    ensures var next := d.pages[|d.pages| - 1].next;
            !HasMore(d) && !CursorRepeated(d) <==> next == None || next == Some("")
    ensures !(HasMore(d) && CursorRepeated(d))
  {}

  // ---------------------------------------------------------------- a server that stands still

  /** The parameter reached after k hops, if the chain is that long. */
  function Hop(server: Option<string> -> Page, k: nat): Option<Option<string>> {
    if k == 0 then Some(None)
    else
      match Hop(server, k - 1)
      case None => None
      case Some(p) => if HasCursor(server(p)) then Some(server(p).next) else None
  }

  ghost predicate Answers(server: Option<string> -> Page, d: Data) {
    |d.pages| == |d.params| && forall i :: 0 <= i < |d.pages| ==> d.pages[i] == server(d.params[i])
  }

  /** Main result: once there is no more to load, every page that can be reached by following cursors has been
      loaded, even when the server's cursors run in a circle. */
  lemma {:induction false} NothingMissed(server: Option<string> -> Page, d: Data, k: nat)
    requires Chain(d) && Answers(server, d) && d.pages != [] && !HasMore(d)
    ensures Hop(server, k).Some? ==> Hop(server, k).value in d.params
  {
    if k > 0 && Hop(server, k).Some? {
      NothingMissed(server, d, k - 1);
      var i :| 0 <= i < |d.params| && d.params[i] == Hop(server, k - 1).value;
      NextIsLoaded(d, i);
      hide Chain, HasMore;
    }
  }

  lemma NextIsLoaded(d: Data, i: nat)
    requires Chain(d) && !HasMore(d) && i < |d.pages| && HasCursor(d.pages[i])
    ensures d.pages[i].next in d.params
  {
    if i + 1 < |d.params| {
      assert Linked(d, i);
    }
  }

  // ---------------------------------------------------------------- rows

  function AllRows(pages: seq<Page>): seq<Row> {
    if pages == [] then [] else AllRows(pages[..|pages| - 1]) + pages[|pages| - 1].rows
  }

  /** No earlier row has the same identity. */
  predicate First(s: seq<Row>, i: nat)
    requires i < |s|
  {
    forall j :: 0 <= j < i ==> s[j].id != s[i].id
  }

  /** The rows that come first, in order. */
  function Firsts(s: seq<Row>): seq<Row> {
    if s == [] then []
    else
      var before := Firsts(s[..|s| - 1]);
      if First(s, |s| - 1) then before + [s[|s| - 1]] else before
  }

  function Ids(s: seq<Row>): set<string> { set i | 0 <= i < |s| :: s[i].id }

  /** The filter over a Set of identities already seen. */
  method Rows(pages: seq<Page>) returns (rows: seq<Row>)
    ensures rows == Firsts(AllRows(pages))
  {
    hide Firsts;
    var flat := AllRows(pages);
    var seen: set<string> := {};
    rows := [];
    FirstsSnoc([], Row("", ""));
    for i := 0 to |flat|
      invariant seen == Ids(flat[..i])
      invariant rows == Firsts(flat[..i])
    {
      FirstsSnoc(flat[..i], flat[i]);
      assert flat[..i + 1] == flat[..i] + [flat[i]];
      if flat[i].id !in seen {
        seen := seen + {flat[i].id};
        rows := rows + [flat[i]];
      }
    }
    assert flat[..|flat|] == flat;
  }

  lemma FirstsSnoc(s: seq<Row>, r: Row)
    ensures Firsts([]) == []
    ensures Firsts(s + [r]) == if r.id in Ids(s) then Firsts(s) else Firsts(s) + [r]
    ensures Ids(s + [r]) == Ids(s) + {r.id}
  {
    var t := s + [r];
    assert t[..|s|] == s;
    assert First(t, |s|) <==> r.id !in Ids(s);
    forall id | id in Ids(t) ensures id in Ids(s) + {r.id} {}
    forall id | id in Ids(s) + {r.id} ensures id in Ids(t) {
      if id in Ids(s) {
        var i :| 0 <= i < |s| && s[i].id == id;
        assert t[i].id == id;
      } else {
        assert t[|s|].id == id;
      }
    }
  }

  /** Main result: the shown rows are exactly the first occurrences, each once and in their order. */
  lemma {:induction false} FirstsAre(s: seq<Row>) returns (at: seq<nat>)
    ensures |at| == |Firsts(s)|
    ensures forall k :: 0 <= k < |at| ==> at[k] < |s| && First(s, at[k]) && Firsts(s)[k] == s[at[k]]
    ensures forall k, m :: 0 <= k < m < |at| ==> at[k] < at[m]
    ensures forall i :: 0 <= i < |s| && First(s, i) ==> i in at
  {
    if s == [] {
      at := [];
    } else {
      var before := s[..|s| - 1];
      at := FirstsAre(before);
      forall i | 0 <= i < |before| ensures First(s, i) == First(before, i) {}
      if First(s, |s| - 1) {
        at := at + [|s| - 1];
      }
    }
  }

  lemma DistinctIds(s: seq<Row>, k: nat, m: nat)
    requires k < m < |Firsts(s)|
    ensures Firsts(s)[k].id != Firsts(s)[m].id
  {
    var at := FirstsAre(s);
    assert First(s, at[m]);
  }

  lemma {:induction false} FirstsExtend(s: seq<Row>, t: seq<Row>)
    ensures Firsts(s) <= Firsts(s + t)
  {
    if t == [] {
      assert s + t == s;
    } else {
      FirstsExtend(s, t[..|t| - 1]);
      assert s + t == s + t[..|t| - 1] + [t[|t| - 1]];
      FirstsSnoc(s + t[..|t| - 1], t[|t| - 1]);
      hide Firsts;
    }
  }

  /** Main result: loading more only extends the list, the rows already shown stay where they are. */
  lemma LoadMoreExtends(d: Data, reply: Page)
    ensures Firsts(AllRows(d.pages)) <= Firsts(AllRows(LoadMore(d, reply).pages))
  {
    hide Firsts;
    if d.pages == [] {
      assert AllRows([]) == [];
      FirstsExtend([], reply.rows);
    } else {
      assert (d.pages + [reply])[..|d.pages|] == d.pages;
      FirstsExtend(AllRows(d.pages), reply.rows);
    }
    FirstsSnoc([], Row("", ""));
  }
}
