/** Comma lists in query strings: splitComma and parseEventsParams (internal/api/v1/fleet.go), the joins of
    buildEventsQuery (internal/fleet/http.go). Text is a sequence of Unicode scalar values.
 */
module CommaList {
  /** unicode.IsSpace. */
  predicate IsSpace(c: char) {
    || '\t' <= c <= '\r' || c == ' ' || c == '\U{85}' || c == '\U{A0}' || c == '\U{1680}'
    || '\U{2000}' <= c <= '\U{200A}' || c == '\U{2028}' || c == '\U{2029}' || c == '\U{202F}' || c == '\U{205F}'
    || c == '\U{3000}'
  }

  /** The code points with Unicode's White_Space property. */
  const WHITE_SPACE: set<int> := {
    0x09, 0x0A, 0x0B, 0x0C, 0x0D, 0x20, 0x85, 0xA0, 0x1680, 0x2000, 0x2001, 0x2002, 0x2003, 0x2004, 0x2005, 0x2006,
    0x2007, 0x2008, 0x2009, 0x200A, 0x2028, 0x2029, 0x202F, 0x205F, 0x3000
  }

  lemma SpacesAre(c: char)
    ensures IsSpace(c) <==> c as int in WHITE_SPACE
  {}

  predicate AllSpace(s: string) { forall i :: 0 <= i < |s| ==> IsSpace(s[i]) }

  /** Neither end is a space. */
  predicate Trimmed(s: string) { s == "" || (!IsSpace(s[0]) && !IsSpace(s[|s| - 1])) }

  function TrimLeft(s: string): string {
    if s != "" && IsSpace(s[0]) then TrimLeft(s[1..]) else s
  }

  function TrimRight(s: string): string {
    if s != "" && IsSpace(s[|s| - 1]) then TrimRight(s[..|s| - 1]) else s
  }

  function Trim(s: string): string { TrimRight(TrimLeft(s)) }

  lemma {:induction false} TrimLeftIs(s: string) returns (pre: string)
    ensures s == pre + TrimLeft(s) && AllSpace(pre)
    ensures TrimLeft(s) == "" || !IsSpace(TrimLeft(s)[0])
  {
    if s != "" && IsSpace(s[0]) {
      pre := TrimLeftIs(s[1..]);
      pre := [s[0]] + pre;
    } else {
      pre := "";
    }
  }

  lemma {:induction false} TrimRightIs(s: string) returns (post: string)
    ensures s == TrimRight(s) + post && AllSpace(post)
    ensures TrimRight(s) == "" || !IsSpace(TrimRight(s)[|TrimRight(s)| - 1])
  {
    if s != "" && IsSpace(s[|s| - 1]) {
      post := TrimRightIs(s[..|s| - 1]);
      post := post + [s[|s| - 1]];
    } else {
      post := "";
    }
  }

  /** Trimming takes spaces off both ends and nothing else. */
  lemma TrimIs(s: string) returns (pre: string, post: string)
    ensures s == pre + Trim(s) + post && AllSpace(pre) && AllSpace(post) && Trimmed(Trim(s))
    ensures Trimmed(s) ==> Trim(s) == s
  {
    pre := TrimLeftIs(s);
    post := TrimRightIs(TrimLeft(s));
    hide TrimLeft, TrimRight;
    var r := Trim(s);
    if r != "" {
      assert r[0] == TrimLeft(s)[0];
    }
    Ends(pre, TrimLeft(s));
    Ends(r, post);
  }

  lemma Ends(s: string, t: string)
    ensures s != "" ==> (s + t)[0] == s[0]
    ensures t != "" ==> (s + t)[|s + t| - 1] == t[|t| - 1]
  {}

  // ---------------------------------------------------------------- split and join

  function Split(s: string): (parts: seq<string>)
    ensures |parts| >= 1
  {
    if s == "" then [""]
    else if s[0] == ',' then [""] + Split(s[1..])
    else
      var rest := Split(s[1..]);
      [[s[0]] + rest[0]] + rest[1..]
  }

  function Join(xs: seq<string>): string {
    if |xs| == 0 then "" else if |xs| == 1 then xs[0] else xs[0] + "," + Join(xs[1..])
  }

  /** Trim every part, drop those left empty. */
  function Clean(parts: seq<string>): seq<string> {
    if parts == [] then []
    else
      var rest := Clean(parts[1..]);
      if Trim(parts[0]) == "" then rest else [Trim(parts[0])] + rest
  }

  /** The list a query value stands for. */
  function ListOf(v: string): seq<string> { if v == "" then [] else Clean(Split(v)) }

  lemma {:induction false} CleanConcat(a: seq<string>, b: seq<string>)
    ensures Clean(a + b) == Clean(a) + Clean(b)
  {
    hide Trim;
    if a == [] {
      assert a + b == b;
    } else {
      assert (a + b)[1..] == a[1..] + b;
      CleanConcat(a[1..], b);
    }
  }

  lemma {:induction false} SplitConcat(a: string, b: string)
    ensures Split(a + "," + b) == Split(a) + Split(b)
  {
    var s := a + "," + b;
    if a == "" {
      assert s[1..] == b;
    } else {
      assert s[1..] == a[1..] + "," + b;
      SplitConcat(a[1..], b);
    }
  }

  lemma EmptyList()
    ensures Clean(Split("")) == []
  {}

  /** Main result: the list of two joined values is the list of one followed by the list of the other. */
  lemma ListConcat(a: string, b: string)
    ensures ListOf(a + "," + b) == ListOf(a) + ListOf(b)
  {
    SplitConcat(a, b);
    CleanConcat(Split(a), Split(b));
    EmptyList();
    hide Split, Clean;
  }

  // ---------------------------------------------------------------- the code

  /** The in-place compaction of splitComma: the kept parts move to the front of the array, and the array
      behind them is left as it was. */
  method Compact(parts: array<string>) returns (n: nat)
    modifies parts
    ensures n <= parts.Length && parts[..n] == Clean(old(parts[..])) && parts[n..] == old(parts[n..])
  {
    hide Clean, Trim;
    n := 0;
    assert parts[..0] == [];
    EmptyClean();
    for i := 0 to parts.Length
      invariant n <= i
      invariant parts[..n] == Clean(old(parts[..i]))
      invariant parts[n..] == old(parts[n..])
    {
      var p := Trim(parts[i]);
      CleanSnoc(old(parts[..i]), old(parts[i]));
      assert old(parts[..i + 1]) == old(parts[..i]) + [old(parts[i])];
      assert parts[i] == parts[n..][i - n] == old(parts[n..])[i - n] == old(parts[i]);
      if p != "" {
        ghost var kept := parts[..n];
        parts[n] := p;
        n := n + 1;
        assert parts[..n] == kept + [p];
      }
    }
    assert old(parts[..parts.Length]) == old(parts[..]);
  }

  lemma EmptyClean()
    ensures Clean([]) == []
  {}

  lemma CleanSnoc(parts: seq<string>, p: string)
    ensures Clean(parts + [p]) == if Trim(p) == "" then Clean(parts) else Clean(parts) + [Trim(p)]
  {
    CleanConcat(parts, [p]);
    hide Trim;
  }

  method SplitComma(v: string) returns (out: seq<string>)
    ensures out == ListOf(v)
  {
    if v == "" {
      return [];
    }
    var split := Split(v);
    var parts := new string[|split|](i requires 0 <= i < |split| => split[i]);
    assert parts[..] == split;
    var n := Compact(parts);
    out := parts[..n];
  }

  /** The host_id values of a request: the first alone, or all of them when there are several. */
  method ParseHostIds(multi: seq<string>) returns (ids: seq<string>)
    ensures ids == ListOf(Join(multi))
  {
    hide *;
    JoinShort(multi);
    ids := SplitComma(if multi == [] then "" else multi[0]);
    if |multi| > 1 {
      ids := [];
      assert multi[0..] == multi;
      for i := 0 to |multi|
        invariant ids + ListOf(Join(multi[i..])) == ListOf(Join(multi))
      {
        var more := SplitComma(multi[i]);
        JoinStep(multi, i);
        assert ids + (more + ListOf(Join(multi[i + 1..]))) == ids + more + ListOf(Join(multi[i + 1..]));
        ids := ids + more;
      }
      JoinShort(multi[|multi|..]);
    }
  }

  lemma JoinShort(multi: seq<string>)
    ensures |multi| <= 1 ==> Join(multi) == if multi == [] then "" else multi[0]
    ensures ListOf("") == []
  {}

  lemma JoinStep(multi: seq<string>, i: nat)
    requires i < |multi|
    ensures ListOf(Join(multi[i..])) == ListOf(multi[i]) + ListOf(Join(multi[i + 1..]))
  {
    hide ListOf;
    if i == |multi| - 1 {
      assert ListOf("") == [] by { NothingListed(); }
      assert Join(multi[i + 1..]) == "";
    } else {
      assert multi[i..][1..] == multi[i + 1..];
      ListConcat(multi[i], Join(multi[i + 1..]));
    }
  }

  lemma NothingListed()
    ensures ListOf("") == []
  {}

  // ---------------------------------------------------------------- round trip

  /** What a list element looks like: not empty, trimmed, no comma. */
  predicate IsItem(x: string) { x != "" && Trimmed(x) && ',' !in x }

  predicate AllItems(xs: seq<string>) { forall i :: 0 <= i < |xs| ==> IsItem(xs[i]) }

  lemma {:induction false} SplitHasNoComma(s: string, i: nat)
    requires i < |Split(s)|
    ensures ',' !in Split(s)[i]
  {
    if s == "" {
    } else if s[0] == ',' {
      if i > 0 {
        SplitHasNoComma(s[1..], i - 1);
      }
    } else {
      SplitHasNoComma(s[1..], i);
    }
  }

  lemma {:induction false} CleanItems(parts: seq<string>)
    requires forall i :: 0 <= i < |parts| ==> ',' !in parts[i]
    ensures AllItems(Clean(parts))
  {
    if parts != [] {
      CleanItems(parts[1..]);
      var pre, post := TrimIs(parts[0]);
      assert ',' !in parts[0];
      hide Trim;
    }
  }

  lemma ListedAreItems(v: string)
    ensures AllItems(ListOf(v))
  {
    if v != "" {
      forall i | 0 <= i < |Split(v)| ensures ',' !in Split(v)[i] {
        SplitHasNoComma(v, i);
      }
      CleanItems(Split(v));
    }
  }

  lemma {:induction false} SplitPlain(x: string)
    requires ',' !in x
    ensures Split(x) == [x]
  {
    if x == "" {
      assert x == "";
    } else {
      assert x[0] in x && x == [x[0]] + x[1..];
      SplitPlain(x[1..]);
    }
  }

  lemma ListOfItem(x: string)
    requires IsItem(x)
    ensures ListOf(x) == [x]
  {
    SplitPlain(x);
    var pre, post := TrimIs(x);
    CleanSnoc([], x);
    assert [] + [x] == [x];
    hide Trim, Split;
  }

  lemma {:induction false} ItemsSurvive(xs: seq<string>)
    requires AllItems(xs)
    ensures ListOf(Join(xs)) == xs
  {
    hide ListOf, IsItem;
    if xs == [] {
      NothingListed();
    } else {
      assert xs[0..] == xs && IsItem(xs[0]);
      JoinStep(xs, 0);
      ListOfItem(xs[0]);
      ItemsSurvive(xs[1..]);
    }
  }

  /** Main result: a joined list is read back unchanged exactly when its elements are items, as every list that
      was itself read from a query is. */
  lemma JoinRoundTrip(xs: seq<string>)
    ensures ListOf(Join(xs)) == xs <==> AllItems(xs)
  {
    ListedAreItems(Join(xs));
    if AllItems(xs) {
      ItemsSurvive(xs);
    }
  }

  /** Main result: a list read from any request survives every further hop. */
  lemma HopsAreStable(multi: seq<string>)
    ensures ListOf(Join(ListOf(Join(multi)))) == ListOf(Join(multi))
  {
    ListedAreItems(Join(multi));
    JoinRoundTrip(ListOf(Join(multi)));
  }
}
