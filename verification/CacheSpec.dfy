/** What the cache holds (internal/fleet/cache.go, store): the eviction rule on plain values, and the
    history it remembers.
 */
module CacheSpec {
  import opened Upstream

  /** One cached answer with the instant it was stored. */
  datatype Entry = Entry(key: string, val: Payload, fetchedAt: int)

  predicate Has(s: seq<Entry>, key: string) { exists i :: 0 <= i < |s| && s[i].key == key }

  predicate Distinct(s: seq<Entry>) {
    forall i, j :: 0 <= i < j < |s| ==> s[i].key != s[j].key
  }

  /** s without its first entry for the key. */
  function Drop(s: seq<Entry>, key: string): seq<Entry> {
    if s == [] then [] else if s[0].key == key then s[1..] else [s[0]] + Drop(s[1..], key)
  }

  /** The last n elements: what evicting from the front leaves. */
  function Newest(s: seq<Entry>, n: nat): (r: seq<Entry>)
    ensures |r| == if |s| <= n then |s| else n
  {
    if |s| <= n then s else Newest(s[1..], n)
  }

  /** The contents after a store: a known key is restamped and becomes newest; a new key is added
      and the oldest entries beyond the bound go. */
  function StoreStep(s: seq<Entry>, e: Entry, bound: nat): seq<Entry> {
    if Has(s, e.key) then Drop(s, e.key) + [e] else Newest(s + [e], bound)
  }

  // ---------------------------------------------------------------- histories

  /** The last store of each key, in the order of those last stores. */
  function LastStores(history: seq<Entry>): seq<Entry> {
    if history == [] then []
    else
      var e := history[|history| - 1];
      Drop(LastStores(history[..|history| - 1]), e.key) + [e]
  }

  function StoreAll(history: seq<Entry>, bound: nat): seq<Entry> {
    if history == [] then []
    else StoreStep(StoreAll(history[..|history| - 1], bound), history[|history| - 1], bound)
  }

  lemma StoreAllSnoc(history: seq<Entry>, e: Entry, bound: nat)
    ensures StoreAll(history + [e], bound) == StoreStep(StoreAll(history, bound), e, bound)
  {
    assert (history + [e])[..|history|] == history;
  }

  lemma {:induction false} DropFacts(s: seq<Entry>, key: string)
    requires Distinct(s)
    ensures Distinct(Drop(s, key))
    ensures forall e :: e in Drop(s, key) <==> e in s && e.key != key
  {
    if s != [] {
      FirstIsOnly(s);
      DropFacts(s[1..], key);
      DistinctFront(s[0], Drop(s[1..], key));
      assert s == [s[0]] + s[1..];
      hide Distinct;
    }
  }

  lemma FirstIsOnly(s: seq<Entry>)
    requires Distinct(s) && s != []
    ensures Distinct(s[1..]) && forall e :: e in s[1..] ==> e.key != s[0].key
  {
    forall e | e in s[1..] ensures e.key != s[0].key {
      var j :| 0 <= j < |s| - 1 && s[1..][j] == e;
      assert s[j + 1] == e;
    }
  }

  lemma DistinctFront(e: Entry, s: seq<Entry>)
    ensures Distinct(s) && (forall x :: x in s ==> x.key != e.key) ==> Distinct([e] + s)
  {}

  lemma {:induction false} DropSize(s: seq<Entry>, key: string)
    ensures |s| - 1 <= |Drop(s, key)| <= |s|
    ensures Has(s, key) ==> |Drop(s, key)| == |s| - 1
  {
    if s != [] {
      DropSize(s[1..], key);
      if Has(s, key) && s[0].key != key {
        var i :| 0 <= i < |s| && s[i].key == key;
        assert s[1..][i - 1].key == key;
      }
    }
  }

  lemma {:induction false} LastStoresDistinct(history: seq<Entry>)
    ensures Distinct(LastStores(history))
  {
    if history != [] {
      var before, e := history[..|history| - 1], history[|history| - 1];
      LastStoresDistinct(before);
      DropFacts(LastStores(before), e.key);
      var d := Drop(LastStores(before), e.key);
      forall j | 0 <= j < |d| ensures d[j].key != e.key { assert d[j] in d; }
    }
  }

  /** A store on the last n of a list is the last n of the list with the key moved to the end. */
  lemma {:induction false} StoreOnNewest(s: seq<Entry>, n: nat, e: Entry)
    requires Distinct(s) && n > 0
    ensures StoreStep(Newest(s, n), e, n) == Newest(Drop(s, e.key) + [e], n)
  {
    if |s| > n {
      var d := Drop(s[1..], e.key);
      StoreOnNewest(s[1..], n, e);
      DropSize(s[1..], e.key);
      if s[0].key == e.key {
        DropAbsent(s[1..], e.key);
      } else {
        assert (([s[0]] + d) + [e])[1..] == d + [e];
      }
    } else {
      DropSize(s, e.key);
      if !Has(s, e.key) {
        DropAbsent(s, e.key);
      }
    }
  }

  lemma {:induction false} DropAbsent(s: seq<Entry>, key: string)
    requires forall i :: 0 <= i < |s| ==> s[i].key != key
    ensures Drop(s, key) == s
  {
    if s != [] { DropAbsent(s[1..], key); }
  }

  /** Main result: after any run of stores the cache holds exactly the most recently stored distinct
      keys, as many as fit, each with its last value and time, oldest store first. */
  lemma {:induction false} StoreAllIsRecent(history: seq<Entry>, bound: nat)
    requires bound > 0
    ensures StoreAll(history, bound) == Newest(LastStores(history), bound)
  {
    if history != [] {
      var before, e := history[..|history| - 1], history[|history| - 1];
      StoreAllIsRecent(before, bound);
      LastStoresDistinct(before);
      StoreOnNewest(LastStores(before), bound, e);
    }
  }

  /** The position of the last store of a key. */
  ghost predicate IsLastStore(history: seq<Entry>, i: nat) {
    i < |history| && forall j :: i < j < |history| ==> history[j].key != history[i].key
  }

  /** e is the last store of its key. */
  ghost predicate LastStored(history: seq<Entry>, e: Entry) {
    exists i :: 0 <= i < |history| && history[i] == e && IsLastStore(history, i)
  }

  lemma LastStoredStep(history: seq<Entry>, e: Entry)
    requires history != []
    ensures var before, last := history[..|history| - 1], history[|history| - 1];
      LastStored(history, e) <==> e == last || (LastStored(before, e) && e.key != last.key)
  {
    var n := |history| - 1;
    var before, last := history[..n], history[n];
    if LastStored(before, e) && e.key != last.key {
      var i :| 0 <= i < n && before[i] == e && IsLastStore(before, i);
      assert history[i] == e && IsLastStore(history, i);
    }
    if e == last {
      assert history[n] == e && IsLastStore(history, n);
    } else if LastStored(history, e) {
      var i :| 0 <= i < |history| && history[i] == e && IsLastStore(history, i);
      assert before[i] == e && IsLastStore(before, i) && e.key != last.key;
    }
  }

  /** LastStores keeps exactly the last stores. */
  lemma {:induction false} LastStoresAre(history: seq<Entry>, e: Entry)
    ensures e in LastStores(history) <==> LastStored(history, e)
  {
    if history != [] {
      hide LastStored, Drop;
      var before, last := history[..|history| - 1], history[|history| - 1];
      LastStoresAre(before, e);
      LastStoresDistinct(before);
      DropFacts(LastStores(before), last.key);
      LastStoredStep(history, e);
    } else {
      assert !LastStored(history, e);
    }
  }

  // ---------------------------------------------------------------- who is resident

  ghost function Keys(s: seq<Entry>): set<string> { set p | 0 <= p < |s| :: s[p].key }

  /** The distinct keys stored after position i. */
  ghost function LaterKeys(history: seq<Entry>, i: nat): set<string> {
    set j | i < j < |history| :: history[j].key
  }

  lemma HasFirst(s: seq<Entry>, key: string)
    requires s != []
    ensures Has(s, key) <==> s[0].key == key || Has(s[1..], key)
  {
    if Has(s, key) && s[0].key != key {
      var i :| 0 <= i < |s| && s[i].key == key;
      assert s[1..][i - 1].key == key;
    }
    if Has(s[1..], key) {
      var i :| 0 <= i < |s| - 1 && s[1..][i].key == key;
      assert s[i + 1].key == key;
    }
  }

  lemma {:induction false} DropParts(a: seq<Entry>, b: seq<Entry>, key: string)
    ensures Drop(a + b, key) == if Has(a, key) then Drop(a, key) + b else a + Drop(b, key)
  {
    if a == [] {
      assert a + b == b;
    } else {
      HasFirst(a, key);
      hide Has;
      var rest, first := a[1..], [a[0]];
      assert (a + b)[1..] == rest + b;
      DropParts(rest, b, key);
      if a[0].key != key {
        assert first + (rest + Drop(b, key)) == a + Drop(b, key);
        assert first + (Drop(rest, key) + b) == (first + Drop(rest, key)) + b;
      }
    }
  }

  lemma {:induction false} KeysSize(s: seq<Entry>)
    requires Distinct(s)
    ensures |Keys(s)| == |s|
  {
    if s == [] {
    } else {
      var before := s[..|s| - 1];
      KeysSize(before);
      assert s == before + [s[|s| - 1]];
      KeysSnoc(before, s[|s| - 1]);
    }
  }

  lemma KeysSnoc(s: seq<Entry>, e: Entry)
    ensures Keys(s + [e]) == Keys(s) + {e.key}
  {
    var t := s + [e];
    forall k | k in Keys(s) + {e.key} ensures k in Keys(t) {
      if k in Keys(s) {
        var p :| 0 <= p < |s| && s[p].key == k;
        assert t[p].key == k;
      } else {
        assert t[|s|].key == k;
      }
    }
  }

  lemma DropKeys(s: seq<Entry>, key: string)
    requires Distinct(s)
    ensures Keys(Drop(s, key)) == Keys(s) - {key}
  {
    DropFacts(s, key);
    var d := Drop(s, key);
    forall k | k in Keys(s) - {key} ensures k in Keys(d) {
      var p :| 0 <= p < |s| && s[p].key == k;
      assert s[p] in d;
    }
    forall k | k in Keys(d) ensures k in Keys(s) - {key} {
      var p :| 0 <= p < |d| && d[p].key == k;
      assert d[p] in s;
    }
  }

  lemma LaterKeysSnoc(history: seq<Entry>, e: Entry, i: nat)
    requires i < |history|
    ensures LaterKeys(history + [e], i) == LaterKeys(history, i) + {e.key}
  {
    var all := history + [e];
    forall k | k in LaterKeys(history, i) + {e.key} ensures k in LaterKeys(all, i) {
      if k in LaterKeys(history, i) {
        var j :| i < j < |history| && history[j].key == k;
        assert all[j].key == k;
      } else {
        assert all[|history|].key == k;
      }
    }
  }

  /** Behind the last store of a key the list of last stores has exactly the keys stored after it. */
  lemma {:induction false} LastStoresAround(history: seq<Entry>, i: nat) returns (pre: seq<Entry>, post: seq<Entry>)
    requires i < |history| && IsLastStore(history, i)
    ensures LastStores(history) == pre + [history[i]] + post && Keys(post) == LaterKeys(history, i)
  {
    var n := |history| - 1;
    var before, last := history[..n], history[n];
    if i == n {
      pre, post := Drop(LastStores(before), last.key), [];
    } else {
      assert history == before + [last] && IsLastStore(before, i);
      pre, post := LastStoresAround(before, i);
      var e, key := history[i], last.key;
      LastStoresDistinct(before);
      LaterKeysSnoc(before, last, i);
      var parts := pre + ([e] + post);
      assert LastStores(before) == parts;
      hide LastStores;
      pre, post := DropAround(pre, e, post, key);
      KeysSnoc(post, last);
      assert pre + [e] + post + [last] == pre + [e] + (post + [last]);
      post := post + [last];
    }
  }

  /** Dropping another key leaves an entry where it is between the rest. */
  lemma DropAround(pre: seq<Entry>, e: Entry, post: seq<Entry>, key: string) returns (p: seq<Entry>, q: seq<Entry>)
    requires Distinct(pre + ([e] + post)) && e.key != key
    ensures Drop(pre + ([e] + post), key) == p + [e] + q && Keys(q) + {key} == Keys(post) + {key}
  {
    PartDistinct(pre, e, post);
    DropParts(pre, [e] + post, key);
    DropParts([e], post, key);
    DropKeys(post, key);
    assert !Has([e], key);
    hide Drop, Has, Distinct, Keys;
    if Has(pre, key) {
      p, q := Drop(pre, key), post;
    } else {
      p, q := pre, Drop(post, key);
    }
    assert p + ([e] + q) == p + [e] + q;
  }

  lemma PartDistinct(pre: seq<Entry>, e: Entry, post: seq<Entry>)
    requires Distinct(pre + ([e] + post))
    ensures Distinct(post)
  {
    var all := pre + ([e] + post);
    forall a, b | 0 <= a < b < |post| ensures post[a].key != post[b].key {
      assert post[a] == all[|pre| + 1 + a] && post[b] == all[|pre| + 1 + b];
    }
  }

  lemma {:induction false} NewestIs(s: seq<Entry>, n: nat)
    ensures Newest(s, n) == if |s| <= n then s else s[|s| - n..]
  {
    if |s| > n {
      NewestIs(s[1..], n);
      if |s| - 1 > n {
        assert s[1..][|s| - 1 - n..] == s[|s| - n..];
      }
    }
  }

  /** Main result: the last store of a key is resident exactly while fewer than bound distinct other keys have been
      stored after it. */
  lemma ResidentIff(history: seq<Entry>, bound: nat, i: nat)
    requires bound > 0 && i < |history| && IsLastStore(history, i)
    ensures history[i] in StoreAll(history, bound) <==> |LaterKeys(history, i)| < bound
  {
    var pre, post := LastStoresAround(history, i);
    StoreAllIsRecent(history, bound);
    LastStoresDistinct(history);
    NewestIs(LastStores(history), bound);
    PlaceInNewest(pre, history[i], post, bound);
  }

  lemma PlaceInNewest(pre: seq<Entry>, e: Entry, post: seq<Entry>, n: nat)
    requires Distinct(pre + [e] + post)
    ensures var s := pre + [e] + post;
            e in (if |s| <= n then s else s[|s| - n..]) <==> |Keys(post)| < n || |s| <= n
    ensures |Keys(post)| == |post|
  {
    var s := pre + [e] + post;
    assert s[|pre|] == e;
    assert s == pre + ([e] + post);
    PartDistinct(pre, e, post);
    KeysSize(post);
    if |s| > n {
      var t := s[|s| - n..];
      if |post| < n {
        assert t[n - 1 - |post|] == e;
      } else {
        forall p | 0 <= p < n ensures t[p] != e {
          assert t[p] == s[|s| - n + p];
        }
      }
    }
  }

  /** Main result: what is resident, told from the history alone. */
  lemma Residents(history: seq<Entry>, bound: nat, e: Entry)
    requires bound > 0
    ensures e in StoreAll(history, bound) <==>
              exists i: nat :: IsLastStore(history, i) && history[i] == e && |LaterKeys(history, i)| < bound
  {
    StoreAllIsRecent(history, bound);
    NewestKeeps(LastStores(history), bound);
    LastStoresAre(history, e);
    hide LastStores, StoreAll, LaterKeys, Newest;
    if e in StoreAll(history, bound) {
      var i :| 0 <= i < |history| && history[i] == e && IsLastStore(history, i);
      ResidentIff(history, bound, i);
    }
    forall i: nat | IsLastStore(history, i) && history[i] == e && |LaterKeys(history, i)| < bound
      ensures e in StoreAll(history, bound)
    {
      ResidentIff(history, bound, i);
    }
  }

  // ---------------------------------------------------------------- time order

  /** With stores in time order, the contents are ordered by time. */
  ghost predicate Chronological(s: seq<Entry>) {
    forall i, j :: 0 <= i < j < |s| ==> s[i].fetchedAt <= s[j].fetchedAt
  }

  lemma {:induction false} DropChronological(s: seq<Entry>, key: string)
    requires Chronological(s)
    ensures Chronological(Drop(s, key)) && forall e :: e in Drop(s, key) ==> e in s
  {
    if s != [] {
      FirstIsEarliest(s);
      DropChronological(s[1..], key);
      PrependChronological(s[0], Drop(s[1..], key));
      hide Chronological;
    }
  }

  lemma FirstIsEarliest(s: seq<Entry>)
    requires Chronological(s) && s != []
    ensures Chronological(s[1..]) && forall e :: e in s[1..] ==> e in s && s[0].fetchedAt <= e.fetchedAt
  {}

  lemma PrependChronological(e: Entry, s: seq<Entry>)
    ensures Chronological(s) && (forall x :: x in s ==> e.fetchedAt <= x.fetchedAt) ==> Chronological([e] + s)
  {}

  lemma AppendChronological(s: seq<Entry>, e: Entry)
    requires Chronological(s) && forall x :: x in s ==> x.fetchedAt <= e.fetchedAt
    ensures Chronological(s + [e])
  {}

  lemma {:induction false} NewestKeeps(s: seq<Entry>, n: nat)
    ensures forall e :: e in Newest(s, n) ==> e in s
    ensures Chronological(s) ==> Chronological(Newest(s, n))
    ensures Distinct(s) ==> Distinct(Newest(s, n))
  {
    if |s| > n { NewestKeeps(s[1..], n); }
  }

  lemma {:induction false} LastStoresChronological(history: seq<Entry>)
    requires Chronological(history)
    ensures Chronological(LastStores(history))
    ensures forall e :: e in LastStores(history) ==> e in history
  {
    if history != [] {
      hide Drop;
      var before, e := history[..|history| - 1], history[|history| - 1];
      LastStoresChronological(before);
      DropChronological(LastStores(before), e.key);
      AppendChronological(Drop(LastStores(before), e.key), e);
    }
  }

  /** Main result: under a clock that never goes back the oldest-fetched entry is always in front. */
  lemma ContentsChronological(history: seq<Entry>, bound: nat)
    requires bound > 0 && Chronological(history)
    ensures Chronological(StoreAll(history, bound)) && Distinct(StoreAll(history, bound))
    ensures |StoreAll(history, bound)| <= bound
  {
    StoreAllIsRecent(history, bound);
    LastStoresChronological(history);
    LastStoresDistinct(history);
    NewestKeeps(LastStores(history), bound);
  }
}
