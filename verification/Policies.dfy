/** Freshness windows per endpoint and cache keys (internal/fleet/cache.go). */
module Policies {
  datatype Policy = Policy(ttl: int, maxStale: int)
  datatype Config = Config(ttl: int, maxStale: int, maxEntries: int)

  const SECOND := 1_000_000_000
  const SLOW_TIER := 12

  /** Zero and negative settings fall back to 5s, 60s and 512 entries. */
  function WithDefaults(c: Config): (d: Config)
    ensures d.ttl > 0 && d.maxStale > 0 && d.maxEntries > 0
  {
    Config(if c.ttl <= 0 then 5 * SECOND else c.ttl,
           if c.maxStale <= 0 then 60 * SECOND else c.maxStale,
           if c.maxEntries <= 0 then 512 else c.maxEntries)
  }

  /** Positive settings are kept as they are; without them it is five seconds, a minute and 512 entries. */
  lemma DefaultsAre(c: Config)
    ensures WithDefaults(c) == c <==> c.ttl > 0 && c.maxStale > 0 && c.maxEntries > 0
    ensures WithDefaults(WithDefaults(c)) == WithDefaults(c)
    ensures c.ttl <= 0 && c.maxStale <= 0 && c.maxEntries <= 0 ==>
              WithDefaults(c) == Config(5_000_000_000, 60_000_000_000, 512)
    ensures forall t, m, n :: t > 0 && m > 0 && n > 0 ==>
              && WithDefaults(c.(ttl := t)).ttl == t && WithDefaults(c.(maxStale := m)).maxStale == m
              && WithDefaults(c.(maxEntries := n)).maxEntries == n
  {}

  /** Metadata and immutable events have windows twelve times the live ones; unknown endpoints are live. */
  function PolicyFor(c: Config, endpoint: string): Policy {
    if endpoint in ["meta", "policy_meta", "event_by_id"]
    then Policy(SLOW_TIER * c.ttl, SLOW_TIER * c.maxStale)
    else Policy(c.ttl, c.maxStale)
  }

  /** The longest age at which an answer may come straight from the cache. MaxStale below TTL is not
      rejected, so it is the larger of the two. */
  function Window(p: Policy): int { if p.ttl < p.maxStale then p.maxStale else p.ttl }

  function MakeKey(endpoint: string, suffix: string): string { endpoint + "|" + suffix }

  /** The part of a key before its first '|'. */
  function EndpointOf(key: string): string {
    if key == [] || key[0] == '|' then "" else [key[0]] + EndpointOf(key[1..])
  }

  /** Endpoint names hold no '|', so a key names its endpoint whatever the id behind it holds. */
  lemma {:induction false} KeyNamesEndpoint(endpoint: string, suffix: string)
    requires '|' !in endpoint
    ensures EndpointOf(MakeKey(endpoint, suffix)) == endpoint
  {
    var key := MakeKey(endpoint, suffix);
    if endpoint != [] {
      assert key[1..] == MakeKey(endpoint[1..], suffix);
      KeyNamesEndpoint(endpoint[1..], suffix);
    }
  }

  /** Two requests share a cache key only when they are the same request. */
  lemma KeysDoNotCollide(e: string, s: string, f: string, t: string)
    requires '|' !in e && '|' !in f
    ensures MakeKey(e, s) == MakeKey(f, t) <==> e == f && s == t
  {
    if MakeKey(e, s) == MakeKey(f, t) {
      KeyNamesEndpoint(e, s);
      KeyNamesEndpoint(f, t);
      assert s == MakeKey(e, s)[|e| + 1..] && t == MakeKey(f, t)[|f| + 1..];
    }
  }
}
