/** Bounded retry around idempotent reads (internal/fleet/retry.go, internal/api/v1/fleet.go). Durations
    are 64-bit nanosecond counts; products and sums that leave the range wrap around.
 */
module Retry {
  import opened Options
  import opened Upstream

  const TWO63 := 0x8000_0000_0000_0000

  /** The 64-bit signed value of an unbounded result. */
  function Wrap(x: int): (w: int)
    ensures -TWO63 <= w < TWO63
    ensures -TWO63 <= x < TWO63 ==> w == x
  {
    (x + TWO63) % (2 * TWO63) - TWO63
  }

  function Pow2(n: nat): nat { if n == 0 then 1 else 2 * Pow2(n - 1) }

  datatype RetryPolicy = RetryPolicy(maxAttempts: int, baseDelay: int, maxDelay: int)

  const MILLI := 1_000_000

  /** The policy the server ships with. */
  const SHIPPED := RetryPolicy(3, 200 * MILLI, 5000 * MILLI)

  /** What a policy asks for: its own settings where they are positive, else three attempts, 200 ms and 5 s. */
  predicate Means(policy: RetryPolicy, p: RetryPolicy) {
    && (policy.maxAttempts > 0 ==> p.maxAttempts == policy.maxAttempts)
    && (policy.baseDelay > 0 ==> p.baseDelay == policy.baseDelay)
    && (policy.maxDelay > 0 ==> p.maxDelay == policy.maxDelay)
    && (policy.maxAttempts <= 0 ==> p.maxAttempts == 3)
    && (policy.baseDelay <= 0 ==> p.baseDelay == 200_000_000)
    && (policy.maxDelay <= 0 ==> p.maxDelay == 5_000_000_000)
  }

  function WithDefaults(p: RetryPolicy): (q: RetryPolicy)
    ensures q.maxAttempts > 0 && q.baseDelay > 0 && q.maxDelay > 0 && Means(p, q)
  {
    RetryPolicy(if p.maxAttempts <= 0 then 3 else p.maxAttempts,
                if p.baseDelay <= 0 then 200 * MILLI else p.baseDelay,
                if p.maxDelay <= 0 then 5000 * MILLI else p.maxDelay)
  }

  /** A policy whose delays, and their sum, are durations. */
  predicate Sensible(p: RetryPolicy) {
    p.maxAttempts > 0 && p.baseDelay > 0 && p.maxDelay > 0 && p.maxDelay + p.baseDelay < TWO63
  }

  /** The doubled base delay before it is clamped; wraps for large attempts. */
  function Doubled(p: RetryPolicy, attempt: nat): (d: int)
    requires attempt >= 1
    ensures -TWO63 <= d < TWO63
  {
    Wrap(p.baseDelay * Wrap(Pow2(attempt - 1)))
  }

  /** The wait after a failed attempt; the jitter is drawn from [0, baseDelay). */
  function BackoffFor(p: RetryPolicy, attempt: nat, fault: Fault, jitter: int): int
    requires attempt >= 1
  {
    if fault.Unavailable? then
      (if fault.retryAfter <= 0 || fault.retryAfter > p.maxDelay then p.maxDelay else fault.retryAfter)
    else
      var d := Doubled(p, attempt);
      Wrap((if d > p.maxDelay then p.maxDelay else d) + jitter)
  }

  function Floor(p: RetryPolicy): int { if p.baseDelay < p.maxDelay then p.baseDelay else p.maxDelay }

  /** Main result on one wait: a 503 waits within (0, max] and exactly its Retry-After when that fits;
      any other wait stays below max + base, jitter included. */
  lemma WaitBounds(p: RetryPolicy, attempt: nat, fault: Fault, jitter: int)
    requires Sensible(p) && attempt >= 1 && 0 <= jitter < p.baseDelay
    ensures BackoffFor(p, attempt, fault, jitter) < p.maxDelay + p.baseDelay
    ensures fault.Unavailable? ==> 0 < BackoffFor(p, attempt, fault, jitter) <= p.maxDelay
    ensures fault.Unavailable? ==>
              (BackoffFor(p, attempt, fault, jitter) == fault.retryAfter <==> 0 < fault.retryAfter <= p.maxDelay)
    ensures !fault.Unavailable? ==>
              (BackoffFor(p, attempt, fault, jitter) >= Floor(p) <== Doubled(p, attempt) >= Floor(p))
  {
    hide Doubled, Wrap;
  }

  /** The lower bound of a jittered wait holds for every draw exactly when the doubled delay, as the
      64-bit product gives it, is not below the smaller of the two delays. */
  lemma WaitFloor(p: RetryPolicy, attempt: nat, fault: Fault)
    requires Sensible(p) && attempt >= 1 && !fault.Unavailable?
    ensures (forall j :: 0 <= j < p.baseDelay ==> BackoffFor(p, attempt, fault, j) >= Floor(p)) <==>
            Doubled(p, attempt) >= Floor(p)
  {
    hide Wrap;
    if Doubled(p, attempt) >= Floor(p) {
      forall j | 0 <= j < p.baseDelay ensures BackoffFor(p, attempt, fault, j) >= Floor(p) {
        WaitBounds(p, attempt, fault, j);
      }
    } else {
      assert BackoffFor(p, attempt, fault, 0) == Doubled(p, attempt) by { NoWrap(Doubled(p, attempt)); }
    }
  }

  /** The ceiling MaxDelay holds for every draw exactly when there is nothing to draw, or when the doubled delay
      leaves room for the largest draw below it; the clamp comes before the jitter. */
  lemma WaitCeiling(p: RetryPolicy, attempt: nat, fault: Fault)
    requires Sensible(p) && attempt >= 1 && !fault.Unavailable?
    ensures (forall j :: 0 <= j < p.baseDelay ==> BackoffFor(p, attempt, fault, j) <= p.maxDelay) <==>
            p.baseDelay == 1 || Doubled(p, attempt) + p.baseDelay - 1 <= p.maxDelay
  {
    hide Wrap, Doubled;
    var d := if Doubled(p, attempt) > p.maxDelay then p.maxDelay else Doubled(p, attempt);
    forall j | 0 <= j < p.baseDelay ensures BackoffFor(p, attempt, fault, j) == d + j {
      NoWrap(d + j);
    }
    assert BackoffFor(p, attempt, fault, p.baseDelay - 1) == d + p.baseDelay - 1;
  }

  /** With the default delays, 200 ms and 5 s, the wait after a sixth attempt is over the ceiling for every draw but
      zero. */
  lemma CeilingExceeded(p: RetryPolicy, fault: Fault, jitter: int)
    requires p.baseDelay == 200 * MILLI && p.maxDelay == 5000 * MILLI
    requires !fault.Unavailable? && 0 < jitter < p.baseDelay
    ensures BackoffFor(p, 6, fault, jitter) == p.maxDelay + jitter > p.maxDelay
  {
    ThirtyTwo();
    NoWrap(32);
    NoWrap(p.baseDelay * 32);
    NoWrap(p.maxDelay + jitter);
    hide Wrap, Pow2;
  }

  lemma ThirtyTwo()
    ensures Pow2(0) == 1 && Pow2(1) == 2 && Pow2(2) == 4 && Pow2(3) == 8 && Pow2(4) == 16 && Pow2(5) == 32
  {
    assert Pow2(3) == 8;
  }

  /** The delays of a policy all stay within the ceiling. */
  ghost predicate WithinCeiling(p: RetryPolicy) {
    forall n: nat, fault, jitter :: 1 <= n < p.maxAttempts && 0 <= jitter < p.baseDelay ==>
      BackoffFor(p, n, fault, jitter) <= p.maxDelay
  }

  /** Main result: with these delays the sleeps of a call, which follow every attempt but the last, all stay within
      MaxDelay exactly if there are at most six attempts; the policy shipped makes three. */
  lemma DefaultDelays(p: RetryPolicy)
    requires p.baseDelay == 200 * MILLI && p.maxDelay == 5000 * MILLI
    ensures WithinCeiling(p) <==> p.maxAttempts <= 6
    ensures WithinCeiling(SHIPPED)
  {
    forall q: RetryPolicy, n: nat, fault: Fault, jitter |
      q.baseDelay == 200 * MILLI && q.maxDelay == 5000 * MILLI && 1 <= n <= 5 && 0 <= jitter < q.baseDelay
      ensures BackoffFor(q, n, fault, jitter) <= q.maxDelay
    {
      FirstFive(q, n, fault, jitter);
    }
    if p.maxAttempts > 6 {
      CeilingExceeded(p, Timeout, 1);
      assert BackoffFor(p, 6, Timeout, 1) > p.maxDelay;
    }
    hide BackoffFor;
  }

  lemma FirstFive(p: RetryPolicy, n: nat, fault: Fault, jitter: int)
    requires p.baseDelay == 200 * MILLI && p.maxDelay == 5000 * MILLI && 1 <= n <= 5 && 0 <= jitter < p.baseDelay
    ensures BackoffFor(p, n, fault, jitter) <= p.maxDelay
  {
    ThirtyTwo();
    hide Pow2, Wrap;
    NoWrap(Pow2(n - 1));
    NoWrap(p.baseDelay * Pow2(n - 1));
    NoWrap(p.baseDelay * Pow2(n - 1) + jitter);
  }

  lemma NoWrap(x: int)
    ensures -TWO63 <= x < TWO63 ==> Wrap(x) == x
  {}

  lemma {:induction false} Pow2Grows(m: nat, n: nat)
    requires m <= n
    ensures 1 <= Pow2(m) <= Pow2(n)
  {
    if m < n { Pow2Grows(m, n - 1); } else if m > 0 { Pow2Grows(m - 1, m - 1); }
  }

  /** Without overflow the floor holds: in particular for the first attempts of every real policy. */
  lemma NoOverflow(p: RetryPolicy, attempt: nat)
    requires Sensible(p) && attempt >= 1 && p.baseDelay * Pow2(attempt - 1) < TWO63
    ensures Doubled(p, attempt) == p.baseDelay * Pow2(attempt - 1) >= p.baseDelay >= Floor(p)
  {
    Pow2Grows(0, attempt - 1);
    Product(p.baseDelay, Pow2(attempt - 1));
  }

  lemma Product(a: int, b: int)
    requires a >= 1 && b >= 1
    ensures a * b >= a && a * b >= b
  {}

  /** From attempt 65 on the shift leaves nothing: the wait is the jitter alone, below the floor. */
  lemma ShiftedOut(p: RetryPolicy, attempt: nat)
    requires Sensible(p) && attempt >= 65
    ensures Doubled(p, attempt) == 0 < Floor(p)
  {
    Pow2Of64(attempt - 1);
  }

  lemma {:induction false} Pow2Of64(n: nat)
    requires n >= 64
    ensures Pow2(n) % (2 * TWO63) == 0 && Wrap(Pow2(n)) == 0
  {
    hide Wrap;
    if n == 64 {
      Pow2Byte(0); Pow2Byte(8); Pow2Byte(16); Pow2Byte(24);
      Pow2Byte(32); Pow2Byte(40); Pow2Byte(48); Pow2Byte(56);
    } else {
      Pow2Of64(n - 1);
      TwiceMultiple(Pow2(n - 1));
    }
    WrapMultiple(Pow2(n));
  }

  lemma TwiceMultiple(x: nat)
    requires x % (2 * TWO63) == 0
    ensures (2 * x) % (2 * TWO63) == 0
  {
    var k := x / (2 * TWO63);
    assert 2 * x == (2 * k) * (2 * TWO63);
  }

  lemma WrapMultiple(x: nat)
    requires x % (2 * TWO63) == 0
    ensures Wrap(x) == 0
  {}

  lemma Pow2Byte(n: nat)
    ensures Pow2(n + 8) == 256 * Pow2(n)
  {
    assert Pow2(n + 2) == 4 * Pow2(n);
    assert Pow2(n + 4) == 4 * Pow2(n + 2);
    assert Pow2(n + 6) == 4 * Pow2(n + 4);
  }

  // ---------------------------------------------------------------- the retry loop

  /** A failure worth another attempt: a 503 or a network timeout. */
  predicate Transient(r: Reply) { r.Fail? && (r.fault.Unavailable? || r.fault.Timeout?) }

  /** How many times fn is called when no sleep is cancelled. */
  function Attempts(replies: seq<Reply>, n: nat): (calls: nat)
    requires 0 < n <= |replies|
    ensures 1 <= calls <= n
    ensures forall i :: 0 <= i < calls - 1 ==> Transient(replies[i])
    ensures calls == n || !Transient(replies[calls - 1])
  {
    if n == 1 || replies[0].Ok? || !Retryable(replies[0].fault) then 1 else 1 + Attempts(replies[1..], n - 1)
  }

  /** The time slept: a wait that overflow has made negative ends at once. */
  function Slept(waits: seq<int>): int {
    if waits == [] then 0
    else
      var last := waits[|waits| - 1];
      Slept(waits[..|waits| - 1]) + if last < 0 then 0 else last
  }

  /** Each wait is the backoff after the failed attempt it follows. */
  predicate Waited(p: RetryPolicy, replies: seq<Reply>, jitters: seq<int>, waits: seq<int>) {
    && |waits| <= |replies| && |waits| <= |jitters|
    && forall i :: 0 <= i < |waits| ==>
         replies[i].Fail? && waits[i] == BackoffFor(p, i + 1, replies[i].fault, jitters[i])
  }

  /** What a call under policy p comes to: fn is called up to the first success, the first failure that is not
      transient or the last attempt, and that call's outcome is returned, unless a sleep is cancelled first. */
  ghost predicate ComesTo(p: RetryPolicy, replies: seq<Reply>, cancels: seq<Option<Fault>>, jitters: seq<int>, r: Reply,
                          calls: nat, waits: seq<int>)
    requires 0 < p.maxAttempts <= |replies| == |cancels|
  {
    && 1 <= calls <= Attempts(replies, p.maxAttempts) && |waits| <= calls && Waited(p, replies, jitters, waits)
    && (forall i :: 0 <= i < calls - 1 ==> cancels[i].None?)
    && (if |waits| == calls - 1 then calls == Attempts(replies, p.maxAttempts) && r == replies[calls - 1]
        else |waits| == calls < p.maxAttempts && cancels[calls - 1].Some? && r == Fail(cancels[calls - 1].value))
  }

  /** replies[i] is what attempt i + 1 would give, cancels[i] the context error that ends the sleep after it, if any. */
  method Do(policy: RetryPolicy, replies: seq<Reply>, cancels: seq<Option<Fault>>, jitters: seq<int>)
    returns (r: Reply, calls: nat, waits: seq<int>)
    requires |replies| >= if policy.maxAttempts > 0 then policy.maxAttempts else 3
    requires |cancels| == |jitters| == |replies|
    ensures forall p :: Means(policy, p) ==> ComesTo(p, replies, cancels, jitters, r, calls, waits)
  {
    hide BackoffFor;
    var p := WithDefaults(policy);
    waits := [];
    var attempt := 1;
    while attempt <= p.maxAttempts
      invariant 1 <= attempt <= p.maxAttempts
      invariant |waits| == attempt - 1
      invariant forall i :: 0 <= i < attempt - 1 ==> Transient(replies[i]) && cancels[i].None?
      invariant Waited(p, replies, jitters, waits)
      decreases p.maxAttempts - attempt
    {
      var reply := replies[attempt - 1];
      AttemptsIs(replies, p.maxAttempts, attempt);
      if reply.Ok? {
        return reply, attempt, waits;
      }
      if !Retryable(reply.fault) || attempt == p.maxAttempts {
        return reply, attempt, waits;
      }
      waits := waits + [BackoffFor(p, attempt, reply.fault, jitters[attempt - 1])];
      if cancels[attempt - 1].Some? {
        return Fail(cancels[attempt - 1].value), attempt, waits;
      }
      attempt := attempt + 1;
    }
  }

  /** The wait after failed attempt n of the shipped policy: what a 503 asks for if that is within 5 s, else 5 s; after
      a timeout 200 ms doubled with each attempt, and the jitter. */
  predicate ShippedWait(n: nat, fault: Fault, jitter: int, wait: int) {
    if fault.Unavailable? then wait == if 0 < fault.retryAfter <= 5_000_000_000 then fault.retryAfter else 5_000_000_000
    else (n == 1 ==> wait == 200_000_000 + jitter) && (n == 2 ==> wait == 400_000_000 + jitter)
  }

  /** withFleetRetry: a read under the policy the server ships with. Up to two transient failures cost a wait and
      another attempt each, everything else is returned as it is. */
  method WithFleetRetry(replies: seq<Reply>, jitters: seq<int>) returns (r: Reply, calls: nat, waits: seq<int>)
    requires |replies| == |jitters| == 3 && forall i :: 0 <= i < 3 ==> 0 <= jitters[i] < 200_000_000
    ensures calls == if !Transient(replies[0]) then 1 else if !Transient(replies[1]) then 2 else 3
    ensures r == replies[calls - 1] && |waits| == calls - 1
    ensures forall i :: 0 <= i < |waits| ==> ShippedWait(i + 1, replies[i].fault, jitters[i], waits[i])
  {
    r, calls, waits := Do(SHIPPED, replies, [None, None, None], jitters);
    assert ComesTo(SHIPPED, replies, [None, None, None], jitters, r, calls, waits);
    assert Attempts(replies, 3) == if !Transient(replies[0]) then 1 else if !Transient(replies[1]) then 2 else 3;
    hide Attempts, Waited, BackoffFor;
    forall i | 0 <= i < |waits| ensures ShippedWait(i + 1, replies[i].fault, jitters[i], waits[i]) {
      WaitedAt(SHIPPED, replies, jitters, waits, i);
      ShippedWaits(i + 1, replies[i].fault, jitters[i]);
    }
  }

  lemma WaitedAt(p: RetryPolicy, replies: seq<Reply>, jitters: seq<int>, waits: seq<int>, i: nat)
    requires Waited(p, replies, jitters, waits) && i < |waits|
    ensures i < |replies| && i < |jitters| && replies[i].Fail?
    ensures waits[i] == BackoffFor(p, i + 1, replies[i].fault, jitters[i])
  {
    hide BackoffFor;
  }

  lemma ShippedWaits(n: nat, fault: Fault, jitter: int)
    requires n == 1 || n == 2
    requires 0 <= jitter < 200_000_000
    ensures ShippedWait(n, fault, jitter, BackoffFor(SHIPPED, n, fault, jitter))
  {
    ThirtyTwo();
    hide Pow2, Wrap;
    NoWrap(Pow2(n - 1));
    NoWrap(SHIPPED.baseDelay * Pow2(n - 1));
    NoWrap(SHIPPED.baseDelay * Pow2(n - 1) + jitter);
  }

  /** Where the loop stands after attempt - 1 retryable failures. */
  lemma {:induction false} AttemptsIs(replies: seq<Reply>, n: nat, attempt: nat)
    requires 1 <= attempt <= n <= |replies|
    requires forall i :: 0 <= i < attempt - 1 ==> Transient(replies[i])
    ensures Attempts(replies, n) >= attempt
    ensures (attempt == n || !Transient(replies[attempt - 1])) <==> Attempts(replies, n) == attempt
  {
    if attempt > 1 {
      AttemptsIs(replies[1..], n - 1, attempt - 1);
    }
  }

  /** Main result on the whole call: the sleeps together stay below (attempts - 1) * (max + base). */
  lemma {:induction false} TotalWait(p: RetryPolicy, replies: seq<Reply>, jitters: seq<int>, waits: seq<int>)
    requires Sensible(p) && |waits| <= |replies| == |jitters|
    requires forall i :: 0 <= i < |jitters| ==> 0 <= jitters[i] < p.baseDelay
    requires Waited(p, replies, jitters, waits)
    ensures Slept(waits) <= |waits| * (p.maxDelay + p.baseDelay)
    ensures |waits| > 0 ==> Slept(waits) < |waits| * (p.maxDelay + p.baseDelay)
  {
    hide BackoffFor;
    if waits != [] {
      var n := |waits| - 1;
      TotalWait(p, replies, jitters, waits[..n]);
      WaitBounds(p, n + 1, replies[n].fault, jitters[n]);
      Distribute(n, p.maxDelay + p.baseDelay);
    }
  }

  lemma Distribute(n: nat, x: int)
    ensures (n + 1) * x == n * x + x
  {}
}
