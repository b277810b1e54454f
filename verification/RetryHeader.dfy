/** The Retry-After header of a 503 (internal/fleet/http.go, parseRetryAfter), in its delta-seconds form of
    section 7.1.3 of RFC 7231, and the wait it leads to.
 */
module RetryHeader {
  import opened Lex
  import opened Options
  import opened Upstream
  import opened Retry
  import CommaList

  const SECOND := 1_000_000_000

  /** strconv.Atoi: an optional sign and digits, within 64 bits. */
  function Atoi(s: string): Option<int> {
    var signed := s != "" && (s[0] == '+' || s[0] == '-');
    var digits := if signed then s[1..] else s;
    if digits == "" || !AllDigits(digits, Dec) then None
    else
      var n: int := if s[0] == '-' then 0 - Value(digits, Dec) else Value(digits, Dec);
      if -TWO63 <= n < TWO63 then Some(n) else None
  }

  function ParseRetryAfter(v: string): int {
    if v == "" then 5 * SECOND
    else
      match Atoi(CommaList.Trim(v))
      case None => 5 * SECOND
      case Some(n) => if n < 0 then 5 * SECOND else Wrap(n * SECOND)
  }

  /** The seconds asked for if they fit, the longest wait otherwise. */
  function Asked(p: RetryPolicy, seconds: nat): int {
    if 0 < seconds * SECOND <= p.maxDelay then seconds * SECOND else p.maxDelay
  }

  /** Main result: the wait is what the header asks for unless the seconds, counted in 64-bit nanoseconds, come
      round to a delay that fits by accident; below 2^63 nanoseconds they cannot. */
  lemma HeaderHonoured(p: RetryPolicy, v: string, seconds: nat, attempt: nat, jitter: int)
    requires Sensible(p) && attempt >= 1 && v != "" && Atoi(CommaList.Trim(v)) == Some(seconds)
    ensures BackoffFor(p, attempt, Unavailable(ParseRetryAfter(v)), jitter) == Asked(p, seconds) <==>
              seconds * SECOND <= p.maxDelay || !(0 < Wrap(seconds * SECOND) < p.maxDelay)
    ensures seconds * SECOND < TWO63 ==>
              BackoffFor(p, attempt, Unavailable(ParseRetryAfter(v)), jitter) == Asked(p, seconds)
  {
    hide Wrap, CommaList.Trim, Atoi;
    NoWrap(seconds * SECOND);
  }

  /** A number of seconds as a server may write it: spaces around, a plus sign or none, leading zeros. */
  predicate Writes(v: string, pre: string, sign: string, n: nat, width: nat, post: string) {
    && CommaList.AllSpace(pre) && CommaList.AllSpace(post) && (sign == "" || sign == "+")
    && width > 0 && n < Capacity(Dec, width) && v == pre + (sign + Pad(n, Dec, width)) + post
  }

  /** Main result: a written number of seconds is read back as that many nanoseconds, in 64 bits. */
  lemma PrintedSeconds(v: string, pre: string, sign: string, n: nat, width: nat, post: string)
    requires Writes(v, pre, sign, n, width, post) && n < TWO63
    ensures ParseRetryAfter(v) == Wrap(n * SECOND)
    ensures n * SECOND < TWO63 ==> ParseRetryAfter(v) == n * 1_000_000_000
  {
    hide Wrap, Pad, Capacity, Atoi, ParseRetryAfter, CommaList.Trim, CommaList.AllSpace;
    var s := sign + Pad(n, Dec, width);
    PrintedNumber(sign, n, width);
    SpacesOff(pre, s, post);
    assert |v| >= |s|;
    hide Writes;
    ReadAs(v, s, n);
    NoWrap(n * SECOND);
  }

  lemma ReadAs(v: string, s: string, n: nat)
    requires v != "" && CommaList.Trim(v) == s && Atoi(s) == Some(n)
    ensures ParseRetryAfter(v) == Wrap(n * SECOND)
  {
    hide CommaList.Trim, Atoi, Wrap;
  }

  lemma PrintedNumber(sign: string, n: nat, width: nat)
    requires (sign == "" || sign == "+") && width > 0 && n < Capacity(Dec, width) && n < TWO63
    ensures var s := sign + Pad(n, Dec, width);
      s != "" && Atoi(s) == Some(n) && !CommaList.IsSpace(s[0]) && !CommaList.IsSpace(s[|s| - 1])
  {
    hide Pad, Value, Capacity, CommaList.IsSpace, DigitValue;
    var digits := Pad(n, Dec, width);
    PadValue(n, Dec, width);
    PlainDigit(digits[0]);
    PlainDigit(digits[|digits| - 1]);
    PlusIsNoSpace();
    assert sign == "" ==> sign + digits == digits;
    assert sign == "+" ==> (sign + digits)[1..] == digits;
  }

  lemma PlusIsNoSpace()
    ensures !CommaList.IsSpace('+')
  {}

  /** Spaces around a text that neither begins nor ends with one are what trimming takes off. */
  lemma SpacesOff(pre: string, s: string, post: string)
    requires CommaList.AllSpace(pre) && CommaList.AllSpace(post)
    requires s != "" && !CommaList.IsSpace(s[0]) && !CommaList.IsSpace(s[|s| - 1])
    ensures CommaList.Trim(pre + s + post) == s
  {
    hide CommaList.IsSpace;
    assert pre + s + post == pre + (s + post);
    LeftOff(pre, s + post);
    RightOff(s, post);
  }

  lemma {:induction false} LeftOff(pre: string, s: string)
    requires CommaList.AllSpace(pre) && s != "" && !CommaList.IsSpace(s[0])
    ensures CommaList.TrimLeft(pre + s) == s
  {
    hide CommaList.IsSpace;
    if pre == "" {
      assert pre + s == s;
    } else {
      assert (pre + s)[1..] == pre[1..] + s;
      LeftOff(pre[1..], s);
    }
  }

  lemma {:induction false} RightOff(s: string, post: string)
    requires CommaList.AllSpace(post) && s != "" && !CommaList.IsSpace(s[|s| - 1])
    ensures CommaList.TrimRight(s + post) == s
  {
    hide CommaList.IsSpace;
    if post == "" {
      assert s + post == s;
    } else {
      var init := post[..|post| - 1];
      assert (s + post)[..|s + post| - 1] == s + init;
      RightOff(s, init);
    }
  }

  /** Nothing that counts seconds: no text, or between the spaces something else than a sign and digits, or a number
      below zero. */
  predicate Unreadable(v: string) {
    var t := CommaList.Trim(v);
    || t == "" || t == "+" || t == "-"
    || (exists i :: 0 <= i < |t| && !('0' <= t[i] <= '9') && !(i == 0 && (t[0] == '+' || t[0] == '-')))
    || (t[0] == '-' && Value(t[1..], Dec) > 0)
  }

  /** Main result: without a readable header the client waits 5 s, or MaxDelay where that is less. */
  lemma FallsBack(p: RetryPolicy, v: string, attempt: nat, jitter: int)
    requires Unreadable(v) && attempt >= 1 && p.maxDelay > 0
    ensures ParseRetryAfter(v) == 5_000_000_000
    ensures BackoffFor(p, attempt, Unavailable(ParseRetryAfter(v)), jitter) ==
            if p.maxDelay < 5_000_000_000 then p.maxDelay else 5_000_000_000
  {
    hide CommaList.Trim, Value;
    var t := CommaList.Trim(v);
    if v != "" && t != "" {
      var signed := t[0] == '+' || t[0] == '-';
      var digits := if signed then t[1..] else t;
      if i :| 0 <= i < |t| && !('0' <= t[i] <= '9') && !(i == 0 && signed) {
        assert digits[if signed then i - 1 else i] == t[i];
      }
    }
  }

  lemma PlainDigit(c: char)
    requires DigitValue(c) < 10
    ensures !CommaList.IsSpace(c) && c != '+' && c != '-'
  {}

  /** An accident: asked to wait 584 years, the client waits 0.29 seconds. */
  lemma WrappedSeconds(p: RetryPolicy, v: string, width: nat, attempt: nat, jitter: int)
    requires Sensible(p) && attempt >= 1 && p.maxDelay == 5 * SECOND
    requires Writes(v, "", "", 18446744074, width, "")
    ensures BackoffFor(p, attempt, Unavailable(ParseRetryAfter(v)), jitter) == 290448384
  {
    hide Writes, ParseRetryAfter;
    PrintedSeconds(v, "", "", 18446744074, width, "");
  }
}
