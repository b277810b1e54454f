/** The textual page cursor of the triage list (internal/triage/repo.go): stamp, host and event
    joined by '|'.
 */
module Cursors {
  import opened Options
  import opened Timestamps

  datatype Position = Position(at: Instant, host: string, event: string)

  function EncodeCursor(t: Instant, host: string, event: string): string {
    FormatTS(t) + "|" + host + "|" + event
  }

  /** The part of s before its first '|', or all of s. */
  function Head(s: string): (h: string)
    ensures h <= s && '|' !in h
    ensures |h| < |s| ==> s[|h|] == '|'
  {
    if s == [] || s[0] == '|' then "" else [s[0]] + Head(s[1..])
  }

  /** Splits at the first two separators only; None is the "malformed cursor" error. */
  function DecodeCursor(s: string): Option<Position> {
    var stamp := Head(s);
    if |stamp| == |s| then None
    else
      var rest := s[|stamp| + 1..];
      var host := Head(rest);
      if |host| == |rest| || ParseTS(stamp).None? then None
      else Some(Position(ParseTS(stamp).value, host, rest[|host| + 1..]))
  }

  lemma {:induction false} HeadIs(h: string, rest: string)
    requires '|' !in h
    ensures Head(h + "|" + rest) == h
  {
    var s := h + "|" + rest;
    if h != [] {
      assert s[1..] == h[1..] + "|" + rest;
      HeadIs(h[1..], rest);
    }
  }

  /** Text of three parts, the first two without a separator, is read back as its parts. */
  lemma DecodeParts(stamp: string, host: string, event: string)
    requires '|' !in stamp && '|' !in host && ParseTS(stamp).Some?
    ensures DecodeCursor(stamp + "|" + host + "|" + event) == Some(Position(ParseTS(stamp).value, host, event))
  {
    hide ParseTS, Head;
    var rest := host + "|" + event;
    var s := stamp + "|" + host + "|" + event;
    assert s == stamp + "|" + rest;
    HeadIs(stamp, rest);
    HeadIs(host, event);
    assert s[|stamp| + 1..] == rest && rest[|host| + 1..] == event;
  }

  /** The parts of a readable cursor: a stamp and a host without the separator, and the rest. */
  predicate Parts(s: string, stamp: string, host: string, event: string) {
    s == stamp + "|" + host + "|" + event && '|' !in stamp && '|' !in host && ParseTS(stamp).Some?
  }

  /** Main result: what is read is what the parts say, and only text that has such parts is read at all. */
  lemma DecodeIff(s: string)
    ensures DecodeCursor(s).Some? <==> exists stamp, host, event :: Parts(s, stamp, host, event)
    ensures forall stamp, host, event :: Parts(s, stamp, host, event) ==>
              DecodeCursor(s) == Some(Position(ParseTS(stamp).value, host, event))
  {
    hide ParseTS, DecodeCursor;
    forall stamp, host, event | Parts(s, stamp, host, event)
      ensures DecodeCursor(s) == Some(Position(ParseTS(stamp).value, host, event))
    {
      DecodeParts(stamp, host, event);
    }
    if DecodeCursor(s).Some? {
      var stamp, host, event := PartsOf(s);
    }
  }

  lemma PartsOf(s: string) returns (stamp: string, host: string, event: string)
    requires DecodeCursor(s).Some?
    ensures Parts(s, stamp, host, event)
  {
    hide ParseTS, Head;
    stamp := Head(s);
    var rest := s[|stamp| + 1..];
    host, event := Head(rest), rest[|Head(rest)| + 1..];
    Joined(s, stamp, rest);
    Joined(rest, host, event);
    assert s == stamp + "|" + (host + "|" + event) == stamp + "|" + host + "|" + event;
  }

  lemma Joined(s: string, head: string, rest: string)
    requires head <= s && |head| < |s| && s[|head|] == '|' && rest == s[|head| + 1..]
    ensures s == head + "|" + rest
  {}

  /** A separator in the host ends it early: what is read back is a shorter host. */
  lemma CursorCut(t: Instant, host: string, event: string)
    requires '|' in host
    ensures var p := DecodeCursor(EncodeCursor(t, host, event));
            p.Some? && p.value.at == t && p.value.host == Head(host) < host
  {
    hide *;
    var h := Head(host);
    var more := HeadSplits(host);
    Regroup(t, h, more, event);
    NoSeparator(t);
    ParseFormat(t);
    DecodeParts(FormatTS(t), h, more + "|" + event);
  }

  lemma HeadSplits(s: string) returns (more: string)
    requires '|' in s
    ensures s == Head(s) + "|" + more && Head(s) < s
  {
    var h := Head(s);
    assert |h| < |s| by {
      assert |h| == |s| ==> h == s;
    }
    hide Head;
    more := s[|h| + 1..];
  }

  lemma Regroup(t: Instant, h: string, more: string, event: string)
    ensures EncodeCursor(t, h + "|" + more, event) == FormatTS(t) + "|" + h + "|" + (more + "|" + event)
  {
    hide FormatTS;
  }

  /** Main result: a cursor survives its textual form exactly when the host holds no separator;
      the event text is free. */
  lemma CursorRoundTrip(t: Instant, host: string, event: string)
    ensures DecodeCursor(EncodeCursor(t, host, event)) == Some(Position(t, host, event)) <==> '|' !in host
  {
    if '|' in host {
      CursorCut(t, host, event);
    } else {
      hide FormatTS, ParseTS, DecodeCursor;
      NoSeparator(t);
      ParseFormat(t);
      DecodeParts(FormatTS(t), host, event);
    }
  }
}
