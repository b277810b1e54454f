/** Stored timestamps (internal/triage/repo.go): UTC instants of the years 0 to 9999, their
    calendar fields, the fixed-width layout, its parser, and the zero-suppressed layout it replaced.
 */
module Timestamps {
  import opened Lex
  import opened Options

  // ---------------------------------------------------------------- calendar

  const NANOS := 1_000_000_000
  const DAY_SECONDS := 86_400

  predicate IsLeap(year: nat) { year % 4 == 0 && (year % 100 != 0 || year % 400 == 0) }

  function DaysInMonth(year: nat, month: nat): nat {
    if month == 2 then (if IsLeap(year) then 29 else 28)
    else if month in {4, 6, 9, 11} then 30 else 31
  }

  /** Days from the start of the year to the start of the month. */
  function DaysBeforeMonth(year: nat, month: nat): nat
    requires 1 <= month <= 13
  {
    if month == 1 then 0 else DaysBeforeMonth(year, month - 1) + DaysInMonth(year, month - 1)
  }

  function DaysInYear(year: nat): nat { if IsLeap(year) then 366 else 365 }

  /** Days from the start of year 0 to the start of the year (proleptic Gregorian). */
  function DaysBeforeYear(year: nat): (days: nat)
    ensures days >= year
  {
    if year == 0 then 0 else DaysBeforeYear(year - 1) + DaysInYear(year - 1)
  }

  /** Nanoseconds since the start of year 0, before the start of year 10000. */
  type Instant = t: nat | t < DaysBeforeYear(10000) * DAY_SECONDS * NANOS

  datatype Civil = Civil(year: nat, month: nat, day: nat, hour: nat, minute: nat, second: nat, nano: nat)

  predicate ValidDate(year: nat, month: nat, day: nat) {
    year <= 9999 && 1 <= month <= 12 && 1 <= day <= DaysInMonth(year, month)
  }

  predicate ValidCivil(c: Civil) {
    ValidDate(c.year, c.month, c.day) && c.hour < 24 && c.minute < 60 && c.second < 60 && c.nano < NANOS
  }

  function DayNumber(year: nat, month: nat, day: nat): nat
    requires 1 <= month <= 12 && day >= 1
  {
    DaysBeforeYear(year) + DaysBeforeMonth(year, month) + (day - 1)
  }

  lemma {:induction false} YearStarts(y: nat, z: nat)
    requires y < z
    ensures DaysBeforeYear(y) + DaysInYear(y) <= DaysBeforeYear(z)
  {
    if y + 1 < z {
      YearStarts(y, z - 1);
    }
  }

  lemma {:induction false} MonthStarts(year: nat, m: nat, n: nat)
    requires 1 <= m < n <= 13
    ensures DaysBeforeMonth(year, m) + DaysInMonth(year, m) <= DaysBeforeMonth(year, n)
  {
    if m + 1 < n {
      MonthStarts(year, m, n - 1);
    }
  }

  lemma YearLength(year: nat)
    ensures DaysBeforeMonth(year, 13) == DaysInYear(year)
  {
    assert DaysBeforeMonth(year, 2) == 31;
    assert DaysBeforeMonth(year, 3) == 31 + DaysInMonth(year, 2);
    assert DaysBeforeMonth(year, 5) == DaysBeforeMonth(year, 3) + 61;
    assert DaysBeforeMonth(year, 7) == DaysBeforeMonth(year, 5) + 61;
    assert DaysBeforeMonth(year, 9) == DaysBeforeMonth(year, 7) + 62;
    assert DaysBeforeMonth(year, 11) == DaysBeforeMonth(year, 9) + 61;
  }

  function YearOf(day: nat, from: nat): (year: nat)
    requires DaysBeforeYear(from) <= day
    ensures DaysBeforeYear(year) <= day < DaysBeforeYear(year + 1)
    decreases day - DaysBeforeYear(from)
  {
    if day < DaysBeforeYear(from + 1) then from else YearOf(day, from + 1)
  }

  function MonthOf(year: nat, dayOfYear: nat, from: nat): (month: nat)
    requires 1 <= from <= 12 && DaysBeforeMonth(year, from) <= dayOfYear < DaysBeforeMonth(year, 13)
    ensures 1 <= month <= 12
    ensures DaysBeforeMonth(year, month) <= dayOfYear < DaysBeforeMonth(year, month + 1)
    decreases 13 - from
  {
    if dayOfYear < DaysBeforeMonth(year, from + 1) then from
    else assert from < 12; MonthOf(year, dayOfYear, from + 1)
  }

  /** The calendar date of a day number. */
  function DateOf(day: nat): (date: (nat, nat, nat))
    requires day < DaysBeforeYear(10000)
    ensures ValidDate(date.0, date.1, date.2)
    ensures DayNumber(date.0, date.1, date.2) == day
  {
    var year := YearOf(day, 0);
    assert year <= 9999 by {
      if year > 9999 && year != 10000 { YearStarts(10000, year); }
    }
    var rest := day - DaysBeforeYear(year);
    assert rest < DaysBeforeMonth(year, 13) by { YearLength(year); }
    var month := MonthOf(year, rest, 1);
    (year, month, rest - DaysBeforeMonth(year, month) + 1)
  }

  /** Later dates have larger day numbers. */
  lemma DayNumberOrder(y: nat, m: nat, d: nat, y': nat, m': nat, d': nat)
    requires ValidDate(y, m, d) && ValidDate(y', m', d')
    requires y < y' || (y == y' && (m < m' || (m == m' && d < d')))
    ensures DayNumber(y, m, d) < DayNumber(y', m', d')
  {
    if y < y' {
      YearStarts(y, y');
      YearLength(y);
      MonthStarts(y, m, 13);
    } else if m < m' {
      MonthStarts(y, m, m');
    }
  }

  function ToCivil(t: Instant): (c: Civil)
    ensures ValidCivil(c)
  {
    var seconds := t / NANOS;
    var day, clock := seconds / DAY_SECONDS, seconds % DAY_SECONDS;
    var date := DateOf(day);
    Civil(date.0, date.1, date.2, clock / 3600, clock / 60 % 60, clock % 60, t % NANOS)
  }

  function FromCivil(c: Civil): Instant
    requires ValidCivil(c)
  {
    assert DayNumber(c.year, c.month, c.day) < DaysBeforeYear(10000) by {
      YearStarts(c.year, 10000);
      YearLength(c.year);
      MonthStarts(c.year, c.month, 13);
    }
    var clock := c.hour * 3600 + c.minute * 60 + c.second;
    (DayNumber(c.year, c.month, c.day) * DAY_SECONDS + clock) * NANOS + c.nano
  }

  lemma FromToCivil(t: Instant)
    ensures FromCivil(ToCivil(t)) == t
  {
    var seconds := t / NANOS;
    var c := ToCivil(t);
    assert DayNumber(c.year, c.month, c.day) == seconds / DAY_SECONDS;
    ClockParts(seconds % DAY_SECONDS);
    assert c.hour * 3600 + c.minute * 60 + c.second == seconds % DAY_SECONDS;
    Recompose(t);
  }

  lemma ClockParts(clock: nat)
    ensures clock / 3600 * 3600 + clock / 60 % 60 * 60 + clock % 60 == clock
  {}

  lemma Recompose(t: nat)
    ensures (t / NANOS / DAY_SECONDS * DAY_SECONDS + t / NANOS % DAY_SECONDS) * NANOS + t % NANOS == t
  {}

  /** Calendar order, field by field down to the second. */
  predicate EarlierSecond(c: Civil, d: Civil) {
    c.year < d.year || (c.year == d.year && (
      c.month < d.month || (c.month == d.month && (
        c.day < d.day || (c.day == d.day && (
          c.hour < d.hour || (c.hour == d.hour && (
            c.minute < d.minute || (c.minute == d.minute && c.second < d.second)))))))))
  }

  predicate SameSecond(c: Civil, d: Civil) { c.(nano := 0) == d.(nano := 0) }

  lemma CivilOrder(c: Civil, d: Civil)
    requires ValidCivil(c) && ValidCivil(d)
    requires EarlierSecond(c, d) || (SameSecond(c, d) && c.nano < d.nano)
    ensures FromCivil(c) < FromCivil(d)
  {
    if (c.year, c.month, c.day) != (d.year, d.month, d.day) {
      DayNumberOrder(c.year, c.month, c.day, d.year, d.month, d.day);
    }
  }

  /** Calendar fields and instants order time alike. */
  lemma InstantOrder(t: Instant, u: Instant)
    ensures t < u <==>
            EarlierSecond(ToCivil(t), ToCivil(u)) ||
            (SameSecond(ToCivil(t), ToCivil(u)) && ToCivil(t).nano < ToCivil(u).nano)
  {
    var c, d := ToCivil(t), ToCivil(u);
    FromToCivil(t);
    FromToCivil(u);
    if EarlierSecond(c, d) || (SameSecond(c, d) && c.nano < d.nano) {
      CivilOrder(c, d);
    } else if EarlierSecond(d, c) || (SameSecond(d, c) && d.nano < c.nano) {
      CivilOrder(d, c);
    }
  }

  lemma ToFromCivil(c: Civil)
    requires ValidCivil(c)
    ensures ToCivil(FromCivil(c)) == c
  {
    var d := ToCivil(FromCivil(c));
    FromToCivil(FromCivil(c));
    if EarlierSecond(c, d) || (SameSecond(c, d) && c.nano < d.nano) {
      CivilOrder(c, d);
    } else if EarlierSecond(d, c) || (SameSecond(d, c) && d.nano < c.nano) {
      CivilOrder(d, c);
    }
  }

  /** A leap day every fourth year, except in three of four century years. */
  lemma {:induction false} YearsAreGregorian(year: nat)
    ensures DaysBeforeYear(year) == 365 * year + (year + 3) / 4 - (year + 99) / 100 + (year + 399) / 400
  {
    if year > 0 {
      var y := year - 1;
      YearsAreGregorian(y);
      Quotient(y, 4);
      Quotient(y, 100);
      Quotient(y, 400);
      Centuries(y);
      assert DaysBeforeYear(year) == DaysBeforeYear(y) + DaysInYear(y);
      hide DaysBeforeYear;
    }
  }

  /** The quotient, rounded up, grows at the multiples. */
  lemma Quotient(y: nat, m: nat)
    requires m > 0
    ensures (y + m) / m == (y + m - 1) / m + if y % m == 0 then 1 else 0
  {
    var q, r := y / m, y % m;
    assert y == q * m + r;
    DivideAs(y + m, m, q + 1, r);
    if r == 0 {
      DivideAs(y + m - 1, m, q, m - 1);
    } else {
      DivideAs(y + m - 1, m, q + 1, r - 1);
    }
  }

  lemma DivideAs(x: nat, m: nat, q: nat, r: nat)
    requires m > 0 && r < m && x == q * m + r
    ensures x / m == q
  {
    var p := x / m;
    assert x == p * m + x % m;
    Multiples(p, q, m);
    Multiples(q, p, m);
  }

  lemma Multiples(p: nat, q: nat, m: nat)
    ensures p < q ==> p * m + m <= q * m
  {
    if p < q {
      assert (p + 1) * m == p * m + m && q * m == (p + 1) * m + (q - p - 1) * m;
    }
  }

  lemma Centuries(y: nat)
    ensures (y % 400 == 0 ==> y % 100 == 0) && (y % 100 == 0 ==> y % 4 == 0)
  {
    var p, q := y / 400, y / 100;
    if y % 400 == 0 {
      DivideAs(y, 100, 4 * p, 0);
    }
    if y % 100 == 0 {
      DivideAs(y, 4, 25 * q, 0);
    }
  }

  lemma MonthsAreGregorian(year: nat)
    ensures var l := DaysBeforeYear(year + 1) - DaysBeforeYear(year) - 365;
      && DaysBeforeMonth(year, 2) == 31 && DaysBeforeMonth(year, 3) == 59 + l && DaysBeforeMonth(year, 4) == 90 + l
      && DaysBeforeMonth(year, 5) == 120 + l && DaysBeforeMonth(year, 6) == 151 + l
      && DaysBeforeMonth(year, 7) == 181 + l && DaysBeforeMonth(year, 8) == 212 + l
      && DaysBeforeMonth(year, 9) == 243 + l && DaysBeforeMonth(year, 10) == 273 + l
      && DaysBeforeMonth(year, 11) == 304 + l && DaysBeforeMonth(year, 12) == 334 + l
  {
    assert DaysBeforeMonth(year, 2) == 31;
    assert DaysBeforeMonth(year, 3) == 31 + DaysInMonth(year, 2);
    assert DaysBeforeMonth(year, 5) == DaysBeforeMonth(year, 3) + 61;
    assert DaysBeforeMonth(year, 7) == DaysBeforeMonth(year, 5) + 61;
    assert DaysBeforeMonth(year, 9) == DaysBeforeMonth(year, 7) + 62;
    assert DaysBeforeMonth(year, 11) == DaysBeforeMonth(year, 9) + 61;
  }

  // ---------------------------------------------------------------- layouts

  /** The text down to the second, followed by a tail: "2006-01-02T15:04:05" + tail. */
  function SecondText(c: Civil, tail: string): string {
    Pad(c.year, Dec, 4) + ("-" + (Pad(c.month, Dec, 2) + ("-" + (Pad(c.day, Dec, 2) +
    ("T" + (Pad(c.hour, Dec, 2) + (":" + (Pad(c.minute, Dec, 2) + (":" + (Pad(c.second, Dec, 2) + tail))))))))))
  }

  /** The stored layout: always nine fraction digits. */
  function FormatTS(t: Instant): string {
    var c := ToCivil(t);
    SecondText(c, "." + Pad(c.nano, Dec, 9) + "Z")
  }

  lemma Capacities()
    ensures Capacity(Dec, 2) == 100 && Capacity(Dec, 4) == 10000 && Capacity(Dec, 9) == NANOS
  {
    assert Capacity(Dec, 6) == 10 * Capacity(Dec, 5) == 100 * Capacity(Dec, 4);
    assert Capacity(Dec, 9) == 10 * Capacity(Dec, 8) == 100 * Capacity(Dec, 7);
  }

  /** One more field in front, after its separator. */
  lemma PartOrder(sep: char, n: nat, m: nat, x: string, y: string)
    requires n < 100 && m < 100
    ensures n < m ==> Less([sep] + (Pad(n, Dec, 2) + x), [sep] + (Pad(m, Dec, 2) + y))
    ensures n == m ==> (Less([sep] + (Pad(n, Dec, 2) + x), [sep] + (Pad(m, Dec, 2) + y)) <==> Less(x, y))
  {
    Capacities();
    FieldOrder(n, m, Dec, 2, x, y);
    LessPrefix([sep], Pad(n, Dec, 2) + x, Pad(m, Dec, 2) + y);
  }

  lemma SecondTextOrder(c: Civil, d: Civil, x: string, y: string)
    requires ValidCivil(c) && ValidCivil(d)
    ensures EarlierSecond(c, d) ==> Less(SecondText(c, x), SecondText(d, y))
    ensures SameSecond(c, d) ==> (Less(SecondText(c, x), SecondText(d, y)) <==> Less(x, y))
  {
    var x1, y1 := ":" + (Pad(c.second, Dec, 2) + x), ":" + (Pad(d.second, Dec, 2) + y);
    var x2, y2 := ":" + (Pad(c.minute, Dec, 2) + x1), ":" + (Pad(d.minute, Dec, 2) + y1);
    var x3, y3 := "T" + (Pad(c.hour, Dec, 2) + x2), "T" + (Pad(d.hour, Dec, 2) + y2);
    var x4, y4 := "-" + (Pad(c.day, Dec, 2) + x3), "-" + (Pad(d.day, Dec, 2) + y3);
    var x5, y5 := "-" + (Pad(c.month, Dec, 2) + x4), "-" + (Pad(d.month, Dec, 2) + y4);
    PartOrder(':', c.second, d.second, x, y);
    PartOrder(':', c.minute, d.minute, x1, y1);
    PartOrder('T', c.hour, d.hour, x2, y2);
    PartOrder('-', c.day, d.day, x3, y3);
    PartOrder('-', c.month, d.month, x4, y4);
    Capacities();
    FieldOrder(c.year, d.year, Dec, 4, x5, y5);
  }

  /** Main result: the text order of stored timestamps is the time order. */
  lemma TextOrderIsTimeOrder(t: Instant, u: Instant)
    ensures Less(FormatTS(t), FormatTS(u)) <==> t < u
    ensures FormatTS(t) == FormatTS(u) <==> t == u
  {
    if t < u {
      EarlierIsLess(t, u);
      LessAsymmetric(FormatTS(t), FormatTS(u));
    } else if u < t {
      EarlierIsLess(u, t);
      LessAsymmetric(FormatTS(u), FormatTS(t));
    } else {
      LessIrreflexive(FormatTS(t));
    }
  }

  lemma EarlierIsLess(t: Instant, u: Instant)
    requires t < u
    ensures Less(FormatTS(t), FormatTS(u))
  {
    hide Pad, Less, SecondText, Capacity;
    var c, d := ToCivil(t), ToCivil(u);
    InstantOrder(t, u);
    var x, y := "." + Pad(c.nano, Dec, 9) + "Z", "." + Pad(d.nano, Dec, 9) + "Z";
    SecondTextOrder(c, d, x, y);
    if SameSecond(c, d) {
      Capacities();
      assert x == "." + (Pad(c.nano, Dec, 9) + "Z") && y == "." + (Pad(d.nano, Dec, 9) + "Z");
      FieldOrder(c.nano, d.nano, Dec, 9, "Z", "Z");
      LessPrefix(".", Pad(c.nano, Dec, 9) + "Z", Pad(d.nano, Dec, 9) + "Z");
    }
  }

  // ---------------------------------------------------------------- parsing

  function Field(s: string, lo: nat, hi: nat): Option<nat>
    requires lo <= hi <= |s|
  {
    if AllDigits(s[lo..hi], Dec) then Some(Value(s[lo..hi], Dec)) else None
  }

  /** How many decimal digits s starts with. */
  function DigitRun(s: string): (n: nat)
    ensures n <= |s|
  {
    if s != [] && DigitValue(s[0]) < 10 then 1 + DigitRun(s[1..]) else 0
  }

  /** Nanoseconds denoted by a run of fraction digits: cut or zero-extended to nine. */
  function FractionNanos(digits: string): nat
  {
    Value((digits + "000000000")[..9], Dec)
  }

  /** The fraction and zone after the seconds: the nanoseconds, when well formed. */
  function ParseTail(s: string): Option<nat> {
    var n := if |s| >= 2 && s[0] == '.' then DigitRun(s[1..]) else 0;
    var rest := if n > 0 then s[n + 1..] else s;
    if rest != "Z" then None
    else Some(if n > 0 then FractionNanos(s[1..n + 1]) else 0)
  }

  function ParseCivil(s: string): Option<Civil> {
    if |s| < 19 || !(s[4] == '-' == s[7] && s[10] == 'T' && s[13] == ':' == s[16]) then None
    else
      match (Field(s, 0, 4), Field(s, 5, 7), Field(s, 8, 10), Field(s, 11, 13), Field(s, 14, 16), Field(s, 17, 19),
             ParseTail(s[19..]))
      case (Some(year), Some(month), Some(day), Some(hour), Some(minute), Some(second), Some(nano)) =>
        Some(Civil(year, month, day, hour, minute, second, nano))
      case _ => None
  }

  /** The strict RFC 3339 reader for UTC text; fractions of any length are accepted. */
  function ParseTS(s: string): Option<Instant> {
    match ParseCivil(s)
    case Some(c) => if ValidCivil(c) then Some(FromCivil(c)) else None
    case None => None
  }

  lemma {:induction false} DigitRunOf(digits: string, rest: string)
    requires AllDigits(digits, Dec) && (rest == [] || DigitValue(rest[0]) >= 10)
    ensures DigitRun(digits + rest) == |digits|
  {
    if digits == [] {
      assert digits + rest == rest;
    } else {
      assert (digits + rest)[1..] == digits[1..] + rest;
      DigitRunOf(digits[1..], rest);
    }
  }

  lemma ParseFixedTail(nano: nat)
    requires nano < NANOS
    ensures ParseTail("." + Pad(nano, Dec, 9) + "Z") == Some(nano)
  {
    var p := Pad(nano, Dec, 9);
    var s := "." + p + "Z";
    assert s[1..] == p + "Z" && s[1..10] == p && s[10..] == "Z";
    DigitRunOf(p, "Z");
    assert (p + "000000000")[..9] == p;
    Capacities();
    PadValue(nano, Dec, 9);
  }

  /** Reading off one separator and one two-digit field. */
  lemma Part(s: string, at: nat, sep: char, field: string, rest: string)
    requires at <= |s| && |field| == 2 && s[at..] == [sep] + (field + rest)
    ensures |s| == at + 3 + |rest| && s[at] == sep && s[at + 1..at + 3] == field && s[at + 3..] == rest
  {
    var t := s[at..];
    assert t[0] == sep && t[1..3] == field && t[3..] == rest;
  }

  lemma SecondTextFields(c: Civil, tail: string)
    ensures var s := SecondText(c, tail);
      && |s| == 19 + |tail|
      && s[0..4] == Pad(c.year, Dec, 4) && s[5..7] == Pad(c.month, Dec, 2) && s[8..10] == Pad(c.day, Dec, 2)
      && s[11..13] == Pad(c.hour, Dec, 2) && s[14..16] == Pad(c.minute, Dec, 2) && s[17..19] == Pad(c.second, Dec, 2)
      && s[4] == '-' == s[7] && s[10] == 'T' && s[13] == ':' == s[16] && s[19..] == tail
  {
    var s := SecondText(c, tail);
    var s5 := ":" + (Pad(c.second, Dec, 2) + tail);
    var s4 := ":" + (Pad(c.minute, Dec, 2) + s5);
    var s3 := "T" + (Pad(c.hour, Dec, 2) + s4);
    var s2 := "-" + (Pad(c.day, Dec, 2) + s3);
    var s1 := "-" + (Pad(c.month, Dec, 2) + s2);
    assert s[0..4] == Pad(c.year, Dec, 4) && s[4..] == s1;
    Part(s, 4, '-', Pad(c.month, Dec, 2), s2);
    Part(s, 7, '-', Pad(c.day, Dec, 2), s3);
    Part(s, 10, 'T', Pad(c.hour, Dec, 2), s4);
    Part(s, 13, ':', Pad(c.minute, Dec, 2), s5);
    Part(s, 16, ':', Pad(c.second, Dec, 2), tail);
  }

  /** A two-digit slice reads back as its number. */
  lemma TwoDigits(s: string, lo: nat, n: nat)
    requires lo + 2 <= |s| && s[lo..lo + 2] == Pad(n, Dec, 2) && n < 100
    ensures Field(s, lo, lo + 2) == Some(n)
  {
    Capacities();
    PadValue(n, Dec, 2);
  }

  lemma FourDigits(s: string, n: nat)
    requires 4 <= |s| && s[0..4] == Pad(n, Dec, 4) && n <= 9999
    ensures Field(s, 0, 4) == Some(n)
  {
    Capacities();
    PadValue(n, Dec, 4);
  }

  lemma FieldBounds(c: Civil)
    requires ValidCivil(c)
    ensures c.year <= 9999 && c.month < 100 && c.day < 100 && c.hour < 100 && c.minute < 100 && c.second < 100
  {}

  /** Every field of a date-time text reads back. */
  lemma FieldsRead(s: string, c: Civil, tail: string)
    requires ValidCivil(c) && s == SecondText(c, tail)
    ensures |s| >= 19 && s[4] == '-' == s[7] && s[10] == 'T' && s[13] == ':' == s[16] && s[19..] == tail
    ensures Field(s, 0, 4) == Some(c.year) && Field(s, 5, 7) == Some(c.month) && Field(s, 8, 10) == Some(c.day)
    ensures Field(s, 11, 13) == Some(c.hour) && Field(s, 14, 16) == Some(c.minute) && Field(s, 17, 19) == Some(c.second)
  {
    hide *;
    FieldBounds(c);
    SecondTextFields(c, tail);
    FourDigits(s, c.year);
    TwoDigits(s, 5, c.month);
    TwoDigits(s, 8, c.day);
    TwoDigits(s, 11, c.hour);
    TwoDigits(s, 14, c.minute);
    TwoDigits(s, 17, c.second);
  }

  lemma ParseSecondText(s: string, c: Civil, tail: string)
    requires ValidCivil(c) && s == SecondText(c, tail) && ParseTail(tail) == Some(c.nano)
    ensures ParseCivil(s) == Some(c)
  {
    hide Field, SecondText, ValidCivil, ParseTail;
    FieldsRead(s, c, tail);
  }

  /** Main result: what is stored is read back exactly. */
  lemma ParseFormat(t: Instant)
    ensures ParseTS(FormatTS(t)) == Some(t)
  {
    var c := ToCivil(t);
    ParseFixedTail(c.nano);
    ParseSecondText(FormatTS(t), c, "." + Pad(c.nano, Dec, 9) + "Z");
    FromToCivil(t);
  }

  /** No '|' inside a stored timestamp, so it can lead a '|'-separated cursor. */
  lemma NoSeparator(t: Instant)
    ensures '|' !in FormatTS(t)
  {
    var c := ToCivil(t);
    PadPlain(c.nano, 9);
    PlainSecondText(c, "." + Pad(c.nano, Dec, 9) + "Z");
  }

  lemma PlainSecondText(c: Civil, tail: string)
    requires '|' !in tail
    ensures '|' !in SecondText(c, tail)
  {
    hide Pad;
    PadPlain(c.year, 4); PadPlain(c.month, 2); PadPlain(c.day, 2);
    PadPlain(c.hour, 2); PadPlain(c.minute, 2); PadPlain(c.second, 2);
  }

  lemma PadPlain(n: nat, width: nat)
    ensures '|' !in Pad(n, Dec, width)
  {
    assert DigitValue('|') == 16;
  }

  // ---------------------------------------------------------------- the layout it replaced

  /** The nine digits without trailing zeros. */
  function Strip(digits: string): (r: string)
    ensures r <= digits
    ensures r == [] || r[|r| - 1] != '0'
    ensures forall i :: |r| <= i < |digits| ==> digits[i] == '0'
  {
    if digits != [] && digits[|digits| - 1] == '0' then Strip(digits[..|digits| - 1]) else digits
  }

  function Dotted(r: string): string { if r == [] then "" else "." + r }

  /** The fraction of the zero-suppressed layout: nothing at all for a whole second. */
  function FractionText(nano: nat): string {
    Dotted(Strip(Pad(nano, Dec, 9)))
  }

  /** time.RFC3339Nano: trailing zeros of the fraction are dropped. */
  function FormatSuppressed(t: Instant): string {
    var c := ToCivil(t);
    SecondText(c, FractionText(c.nano) + "Z")
  }

  /** Reading is indifferent to the layout: the zero-suppressed text gives the same instant. */
  lemma ParseSuppressed(t: Instant)
    ensures ParseTS(FormatSuppressed(t)) == Some(t)
  {
    var c := ToCivil(t);
    ParseSuppressedTail(c.nano);
    ParseSecondText(FormatSuppressed(t), c, FractionText(c.nano) + "Z");
    FromToCivil(t);
  }

  lemma ParseSuppressedTail(nano: nat)
    requires nano < NANOS
    ensures ParseTail(FractionText(nano) + "Z") == Some(nano)
  {
    var p := Pad(nano, Dec, 9);
    var r := Strip(p);
    assert (r + "000000000")[..9] == p;
    assert FractionNanos(r) == nano by {
      Capacities();
      PadValue(nano, Dec, 9);
    }
    ParseDotted(r);
    Zeros();
  }

  lemma ParseDotted(r: string)
    requires AllDigits(r, Dec)
    ensures ParseTail(Dotted(r) + "Z") == Some(if r == [] then 0 else FractionNanos(r))
  {
    var tail := Dotted(r) + "Z";
    if r == [] {
      assert tail == "Z";
    } else {
      assert tail == "." + r + "Z" && tail[1..] == r + "Z" && tail[1..|r| + 1] == r && tail[|r| + 1..] == "Z";
      DigitRunOf(r, "Z");
    }
  }

  lemma Zeros()
    ensures Value("000000000", Dec) == 0 && ("" + "000000000")[..9] == "000000000"
  {
    ZeroText(9);
    assert "000000000" == seq(9, _ => '0');
  }

  lemma {:induction false} ZeroText(n: nat)
    ensures Value(seq(n, _ => '0'), Dec) == 0
  {
    if n > 0 {
      ZeroText(n - 1);
      assert seq(n, _ => '0')[..n - 1] == seq(n - 1, _ => '0');
    }
  }

  /** Cutting trailing zeros keeps the order unless one text becomes a prefix of the other. */
  lemma {:induction false} CutOrder(a: string, b: string, i: nat, j: nat)
    requires |a| == |b| && i <= |a| && j <= |b|
    requires AllDigits(a, Dec)
    requires forall k :: j <= k < |b| ==> b[k] == '0'
    requires Less(a, b) && !(a[..i] <= b[..j])
    ensures Less(a[..i] + "Z", b[..j] + "Z")
  {
    if j > 0 {
      var x, y := a[..i] + "Z", b[..j] + "Z";
      assert x[0] == a[0] && y[0] == b[0];
      if a[0] == b[0] {
        assert a[..i] == [a[0]] + a[1..][..i - 1] && b[..j] == [b[0]] + b[1..][..j - 1];
        CutOrder(a[1..], b[1..], i - 1, j - 1);
        assert x[1..] == a[1..][..i - 1] + "Z" && y[1..] == b[1..][..j - 1] + "Z";
      }
    } else {
      ZerosAreLeast(a, b);
    }
  }

  lemma {:induction false} ZerosAreLeast(a: string, b: string)
    requires |a| == |b| && AllDigits(a, Dec) && forall k :: 0 <= k < |b| ==> b[k] == '0'
    ensures !Less(a, b)
  {
    if a != [] {
      ZerosAreLeast(a[1..], b[1..]);
    }
  }

  /** Why the layout is fixed-width: for t before u, the zero-suppressed texts sort the right way
      round exactly when the two are in different seconds or neither fraction extends the other's. */
  lemma SuppressedOrder(t: Instant, u: Instant)
    requires t < u
    ensures Less(FormatSuppressed(t), FormatSuppressed(u)) <==>
            !(SameSecond(ToCivil(t), ToCivil(u)) && FractionText(ToCivil(t).nano) <= FractionText(ToCivil(u).nano))
  {
    var c, d := ToCivil(t), ToCivil(u);
    InstantOrder(t, u);
    SecondTextOrder(c, d, FractionText(c.nano) + "Z", FractionText(d.nano) + "Z");
    if SameSecond(c, d) {
      FractionOrder(c.nano, d.nano);
    }
  }

  lemma FractionOrder(n: nat, m: nat)
    requires n < m < NANOS
    ensures Less(FractionText(n) + "Z", FractionText(m) + "Z") <==> !(FractionText(n) <= FractionText(m))
  {
    var p, q := Pad(n, Dec, 9), Pad(m, Dec, 9);
    assert Less(p, q) by {
      Capacities();
      PadOrder(n, m, Dec, 9);
    }
    StrippedOrder(p, q);
  }

  lemma StrippedOrder(p: string, q: string)
    requires |p| == |q| && Less(p, q) && AllDigits(p, Dec) && AllDigits(q, Dec)
    ensures Less(Dotted(Strip(p)) + "Z", Dotted(Strip(q)) + "Z") <==> !(Dotted(Strip(p)) <= Dotted(Strip(q)))
  {
    hide *;
    var x, y := Strip(p), Strip(q);
    if y == [] {
      StrippedToNothing(p, q);
    } else if x == [] {
      NothingDotted(y);
    } else {
      DottedOrder(x, y);
      if x <= y {
        LessIrreflexive(p);
        PrefixDigits(x, y, p, q);
      } else {
        CutOrder(p, q, |x|, |y|);
        assert p[..|x|] == x && q[..|y|] == y;
      }
    }
  }

  lemma StrippedToNothing(p: string, q: string)
    requires |p| == |q| && AllDigits(p, Dec) && Strip(q) == []
    ensures !Less(p, q)
  {
    ZerosAreLeast(p, q);
  }

  lemma NothingDotted(y: string)
    requires y != []
    ensures !Less(Dotted("") + "Z", Dotted(y) + "Z") && Dotted("") <= Dotted(y)
  {
    assert Dotted("") + "Z" == "Z" && (Dotted(y) + "Z")[0] == '.';
  }

  lemma DottedOrder(x: string, y: string)
    requires x != [] && y != []
    ensures Less(Dotted(x) + "Z", Dotted(y) + "Z") <==> Less(x + "Z", y + "Z")
    ensures Dotted(x) <= Dotted(y) <==> x <= y
  {
    hide Less;
    assert Dotted(x) + "Z" == "." + (x + "Z") && Dotted(y) + "Z" == "." + (y + "Z");
    LessPrefix(".", x + "Z", y + "Z");
    assert Dotted(x)[1..] == x && Dotted(y)[1..] == y;
    if x <= y {
      assert Dotted(y) == Dotted(x) + y[|x|..];
    }
  }

  /** A proper extension by a digit sorts before the shorter text once both end in 'Z'. */
  lemma PrefixDigits(x: string, y: string, p: string, q: string)
    requires x <= y <= q && x <= p && |p| == |q| && p != q
    requires forall k :: |x| <= k < |p| ==> p[k] == '0'
    requires forall k :: |y| <= k < |q| ==> q[k] == '0'
    requires AllDigits(q, Dec)
    ensures !Less(x + "Z", y + "Z")
  {
    if |x| < |y| {
      var rest := y[|x|..] + "Z";
      assert y + "Z" == x + rest && rest[0] == q[|x|];
      LessPrefix(x, "Z", rest);
    }
  }

  /** In particular a whole second always sorts after every later instant of that second. */
  lemma WholeSecondMisordered(t: Instant, delta: nat)
    requires t % NANOS == 0 && 0 < delta < NANOS && t + delta < DaysBeforeYear(10000) * DAY_SECONDS * NANOS
    ensures Less(FormatSuppressed(t + delta), FormatSuppressed(t))
  {
    hide *;
    var u: Instant := t + delta;
    WithinSecond(t, delta);
    NoFraction();
    SuppressedOrder(t, u);
    LessTotal(FormatSuppressed(t), FormatSuppressed(u));
    ParseSuppressed(t);
    ParseSuppressed(u);
  }

  lemma NoFraction()
    ensures FractionText(0) == ""
  {
    StripZero(9);
  }

  lemma WithinSecond(t: Instant, delta: nat)
    requires t % NANOS == 0 && delta < NANOS && t + delta < DaysBeforeYear(10000) * DAY_SECONDS * NANOS
    ensures ToCivil(t).nano == 0 && SameSecond(ToCivil(t), ToCivil(t + delta))
  {
    assert (t + delta) / NANOS == t / NANOS;
  }

  lemma {:induction false} StripZero(width: nat)
    ensures Strip(Pad(0, Dec, width)) == []
  {
    if width > 0 {
      StripZero(width - 1);
      var s := Pad(0, Dec, width);
      assert s[..|s| - 1] == Pad(0, Dec, width - 1);
    }
  }
}
