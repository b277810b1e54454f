/** Lexicographic order on text and fixed-width digits.

    SQLite compares TEXT columns byte by byte and Go compares strings the same
    way; UTF-8 keeps code point order, so comparing characters is comparing bytes.
 */
module Lex {

  /** a sorts strictly before b. */
  predicate Less(a: string, b: string) {
    |b| != 0 && (|a| == 0 || a[0] < b[0] || (a[0] == b[0] && Less(a[1..], b[1..])))
  }

  lemma {:induction false} LessIrreflexive(a: string)
    ensures !Less(a, a)
  {
    if a != [] {
      LessIrreflexive(a[1..]);
    }
  }

  lemma {:induction false} LessTransitive(a: string, b: string, c: string)
    requires Less(a, b) && Less(b, c)
    ensures Less(a, c)
  {
    if a != [] && a[0] == b[0] == c[0] {
      LessTransitive(a[1..], b[1..], c[1..]);
    }
  }

  lemma {:induction false} LessTotal(a: string, b: string)
    ensures a == b || Less(a, b) || Less(b, a)
  {
    if a != [] && b != [] && a[0] == b[0] {
      LessTotal(a[1..], b[1..]);
      assert a == [a[0]] + a[1..] && b == [b[0]] + b[1..];
    }
  }

  lemma LessAsymmetric(a: string, b: string)
    requires Less(a, b)
    ensures !Less(b, a) && a != b
  {
    LessIrreflexive(a);
    if Less(b, a) {
      LessTransitive(a, b, a);
    }
  }

  /** A shared prefix does not matter. */
  lemma {:induction false} LessPrefix(p: string, a: string, b: string)
    ensures Less(p + a, p + b) <==> Less(a, b)
  {
    if p == [] {
      assert p + a == a && p + b == b;
    } else {
      LessPrefix(p[1..], a, b);
      assert (p + a)[1..] == p[1..] + a && (p + b)[1..] == p[1..] + b;
    }
  }

  /** Once two fields of one width differ, what follows does not matter. */
  lemma {:induction false} LessField(a: string, b: string, x: string, y: string)
    requires |a| == |b| && Less(a, b)
    ensures Less(a + x, b + y)
  {
    assert (a + x)[0] == a[0] && (b + y)[0] == b[0];
    if a[0] == b[0] {
      LessField(a[1..], b[1..], x, y);
      assert (a + x)[1..] == a[1..] + x && (b + y)[1..] == b[1..] + y;
    }
  }

  /** The two numeral systems the program prints: decimal, and hexadecimal in identifiers. */
  datatype Base = Dec | Hex {
    function Times(n: nat): nat { if Dec? then 10 * n else 16 * n }
    function Quotient(n: nat): nat { if Dec? then n / 10 else n / 16 }
    function Remainder(n: nat): (d: nat)
      ensures d < Times(1)
    {
      if Dec? then n % 10 else n % 16
    }
  }

  /** How many numbers fit in a given number of digits. */
  function Capacity(base: Base, width: nat): nat {
    if width == 0 then 1 else base.Times(Capacity(base, width - 1))
  }

  function Digit(d: nat): char
    requires d < 16
  {
    if d < 10 then ('0' as int + d) as char else ('a' as int + d - 10) as char
  }

  /** The value of a digit character; 16 for a character that is no digit. */
  function DigitValue(c: char): (d: nat)
    ensures d < 16 ==> Digit(d) == c
    ensures forall v: nat :: v < 16 && Digit(v) == c ==> d == v
  {
    if '0' <= c <= '9' then c as int - '0' as int
    else if 'a' <= c <= 'f' then c as int - 'a' as int + 10
    else 16
  }

  predicate AllDigits(s: string, base: Base) {
    forall i :: 0 <= i < |s| ==> DigitValue(s[i]) < base.Times(1)
  }

  /** The digits of n, zero-padded to the width. */
  function Pad(n: nat, base: Base, width: nat): (s: string)
    ensures |s| == width && AllDigits(s, base)
  {
    if width == 0 then "" else Pad(base.Quotient(n), base, width - 1) + [Digit(base.Remainder(n))]
  }

  /** The number a digit string denotes. */
  function Value(s: string, base: Base): nat {
    if s == [] then 0 else base.Times(Value(s[..|s| - 1], base)) + DigitValue(s[|s| - 1])
  }

  lemma {:induction false} PadValue(n: nat, base: Base, width: nat)
    requires n < Capacity(base, width)
    ensures Value(Pad(n, base, width), base) == n
  {
    if width > 0 {
      PadValue(base.Quotient(n), base, width - 1);
      var s := Pad(n, base, width);
      assert s[..|s| - 1] == Pad(base.Quotient(n), base, width - 1);
    }
  }

  /** Digits read as a number and written again at the same width are unchanged. */
  lemma {:induction false} ValuePad(s: string, base: Base)
    requires AllDigits(s, base)
    ensures Value(s, base) < Capacity(base, |s|)
    ensures Pad(Value(s, base), base, |s|) == s
  {
    if s != [] {
      var init, last := s[..|s| - 1], s[|s| - 1];
      ValuePad(init, base);
      SplitLast(Value(init, base), DigitValue(last), base);
      assert s == init + [last];
    }
  }

  lemma SplitLast(v: nat, d: nat, base: Base)
    requires d < base.Times(1)
    ensures base.Quotient(base.Times(v) + d) == v
    ensures base.Remainder(base.Times(v) + d) == d
  {}

  /** Equal-width numerals sort like the numbers they denote. */
  lemma {:induction false} PadOrder(n: nat, m: nat, base: Base, width: nat)
    requires n < m < Capacity(base, width)
    ensures Less(Pad(n, base, width), Pad(m, base, width))
  {
    assert width > 0;
    var n', m' := base.Quotient(n), base.Quotient(m);
    var p, q := Pad(n', base, width - 1), Pad(m', base, width - 1);
    if n' < m' {
      PadOrder(n', m', base, width - 1);
      LessField(p, q, [Digit(base.Remainder(n))], [Digit(base.Remainder(m))]);
    } else {
      LessPrefix(p, [Digit(base.Remainder(n))], [Digit(base.Remainder(m))]);
    }
  }

  /** A fixed-width field decides, unless both sides have the same number in it. */
  lemma FieldOrder(n: nat, m: nat, base: Base, width: nat, x: string, y: string)
    requires n < Capacity(base, width) && m < Capacity(base, width)
    ensures n < m ==> Less(Pad(n, base, width) + x, Pad(m, base, width) + y)
    ensures n == m ==> (Less(Pad(n, base, width) + x, Pad(m, base, width) + y) <==> Less(x, y))
  {
    if n < m {
      PadOrder(n, m, base, width);
      LessField(Pad(n, base, width), Pad(m, base, width), x, y);
    } else if n == m {
      LessPrefix(Pad(n, base, width), x, y);
    }
  }
}
