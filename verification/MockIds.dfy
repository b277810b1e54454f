/** The identifiers of the mock's events (internal/fleet/mock.go, uuidv7At): the layout of section 5.7 of
    RFC 9562, with a counter where the random bits go.
 */
module MockIds {
  import opened Lex

  const EPOCH := 0x1_0000_0000_0000
  const COUNTERS := 0x1_0000_0000_0000_0000

  datatype Groups = Groups(hi: nat, mid: nat, rand1: nat, rand2: nat, rand3: nat)

  /** Milliseconds are cut to 48 bits, the counter to its twelve low bits, the next twelve, and the rest. */
  function GroupsOf(ms: int, counter: nat): (g: Groups)
    requires counter < COUNTERS
    ensures Fits(g)
  {
    Groups(ms / 0x1_0000 % 0x1_0000_0000, ms % 0x1_0000, counter % 0x1000, counter / 0x1000 % 0x1000,
           counter / 0x100_0000)
  }

  predicate Fits(g: Groups) {
    g.hi < 0x1_0000_0000 && g.mid < 0x1_0000 && g.rand1 < 0x1000 && g.rand2 < 0x1000 && g.rand3 < EPOCH
  }

  function Tail3(g: Groups): string { "-" + Pad(g.rand3, Hex, 12) }
  function Tail2(g: Groups): string { "-8" + (Pad(g.rand2, Hex, 3) + Tail3(g)) }
  function Tail1(g: Groups): string { "-7" + (Pad(g.rand1, Hex, 3) + Tail2(g)) }
  function Tail0(g: Groups): string { "-" + (Pad(g.mid, Hex, 4) + Tail1(g)) }
  function Text(g: Groups): string { Pad(g.hi, Hex, 8) + Tail0(g) }

  function UuidAt(ms: int, counter: nat): string
    requires counter < COUNTERS
  {
    Text(GroupsOf(ms, counter))
  }

  lemma UuidLength(ms: int, counter: nat)
    requires counter < COUNTERS
    ensures |UuidAt(ms, counter)| == 36
  {
    hide GroupsOf;
  }

  /** Hexadecimal digits of one field, where they stand. */
  predicate Holds(u: string, lo: nat, hi: nat, n: nat) {
    lo <= hi <= |u| && AllDigits(u[lo..hi], Hex) && Value(u[lo..hi], Hex) == n
  }

  /** The layout: 48 bits of milliseconds, version 7, twelve counter bits, variant 8, twelve more, and the rest. */
  lemma LayoutIs(ms: int, counter: nat)
    requires counter < COUNTERS
    ensures var u := UuidAt(ms, counter);
      && |u| == 36 && u[8] == '-' && u[13] == '-' && u[14] == '7' && u[18] == '-' && u[19] == '8' && u[23] == '-'
      && Holds(u, 0, 8, ms / 65536 % 0x1_0000_0000) && Holds(u, 9, 13, ms % 65536)
      && Holds(u, 15, 18, counter % 4096) && Holds(u, 20, 23, counter / 4096 % 4096)
      && Holds(u, 24, 36, counter / 16_777_216)
  {
    var g := GroupsOf(ms, counter);
    Places(g);
    Capacities();
    PadValue(g.hi, Hex, 8);
    PadValue(g.mid, Hex, 4);
    PadValue(g.rand1, Hex, 3);
    PadValue(g.rand2, Hex, 3);
    PadValue(g.rand3, Hex, 12);
    hide Pad, Value, Capacity, Text, AllDigits;
  }

  lemma Places(g: Groups)
    ensures var u := Text(g);
      && |u| == 36 && u[8] == '-' && u[13] == '-' && u[14] == '7' && u[18] == '-' && u[19] == '8' && u[23] == '-'
      && u[0..8] == Pad(g.hi, Hex, 8) && u[9..13] == Pad(g.mid, Hex, 4) && u[15..18] == Pad(g.rand1, Hex, 3)
      && u[20..23] == Pad(g.rand2, Hex, 3) && u[24..36] == Pad(g.rand3, Hex, 12)
  {
    hide Pad, AllDigits;
    var u, a, b, c, d := Text(g), Tail0(g), Tail1(g), Tail2(g), Tail3(g);
    assert u[0..] == "" + (Pad(g.hi, Hex, 8) + a);
    assert d == "-" + (Pad(g.rand3, Hex, 12) + "");
    Behind("", Pad(g.hi, Hex, 8), a, u, 0);
    FourGroups(g, u, a, b, c, d);
  }

  lemma FourGroups(g: Groups, u: string, a: string, b: string, c: string, d: string)
    requires 8 <= |u| && u[8..] == a && a == "-" + (Pad(g.mid, Hex, 4) + b) && b == "-7" + (Pad(g.rand1, Hex, 3) + c)
    requires c == "-8" + (Pad(g.rand2, Hex, 3) + d) && d == "-" + (Pad(g.rand3, Hex, 12) + "")
    ensures |u| == 36 && u[8] == '-' && u[13] == '-' && u[14] == '7' && u[18] == '-' && u[19] == '8' && u[23] == '-'
    ensures u[9..13] == Pad(g.mid, Hex, 4) && u[15..18] == Pad(g.rand1, Hex, 3)
    ensures u[20..23] == Pad(g.rand2, Hex, 3) && u[24..36] == Pad(g.rand3, Hex, 12)
  {
    hide *;
    Behind("-", Pad(g.mid, Hex, 4), b, u, 8);
    Behind("-7", Pad(g.rand1, Hex, 3), c, u, 13);
    Behind("-8", Pad(g.rand2, Hex, 3), d, u, 18);
    Behind("-", Pad(g.rand3, Hex, 12), "", u, 23);
    assert u[13 + 0] == "-7"[0] && u[13 + 1] == "-7"[1] && u[18 + 0] == "-8"[0] && u[18 + 1] == "-8"[1];
    assert u[8 + 0] == "-"[0] && u[23 + 0] == "-"[0];
  }

  /** Reading off one separator and one field. */
  lemma Behind(sep: string, field: string, rest: string, u: string, at: nat)
    requires at <= |u| && u[at..] == sep + (field + rest)
    ensures |u| == at + |sep| + |field| + |rest|
    ensures forall i :: 0 <= i < |sep| ==> u[at + i] == sep[i]
    ensures u[at + |sep|..at + |sep| + |field|] == field && u[at + |sep| + |field|..] == rest
  {
    var t := u[at..];
    assert t[|sep|..] == field + rest && t[|sep|..|sep| + |field|] == field && t[|sep| + |field|..] == rest;
    assert u[at + |sep|..at + |sep| + |field|] == t[|sep|..|sep| + |field|];
    assert u[at + |sep| + |field|..] == t[|sep| + |field|..];
    forall i | 0 <= i < |sep| ensures u[at + i] == sep[i] {
      assert u[at + i] == t[i];
    }
  }

  // ---------------------------------------------------------------- order

  predicate CounterBefore(g: Groups, h: Groups) {
    g.rand1 < h.rand1 || (g.rand1 == h.rand1 && (g.rand2 < h.rand2 || (g.rand2 == h.rand2 && g.rand3 < h.rand3)))
  }

  predicate GroupsBefore(g: Groups, h: Groups) {
    g.hi < h.hi || (g.hi == h.hi && (g.mid < h.mid || (g.mid == h.mid && CounterBefore(g, h))))
  }

  lemma Capacities()
    ensures Capacity(Hex, 3) == 0x1000 && Capacity(Hex, 4) == 0x1_0000 && Capacity(Hex, 8) == 0x1_0000_0000
    ensures Capacity(Hex, 12) == EPOCH
  {
    assert Capacity(Hex, 6) == 16 * Capacity(Hex, 5) == 256 * Capacity(Hex, 4);
    assert Capacity(Hex, 8) == 16 * Capacity(Hex, 7) == 256 * Capacity(Hex, 6);
    assert Capacity(Hex, 10) == 16 * Capacity(Hex, 9) == 256 * Capacity(Hex, 8);
    assert Capacity(Hex, 12) == 16 * Capacity(Hex, 11) == 256 * Capacity(Hex, 10);
  }

  /** One more group in front, after its separator. */
  lemma GroupOrder(sep: string, n: nat, m: nat, width: nat, x: string, y: string)
    requires n < Capacity(Hex, width) && m < Capacity(Hex, width)
    ensures n < m ==> Less(sep + (Pad(n, Hex, width) + x), sep + (Pad(m, Hex, width) + y))
    ensures n == m ==> (Less(sep + (Pad(n, Hex, width) + x), sep + (Pad(m, Hex, width) + y)) <==> Less(x, y))
  {
    FieldOrder(n, m, Hex, width, x, y);
    LessPrefix(sep, Pad(n, Hex, width) + x, Pad(m, Hex, width) + y);
  }

  lemma CounterOrder(g: Groups, h: Groups)
    requires Fits(g) && Fits(h) && CounterBefore(g, h)
    ensures Less(Tail1(g), Tail1(h))
  {
    hide Pad, Less;
    Capacities();
    GroupOrder("-7", g.rand1, h.rand1, 3, Tail2(g), Tail2(h));
    GroupOrder("-8", g.rand2, h.rand2, 3, Tail3(g), Tail3(h));
    if g.rand3 < h.rand3 {
      PadOrder(g.rand3, h.rand3, Hex, 12);
      LessPrefix("-", Pad(g.rand3, Hex, 12), Pad(h.rand3, Hex, 12));
    }
  }

  lemma TextOrder(g: Groups, h: Groups)
    requires Fits(g) && Fits(h) && GroupsBefore(g, h)
    ensures Less(Text(g), Text(h))
  {
    if g.hi == h.hi && g.mid == h.mid {
      CounterOrder(g, h);
    }
    hide Pad, Less, Tail1;
    Capacities();
    GroupOrder("-", g.mid, h.mid, 4, Tail1(g), Tail1(h));
    FieldOrder(g.hi, h.hi, Hex, 8, Tail0(g), Tail0(h));
  }

  lemma TextOrderIff(g: Groups, h: Groups)
    requires Fits(g) && Fits(h)
    ensures Less(Text(g), Text(h)) <==> GroupsBefore(g, h)
    ensures Text(g) == Text(h) <==> g == h
  {
    hide Text;
    if GroupsBefore(g, h) {
      TextOrder(g, h);
      LessAsymmetric(Text(g), Text(h));
    } else if GroupsBefore(h, g) {
      TextOrder(h, g);
      LessAsymmetric(Text(h), Text(g));
    } else {
      assert g == h;
      LessIrreflexive(Text(g));
    }
  }

  lemma MillisOrder(ms: int, ms': int)
    ensures var h, h' := ms / 0x1_0000 % 0x1_0000_0000, ms' / 0x1_0000 % 0x1_0000_0000;
            h < h' || (h == h' && ms % 0x1_0000 < ms' % 0x1_0000) <==> ms % EPOCH < ms' % EPOCH
    ensures ms / 0x1_0000 % 0x1_0000_0000 == ms' / 0x1_0000 % 0x1_0000_0000 && ms % 0x1_0000 == ms' % 0x1_0000 <==>
            ms % EPOCH == ms' % EPOCH
  {
    Halves(ms);
    Halves(ms');
  }

  lemma Halves(ms: int)
    ensures ms % EPOCH == ms / 0x1_0000 % 0x1_0000_0000 * 0x1_0000 + ms % 0x1_0000
  {}

  lemma CounterGroups(c: nat, d: nat)
    ensures c == d <==> c % 0x1000 == d % 0x1000 && c / 0x1000 % 0x1000 == d / 0x1000 % 0x1000 &&
                        c / 0x100_0000 == d / 0x100_0000
  {
    assert c / 0x100_0000 == c / 0x1000 / 0x1000 && d / 0x100_0000 == d / 0x1000 / 0x1000;
  }

  /** Main result: identifiers sort by their milliseconds, reckoned modulo 2^48; within one millisecond by the
      groups of the counter, low bits first. No two pairs share an identifier. */
  lemma UuidOrder(ms: int, c: nat, ms': int, c': nat)
    requires c < COUNTERS && c' < COUNTERS
    ensures Less(UuidAt(ms, c), UuidAt(ms', c')) <==>
              ms % EPOCH < ms' % EPOCH ||
              (ms % EPOCH == ms' % EPOCH && CounterBefore(GroupsOf(ms, c), GroupsOf(ms', c')))
    ensures UuidAt(ms, c) == UuidAt(ms', c') <==> ms % EPOCH == ms' % EPOCH && c == c'
  {
    TextOrderIff(GroupsOf(ms, c), GroupsOf(ms', c'));
    MillisOrder(ms, ms');
    CounterGroups(c, c');
    hide Text, Less, CounterBefore;
  }

  lemma SmallMillis(ms: nat)
    requires ms < EPOCH
    ensures ms % EPOCH == ms
  {}

  /** Within 48 bits the identifiers are in time order. */
  lemma LaterIsGreater(ms: nat, c: nat, ms': nat, c': nat)
    requires ms < ms' < EPOCH && c < COUNTERS && c' < COUNTERS
    ensures Less(UuidAt(ms, c), UuidAt(ms', c'))
  {
    hide *;
    SmallMillis(ms);
    SmallMillis(ms');
    UuidOrder(ms, c, ms', c');
  }

  /** Within one millisecond the counter orders identifiers as long as it fits the first group, and no further. */
  lemma CounterWithinGroup(ms: int, c: nat, d: nat)
    requires c < d < 0x1000
    ensures Less(UuidAt(ms, c), UuidAt(ms, d))
    ensures Less(UuidAt(ms, 0x1000), UuidAt(ms, 0xFFF))
  {
    FirstGroup(ms, c, d);
    hide *;
    UuidOrder(ms, c, ms, d);
    UuidOrder(ms, 0x1000, ms, 0xFFF);
  }

  lemma FirstGroup(ms: int, c: nat, d: nat)
    requires c < d < 0x1000
    ensures CounterBefore(GroupsOf(ms, c), GroupsOf(ms, d))
    ensures CounterBefore(GroupsOf(ms, 0x1000), GroupsOf(ms, 0xFFF))
  {}
}
