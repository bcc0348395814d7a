/** The stamps that messages are dated with (internal/gmailapi/message.go), and
    their order as strings (section 5.1 of RFC 3339). */
module Rfc3339 {
  import opened Text

  // ---- the proleptic Gregorian calendar ------------------------------------------------

  predicate IsLeap(y: nat) {
    y % 4 == 0 && (y % 100 != 0 || y % 400 == 0)
  }

  function YearDays(y: nat): nat {
    if IsLeap(y) then 366 else 365
  }

  function MonthDays(y: nat, m: nat): nat {
    if m == 2 then (if IsLeap(y) then 29 else 28)
    else if m == 4 || m == 6 || m == 9 || m == 11 then 30
    else 31
  }

  /** The year and the day in it, counting `days` from the first of January of year `y`. */
  function YearOf(days: nat, y: nat): (nat, nat)
    decreases days
  {
    if days < YearDays(y) then (y, days) else YearOf(days - YearDays(y), y + 1)
  }

  /** The month and the day in it, counting `days` from the first day of month `m`. */
  function MonthOf(y: nat, days: nat, m: nat): (nat, nat)
    decreases days
  {
    if days < MonthDays(y, m) || m >= 12 then (m, days) else MonthOf(y, days - MonthDays(y, m), m + 1)
  }

  /** The fields of a UTC stamp, most significant first. */
  function FieldsOf(sec: nat): (f: seq<nat>)
    ensures |f| == 6
  {
    var (y, yday) := YearOf(sec / 86400, 1970);
    var (m, mday) := MonthOf(y, yday, 1);
    var t := sec % 86400;
    [y, m, mday + 1, t / 3600, t / 60 % 60, t % 60]
  }

  function Pad(n: nat, width: nat): string {
    if width == 0 then "" else Pad(n / 10, width - 1) + [Digit(n % 10)]
  }

  /** `time.RFC3339` for a UTC time at or after 1970 (section 5.6 of RFC 3339). */
  function Stamp(sec: nat): string {
    var f := FieldsOf(sec);
    (if f[0] < 10000 then Pad(f[0], 4) else Itoa(f[0])) + "-" + Pad(f[1], 2) + "-" + Pad(f[2], 2)
    + "T" + Pad(f[3], 2) + ":" + Pad(f[4], 2) + ":" + Pad(f[5], 2) + "Z"
  }

  // ---- fields follow time --------------------------------------------------------------

  /** The number of days from 1970 to the start of year `y`. */
  function DaysTo(y: nat): int
    requires y >= 1
  {
    365 * (y - 1970) + (y - 1) / 4 - (y - 1) / 100 + (y - 1) / 400 - 477
  }

  lemma NextFourth(y: nat)
    requires y >= 1
    ensures y / 4 == (y - 1) / 4 + (if y % 4 == 0 then 1 else 0)
  {}

  lemma NextHundredth(y: nat)
    requires y >= 1
    ensures y / 100 == (y - 1) / 100 + (if y % 100 == 0 then 1 else 0)
  {}

  lemma NextFourHundredth(y: nat)
    requires y >= 1
    ensures y / 400 == (y - 1) / 400 + (if y % 400 == 0 then 1 else 0)
  {}

  lemma FourTimes(k: nat)
    ensures 4 * k % 4 == 0
  {}

  lemma HundredTimes(k: nat)
    ensures 100 * k % 100 == 0
  {}

  lemma Century(y: nat)
    requires y % 100 == 0
    ensures y % 4 == 0
  {
    var c := y / 100;
    assert y == 4 * (25 * c);
    FourTimes(25 * c);
  }

  lemma FourCenturies(y: nat)
    requires y % 400 == 0
    ensures y % 100 == 0
  {
    var c := y / 400;
    assert y == 100 * (4 * c);
    HundredTimes(4 * c);
  }

  lemma DaysToNext(y: nat)
    requires y >= 1
    ensures DaysTo(y + 1) == DaysTo(y) + YearDays(y)
  {
    NextFourth(y);
    NextHundredth(y);
    NextFourHundredth(y);
    if y % 100 == 0 { Century(y); }
    if y % 400 == 0 { FourCenturies(y); }
  }

  lemma {:induction false} YearOfMeans(days: nat, y: nat)
    requires y >= 1
    ensures var (y', r) := YearOf(days, y);
            y' >= y && r < YearDays(y') && DaysTo(y') + r == DaysTo(y) + days
    decreases days
  {
    if days >= YearDays(y) {
      DaysToNext(y);
      YearOfMeans(days - YearDays(y), y + 1);
    }
  }

  /** The days of the months from `m` up to, not including, month `n`. */
  function MonthsTo(y: nat, m: nat, n: nat): nat
    decreases n - m
  {
    if m >= n then 0 else MonthDays(y, m) + MonthsTo(y, m + 1, n)
  }

  lemma {:induction false} MonthOfMeans(y: nat, days: nat, m: nat)
    ensures var (m', d) := MonthOf(y, days, m); m' >= m && MonthsTo(y, m, m') + d == days
    decreases days
  {
    if days >= MonthDays(y, m) && m < 12 { MonthOfMeans(y, days - MonthDays(y, m), m + 1); }
  }

  /** The second that the fields of a stamp name. */
  function SecondOf(f: seq<nat>): int
    requires |f| == 6 && f[0] >= 1
  {
    (DaysTo(f[0]) + MonthsTo(f[0], 1, f[1]) + f[2] - 1) * 86400 + f[3] * 3600 + f[4] * 60 + f[5]
  }

  /** Calendar conversion can be undone. */
  lemma FieldsBack(sec: nat)
    ensures FieldsOf(sec)[0] >= 1 && SecondOf(FieldsOf(sec)) == sec
  {
    hide YearOf, MonthOf, MonthsTo, YearDays;
    assert DaysTo(1970) == 0 by { StartOfTime(); }
    var (y, yday) := YearOf(sec / 86400, 1970);
    YearOfMeans(sec / 86400, 1970);
    MonthOfMeans(y, yday, 1);
    ClockBack(sec % 86400);
  }

  lemma ClockBack(t: nat)
    ensures t == t / 3600 * 3600 + t / 60 % 60 * 60 + t % 60
  {
    assert t / 60 / 60 == t / 3600;
  }

  lemma {:induction false} DaysToGrows(y: nat, z: nat)
    requires 1 <= y <= z
    ensures DaysTo(y) <= DaysTo(z)
    decreases z - y
  {
    if y < z {
      DaysToNext(y);
      DaysToGrows(y + 1, z);
    }
  }

  lemma {:induction false} YearOrder(a: nat, b: nat, y: nat)
    requires a < b
    ensures var (p, r) := YearOf(a, y);
            var (q, s) := YearOf(b, y);
            p < q || (p == q && r < s)
    decreases a
  {
    if a >= YearDays(y) {
      YearOrder(a - YearDays(y), b - YearDays(y), y + 1);
    } else if b >= YearDays(y) {
      YearAtLeast(b - YearDays(y), y + 1);
    }
  }

  lemma {:induction false} YearAtLeast(days: nat, y: nat)
    ensures YearOf(days, y).0 >= y
    decreases days
  {
    if days >= YearDays(y) { YearAtLeast(days - YearDays(y), y + 1); }
  }

  lemma {:induction false} MonthOrder(y: nat, a: nat, b: nat, m: nat)
    requires a < b
    ensures var (p, r) := MonthOf(y, a, m);
            var (q, s) := MonthOf(y, b, m);
            p < q || (p == q && r < s)
    decreases a
  {
    if m < 12 && a >= MonthDays(y, m) {
      MonthOrder(y, a - MonthDays(y, m), b - MonthDays(y, m), m + 1);
    } else if m < 12 && b >= MonthDays(y, m) {
      MonthBounds(y, b - MonthDays(y, m), m + 1);
    }
  }

  lemma {:induction false} MonthBounds(y: nat, days: nat, m: nat)
    requires m <= 12
    ensures m <= MonthOf(y, days, m).0 <= 12
    decreases days
  {
    if m < 12 && days >= MonthDays(y, m) { MonthBounds(y, days - MonthDays(y, m), m + 1); }
  }

  lemma YearIsItsMonths(y: nat)
    ensures MonthsTo(y, 1, 13) == YearDays(y)
  {
    assert MonthsTo(y, 10, 13) == 31 + 30 + 31;
    assert MonthsTo(y, 7, 13) == 31 + 31 + 30 + MonthsTo(y, 10, 13);
    assert MonthsTo(y, 4, 13) == 30 + 31 + 30 + MonthsTo(y, 7, 13);
    assert MonthsTo(y, 1, 13) == 31 + MonthDays(y, 2) + 31 + MonthsTo(y, 4, 13);
  }

  lemma {:induction false} DayOfMonthFits(y: nat, days: nat, m: nat)
    requires 1 <= m <= 12 && days < MonthsTo(y, m, 13)
    ensures var (p, d) := MonthOf(y, days, m); p <= 12 && d < MonthDays(y, p)
    decreases days
  {
    if m < 12 && days >= MonthDays(y, m) {
      DayOfMonthFits(y, days - MonthDays(y, m), m + 1);
    }
  }


  /** The field lists first differ at `k`, where `f` is smaller. */
  ghost predicate DifferAt(f: seq<nat>, g: seq<nat>, k: nat) {
    k < |f| == |g| && f[..k] == g[..k] && f[k] < g[k]
  }

  /** The fields of a later second are greater, calendar included. */
  lemma FieldsOrder(a: nat, b: nat) returns (k: nat)
    requires a < b
    ensures DifferAt(FieldsOf(a), FieldsOf(b), k)
  {
    var f, g := FieldsOf(a), FieldsOf(b);
    if a / 86400 < b / 86400 {
      YearOrder(a / 86400, b / 86400, 1970);
      if f[0] == g[0] {
        MonthOrder(f[0], YearOf(a / 86400, 1970).1, YearOf(b / 86400, 1970).1, 1);
      }
    } else {
      assert a % 86400 < b % 86400;
      ClockOrder(a % 86400, b % 86400);
    }
    k := if f[0] != g[0] then 0 else if f[1] != g[1] then 1 else if f[2] != g[2] then 2
         else if f[3] != g[3] then 3 else if f[4] != g[4] then 4 else 5;
    forall i | 0 <= i < k ensures f[i] == g[i] {}
  }

  lemma ClockOrder(s: nat, t: nat)
    requires s < t < 86400
    ensures s / 3600 < t / 3600
         || (s / 3600 == t / 3600 && (s / 60 % 60 < t / 60 % 60 || (s / 60 % 60 == t / 60 % 60 && s % 60 < t % 60)))
  {
    assert s / 60 / 60 == s / 3600 && t / 60 / 60 == t / 3600;
  }

  // ---- printed stamps follow fields ------------------------------------------------------

  /** The strings differ first at `k`, and there `a` is smaller. */
  ghost predicate SmallerAt(a: string, b: string, k: nat) {
    k < |a| && k < |b| && a[..k] == b[..k] && a[k] < b[k]
  }

  lemma {:induction false} SmallerIsLess(a: string, b: string, k: nat)
    requires SmallerAt(a, b, k)
    ensures Less(a, b)
  {
    if k > 0 {
      assert a[0] == a[..k][0] && b[0] == b[..k][0];
      assert a[1..][..k - 1] == a[..k][1..] && b[1..][..k - 1] == b[..k][1..];
      SmallerIsLess(a[1..], b[1..], k - 1);
    }
  }

  lemma {:induction false} LessAsymmetric(a: string, b: string)
    requires Less(a, b)
    ensures !Less(b, a) && a != b
  {
    if a != [] && a[0] == b[0] { LessAsymmetric(a[1..], b[1..]); }
  }

  lemma {:induction false} LessTransitive(a: string, b: string, c: string)
    requires Less(a, b) && Less(b, c)
    ensures Less(a, c)
  {
    if a != [] && a[0] == b[0] == c[0] { LessTransitive(a[1..], b[1..], c[1..]); }
  }

  lemma {:induction false} LessTotal(a: string, b: string)
    ensures a == b || Less(a, b) || Less(b, a)
  {
    if a != [] && b != [] && a[0] == b[0] {
      LessTotal(a[1..], b[1..]);
      if a[1..] == b[1..] { assert a == [a[0]] + a[1..] && b == [b[0]] + b[1..]; }
    }
  }

  function Power10(w: nat): nat {
    if w == 0 then 1 else 10 * Power10(w - 1)
  }

  lemma {:induction false} PadLength(n: nat, w: nat)
    ensures |Pad(n, w)| == w
  {
    if w > 0 { PadLength(n / 10, w - 1); }
  }

  /** Fixed-width decimal printing keeps the order. */
  lemma {:induction false} PadOrder(m: nat, n: nat, w: nat) returns (k: nat)
    requires m < n < Power10(w)
    ensures SmallerAt(Pad(m, w), Pad(n, w), k)
  {
    PadLength(m / 10, w - 1);
    PadLength(n / 10, w - 1);
    if m / 10 == n / 10 {
      k := w - 1;
      assert Pad(m, w)[..k] == Pad(m / 10, w - 1) && Pad(n, w)[..k] == Pad(n / 10, w - 1);
    } else {
      k := PadOrder(m / 10, n / 10, w - 1);
      assert Pad(m, w)[..k] == Pad(m / 10, w - 1)[..k] && Pad(n, w)[..k] == Pad(n / 10, w - 1)[..k];
    }
  }

  /** What follows a difference does not matter. */
  lemma SmallerBefore(a: string, b: string, x: string, y: string, k: nat)
    requires SmallerAt(a, b, k)
    ensures SmallerAt(a + x, b + y, k)
  {
    assert (a + x)[..k] == a[..k] && (b + y)[..k] == b[..k];
  }

  const SEPARATORS := ["-", "-", "T", ":", ":", "Z"]

  function Width(i: nat): nat {
    if i == 0 then 4 else 2
  }

  /** The stamp from field `i` on. */
  function StampFrom(f: seq<nat>, i: nat): string
    requires |f| == 6 && i <= 6
    decreases 6 - i
  {
    if i == 6 then "" else Pad(f[i], Width(i)) + (SEPARATORS[i] + StampFrom(f, i + 1))
  }

  lemma StampIsFields(sec: nat)
    requires FieldsOf(sec)[0] < 10000
    ensures Stamp(sec) == StampFrom(FieldsOf(sec), 0)
  {
    hide Pad, FieldsOf;
    var f := FieldsOf(sec);
    var p0, p1, p2, p3, p4, p5 := Pad(f[0], 4), Pad(f[1], 2), Pad(f[2], 2), Pad(f[3], 2), Pad(f[4], 2), Pad(f[5], 2);
    assert StampFrom(f, 5) == p5 + "Z" by { assert StampFrom(f, 6) == ""; }
    assert StampFrom(f, 4) == p4 + (":" + StampFrom(f, 5));
    assert StampFrom(f, 3) == p3 + (":" + StampFrom(f, 4));
    assert StampFrom(f, 2) == p2 + ("T" + StampFrom(f, 3));
    assert StampFrom(f, 1) == p1 + ("-" + StampFrom(f, 2));
    assert StampFrom(f, 0) == p0 + ("-" + StampFrom(f, 1));
    hide StampFrom;
    Regroup(p0 + "-" + p1 + "-" + p2 + "T", p3, p4, p5);
    Regroup(p0 + "-", p1, p2, StampFrom(f, 3));
    assert p0 + ("-" + StampFrom(f, 1)) == p0 + "-" + StampFrom(f, 1);
  }

  lemma Regroup(head: string, a: string, b: string, c: string)
    ensures head + a + ":" + b + ":" + c + "Z" == head + (a + (":" + (b + (":" + (c + "Z")))))
    ensures head + a + "-" + b + "T" + c == head + (a + ("-" + (b + ("T" + c))))
  {}

  lemma StampDiffersHere(f: seq<nat>, g: seq<nat>, i: nat)
    requires |f| == |g| == 6 && i < 6 && f[i] < g[i] < Power10(Width(i))
    ensures Less(StampFrom(f, i), StampFrom(g, i))
  {
    hide Pad, Power10, Less, Width, SmallerAt;
    var n := PadOrder(f[i], g[i], Width(i));
    SmallerBefore(Pad(f[i], Width(i)), Pad(g[i], Width(i)),
                  SEPARATORS[i] + StampFrom(f, i + 1), SEPARATORS[i] + StampFrom(g, i + 1), n);
    SmallerIsLess(StampFrom(f, i), StampFrom(g, i), n);
  }

  lemma {:induction false} StampFromOrder(f: seq<nat>, g: seq<nat>, i: nat, k: nat)
    requires |f| == |g| == 6 && i <= k && DifferAt(f, g, k)
    requires forall j :: 0 <= j < 6 ==> f[j] < Power10(Width(j)) && g[j] < Power10(Width(j))
    ensures Less(StampFrom(f, i), StampFrom(g, i))
    decreases k - i
  {
    hide Pad, Power10, Less, Width;
    if i == k {
      StampDiffersHere(f, g, i);
    } else {
      assert f[i] == f[..k][i] && g[i] == g[..k][i];
      StampFromOrder(f, g, i + 1, k);
      LessAfter(SEPARATORS[i], StampFrom(f, i + 1), StampFrom(g, i + 1));
      LessAfter(Pad(f[i], Width(i)), SEPARATORS[i] + StampFrom(f, i + 1), SEPARATORS[i] + StampFrom(g, i + 1));
    }
  }

  lemma {:induction false} LessAfter(pre: string, a: string, b: string)
    requires Less(a, b)
    ensures Less(pre + a, pre + b)
  {
    if pre == [] {
      assert pre + a == a && pre + b == b;
    } else {
      assert (pre + a)[1..] == pre[1..] + a && (pre + b)[1..] == pre[1..] + b;
      LessAfter(pre[1..], a, b);
    }
  }

  /** The first second of the year 10000. */
  const END := 253402300800

  lemma EarlierYear(y: nat, z: nat)
    requires y >= 1 && z >= 1 && DaysTo(y) < DaysTo(z)
    ensures y < z
  {
    hide DaysTo;
    if z <= y { DaysToGrows(z, y); }
  }

  lemma FieldWidths(sec: nat)
    requires sec < END
    ensures var f := FieldsOf(sec); |f| == 6 && forall j :: 0 <= j < 6 ==> f[j] < Power10(Width(j))
  {
    var (y, r) := YearOf(sec / 86400, 1970);
    YearOfMeans(sec / 86400, 1970);
    EarlierYear(y, 10000);
    YearIsItsMonths(y);
    DayOfMonthFits(y, r, 1);
    assert Power10(2) == 100 && Power10(4) == 10000 by { assert Power10(1) == 10; assert Power10(3) == 1000; }
  }

  /** Until the end of year 9999, the string order of stamps is the order of time. */
  lemma StampOrder(a: nat, b: nat)
    requires a < END && b < END
    ensures Less(Stamp(a), Stamp(b)) <==> a < b
  {
    hide Stamp, FieldsOf, Less;
    if a < b {
      StampGrows(a, b);
    } else if b < a {
      StampGrows(b, a);
      LessAsymmetric(Stamp(b), Stamp(a));
    } else {
      if Less(Stamp(a), Stamp(a)) { LessAsymmetric(Stamp(a), Stamp(a)); }
    }
  }

  lemma StampGrows(a: nat, b: nat)
    requires a < b < END
    ensures Less(Stamp(a), Stamp(b))
  {
    hide Stamp, FieldsOf, Less, Pad;
    FieldWidths(a);
    FieldWidths(b);
    var k := FieldsOrder(a, b);
    assert Power10(4) == 10000 by { assert Power10(1) == 10; assert Power10(3) == 1000; }
    StampIsFields(a);
    StampIsFields(b);
    StampFromOrder(FieldsOf(a), FieldsOf(b), 0, k);
  }

  /** The bound is sharp: a stamp of year 10000 sorts before one of year 9999. */
  lemma StampOrderEndsThere()
    ensures Less(Stamp(END), Stamp(END - 1))
  {
    hide FieldsOf, Less;
    YearTenThousand();
    FieldWidths(END - 1);
    assert Power10(4) == 10000 by { assert Power10(1) == 10; assert Power10(3) == 1000; }
    assert Itoa(10000)[0] == '1' by {
      assert Itoa(10000) == Itoa(1000) + [Digit(0)];
      assert Itoa(1000) == Itoa(100) + [Digit(0)];
      assert Itoa(100) == Itoa(10) + [Digit(0)];
    }
    assert Pad(9999, 4)[0] == '9' by {
      assert Pad(9999, 4) == Pad(999, 3) + [Digit(9)];
      assert Pad(999, 3) == Pad(99, 2) + [Digit(9)];
      assert Pad(99, 2) == Pad(9, 1) + [Digit(9)];
    }
    assert Stamp(END)[0] == '1' && Stamp(END - 1)[0] == '9';
    SmallerIsLess(Stamp(END), Stamp(END - 1), 0);
  }

  /** The string order of stamps is the order of time on the seconds before `t`
      exactly as long as `t` is not beyond the end of year 9999. */
  lemma StampOrderExactly(t: nat)
    ensures (forall a: nat, b: nat :: a < t && b < t ==> (Less(Stamp(a), Stamp(b)) <==> a < b)) <==> t <= END
  {
    hide Stamp, FieldsOf, Less;
    if t <= END {
      forall a: nat, b: nat | a < t && b < t ensures Less(Stamp(a), Stamp(b)) <==> a < b {
        StampOrder(a, b);
      }
    } else {
      StampOrderEndsThere();
      assert END < t && END - 1 < t && Less(Stamp(END), Stamp(END - 1));
    }
  }

  lemma LastDays()
    ensures END / 86400 == 2932897 && (END - 1) / 86400 == 2932896
  {}

  lemma LastYears()
    ensures DaysTo(10000) == 2932897 && DaysTo(9999) == 2932532
    ensures YearDays(10000) == 366 && YearDays(9999) == 365
  {}

  lemma YearTenThousand()
    ensures FieldsOf(END)[0] == 10000 && FieldsOf(END - 1)[0] == 9999
  {
    LastDays();
    LastYears();
    hide YearOf, MonthOf, DaysTo, YearDays;
    YearIs(2932897, 10000);
    YearIs(2932896, 9999);
  }

  /** The year is the one whose days include the given day. */
  lemma YearIs(days: nat, y: nat)
    requires y >= 1970 && DaysTo(y) <= days < DaysTo(y) + YearDays(y)
    ensures YearOf(days, 1970).0 == y
  {
    hide YearOf, YearDays, DaysTo;
    var (z, r) := YearOf(days, 1970);
    YearOfMeans(days, 1970);
    assert DaysTo(1970) == 0 by { StartOfTime(); }
    DaysToNext(z);
    DaysToNext(y);
    if z < y { DaysToGrows(z + 1, y); }
    if z > y { DaysToGrows(y + 1, z); }
  }

  lemma StartOfTime()
    ensures DaysTo(1970) == 0
  {}

  lemma {:induction false} PadReads(n: nat, w: nat)
    requires n < Power10(w)
    ensures |Pad(n, w)| == w && (forall c :: c in Pad(n, w) ==> IsDigit(c)) && Atoi(Pad(n, w)) == n
  {
    if w > 0 {
      PadReads(n / 10, w - 1);
      assert Pad(n, w)[..w - 1] == Pad(n / 10, w - 1);
    }
  }

  /** A number of `w` digits at position `at`. */
  ghost predicate NumberAt(s: string, at: nat, w: nat, n: nat) {
    at + w <= |s| && (forall c :: c in s[at..at + w] ==> IsDigit(c)) && Atoi(s[at..at + w]) == n
  }

  /** The text is the date-time of section 5.6 of RFC 3339 with these fields, in UTC. */
  ghost predicate Reads(s: string, f: seq<nat>)
    requires |f| == 6
  {
    && |s| == 20
    && NumberAt(s, 0, 4, f[0]) && s[4] == '-' && NumberAt(s, 5, 2, f[1]) && s[7] == '-' && NumberAt(s, 8, 2, f[2])
    && s[10] == 'T' && NumberAt(s, 11, 2, f[3]) && s[13] == ':' && NumberAt(s, 14, 2, f[4]) && s[16] == ':'
    && NumberAt(s, 17, 2, f[5]) && s[19] == 'Z'
  }

  lemma ReadsParts(y: string, mo: string, d: string, h: string, mi: string, se: string)
    requires |y| == 4 && |mo| == |d| == |h| == |mi| == |se| == 2
    ensures var s := y + "-" + mo + "-" + d + "T" + h + ":" + mi + ":" + se + "Z";
            && |s| == 20 && s[0..4] == y && s[5..7] == mo && s[8..10] == d && s[11..13] == h && s[14..16] == mi && s[17..19] == se
            && s[4] == '-' && s[7] == '-' && s[10] == 'T' && s[13] == ':' && s[16] == ':' && s[19] == 'Z'
  {}

  lemma FieldsFit(sec: nat)
    requires sec < END
    ensures var f := FieldsOf(sec);
            f[0] < 10000 && f[0] < Power10(4) && forall j :: 1 <= j < 6 ==> f[j] < Power10(2)
  {
    FieldWidths(sec);
    hide FieldsOf;
    assert Power10(4) == 10000 by { assert Power10(1) == 10; assert Power10(3) == 1000; }
  }

  /** Until the end of year 9999 a stamp reads as the fields of its second. */
  lemma StampReads(sec: nat)
    requires sec < END
    ensures Reads(Stamp(sec), FieldsOf(sec))
    ensures FieldsOf(sec)[0] >= 1 && SecondOf(FieldsOf(sec)) == sec
  {
    hide FieldsOf, Power10, SecondOf, Pad;
    FieldsBack(sec);
    FieldsFit(sec);
    var f := FieldsOf(sec);
    PadReads(f[0], 4);
    PadReads(f[1], 2);
    PadReads(f[2], 2);
    PadReads(f[3], 2);
    PadReads(f[4], 2);
    PadReads(f[5], 2);
    ReadsParts(Pad(f[0], 4), Pad(f[1], 2), Pad(f[2], 2), Pad(f[3], 2), Pad(f[4], 2), Pad(f[5], 2));
  }
}
