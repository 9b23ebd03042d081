/** The calendar arithmetic of `src/did.rs`: from Unix seconds to a sortable date string. */
module Calendar {
  import opened Basics

  /** The leap rule of Appendix C of RFC 3339. */
  predicate IsLeap(y: nat) {
    (y % 4 == 0 && y % 100 != 0) || y % 400 == 0
  }

  function YearDays(y: nat): nat {
    if IsLeap(y) then 366 else 365
  }

  function MonthDays(y: nat): (ms: seq<nat>)
    ensures |ms| == 12
  {
    if IsLeap(y) then [31, 29, 31, 30, 31, 30, 31, 31, 30, 31, 30, 31]
    else [31, 28, 31, 30, 31, 30, 31, 31, 30, 31, 30, 31]
  }

  datatype Date = Date(year: nat, month: nat, day: nat)

  predicate ValidDate(d: Date) {
    1970 <= d.year && 1 <= d.month <= 12 && 1 <= d.day <= MonthDays(d.year)[d.month - 1]
  }

  // ---------------------------------------------------------------- closed form

  /** Leap years up to and including `y`. */
  function LeapsThrough(y: nat): int {
    y / 4 - y / 100 + y / 400
  }

  /** Days from the first of January 1970 to the first of January of `y`. */
  function DaysToYear(y: nat): int
    requires y >= 1
  {
    365 * (y - 1970) + LeapsThrough(y - 1) - LeapsThrough(1969)
  }

  /** Days of the year before month `m`: from March on, five months have 153 days. */
  function DaysToMonth(y: nat, m: nat): nat
    requires 1 <= m <= 13
  {
    if m <= 2 then 31 * (m - 1) else YearDays(y) - 306 + (153 * (m - 3) + 2) / 5
  }

  function DayNumber(d: Date): int
    requires ValidDate(d)
  {
    DaysToYear(d.year) + DaysToMonth(d.year, d.month) + d.day - 1
  }

  lemma Hundreds(y: nat, q: nat)
    requires y == 100 * q
    ensures y % 100 == 0
  {
  }

  lemma Fours(y: nat, q: nat)
    requires y == 4 * q
    ensures y % 4 == 0
  {
  }

  lemma Divisors(y: nat)
    ensures y % 400 == 0 ==> y % 100 == 0
    ensures y % 100 == 0 ==> y % 4 == 0
  {
    if y % 400 == 0 { Hundreds(y, 4 * (y / 400)); }
    if y % 100 == 0 { Fours(y, 25 * (y / 100)); }
  }

  lemma EveryFour(y: nat)
    requires y >= 1
    ensures y / 4 - (y - 1) / 4 == if y % 4 == 0 then 1 else 0
  {
  }

  lemma EveryHundred(y: nat)
    requires y >= 1
    ensures y / 100 - (y - 1) / 100 == if y % 100 == 0 then 1 else 0
  {
  }

  lemma EveryFourHundred(y: nat)
    requires y >= 1
    ensures y / 400 - (y - 1) / 400 == if y % 400 == 0 then 1 else 0
  {
  }

  lemma NextYear(y: nat)
    requires y >= 1
    ensures DaysToYear(y + 1) == DaysToYear(y) + YearDays(y)
  {
    EveryFour(y);
    EveryHundred(y);
    EveryFourHundred(y);
    Divisors(y);
  }

  lemma NextMonth(y: nat, m: nat)
    requires 1 <= m <= 12
    ensures DaysToMonth(y, m + 1) == DaysToMonth(y, m) + MonthDays(y)[m - 1]
  {
    var lengths := MonthDays(y);
    assert lengths[0] == 31 && lengths[1] == YearDays(y) - 337 && lengths[2] == 31 && lengths[3] == 30;
    assert lengths[4] == 31 && lengths[5] == 30 && lengths[6] == 31 && lengths[7] == 31 && lengths[8] == 30;
    assert lengths[9] == 31 && lengths[10] == 30 && lengths[11] == 31;
  }

  lemma MonthTable(y: nat)
    ensures DaysToMonth(y, 13) == YearDays(y)
  {
  }

  // ---------------------------------------------------------------- the loops

  function YearOf(days: nat, year: nat): nat {
    if days < YearDays(year) then year else YearOf(days - YearDays(year), year + 1)
  }

  function DayOfYear(days: nat, year: nat): nat {
    if days < YearDays(year) then days else DayOfYear(days - YearDays(year), year + 1)
  }

  function MonthOf(days: nat, year: nat, m: nat): nat
    requires 1 <= m <= 13
    decreases 13 - m
  {
    if m == 13 || days < MonthDays(year)[m - 1] then m else MonthOf(days - MonthDays(year)[m - 1], year, m + 1)
  }

  function DayOfMonth(days: nat, year: nat, m: nat): nat
    requires 1 <= m <= 13
    decreases 13 - m
  {
    if m == 13 || days < MonthDays(year)[m - 1] then days else DayOfMonth(days - MonthDays(year)[m - 1], year, m + 1)
  }

  function DateOf(days: nat): Date {
    var year, rest := YearOf(days, 1970), DayOfYear(days, 1970);
    Date(year, MonthOf(rest, year, 1), DayOfMonth(rest, year, 1) + 1)
  }

  lemma {:induction false} YearLoop(days: nat, year: nat)
    requires year >= 1
    ensures YearOf(days, year) >= year && DayOfYear(days, year) < YearDays(YearOf(days, year))
    ensures DaysToYear(YearOf(days, year)) + DayOfYear(days, year) == DaysToYear(year) + days
    decreases days
  {
    if days >= YearDays(year) {
      NextYear(year);
      YearLoop(days - YearDays(year), year + 1);
    }
  }

  lemma {:induction false} MonthLoop(days: nat, year: nat, m: nat)
    requires 1 <= m <= 13 && DaysToMonth(year, m) + days < DaysToMonth(year, 13)
    ensures m <= MonthOf(days, year, m) <= 12
    ensures DayOfMonth(days, year, m) < MonthDays(year)[MonthOf(days, year, m) - 1]
    ensures DaysToMonth(year, MonthOf(days, year, m)) + DayOfMonth(days, year, m) == DaysToMonth(year, m) + days
    decreases 13 - m
  {
    if m < 13 { NextMonth(year, m); }
    if m < 13 && days >= MonthDays(year)[m - 1] { MonthLoop(days - MonthDays(year)[m - 1], year, m + 1); }
  }

  /** Every day count is the number of the valid date computed for it. */
  lemma {:induction false} DateOfIsInverse(days: nat)
    ensures ValidDate(DateOf(days)) && DayNumber(DateOf(days)) == days
  {
    YearLoop(days, 1970);
    MonthTable(YearOf(days, 1970));
    MonthLoop(DayOfYear(days, 1970), YearOf(days, 1970), 1);
  }

  method DaysToYmd(days: nat) returns (date: Date)
    ensures date == DateOf(days)
    ensures ValidDate(date) && DayNumber(date) == days
  {
    DateOfIsInverse(days);
    var left: nat := days;
    var year := 1970;
    while left >= YearDays(year)
      invariant YearOf(left, year) == YearOf(days, 1970) && DayOfYear(left, year) == DayOfYear(days, 1970)
      decreases left
    {
      left := left - YearDays(year);
      year := year + 1;
    }
    ghost var rest := left;
    var lengths := MonthDays(year);
    var month := 1;
    while month <= 12 && left >= lengths[month - 1]
      invariant 1 <= month <= 13
      invariant MonthOf(left, year, month) == MonthOf(rest, year, 1)
      invariant DayOfMonth(left, year, month) == DayOfMonth(rest, year, 1)
    {
      left := left - lengths[month - 1];
      month := month + 1;
    }
    date := Date(year, month, left + 1);
  }

  // ---------------------------------------------------------------- dates in order

  predicate DateLt(a: Date, b: Date) {
    a.year < b.year || (a.year == b.year && (a.month < b.month || (a.month == b.month && a.day < b.day)))
  }

  lemma {:induction false} MonthsGrow(y: nat, m: nat, n: nat)
    requires 1 <= m < n <= 13
    ensures DaysToMonth(y, m) + MonthDays(y)[m - 1] <= DaysToMonth(y, n)
    decreases n
  {
    NextMonth(y, n - 1);
    if m < n - 1 { MonthsGrow(y, m, n - 1); }
  }

  lemma {:induction false} YearsGrow(y: nat, z: nat)
    requires 1 <= y < z
    ensures DaysToYear(y) + YearDays(y) <= DaysToYear(z)
    decreases z
  {
    NextYear(z - 1);
    if y < z - 1 { YearsGrow(y, z - 1); }
  }

  /** Later dates have greater numbers. */
  lemma {:induction false} NumbersFollowDates(a: Date, b: Date)
    requires ValidDate(a) && ValidDate(b) && DateLt(a, b)
    ensures DayNumber(a) < DayNumber(b)
  {
    if a.year < b.year {
      YearsGrow(a.year, b.year);
      MonthTable(a.year);
      MonthsGrow(a.year, a.month, 13);
    } else if a.month < b.month {
      MonthsGrow(a.year, a.month, b.month);
    }
  }

  /** A day number belongs to one date only, and the order of numbers is the order of dates. */
  lemma {:induction false} DatesFollowNumbers(a: Date, b: Date)
    requires ValidDate(a) && ValidDate(b)
    ensures DayNumber(a) == DayNumber(b) <==> a == b
    ensures DayNumber(a) < DayNumber(b) <==> DateLt(a, b)
  {
    if DateLt(a, b) { NumbersFollowDates(a, b); }
    if DateLt(b, a) { NumbersFollowDates(b, a); }
  }

  // ---------------------------------------------------------------- the string

  function Pow10(w: nat): nat {
    if w == 0 then 1 else 10 * Pow10(w - 1)
  }

  /** The last `w` decimal digits of `n`. */
  function Digits(n: nat, w: nat): (b: Bytes)
    ensures |b| == w
  {
    if w == 0 then [] else Digits(n / 10, w - 1) + [48 + n % 10]
  }

  /** How many decimal digits `n` has. */
  function Width(n: nat): nat {
    if n < 10 then 1 else 1 + Width(n / 10)
  }

  /** `{:0w}`: padded with zeros to at least `w` digits. */
  function Padded(n: nat, w: nat): Bytes {
    Digits(n, if Width(n) < w then w else Width(n))
  }

  /** One number and the character that follows it. */
  datatype Part = Part(value: nat, width: nat, sep: Byte)

  function Parts(unix: nat): (ps: seq<Part>)
    ensures |ps| == 6
  {
    var date := DateOf(unix / 86400);
    [Part(date.year, 4, 45), Part(date.month, 2, 45), Part(date.day, 2, 84),
     Part((unix / 3600) % 24, 2, 58), Part((unix / 60) % 60, 2, 58), Part(unix % 60, 2, 90)]
  }

  function Render(ps: seq<Part>): Bytes {
    if ps == [] then [] else Padded(ps[0].value, ps[0].width) + ([ps[0].sep] + Render(ps[1..]))
  }

  /** `unix_to_iso8601`. */
  function Iso8601(unix: nat): Bytes {
    Render(Parts(unix))
  }

  lemma {:induction false} Pow10Positive(w: nat)
    ensures Pow10(w) >= 1
  {
    if w > 0 { Pow10Positive(w - 1); }
  }

  lemma {:induction false} WidthFits(n: nat, w: nat)
    requires w >= 1
    ensures n < Pow10(w) <==> Width(n) <= w
    decreases n
  {
    if w == 1 {
      assert Pow10(1) == 10;
    } else {
      assert Pow10(w) == 10 * Pow10(w - 1) && Pow10(w - 1) >= 1 by { Pow10Positive(w - 1); }
      if n >= 10 { WidthFits(n / 10, w - 1); }
    }
  }

  lemma {:induction false} BytesLtPrefix(p: Bytes, x: Bytes, y: Bytes)
    requires BytesLt(x, y)
    ensures BytesLt(p + x, p + y)
  {
    if p == [] {
      assert p + x == x && p + y == y;
    } else {
      assert (p + x)[1..] == p[1..] + x && (p + y)[1..] == p[1..] + y;
      BytesLtPrefix(p[1..], x, y);
    }
  }

  lemma {:induction false} BytesLtExtends(a: Bytes, x: Bytes, b: Bytes, y: Bytes)
    requires |a| == |b| && BytesLt(a, b)
    ensures BytesLt(a + x, b + y)
  {
    assert (a + x)[1..] == a[1..] + x && (b + y)[1..] == b[1..] + y;
    if a[0] == b[0] { BytesLtExtends(a[1..], x, b[1..], y); }
  }

  /** Equally wide numbers sort as their digits do. */
  lemma {:induction false} DigitsSort(m: nat, n: nat, w: nat)
    requires m < n < Pow10(w)
    ensures BytesLt(Digits(m, w), Digits(n, w))
    decreases w
  {
    if m / 10 < n / 10 {
      DigitsSort(m / 10, n / 10, w - 1);
      BytesLtExtends(Digits(m / 10, w - 1), [48 + m % 10], Digits(n / 10, w - 1), [48 + n % 10]);
    } else {
      BytesLtPrefix(Digits(m / 10, w - 1), [48 + m % 10], [48 + n % 10]);
    }
  }

  ghost predicate SameShape(ps: seq<Part>, qs: seq<Part>) {
    |ps| == |qs| && forall i :: 0 <= i < |ps| ==>
      ps[i].width == qs[i].width >= 1 && ps[i].sep == qs[i].sep &&
      ps[i].value < Pow10(ps[i].width) && qs[i].value < Pow10(qs[i].width)
  }

  predicate PartsLt(ps: seq<Part>, qs: seq<Part>) {
    ps != [] && qs != [] &&
    (ps[0].value < qs[0].value || (ps[0].value == qs[0].value && PartsLt(ps[1..], qs[1..])))
  }

  lemma {:induction false} RenderSorts(ps: seq<Part>, qs: seq<Part>)
    requires SameShape(ps, qs) && PartsLt(ps, qs)
    ensures BytesLt(Render(ps), Render(qs))
  {
    var p, q := ps[0], qs[0];
    WidthFits(p.value, p.width);
    WidthFits(q.value, q.width);
    var x, y := [p.sep] + Render(ps[1..]), [q.sep] + Render(qs[1..]);
    if p.value < q.value {
      DigitsSort(p.value, q.value, p.width);
      BytesLtExtends(Digits(p.value, p.width), x, Digits(q.value, q.width), y);
    } else {
      RenderSorts(ps[1..], qs[1..]);
      BytesLtPrefix([p.sep], Render(ps[1..]), Render(qs[1..]));
      BytesLtPrefix(Digits(p.value, p.width), x, y);
    }
  }

  lemma Pow10Values()
    ensures Pow10(2) == 100 && Pow10(4) == 10000
  {
    assert Pow10(1) == 10 && Pow10(3) == 1000;
  }

  lemma ValidDatesFit(d: Date)
    requires ValidDate(d)
    ensures d.month < 100 && d.day < 100
  {
  }

  lemma {:induction false} DateFits(days: nat)
    ensures DateOf(days).month < 100 && DateOf(days).day < 100
  {
    DateOfIsInverse(days);
    ValidDatesFit(DateOf(days));
  }

  lemma {:induction false} PartsFit(unix: nat)
    ensures forall i :: 1 <= i < 6 ==> Parts(unix)[i].value < 100 && Parts(unix)[i].width == 2
  {
    DateFits(unix / 86400);
    assert (unix / 3600) % 24 < 24 && (unix / 60) % 60 < 60 && unix % 60 < 60;
  }

  lemma SecondsGrow(x: nat, y: nat)
    requires x < y < 86400
    ensures x / 3600 < y / 3600 ||
            (x / 3600 == y / 3600 &&
             ((x / 60) % 60 < (y / 60) % 60 || ((x / 60) % 60 == (y / 60) % 60 && x % 60 < y % 60)))
  {
    assert x / 60 / 60 == x / 3600 && y / 60 / 60 == y / 3600;
    assert x / 60 <= y / 60;
  }

  lemma Hours(k: nat, x: nat)
    ensures (3600 * k + x) / 3600 == k + x / 3600
  {
  }

  lemma Sixties(k: nat, x: nat)
    ensures (60 * k + x) / 60 == k + x / 60 && (60 * k + x) % 60 == x % 60
  {
  }

  lemma HourOf(d: nat, x: nat)
    requires x < 86400
    ensures ((86400 * d + x) / 3600) % 24 == x / 3600
  {
    Hours(24 * d, x);
    assert 86400 * d + x == 3600 * (24 * d) + x;
  }

  lemma MinuteOf(d: nat, x: nat)
    ensures ((86400 * d + x) / 60) % 60 == (x / 60) % 60
  {
    Sixties(1440 * d, x);
    Sixties(24 * d, x / 60);
    assert 86400 * d + x == 60 * (1440 * d) + x;
    assert 1440 * d + x / 60 == 60 * (24 * d) + x / 60;
  }

  lemma SecondOf(d: nat, x: nat)
    ensures (86400 * d + x) % 60 == x % 60
  {
    Sixties(1440 * d, x);
    assert 86400 * d + x == 60 * (1440 * d) + x;
  }

  lemma ClockGrows(a: nat, b: nat)
    requires a < b && a / 86400 == b / 86400
    ensures var ha, ma, sa := (a / 3600) % 24, (a / 60) % 60, a % 60;
            var hb, mb, sb := (b / 3600) % 24, (b / 60) % 60, b % 60;
            ha < hb || (ha == hb && (ma < mb || (ma == mb && sa < sb)))
  {
    var d := a / 86400;
    var x, y := a - 86400 * d, b - 86400 * d;
    HourOf(d, x);
    HourOf(d, y);
    MinuteOf(d, x);
    MinuteOf(d, y);
    SecondOf(d, x);
    SecondOf(d, y);
    SecondsGrow(x, y);
  }

  lemma ClockPartsLt(p: seq<Part>, q: seq<Part>)
    requires |p| == 6 == |q| && p[0] == q[0] && p[1] == q[1] && p[2] == q[2]
    requires p[3].value < q[3].value ||
             (p[3].value == q[3].value &&
              (p[4].value < q[4].value || (p[4].value == q[4].value && p[5].value < q[5].value)))
    ensures PartsLt(p, q)
  {
    assert p[1..][1..][1..] == p[3..] && q[1..][1..][1..] == q[3..];
    assert p[3..][1..] == p[4..] && q[3..][1..] == q[4..] && p[4..][1..] == p[5..] && q[4..][1..] == q[5..];
    assert PartsLt(p[3..], q[3..]) by {
      if p[3].value == q[3].value {
        assert PartsLt(p[4..], q[4..]) by {
          if p[4].value == q[4].value { assert PartsLt(p[5..], q[5..]); }
        }
      }
    }
    assert PartsLt(p[1..][1..], q[1..][1..]);
    assert PartsLt(p[1..], q[1..]);
  }

  lemma DatePartsLt(p: seq<Part>, q: seq<Part>)
    requires |p| == 6 == |q|
    requires p[0].value < q[0].value ||
             (p[0].value == q[0].value &&
              (p[1].value < q[1].value || (p[1].value == q[1].value && p[2].value < q[2].value)))
    ensures PartsLt(p, q)
  {
    assert p[1..][1..] == p[2..] && q[1..][1..] == q[2..];
    if p[0].value == q[0].value {
      assert PartsLt(p[1..], q[1..]) by {
        if p[1].value == q[1].value { assert PartsLt(p[2..], q[2..]); }
      }
    }
  }

  /** Within a day the clock parts grow with the seconds; across days the date does. */
  lemma {:induction false} PartsGrow(a: nat, b: nat)
    requires a < b
    ensures PartsLt(Parts(a), Parts(b))
  {
    var da, db := DateOf(a / 86400), DateOf(b / 86400);
    DateOfIsInverse(a / 86400);
    DateOfIsInverse(b / 86400);
    DatesFollowNumbers(da, db);
    var p, q := Parts(a), Parts(b);
    assert a / 86400 <= b / 86400;
    if a / 86400 == b / 86400 {
      ClockGrows(a, b);
      ClockPartsLt(p, q);
    } else {
      DatePartsLt(p, q);
    }
  }

  /** The last second of the year 9999. */
  const LAST_SECOND: nat := 253402300799

  lemma LastDay()
    ensures ValidDate(Date(9999, 12, 31)) && DayNumber(Date(9999, 12, 31)) == 2932896
    ensures ValidDate(Date(10000, 1, 1)) && DayNumber(Date(10000, 1, 1)) == 2932897
  {
    assert IsLeap(2000) && !IsLeap(9999);
  }

  lemma {:induction false} YearUpTo9999(unix: nat)
    requires unix <= LAST_SECOND
    ensures DateOf(unix / 86400).year <= 9999
  {
    var d := DateOf(unix / 86400);
    DateOfIsInverse(unix / 86400);
    LastDay();
    DatesFollowNumbers(d, Date(9999, 12, 31));
    assert unix / 86400 <= 2932896;
  }

  // ---------------------------------------------------------------- reading the string back

  /** The number that decimal digits denote. */
  function Number(b: Bytes): int {
    if b == [] then 0 else 10 * Number(b[..|b| - 1]) + (b[|b| - 1] as int - 48)
  }

  predicate AllDigits(b: Bytes) {
    forall i :: 0 <= i < |b| ==> 48 <= b[i] <= 57
  }

  lemma {:induction false} DigitsReadBack(n: nat, w: nat)
    requires n < Pow10(w)
    ensures AllDigits(Digits(n, w)) && Number(Digits(n, w)) == n
    decreases w
  {
    if w > 0 {
      var b := Digits(n, w);
      assert b[..w - 1] == Digits(n / 10, w - 1) && b[w - 1] == 48 + n % 10;
      DigitsReadBack(n / 10, w - 1);
    }
  }

  lemma {:induction false} PaddedReadsBack(n: nat, w: nat)
    ensures AllDigits(Padded(n, w)) && Number(Padded(n, w)) == n && |Padded(n, w)| >= w
    ensures w >= 1 && n < Pow10(w) ==> |Padded(n, w)| == w
  {
    var k := if Width(n) < w then w else Width(n);
    assert Width(n) >= 1;
    WidthFits(n, k);
    if w >= 1 { WidthFits(n, w); }
    DigitsReadBack(n, k);
  }

  function Rendered(p: Part): Bytes {
    Padded(p.value, p.width) + [p.sep]
  }

  lemma RenderStep(ps: seq<Part>, i: nat)
    requires i < |ps|
    ensures Render(ps[i..]) == Rendered(ps[i]) + Render(ps[i + 1..])
  {
    assert ps[i..][1..] == ps[i + 1..];
  }

  lemma RenderedParts(ps: seq<Part>)
    requires |ps| == 6
    ensures Render(ps) == Rendered(ps[0]) + (Rendered(ps[1]) + (Rendered(ps[2]) +
                          (Rendered(ps[3]) + (Rendered(ps[4]) + Rendered(ps[5])))))
  {
    assert ps[0..] == ps && ps[6..] == [];
    RenderStep(ps, 0);
    RenderStep(ps, 1);
    RenderStep(ps, 2);
    RenderStep(ps, 3);
    RenderStep(ps, 4);
    RenderStep(ps, 5);
    assert Rendered(ps[5]) + [] == Rendered(ps[5]);
  }

  lemma {:induction false} ClockReadsBack(unix: nat)
    ensures unix == 86400 * (unix / 86400) + 3600 * ((unix / 3600) % 24) + 60 * ((unix / 60) % 60) + unix % 60
  {
    var d := unix / 86400;
    var x := unix - 86400 * d;
    HourOf(d, x);
    MinuteOf(d, x);
    SecondOf(d, x);
    assert x / 60 / 60 == x / 3600;
  }

  /** A string `YYYY-MM-DDThh:mm:ssZ`, the year with four digits or more, whose numbers are this time. */
  ghost predicate Denotes(s: Bytes, unix: nat) {
    |s| >= 20 &&
    var k := |s| - 16;
    s[k] == s[k + 3] == 45 && s[k + 6] == 84 && s[k + 9] == s[k + 12] == 58 && s[k + 15] == 90 &&
    AllDigits(s[..k]) && AllDigits(s[k + 1..k + 3]) && AllDigits(s[k + 4..k + 6]) && AllDigits(s[k + 7..k + 9]) &&
    AllDigits(s[k + 10..k + 12]) && AllDigits(s[k + 13..k + 15]) &&
    var y, mo, d := Number(s[..k]), Number(s[k + 1..k + 3]), Number(s[k + 4..k + 6]);
    var h, mi, sec := Number(s[k + 7..k + 9]), Number(s[k + 10..k + 12]), Number(s[k + 13..k + 15]);
    y >= 0 && mo >= 0 && d >= 0 && ValidDate(Date(y, mo, d)) && 0 <= h < 24 && 0 <= mi < 60 && 0 <= sec < 60 &&
    86400 * DayNumber(Date(y, mo, d)) + 3600 * h + 60 * mi + sec == unix
  }

  lemma SixGroups(s: Bytes, y: Bytes, mo: Bytes, d: Bytes, h: Bytes, mi: Bytes, sec: Bytes)
    requires |mo| == |d| == |h| == |mi| == |sec| == 2
    requires s == (y + [45]) + ((mo + [45]) + ((d + [84]) + ((h + [58]) + ((mi + [58]) + (sec + [90])))))
    ensures |s| == |y| + 16
    ensures s[..|y|] == y && s[|y|] == 45 && s[|y| + 1..|y| + 3] == mo && s[|y| + 3] == 45
    ensures s[|y| + 4..|y| + 6] == d && s[|y| + 6] == 84 && s[|y| + 7..|y| + 9] == h && s[|y| + 9] == 58
    ensures s[|y| + 10..|y| + 12] == mi && s[|y| + 12] == 58 && s[|y| + 13..|y| + 15] == sec && s[|y| + 15] == 90
  {
  }

  /** What `Padded` gives for a number. */
  ghost predicate Reads(b: Bytes, n: nat) {
    AllDigits(b) && Number(b) == n
  }

  lemma GroupsDenote(
      s: Bytes, y: Bytes, mo: Bytes, d: Bytes, h: Bytes, mi: Bytes, sec: Bytes, date: Date, hour: nat, minute: nat,
      second: nat, unix: nat)
    requires |y| >= 4 && |mo| == |d| == |h| == |mi| == |sec| == 2
    requires s == (y + [45]) + ((mo + [45]) + ((d + [84]) + ((h + [58]) + ((mi + [58]) + (sec + [90])))))
    requires Reads(y, date.year) && Reads(mo, date.month) && Reads(d, date.day)
    requires Reads(h, hour) && Reads(mi, minute) && Reads(sec, second)
    requires ValidDate(date) && hour < 24 && minute < 60 && second < 60
    requires 86400 * DayNumber(date) + 3600 * hour + 60 * minute + second == unix
    ensures Denotes(s, unix)
  {
    SixGroups(s, y, mo, d, h, mi, sec);
    assert date == Date(date.year, date.month, date.day);
  }

  /** The string of a time reads back as that time. */
  lemma {:induction false} StringsReadBack(unix: nat)
    ensures Denotes(Iso8601(unix), unix)
    ensures unix <= LAST_SECOND ==> |Iso8601(unix)| == 20
  {
    var date := DateOf(unix / 86400);
    var hour, minute, second := (unix / 3600) % 24, (unix / 60) % 60, unix % 60;
    DateOfIsInverse(unix / 86400);
    ValidDatesFit(date);
    Pow10Values();
    ClockReadsBack(unix);
    PaddedReadsBack(date.year, 4);
    PaddedReadsBack(date.month, 2);
    PaddedReadsBack(date.day, 2);
    PaddedReadsBack(hour, 2);
    PaddedReadsBack(minute, 2);
    PaddedReadsBack(second, 2);
    RenderedParts(Parts(unix));
    GroupsDenote(Iso8601(unix), Padded(date.year, 4), Padded(date.month, 2), Padded(date.day, 2), Padded(hour, 2),
                 Padded(minute, 2), Padded(second, 2), date, hour, minute, second, unix);
    if unix <= LAST_SECOND { YearUpTo9999(unix); }
    SixGroups(Iso8601(unix), Padded(date.year, 4), Padded(date.month, 2), Padded(date.day, 2), Padded(hour, 2),
              Padded(minute, 2), Padded(second, 2));
  }

  // ---------------------------------------------------------------- strings in order

  /** Up to the end of 9999 the strings sort in time order. */
  lemma {:induction false} StringsSort(a: nat, b: nat)
    requires a < b <= LAST_SECOND
    ensures BytesLt(Iso8601(a), Iso8601(b))
  {
    YearUpTo9999(a);
    YearUpTo9999(b);
    Pow10Values();
    PartsFit(a);
    PartsFit(b);
    PartsGrow(a, b);
    RenderSorts(Parts(a), Parts(b));
  }

  lemma LastDates()
    ensures DateOf(2932896) == Date(9999, 12, 31) && DateOf(2932897) == Date(10000, 1, 1)
  {
    LastDay();
    DateOfIsInverse(2932896);
    DateOfIsInverse(2932897);
    DatesFollowNumbers(DateOf(2932896), Date(9999, 12, 31));
    DatesFollowNumbers(DateOf(2932897), Date(10000, 1, 1));
  }

  lemma RenderStart(ps: seq<Part>)
    requires ps != [] && Padded(ps[0].value, ps[0].width) != []
    ensures Render(ps) != [] && Render(ps)[0] == Padded(ps[0].value, ps[0].width)[0]
  {
  }

  lemma {:induction false} FirstDigit(n: nat, w: nat, d: nat)
    requires w >= 1 && d < 10 && d * Pow10(w - 1) <= n < (d + 1) * Pow10(w - 1)
    ensures Digits(n, w)[0] == 48 + d
    decreases w
  {
    if w == 1 {
      assert Pow10(0) == 1;
    } else {
      var p := Pow10(w - 2);
      assert Pow10(w - 1) == 10 * p;
      assert d * (10 * p) == 10 * (d * p) && (d + 1) * (10 * p) == 10 * ((d + 1) * p);
      FirstDigit(n / 10, w - 1, d);
    }
  }

  lemma {:induction false} FirstCharacter(unix: nat, year: nat, w: nat, d: nat)
    requires DateOf(unix / 86400).year == year && Width(year) == w >= 4
    requires d < 10 && d * Pow10(w - 1) <= year < (d + 1) * Pow10(w - 1)
    ensures Iso8601(unix) != [] && Iso8601(unix)[0] == 48 + d
  {
    FirstDigit(year, w, d);
    RenderStart(Parts(unix));
  }

  lemma WideYears()
    ensures Width(9999) == 4 && Width(10000) == 5 && Pow10(3) == 1000 && Pow10(4) == 10000
  {
    assert Width(1000) == 4 && Width(999) == 3 && Width(100) == 3 && Width(99) == 2 && Width(10) == 2 && Width(9) == 1;
    Pow10Values();
  }

  /** Every time of the first day of 10000 sorts before every time of the last day of 9999. */
  lemma {:induction false} FiveDigitYearsSortFirst(u: nat, v: nat)
    requires u / 86400 == 2932896 && v / 86400 == 2932897
    ensures BytesLt(Iso8601(v), Iso8601(u))
  {
    LastDates();
    WideYears();
    FirstCharacter(u, 9999, 4, 9);
    FirstCharacter(v, 10000, 5, 1);
  }

  /** The strings of all times up to a bound sort in time order exactly if the bound is within 9999. */
  lemma {:induction false} StringsSortExactly(bound: nat)
    ensures (forall a: nat, b: nat :: a < b <= bound ==> BytesLt(Iso8601(a), Iso8601(b))) <==> bound <= LAST_SECOND
  {
    if bound <= LAST_SECOND {
      forall a: nat, b: nat | a < b <= bound ensures BytesLt(Iso8601(a), Iso8601(b)) { StringsSort(a, b); }
    } else {
      FiveDigitYearsSortFirst(LAST_SECOND, LAST_SECOND + 1);
      BytesLtTrichotomy(Iso8601(LAST_SECOND), Iso8601(LAST_SECOND + 1));
    }
  }
}
