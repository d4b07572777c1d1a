/**
 The texts the stores write for UTC instants, and why comparing them as text is comparing them in time.

 `Iso` is `datetime.isoformat()` of an aware UTC datetime: the fraction is omitted when it is zero.
 `TextLess` is SQLite's default (binary) text order. `Micros` is the instant in microseconds.
 */
module Timestamps {

  // ---------------------------------------------------------------------
  // Text order
  // ---------------------------------------------------------------------

  predicate TextLess(a: string, b: string) {
    b != [] && (a == [] || a[0] < b[0] || (a[0] == b[0] && TextLess(a[1..], b[1..])))
  }

  /** Equally long heads decide, unless they are equal. */
  lemma {:induction false} TextLessByHead(a: string, b: string, x: string, y: string)
    requires |a| == |b|
    ensures TextLess(a + x, b + y) <==> TextLess(a, b) || (a == b && TextLess(x, y))
    decreases |a|
  {
    if a == [] {
      assert a + x == x && b + y == y;
    } else {
      TextLessByHead(a[1..], b[1..], x, y);
      assert (a + x)[1..] == a[1..] + x && (b + y)[1..] == b[1..] + y;
      assert a == b <==> a[0] == b[0] && a[1..] == b[1..];
    }
  }

  lemma {:induction false} TextLessIrreflexive(a: string)
    ensures !TextLess(a, a)
  {
    if a == [] {
    } else {
      TextLessIrreflexive(a[1..]);
    }
  }

  // ---------------------------------------------------------------------
  // Fixed-width numbers
  // ---------------------------------------------------------------------

  function Digit(d: nat): char
    requires d < 10
  {
    '0' + d as char
  }

  /** The last `width` decimal digits of n, zero-padded. */
  function Pad(n: nat, width: nat): (s: string)
    ensures |s| == width
  {
    if width == 0 then [] else Pad(n / 10, width - 1) + [Digit(n % 10)]
  }

  function Pow10(width: nat): nat {
    if width == 0 then 1 else 10 * Pow10(width - 1)
  }

  /** On numbers that fit, padded text order is numeric order. */
  lemma {:induction false} PadOrder(n: nat, m: nat, width: nat)
    requires n < Pow10(width) && m < Pow10(width)
    ensures TextLess(Pad(n, width), Pad(m, width)) <==> n < m
    ensures Pad(n, width) == Pad(m, width) <==> n == m
  {
    if width == 0 {
    } else {
      PadOrder(n / 10, m / 10, width - 1);
      var a, b := Pad(n / 10, width - 1), Pad(m / 10, width - 1);
      var x, y := [Digit(n % 10)], [Digit(m % 10)];
      TextLessByHead(a, b, x, y);
      assert TextLess(x, y) <==> n % 10 < m % 10;
      assert a + x == b + y <==> a == b && x == y by {
        assert (a + x)[..|a|] == a && (b + y)[..|a|] == b;
        assert (a + x)[|a|] == x[0] && (b + y)[|a|] == y[0];
      }
    }
  }

  // ---------------------------------------------------------------------
  // Datetimes
  // ---------------------------------------------------------------------

  datatype DateTime = DateTime(year: nat, month: nat, day: nat, hour: nat, minute: nat, second: nat, micro: nat)

  predicate IsLeap(year: nat) {
    year % 4 == 0 && (year % 100 != 0 || year % 400 == 0)
  }

  function DaysInMonth(year: nat, month: nat): nat {
    if month == 2 then (if IsLeap(year) then 29 else 28)
    else if month in {4, 6, 9, 11} then 30
    else 31
  }

  /** What the datetime type itself guarantees. */
  predicate Valid(d: DateTime) {
    && 1 <= d.year <= 9999 && 1 <= d.month <= 12 && 1 <= d.day <= DaysInMonth(d.year, d.month)
    && d.hour < 24 && d.minute < 60 && d.second < 60 && d.micro < 1_000_000
  }

  function DateText(d: DateTime): string {
    Pad(d.year, 4) + ("-" + (Pad(d.month, 2) + ("-" + Pad(d.day, 2))))
  }

  /** The fraction, omitted when zero, and the UTC offset. */
  function FractionText(micro: nat): string {
    (if micro == 0 then "" else "." + Pad(micro, 6)) + "+00:00"
  }

  function TimeText(d: DateTime): string {
    Pad(d.hour, 2) + (":" + (Pad(d.minute, 2) + (":" + (Pad(d.second, 2) + FractionText(d.micro)))))
  }

  function Iso(d: DateTime): string {
    DateText(d) + ("T" + TimeText(d))
  }

  function DaysBeforeYear(year: nat): int
    requires year >= 1
  {
    var y := year - 1;
    y * 365 + y / 4 - y / 100 + y / 400
  }

  function DaysBeforeMonth(year: nat, month: nat): nat {
    if month <= 1 then 0 else DaysBeforeMonth(year, month - 1) + DaysInMonth(year, month - 1)
  }

  /** Proleptic Gregorian ordinal. */
  function Ordinal(d: DateTime): int
    requires Valid(d)
  {
    DaysBeforeYear(d.year) + DaysBeforeMonth(d.year, d.month) + d.day
  }

  /** The instant: microseconds since the start of the calendar. */
  function Micros(d: DateTime): int
    requires Valid(d)
  {
    (((Ordinal(d) * 24 + d.hour) * 60 + d.minute) * 60 + d.second) * 1_000_000 + d.micro
  }

  // ---------------------------------------------------------------------
  // Calendar order
  // ---------------------------------------------------------------------

  predicate DateBefore(a: DateTime, b: DateTime) {
    a.year < b.year || (a.year == b.year && (a.month < b.month || (a.month == b.month && a.day < b.day)))
  }

  predicate SameDate(a: DateTime, b: DateTime) {
    a.year == b.year && a.month == b.month && a.day == b.day
  }

  predicate TimeBefore(a: DateTime, b: DateTime) {
    a.hour < b.hour || (a.hour == b.hour &&
      (a.minute < b.minute || (a.minute == b.minute &&
        (a.second < b.second || (a.second == b.second && a.micro < b.micro)))))
  }

  lemma {:induction false} MonthsAddUp(year: nat, month: nat, later: nat)
    requires 1 <= month < later
    ensures DaysBeforeMonth(year, month) + DaysInMonth(year, month) <= DaysBeforeMonth(year, later)
    decreases later
  {
    if month == later - 1 {
    } else {
      MonthsAddUp(year, month, later - 1);
    }
  }

  lemma Fourths(year: nat)
    requires year >= 1
    ensures year / 4 == (year - 1) / 4 + if year % 4 == 0 then 1 else 0
  {
  }

  lemma Hundredths(year: nat)
    requires year >= 1
    ensures year / 100 == (year - 1) / 100 + if year % 100 == 0 then 1 else 0
  {
  }

  lemma FourHundredths(year: nat)
    requires year >= 1
    ensures year / 400 == (year - 1) / 400 + if year % 400 == 0 then 1 else 0
  {
  }

  lemma LeapRules(year: nat)
    ensures year % 100 == 0 ==> year % 4 == 0
    ensures year % 400 == 0 ==> year % 100 == 0
  {
    if year % 100 == 0 {
      assert year == 4 * (25 * (year / 100));
    }
    if year % 400 == 0 {
      assert year == 100 * (4 * (year / 400));
    }
  }

  lemma LeapDays(year: nat)
    requires year >= 1
    ensures DaysBeforeYear(year + 1) == DaysBeforeYear(year) + 365 + if IsLeap(year) then 1 else 0
  {
    Fourths(year);
    Hundredths(year);
    FourHundredths(year);
    LeapRules(year);
  }

  /** A year has 365 days, 366 in leap years, and the months fill it. */
  lemma YearLength(year: nat)
    requires year >= 1
    ensures DaysBeforeYear(year) + DaysBeforeMonth(year, 12) + 31 == DaysBeforeYear(year + 1)
  {
    var leap := if IsLeap(year) then 1 else 0;
    assert DaysBeforeMonth(year, 2) == 31;
    assert DaysBeforeMonth(year, 3) == 59 + leap;
    assert DaysBeforeMonth(year, 4) == 90 + leap;
    assert DaysBeforeMonth(year, 5) == 120 + leap;
    assert DaysBeforeMonth(year, 6) == 151 + leap;
    assert DaysBeforeMonth(year, 7) == 181 + leap;
    assert DaysBeforeMonth(year, 8) == 212 + leap;
    assert DaysBeforeMonth(year, 9) == 243 + leap;
    assert DaysBeforeMonth(year, 10) == 273 + leap;
    assert DaysBeforeMonth(year, 11) == 304 + leap;
    assert DaysBeforeMonth(year, 12) == 334 + leap;
    LeapDays(year);
  }

  lemma {:induction false} YearsAddUp(year: nat, later: nat)
    requires 1 <= year < later
    ensures DaysBeforeYear(year) + DaysBeforeMonth(year, 12) + 31 <= DaysBeforeYear(later)
    decreases later
  {
    if year < later - 1 {
      YearsAddUp(year, later - 1);
      LeapDays(later - 1);
    } else {
      YearLength(year);
    }
  }

  lemma OrdinalFollows(a: DateTime, b: DateTime)
    requires Valid(a) && Valid(b) && DateBefore(a, b)
    ensures Ordinal(a) < Ordinal(b)
  {
    hide DaysBeforeYear, DaysBeforeMonth;
    if a.year < b.year {
      if a.month < 12 {
        MonthsAddUp(a.year, a.month, 12);
      }
      YearsAddUp(a.year, b.year);
    } else if a.month < b.month {
      MonthsAddUp(a.year, a.month, b.month);
    }
  }

  lemma SameDateSameOrdinal(a: DateTime, b: DateTime)
    requires Valid(a) && Valid(b) && SameDate(a, b)
    ensures Ordinal(a) == Ordinal(b)
  {
  }

  /** Days are ordered as their calendar fields. */
  lemma OrdinalOrder(a: DateTime, b: DateTime)
    requires Valid(a) && Valid(b)
    ensures Ordinal(a) < Ordinal(b) <==> DateBefore(a, b)
    ensures Ordinal(a) == Ordinal(b) <==> SameDate(a, b)
  {
    hide Ordinal, Valid;
    if DateBefore(a, b) {
      OrdinalFollows(a, b);
    } else if DateBefore(b, a) {
      OrdinalFollows(b, a);
    } else {
      SameDateSameOrdinal(a, b);
    }
  }

  /** Instants are ordered as their calendar and clock fields. */
  lemma MicrosOrder(a: DateTime, b: DateTime)
    requires Valid(a) && Valid(b)
    ensures Micros(a) < Micros(b) <==> DateBefore(a, b) || (SameDate(a, b) && TimeBefore(a, b))
  {
    hide Ordinal;
    OrdinalOrder(a, b);
  }

  // ---------------------------------------------------------------------
  // Distances
  // ---------------------------------------------------------------------

  /** The same time on the next day, across the ends of months and years. */
  function NextDay(d: DateTime): DateTime {
    if d.day < DaysInMonth(d.year, d.month) then d.(day := d.day + 1)
    else if d.month < 12 then d.(month := d.month + 1, day := 1)
    else d.(year := d.year + 1, month := 1, day := 1)
  }

  lemma NextOrdinal(d: DateTime)
    requires Valid(d) && d.year < 9999
    ensures Valid(NextDay(d)) && Ordinal(NextDay(d)) == Ordinal(d) + 1
  {
    hide DaysBeforeYear;
    if d.day == DaysInMonth(d.year, d.month) && d.month == 12 {
      YearLength(d.year);
    }
  }

  /** One day later is 86 400 seconds more; within a day instants are as far apart as their clock fields. */
  lemma DistancesAreTimes(d: DateTime, e: DateTime)
    requires Valid(d) && Valid(e)
    ensures d.year < 9999 ==> Valid(NextDay(d)) && Micros(NextDay(d)) - Micros(d) == 86_400_000_000
    ensures SameDate(d, e) ==>
      Micros(e) - Micros(d) ==
      (e.hour - d.hour) * 3_600_000_000 + (e.minute - d.minute) * 60_000_000 + (e.second - d.second) * 1_000_000 + (e.micro - d.micro)
  {
    hide Ordinal;
    if d.year < 9999 {
      NextOrdinal(d);
    }
    if SameDate(d, e) {
      SameDateSameOrdinal(d, e);
    }
  }

  lemma Later400(y: nat)
    ensures (y + 400) / 4 == y / 4 + 100 && (y + 400) / 100 == y / 100 + 4 && (y + 400) / 400 == y / 400 + 1
  {
  }

  /** The calendar is the Gregorian one: the days before its first year and before 1970, and its cycle of 400 years. */
  lemma CalendarIsGregorian(year: nat)
    requires year >= 1
    ensures DaysBeforeYear(1) == 0 && DaysBeforeYear(1970) == 719_162
    ensures DaysBeforeYear(year + 400) == DaysBeforeYear(year) + 146_097
  {
    Later400(year - 1);
  }

  // ---------------------------------------------------------------------
  // Main result
  // ---------------------------------------------------------------------

  /** One padded field followed by the rest. */
  lemma FieldOrder(n: nat, m: nat, width: nat, x: string, y: string)
    requires n < Pow10(width) && m < Pow10(width)
    ensures TextLess(Pad(n, width) + x, Pad(m, width) + y) <==> n < m || (n == m && TextLess(x, y))
  {
    TextLessByHead(Pad(n, width), Pad(m, width), x, y);
    PadOrder(n, m, width);
  }

  /** An equal character in front does not matter. */
  lemma SeparatorOrder(c: string, x: string, y: string)
    requires |c| == 1
    ensures TextLess(c + x, c + y) <==> TextLess(x, y)
  {
    TextLessByHead(c, c, x, y);
    TextLessIrreflexive(c);
  }

  lemma WrittenFractionOrder(n: nat, m: nat)
    requires 0 < n < 1_000_000 && 0 < m < 1_000_000
    ensures TextLess(FractionText(n), FractionText(m)) <==> n < m
  {
    hide TextLess, Pad;
    var zone := "+00:00";
    assert Pow10(6) == 1_000_000 by {
      assert Pow10(3) == 1000;
    }
    FieldOrder(n, m, 6, zone, zone);
    TextLessIrreflexive(zone);
    SeparatorOrder(".", Pad(n, 6) + zone, Pad(m, 6) + zone);
    assert FractionText(n) == "." + (Pad(n, 6) + zone);
    assert FractionText(m) == "." + (Pad(m, 6) + zone);
  }

  /** The omitted fraction sorts before every written one, because '+' sorts before '.'. */
  lemma FractionOrder(n: nat, m: nat)
    requires n < 1_000_000 && m < 1_000_000
    ensures TextLess(FractionText(n), FractionText(m)) <==> n < m
  {
    var zone := "+00:00";
    TextLessIrreflexive(zone);
    assert FractionText(0) == zone;
    if n > 0 && m > 0 {
      WrittenFractionOrder(n, m);
    } else if n == 0 && m > 0 {
      assert FractionText(n)[0] == '+' && FractionText(m)[0] == '.';
    } else if n > 0 {
      assert FractionText(n)[0] == '.' && FractionText(m)[0] == '+';
    }
  }

  lemma TimeTextOrder(a: DateTime, b: DateTime)
    requires Valid(a) && Valid(b)
    ensures TextLess(TimeText(a), TimeText(b)) <==> TimeBefore(a, b)
  {
    hide TextLess, Pad, FractionText;
    assert Pow10(2) == 100;
    FractionOrder(a.micro, b.micro);
    var (s, s') := (Pad(a.second, 2) + FractionText(a.micro), Pad(b.second, 2) + FractionText(b.micro));
    FieldOrder(a.second, b.second, 2, FractionText(a.micro), FractionText(b.micro));
    SeparatorOrder(":", s, s');
    var (m, m') := (Pad(a.minute, 2) + (":" + s), Pad(b.minute, 2) + (":" + s'));
    FieldOrder(a.minute, b.minute, 2, ":" + s, ":" + s');
    SeparatorOrder(":", m, m');
    FieldOrder(a.hour, b.hour, 2, ":" + m, ":" + m');
  }

  lemma DateFields(a: DateTime)
    requires Valid(a)
    ensures |DateText(a)| == 10
    ensures DateText(a)[..4] == Pad(a.year, 4) && DateText(a)[5..7] == Pad(a.month, 2) && DateText(a)[8..] == Pad(a.day, 2)
  {
    hide Pad;
  }

  /** The fields sit at fixed places of the text. */
  lemma SameDateText(a: DateTime, b: DateTime)
    requires Valid(a) && Valid(b)
    ensures |DateText(a)| == |DateText(b)| == 10
    ensures DateText(a) == DateText(b) <==>
            Pad(a.year, 4) == Pad(b.year, 4) && Pad(a.month, 2) == Pad(b.month, 2) && Pad(a.day, 2) == Pad(b.day, 2)
  {
    hide Pad;
    DateFields(a);
    DateFields(b);
  }

  lemma DateTextOrder(a: DateTime, b: DateTime)
    requires Valid(a) && Valid(b)
    ensures TextLess(DateText(a), DateText(b)) <==> DateBefore(a, b)
    ensures DateText(a) == DateText(b) <==> SameDate(a, b)
    ensures |DateText(a)| == |DateText(b)|
  {
    hide TextLess, Pad;
    assert Pow10(2) == 100;
    assert Pow10(4) == 10_000 by {
      assert Pow10(3) == 1000;
    }
    var (d, d') := (Pad(a.day, 2), Pad(b.day, 2));
    PadOrder(a.day, b.day, 2);
    PadOrder(a.month, b.month, 2);
    PadOrder(a.year, b.year, 4);
    SeparatorOrder("-", d, d');
    var (m, m') := (Pad(a.month, 2) + ("-" + d), Pad(b.month, 2) + ("-" + d'));
    FieldOrder(a.month, b.month, 2, "-" + d, "-" + d');
    SeparatorOrder("-", m, m');
    FieldOrder(a.year, b.year, 4, "-" + m, "-" + m');
    SameDateText(a, b);
  }

  /** Reading a decimal number. */
  function Value(s: string): int {
    if s == [] then 0 else 10 * Value(s[..|s| - 1]) + (s[|s| - 1] as int - '0' as int)
  }

  lemma {:induction false} PadReadsBack(n: nat, width: nat)
    requires n < Pow10(width)
    ensures Value(Pad(n, width)) == n
  {
    if width == 0 {
    } else {
      PadReadsBack(n / 10, width - 1);
      var s := Pad(n, width);
      assert s[..|s| - 1] == Pad(n / 10, width - 1) && s[|s| - 1] == Digit(n % 10);
    }
  }

  lemma TimeFields(d: DateTime)
    requires Valid(d)
    ensures var t := TimeText(d);
            && |t| == (if d.micro == 0 then 14 else 21) && t[2] == ':' && t[5] == ':'
            && t[..2] == Pad(d.hour, 2) && t[3..5] == Pad(d.minute, 2) && t[6..8] == Pad(d.second, 2)
            && (if d.micro == 0 then t[8..] == "+00:00" else t[8] == '.' && t[9..15] == Pad(d.micro, 6) && t[15..] == "+00:00")
  {
    hide Pad;
  }

  lemma WrittenFields(d: DateTime)
    requires Valid(d)
    ensures var t := Iso(d);
            && |t| == (if d.micro == 0 then 25 else 32)
            && t[4] == '-' && t[7] == '-' && t[10] == 'T' && t[13] == ':' && t[16] == ':'
            && t[..4] == Pad(d.year, 4) && t[5..7] == Pad(d.month, 2) && t[8..10] == Pad(d.day, 2)
            && t[11..13] == Pad(d.hour, 2) && t[14..16] == Pad(d.minute, 2) && t[17..19] == Pad(d.second, 2)
            && (if d.micro == 0 then t[19..] == "+00:00" else t[19] == '.' && t[20..26] == Pad(d.micro, 6) && t[26..] == "+00:00")
  {
    hide Pad, TimeText;
    DateFields(d);
    TimeFields(d);
    var x, y := DateText(d), TimeText(d);
    var t := Iso(d);
    assert t[..10] == x && t[11..] == y && t[10] == 'T';
    assert t[8..10] == x[8..] && t[11..13] == y[..2] && t[14..16] == y[3..5] && t[17..19] == y[6..8];
    assert t[5..7] == x[5..7] && t[..4] == x[..4];
  }

  /**
   A written timestamp can be read back: every field stands where the format has it, and the fraction is
   there exactly if it is not zero.
   */
  lemma IsoReadsBack(d: DateTime)
    requires Valid(d)
    ensures var t := Iso(d);
            && |t| == (if d.micro == 0 then 25 else 32)
            && t[4] == '-' && t[7] == '-' && t[10] == 'T' && t[13] == ':' && t[16] == ':'
            && d.year == Value(t[..4]) && d.month == Value(t[5..7]) && d.day == Value(t[8..10])
            && d.hour == Value(t[11..13]) && d.minute == Value(t[14..16]) && d.second == Value(t[17..19])
            && d.micro == (if t[19] == '.' then Value(t[20..26]) else 0)
            && (if d.micro == 0 then t[19..] == "+00:00" else t[19] == '.' && t[26..] == "+00:00")
  {
    hide Pad, Iso, Value;
    WrittenFields(d);
    assert Pow10(2) == 100;
    assert Pow10(4) == 10_000 && Pow10(6) == 1_000_000 by {
      assert Pow10(3) == 1000;
    }
    PadReadsBack(d.year, 4);
    PadReadsBack(d.month, 2);
    PadReadsBack(d.day, 2);
    PadReadsBack(d.hour, 2);
    PadReadsBack(d.minute, 2);
    PadReadsBack(d.second, 2);
    PadReadsBack(d.micro, 6);
    assert d.micro == 0 ==> Iso(d)[19] == Iso(d)[19..][0];
  }

  /** Comparing two written timestamps as text is comparing their instants. */
  lemma TextOrderIsTimeOrder(a: DateTime, b: DateTime)
    requires Valid(a) && Valid(b)
    ensures TextLess(Iso(a), Iso(b)) <==> Micros(a) < Micros(b)
  {
    hide TextLess, DateText, TimeText, Micros;
    MicrosOrder(a, b);
    DateTextOrder(a, b);
    TimeTextOrder(a, b);
    TextLessByHead(DateText(a), DateText(b), "T" + TimeText(a), "T" + TimeText(b));
    SeparatorOrder("T", TimeText(a), TimeText(b));
  }

  /** The texts of two days compare as the days: what the budget's day columns rely on. */
  lemma DateTextOrderIsDayOrder(a: DateTime, b: DateTime)
    requires Valid(a) && Valid(b)
    ensures TextLess(DateText(a), DateText(b)) <==> Ordinal(a) < Ordinal(b)
    ensures DateText(a) == DateText(b) <==> Ordinal(a) == Ordinal(b)
  {
    hide TextLess, DateText, Ordinal;
    DateTextOrder(a, b);
    OrdinalOrder(a, b);
  }
}
