/**
  Wall-clock readings in Seoul time, the text they are stored as (ISO 8601, in the profile of
  section 5.6 of RFC 3339), and the order of those texts.
 */
module Timestamp {
  import opened Wrappers
  import opened Decimal

  datatype Date = Date(year: nat, month: nat, day: nat)
  datatype Moment = Moment(date: Date, hour: nat, minute: nat, second: nat, micro: nat)

  predicate IsLeap(year: nat) {
    year % 4 == 0 && (year % 100 != 0 || year % 400 == 0)
  }

  function DaysInMonth(year: nat, month: nat): nat {
    if month == 2 then (if IsLeap(year) then 29 else 28)
    else if month == 4 || month == 6 || month == 9 || month == 11 then 30
    else 31
  }

  predicate ValidDate(d: Date) {
    1 <= d.year <= 9999 && 1 <= d.month <= 12 && 1 <= d.day <= DaysInMonth(d.year, d.month)
  }

  /** A day that a clock can show. */
  type Day = d: Date | ValidDate(d) witness Date(1, 1, 1)

  predicate ValidMoment(m: Moment) {
    ValidDate(m.date) && m.hour < 24 && m.minute < 60 && m.second < 60 && m.micro < 1000000
  }

  // ---------- Time as a number ----------

  function DaysBeforeYear(year: nat): int
    requires year >= 1
  {
    (year - 1) * 365 + (year - 1) / 4 - (year - 1) / 100 + (year - 1) / 400
  }

  function DaysBeforeMonth(year: nat, month: nat): nat
    requires month >= 1
  {
    if month == 1 then 0 else DaysBeforeMonth(year, month - 1) + DaysInMonth(year, month - 1)
  }

  /** Days since the first of January of year 1. */
  function DayNumber(d: Date): int
    requires ValidDate(d)
  {
    DaysBeforeYear(d.year) + DaysBeforeMonth(d.year, d.month) + d.day
  }

  /** Microseconds since then. */
  function Instant(m: Moment): int
    requires ValidMoment(m)
  {
    (((DayNumber(m.date) * 24 + m.hour) * 60 + m.minute) * 60 + m.second) * 1000000 + m.micro
  }

  // ---------- Text ----------

  const SEOUL := "+09:00"

  function DateIso(d: Date): string {
    Pad(d.year, 4) + ("-" + (Pad(d.month, 2) + ("-" + Pad(d.day, 2))))
  }

  /** The compact form used in order numbers (a year below 1000 is not padded). */
  function DateCompact(d: Date): string {
    Digits(d.year) + Pad(d.month, 2) + Pad(d.day, 2)
  }

  /** The fraction is left out when it is zero. */
  function FractionIso(micro: nat): string {
    if micro == 0 then "" else "." + Pad(micro, 6)
  }

  function ClockIso(m: Moment): string {
    Pad(m.hour, 2) + (":" + (Pad(m.minute, 2) + (":" + (Pad(m.second, 2) + ("" + (FractionIso(m.micro) + SEOUL))))))
  }

  function ToIso(m: Moment): string {
    DateIso(m.date) + ("T" + ClockIso(m))
  }

  predicate IsoShape(s: string) {
    && (|s| == 25 || (|s| == 32 && s[19] == '.' && AllDigits(s[20..26])))
    && s[4] == '-' && s[7] == '-' && s[10] == 'T' && s[13] == ':' && s[16] == ':' && s[|s| - 6..] == SEOUL
    && AllDigits(s[0..4]) && AllDigits(s[5..7]) && AllDigits(s[8..10])
    && AllDigits(s[11..13]) && AllDigits(s[14..16]) && AllDigits(s[17..19])
  }

  function IsoFields(s: string): Moment
    requires IsoShape(s)
  {
    Moment(Date(ReadDigits(s[0..4]), ReadDigits(s[5..7]), ReadDigits(s[8..10])),
           ReadDigits(s[11..13]), ReadDigits(s[14..16]), ReadDigits(s[17..19]),
           if |s| == 32 then ReadDigits(s[20..26]) else 0)
  }

  /** Reads back texts in the form that `ToIso` prints. */
  function ParseIso(s: string): Option<Moment> {
    if IsoShape(s) && ValidMoment(IsoFields(s)) then Some(IsoFields(s)) else None
  }

  // ---------- The calendar is monotone ----------

  predicate DateBefore(a: Date, b: Date) {
    a.year < b.year || (a.year == b.year && (a.month < b.month || (a.month == b.month && a.day < b.day)))
  }

  lemma {:induction false} MonthsMonotone(year: nat, m: nat, n: nat)
    requires 1 <= m < n
    ensures DaysBeforeMonth(year, m) + DaysInMonth(year, m) <= DaysBeforeMonth(year, n)
  {
    if m + 1 < n { MonthsMonotone(year, m, n - 1); }
  }

  lemma DivStep(n: nat)
    ensures (n + 1) / 4 == n / 4 + if (n + 1) % 4 == 0 then 1 else 0
    ensures (n + 1) / 100 == n / 100 + if (n + 1) % 100 == 0 then 1 else 0
    ensures (n + 1) / 400 == n / 400 + if (n + 1) % 400 == 0 then 1 else 0
  {}

  lemma LeapRule(n: nat)
    ensures n % 100 == 0 ==> n % 4 == 0
    ensures n % 400 == 0 ==> n % 100 == 0
  {
    Multiples(25 * (n / 100), 4 * (n / 400));
  }

  lemma Multiples(q: nat, r: nat)
    ensures (4 * q) % 4 == 0 && (100 * r) % 100 == 0
  {}

  lemma YearLength(year: nat)
    requires year >= 1
    ensures DaysBeforeYear(year + 1) == DaysBeforeYear(year) + if IsLeap(year) then 366 else 365
  {
    DivStep(year - 1);
    LeapRule(year);
  }

  lemma MonthsOfYear(year: nat)
    ensures DaysBeforeMonth(year, 12) == if IsLeap(year) then 335 else 334
  {
    assert DaysBeforeMonth(year, 2) == 31;
    assert DaysBeforeMonth(year, 3) == 31 + DaysInMonth(year, 2);
    assert DaysBeforeMonth(year, 5) == 92 + DaysInMonth(year, 2);
    assert DaysBeforeMonth(year, 7) == 153 + DaysInMonth(year, 2);
    assert DaysBeforeMonth(year, 9) == 215 + DaysInMonth(year, 2);
    assert DaysBeforeMonth(year, 11) == 276 + DaysInMonth(year, 2);
  }

  lemma {:induction false} YearsMonotone(y: nat, z: nat)
    requires 1 <= y < z
    ensures DaysBeforeYear(y) + (if IsLeap(y) then 366 else 365) <= DaysBeforeYear(z)
  {
    YearLength(z - 1);
    if y + 1 < z { YearsMonotone(y, z - 1); }
  }

  lemma EarlierDay(a: Date, b: Date)
    requires ValidDate(a) && ValidDate(b) && DateBefore(a, b)
    ensures DayNumber(a) < DayNumber(b)
  {
    if a.year < b.year {
      YearsMonotone(a.year, b.year);
      MonthsOfYear(a.year);
      if a.month < 12 { MonthsMonotone(a.year, a.month, 12); }
    } else if a.month < b.month {
      MonthsMonotone(a.year, a.month, b.month);
    }
  }

  /** Day numbers order dates as their fields do. */
  lemma DayOrder(a: Date, b: Date)
    requires ValidDate(a) && ValidDate(b)
    ensures DayNumber(a) < DayNumber(b) <==> DateBefore(a, b)
    ensures DayNumber(a) == DayNumber(b) <==> a == b
  {
    if DateBefore(a, b) { EarlierDay(a, b); }
    if DateBefore(b, a) { EarlierDay(b, a); }
  }

  predicate ClockBefore(a: Moment, b: Moment) {
    a.hour < b.hour || (a.hour == b.hour &&
      (a.minute < b.minute || (a.minute == b.minute &&
        (a.second < b.second || (a.second == b.second && a.micro < b.micro)))))
  }

  predicate MomentBefore(a: Moment, b: Moment) {
    DateBefore(a.date, b.date) || (a.date == b.date && ClockBefore(a, b))
  }

  lemma InstantOrder(a: Moment, b: Moment)
    requires ValidMoment(a) && ValidMoment(b)
    ensures Instant(a) < Instant(b) <==> MomentBefore(a, b)
    ensures Instant(a) == Instant(b) <==> a == b
  {
    DayOrder(a.date, b.date);
  }

  // ---------- The texts are ordered as the times are ----------

  /** A padded field, a separator, and the rest: the first difference decides. */
  lemma FieldOrder(x: nat, y: nat, w: nat, sep: string, u: string, v: string)
    requires x < Pow10(w) && y < Pow10(w)
    ensures Less(Pad(x, w) + (sep + u), Pad(y, w) + (sep + v)) <==> x < y || (x == y && Less(u, v))
    ensures Pad(x, w) + (sep + u) == Pad(y, w) + (sep + v) <==> x == y && u == v
  {
    PadOrder(x, y, w);
    LessConcat(Pad(x, w), Pad(y, w), sep + u, sep + v);
    LessIrreflexive(sep);
    LessConcat(sep, sep, u, v);
    SameJoin(Pad(x, w), Pad(y, w), sep + u, sep + v);
    SameJoin(sep, sep, u, v);
  }

  lemma SameJoin(p: string, q: string, u: string, v: string)
    requires |p| == |q|
    ensures p + u == q + v <==> p == q && u == v
  {
    assert (p + u)[..|p|] == p && (q + v)[..|p|] == q;
    assert (p + u)[|p|..] == u && (q + v)[|p|..] == v;
  }

  lemma Widths()
    ensures Pow10(2) == 100 && Pow10(4) == 10000 && Pow10(6) == 1000000
  {
    assert Pow10(3) == 1000;
    assert Pow10(5) == 100 * Pow10(3);
  }

  lemma DateIsoOrder(a: Date, b: Date)
    requires ValidDate(a) && ValidDate(b)
    ensures Less(DateIso(a), DateIso(b)) <==> DateBefore(a, b)
    ensures DateIso(a) == DateIso(b) <==> a == b
    ensures |DateIso(a)| == 10
  {
    Widths();
    FieldOrder(a.year, b.year, 4, "-", Pad(a.month, 2) + ("-" + Pad(a.day, 2)), Pad(b.month, 2) + ("-" + Pad(b.day, 2)));
    FieldOrder(a.month, b.month, 2, "-", Pad(a.day, 2), Pad(b.day, 2));
    PadOrder(a.day, b.day, 2);
  }

  /** A missing fraction sorts before every written one, because '+' comes before '.'. */
  lemma FractionOrder(x: nat, y: nat)
    requires x < 1000000 && y < 1000000
    ensures Less(FractionIso(x) + SEOUL, FractionIso(y) + SEOUL) <==> x < y
    ensures FractionIso(x) + SEOUL == FractionIso(y) + SEOUL <==> x == y
  {
    Widths();
    LessIrreflexive(SEOUL);
    var s, t := FractionIso(x) + SEOUL, FractionIso(y) + SEOUL;
    assert s[0] == (if x == 0 then '+' else '.') && t[0] == (if y == 0 then '+' else '.');
    if x == 0 && y == 0 {
      assert s == t == SEOUL;
    } else if x != 0 && y != 0 {
      PadOrder(x, y, 6);
      LessConcat(Pad(x, 6), Pad(y, 6), SEOUL, SEOUL);
      SameJoin(Pad(x, 6), Pad(y, 6), SEOUL, SEOUL);
      assert s[1..] == Pad(x, 6) + SEOUL && t[1..] == Pad(y, 6) + SEOUL;
      assert s == ["."[0]] + s[1..] && t == ["."[0]] + t[1..];
    }
  }

  lemma ClockIsoOrder(a: Moment, b: Moment)
    requires ValidMoment(a) && ValidMoment(b)
    ensures Less(ClockIso(a), ClockIso(b)) <==> ClockBefore(a, b)
    ensures ClockIso(a) == ClockIso(b) <==> a.(date := b.date) == b
  {
    Widths();
    var (fa, fb) := (FractionIso(a.micro) + SEOUL, FractionIso(b.micro) + SEOUL);
    var (sa, sb) := (Pad(a.second, 2) + ("" + fa), Pad(b.second, 2) + ("" + fb));
    var (ma, mb) := (Pad(a.minute, 2) + (":" + sa), Pad(b.minute, 2) + (":" + sb));
    FractionOrder(a.micro, b.micro);
    FieldOrder(a.second, b.second, 2, "", fa, fb);
    FieldOrder(a.minute, b.minute, 2, ":", sa, sb);
    FieldOrder(a.hour, b.hour, 2, ":", ma, mb);
  }

  /** The texts sort as the moments do, and only equal moments print alike. */
  lemma IsoOrder(a: Moment, b: Moment)
    requires ValidMoment(a) && ValidMoment(b)
    ensures Less(ToIso(a), ToIso(b)) <==> Instant(a) < Instant(b)
    ensures ToIso(a) == ToIso(b) <==> Instant(a) == Instant(b)
  {
    InstantOrder(a, b);
    DateIsoOrder(a.date, b.date);
    DateIsoOrder(b.date, a.date);
    ClockIsoOrder(a, b);
    LessConcat(DateIso(a.date), DateIso(b.date), "T" + ClockIso(a), "T" + ClockIso(b));
    SameJoin(DateIso(a.date), DateIso(b.date), "T" + ClockIso(a), "T" + ClockIso(b));
    LessConcat("T", "T", ClockIso(a), ClockIso(b));
    SameJoin("T", "T", ClockIso(a), ClockIso(b));
    LessIrreflexive("T");
  }

  // ---------- Reading back ----------

  lemma DateLayout(d: Date)
    ensures var s := DateIso(d);
            && |s| == 10 && s[4] == '-' && s[7] == '-'
            && s[0..4] == Pad(d.year, 4) && s[5..7] == Pad(d.month, 2) && s[8..10] == Pad(d.day, 2)
  {}

  lemma ClockLayout(m: Moment)
    ensures var s := ClockIso(m);
            && |s| == 8 + |FractionIso(m.micro)| + 6 && s[2] == ':' && s[5] == ':'
            && s[0..2] == Pad(m.hour, 2) && s[3..5] == Pad(m.minute, 2) && s[6..8] == Pad(m.second, 2)
            && s[8..] == FractionIso(m.micro) + SEOUL
  {}

  lemma FractionLayout(micro: nat)
    ensures var s := FractionIso(micro) + SEOUL;
            && s[|s| - 6..] == SEOUL
            && (micro != 0 ==> |s| == 13 && s[0] == '.' && s[1..7] == Pad(micro, 6))
            && (micro == 0 ==> |s| == 6)
  {}

  lemma SliceOfTail(p: string, t: string, i: nat, j: nat)
    requires i <= j <= |t|
    ensures (p + t)[|p| + i..|p| + j] == t[i..j]
  {}

  lemma SliceOfHead(p: string, t: string, i: nat, j: nat)
    requires i <= j <= |p|
    ensures (p + t)[i..j] == p[i..j]
  {}

  /** Every printed moment is read back as it was. */
  lemma ParseToIso(m: Moment)
    requires ValidMoment(m)
    ensures ParseIso(ToIso(m)) == Some(m)
  {
    ShapeOfIso(m);
    FieldsOfIso(m);
    Widths();
    ReadPad(m.date.year, 4);
    ReadPad(m.date.month, 2);
    ReadPad(m.date.day, 2);
    ReadPad(m.hour, 2);
    ReadPad(m.minute, 2);
    ReadPad(m.second, 2);
    ReadPad(m.micro, 6);
    hide ToIso, Pad, ReadDigits, Pow10, IsoShape, AllDigits;
    assert IsoFields(ToIso(m)) == m;
  }

  lemma ShapeOfIso(m: Moment)
    requires ValidMoment(m)
    ensures IsoShape(ToIso(m))
  {
    FieldsOfIso(m);
    hide ToIso, Pad, AllDigits;
  }

  // ---------- From numbers back to days and moments ----------

  /** The number of the last day, the 31st of December 9999. */
  const LAST_DAY := 3652059

  /** The day that a number of microseconds falls on. */
  function DayOf(t: int): int {
    t / 1000000 / 60 / 60 / 24
  }

  function NextDay(d: Date): Date {
    if d.day < DaysInMonth(d.year, d.month) then d.(day := d.day + 1)
    else if d.month < 12 then Date(d.year, d.month + 1, 1)
    else Date(d.year + 1, 1, 1)
  }

  lemma NextDayNumber(d: Date)
    requires ValidDate(d) && DayNumber(d) < LAST_DAY
    ensures ValidDate(NextDay(d)) && DayNumber(NextDay(d)) == DayNumber(d) + 1
  {
    if d.month == 12 {
      MonthsOfYear(d.year);
      YearLength(d.year);
    }
  }

  function DateOf(n: int): (d: Date)
    requires 1 <= n <= LAST_DAY
    ensures ValidDate(d) && DayNumber(d) == n
  {
    if n == 1 then Date(1, 1, 1)
    else
      NextDayNumber(DateOf(n - 1));
      NextDay(DateOf(n - 1))
  }

  predicate InCalendar(t: int) {
    1 <= DayOf(t) <= LAST_DAY
  }

  function HourOf(t: int): nat {
    t / 1000000 / 60 / 60 % 24
  }

  function MinuteOf(t: int): nat {
    t / 1000000 / 60 % 60
  }

  function SecondOf(t: int): nat {
    t / 1000000 % 60
  }

  lemma InParts(t: int)
    ensures (((DayOf(t) * 24 + HourOf(t)) * 60 + MinuteOf(t)) * 60 + SecondOf(t)) * 1000000 + t % 1000000 == t
  {
    var seconds := t / 1000000;
    var minutes := seconds / 60;
    var hours := minutes / 60;
    assert DayOf(t) * 24 + HourOf(t) == hours;
    assert hours * 60 + MinuteOf(t) == minutes;
    assert minutes * 60 + SecondOf(t) == seconds;
  }

  function MomentOf(t: int): (m: Moment)
    requires InCalendar(t)
    ensures ValidMoment(m) && Instant(m) == t && DayNumber(m.date) == DayOf(t)
  {
    hide DayNumber, ValidDate, DateOf, DayOf;
    InParts(t);
    Moment(DateOf(DayOf(t)), HourOf(t), MinuteOf(t), SecondOf(t), t % 1000000)
  }

  // ---------- The compact date ----------

  lemma CompactInjective(a: Date, b: Date)
    requires ValidDate(a) && ValidDate(b)
    ensures DateCompact(a) == DateCompact(b) <==> a == b
    ensures '-' !in DateCompact(a)
  {
    Widths();
    var (s, t) := (DateCompact(a), DateCompact(b));
    if s == t {
      CompactParts(a);
      CompactParts(b);
      ReadShortest(a.year);
      ReadShortest(b.year);
      PadOrder(a.month, b.month, 2);
      PadOrder(a.day, b.day, 2);
    }
  }

  lemma CompactParts(d: Date)
    ensures var s := DateCompact(d);
            && |s| > 4 && s[..|s| - 4] == Digits(d.year)
            && s[|s| - 4..|s| - 2] == Pad(d.month, 2) && s[|s| - 2..] == Pad(d.day, 2)
  {}

  lemma DatePart(m: Moment)
    ensures var s := ToIso(m);
            && |s| >= 11 && s[4] == '-' && s[7] == '-' && s[10] == 'T'
            && s[0..4] == Pad(m.date.year, 4) && s[5..7] == Pad(m.date.month, 2) && s[8..10] == Pad(m.date.day, 2)
  {
    hide DateIso, ClockIso, Pad;
    var d, t := DateIso(m.date), "T" + ClockIso(m);
    DateLayout(m.date);
    assert ToIso(m) == d + t;
    SliceOfHead(d, t, 0, 4);
    SliceOfHead(d, t, 5, 7);
    SliceOfHead(d, t, 8, 10);
  }

  lemma ClockPart(m: Moment)
    ensures var s := ToIso(m);
            && |s| == 19 + |FractionIso(m.micro)| + 6 && s[13] == ':' && s[16] == ':'
            && s[11..13] == Pad(m.hour, 2) && s[14..16] == Pad(m.minute, 2) && s[17..19] == Pad(m.second, 2)
            && s[19..] == FractionIso(m.micro) + SEOUL
  {
    hide DateIso, ClockIso, FractionIso, Pad;
    var d, c := DateIso(m.date) + "T", ClockIso(m);
    DateLayout(m.date);
    ClockLayout(m);
    assert ToIso(m) == d + c;
    SliceOfTail(d, c, 0, 2);
    SliceOfTail(d, c, 3, 5);
    SliceOfTail(d, c, 6, 8);
    SliceOfTail(d, c, 8, |c|);
    assert (d + c)[19..] == (d + c)[19..|d + c|] && c[8..] == c[8..|c|];
  }

  lemma FieldsOfIso(m: Moment)
    ensures var s := ToIso(m);
            && |s| == (if m.micro == 0 then 25 else 32)
            && s[4] == '-' && s[7] == '-' && s[10] == 'T' && s[13] == ':' && s[16] == ':'
            && s[0..4] == Pad(m.date.year, 4) && s[5..7] == Pad(m.date.month, 2) && s[8..10] == Pad(m.date.day, 2)
            && s[11..13] == Pad(m.hour, 2) && s[14..16] == Pad(m.minute, 2) && s[17..19] == Pad(m.second, 2)
            && s[|s| - 6..] == SEOUL
            && (m.micro != 0 ==> s[19] == '.' && s[20..26] == Pad(m.micro, 6))
  {
    hide ToIso, FractionIso, Pad;
    DatePart(m);
    ClockPart(m);
    FractionLayout(m.micro);
    var s, f := ToIso(m), FractionIso(m.micro) + SEOUL;
    assert s == s[..19] + f;
    SliceOfTail(s[..19], f, |f| - 6, |f|);
    if m.micro != 0 { SliceOfTail(s[..19], f, 1, 7); }
  }

  // ---------- Samples ----------

  lemma PadStep(n: nat, w: nat)
    ensures Pad(n, 0) == "" && Pad(n, w + 1) == Pad(n / 10, w) + [DigitChar(n % 10)]
  {}

  lemma DayDigits()
    ensures Pad(1, 2) == "01" && Pad(2, 2) == "02"
  {
    assert Pad(0, 1) == "0";
  }

  lemma YearDigits()
    ensures Digits(2025) == "2025" && Pad(2025, 4) == "2025"
  {
    PadStep(2025, 3);
    PadStep(202, 2);
    PadStep(20, 1);
    PadStep(2, 0);
    hide Pad;
    assert Digits(20) == "20" && Digits(202) == "202";
  }

  lemma PrintedDate()
    ensures DateIso(Date(2025, 1, 2)) == "2025-01-02" && DateCompact(Date(2025, 1, 2)) == "20250102"
  {
    YearDigits();
    DayDigits();
    hide Pad, Digits;
    assert DateIso(Date(2025, 1, 2)) == "2025" + ("-" + ("01" + ("-" + "02")));
  }

  /** Which day is which: leap years, and two days by their number. */
  lemma CalendarSamples()
    ensures ValidDate(Date(2024, 2, 29)) && ValidDate(Date(2000, 2, 29))
    ensures !ValidDate(Date(1900, 2, 29)) && !ValidDate(Date(2025, 2, 29))
    ensures DayNumber(Date(1970, 1, 1)) == 719163 && DayNumber(Date(2000, 12, 31)) == 730485
  {
    MonthsOfYear(2000);
  }
}
