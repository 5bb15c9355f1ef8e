/** The textual timestamps of `normalization.py`, and why comparing them as text is sound.

    Instants count seconds from 0001-01-01T00:00:00Z in the proleptic Gregorian calendar, as
    Python's datetime does. */
module Timestamps {
  import opened Basics
  import opened Texts

  datatype DateTime = DateTime(year: int, month: int, day: int, hour: int, minute: int, second: int) {
    predicate Valid() {
      && 1 <= year <= 9999
      && 1 <= month <= 12
      && 1 <= day <= DaysInMonth(year, month)
      && 0 <= hour <= 23 && 0 <= minute <= 59 && 0 <= second <= 59
    }
  }

  predicate Leap(year: int) {
    year % 4 == 0 && (year % 100 != 0 || year % 400 == 0)
  }

  function DaysInMonth(year: int, month: int): int {
    if month == 2 then (if Leap(year) then 29 else 28)
    else if month in {4, 6, 9, 11} then 30
    else 31
  }

  function DaysInYear(year: int): int {
    if Leap(year) then 366 else 365
  }

  function DaysBeforeYear(year: int): int {
    var y := year - 1;
    y * 365 + y / 4 - y / 100 + y / 400
  }

  function DaysBeforeMonth(year: int, month: int): (days: int)
    requires 1 <= month <= 13
  {
    if month == 1 then 0
    else DaysBeforeMonth(year, month - 1) + DaysInMonth(year, month - 1)
  }

  /** Whole days since 0001-01-01. */
  function DayNumber(d: DateTime): int
    requires 1 <= d.month <= 12
  {
    DaysBeforeYear(d.year) + DaysBeforeMonth(d.year, d.month) + d.day - 1
  }

  /** The instant a UTC date and time denotes. */
  function Instant(d: DateTime): int
    requires 1 <= d.month <= 12
  {
    DayNumber(d) * 86400 + d.hour * 3600 + d.minute * 60 + d.second
  }

  // ------------------------------------------------------------ texts

  function Digit(n: int): char
    requires 0 <= n <= 9
  {
    '0' + n as char
  }

  /** A number with leading zeros, as isoformat writes it. */
  function Padded(n: int, width: nat): (s: string)
    ensures |s| == width
    decreases width
  {
    if width == 0 then "" else Padded(n / 10, width - 1) + [Digit(n % 10)]
  }

  function Power10(width: nat): (r: int)
    ensures r >= 1
  {
    if width == 0 then 1 else 10 * Power10(width - 1)
  }

  /** `isoformat(timespec="seconds")` with the offset written as Z. */
  function Text(d: DateTime): (s: string)
    ensures |s| == 20
  {
    Padded(d.year, 4) + ("-" + (Padded(d.month, 2) + ("-" + (Padded(d.day, 2) + ("T" +
    (Padded(d.hour, 2) + (":" + (Padded(d.minute, 2) + (":" + (Padded(d.second, 2) + "Z"))))))))))
  }

  lemma {:induction false} PaddedOrder(m: int, n: int, width: nat)
    requires 0 <= m < Power10(width) && 0 <= n < Power10(width)
    ensures LexLess(Padded(m, width), Padded(n, width)) <==> m < n
    ensures Padded(m, width) == Padded(n, width) <==> m == n
  {
    if width > 0 {
      PaddedOrder(m / 10, n / 10, width - 1);
      var a, b := Digit(m % 10), Digit(n % 10);
      LexConcat(Padded(m / 10, width - 1), [a], Padded(n / 10, width - 1), [b]);
      assert Padded(m, width)[|Padded(m, width)| - 1] == a;
      assert Padded(n, width)[|Padded(n, width)| - 1] == b;
      assert Padded(m, width)[..width - 1] == Padded(m / 10, width - 1);
      assert Padded(n, width)[..width - 1] == Padded(n / 10, width - 1);
      assert LexLess([a], [b]) <==> m % 10 < n % 10;
    }
  }

  /** One field, its separator, and the rest. */
  lemma {:induction false} FieldOrder(m: int, n: int, width: nat, separator: string, x: string, y: string)
    requires 0 <= m < Power10(width) && 0 <= n < Power10(width)
    ensures LexLess(Padded(m, width) + (separator + x), Padded(n, width) + (separator + y))
       <==> m < n || (m == n && LexLess(x, y))
  {
    PaddedOrder(m, n, width);
    LexConcat(Padded(m, width), separator + x, Padded(n, width), separator + y);
    LexConcat(separator, x, separator, y);
    LexTrichotomy(separator, separator);
  }

  predicate Earlier(a: DateTime, b: DateTime) {
    || a.year < b.year
    || (a.year == b.year && (
        || a.month < b.month
        || (a.month == b.month && (
            || a.day < b.day
            || (a.day == b.day && (
                || a.hour < b.hour
                || (a.hour == b.hour && (
                    || a.minute < b.minute
                    || (a.minute == b.minute && a.second < b.second)))))))))
  }

  lemma TextOrdersFields(a: DateTime, b: DateTime)
    requires a.Valid() && b.Valid()
    ensures LexLess(Text(a), Text(b)) <==> Earlier(a, b)
  {
    assert Power10(2) == 100 by { assert Power10(1) == 10; }
    assert Power10(4) == 10000 by { assert Power10(3) == 1000; }
    var a5, b5 := Padded(a.second, 2) + "Z", Padded(b.second, 2) + "Z";
    var a4, b4 := Padded(a.minute, 2) + (":" + a5), Padded(b.minute, 2) + (":" + b5);
    var a3, b3 := Padded(a.hour, 2) + (":" + a4), Padded(b.hour, 2) + (":" + b4);
    var a2, b2 := Padded(a.day, 2) + ("T" + a3), Padded(b.day, 2) + ("T" + b3);
    var a1, b1 := Padded(a.month, 2) + ("-" + a2), Padded(b.month, 2) + ("-" + b2);
    PaddedOrder(a.second, b.second, 2);
    LexConcat(Padded(a.second, 2), "Z", Padded(b.second, 2), "Z");
    LexTrichotomy("Z", "Z");
    FieldOrder(a.minute, b.minute, 2, ":", a5, b5);
    FieldOrder(a.hour, b.hour, 2, ":", a4, b4);
    FieldOrder(a.day, b.day, 2, "T", a3, b3);
    FieldOrder(a.month, b.month, 2, "-", a2, b2);
    FieldOrder(a.year, b.year, 4, "-", a1, b1);
  }

  // ------------------------------------------------------------ instants

  lemma YearLength(year: int)
    requires 1 <= year
    ensures DaysBeforeYear(year + 1) == DaysBeforeYear(year) + DaysInYear(year)
  {
    NextQuarter(year);
    NextCentury(year);
    NextCycle(year);
    LeapDays(year);
  }

  lemma NextQuarter(year: int)
    ensures year / 4 == (year - 1) / 4 + Whole(year % 4)
  {
  }

  lemma NextCentury(year: int)
    ensures year / 100 == (year - 1) / 100 + Whole(year % 100)
  {
  }

  lemma NextCycle(year: int)
    ensures year / 400 == (year - 1) / 400 + Whole(year % 400)
  {
  }

  /** One if a division leaves nothing. */
  function Whole(rest: int): int {
    if rest == 0 then 1 else 0
  }

  lemma LeapDays(year: int)
    ensures DaysInYear(year) == 365 + Whole(year % 4) - Whole(year % 100) + Whole(year % 400)
  {
    HundredsOfCycles(year);
    QuartersOfCenturies(year);
  }

  lemma HundredsOfCycles(year: int)
    ensures year % 400 == 0 ==> year % 100 == 0
  {
  }

  lemma QuartersOfCenturies(year: int)
    ensures year % 100 == 0 ==> year % 4 == 0
  {
  }

  lemma {:induction false} MonthTotal(year: int)
    ensures DaysBeforeMonth(year, 13) == DaysInYear(year)
  {
    assert DaysBeforeMonth(year, 3) == 31 + DaysInMonth(year, 2) by { assert DaysBeforeMonth(year, 2) == 31; }
    assert DaysBeforeMonth(year, 5) == DaysBeforeMonth(year, 3) + 61;
    assert DaysBeforeMonth(year, 7) == DaysBeforeMonth(year, 5) + 61;
    assert DaysBeforeMonth(year, 9) == DaysBeforeMonth(year, 7) + 62;
    assert DaysBeforeMonth(year, 11) == DaysBeforeMonth(year, 9) + 61;
  }

  lemma {:induction false} YearsAscend(a: int, b: int)
    requires 1 <= a <= b
    ensures DaysBeforeYear(a) <= DaysBeforeYear(b)
    ensures a < b ==> DaysBeforeYear(a) + DaysInYear(a) <= DaysBeforeYear(b)
    decreases b - a
  {
    if a < b {
      YearLength(a);
      YearsAscend(a + 1, b);
    }
  }

  lemma {:induction false} MonthsAscend(year: int, a: int, b: int)
    requires 1 <= a <= b <= 13
    ensures DaysBeforeMonth(year, a) <= DaysBeforeMonth(year, b)
    ensures a < b ==> DaysBeforeMonth(year, a) + DaysInMonth(year, a) <= DaysBeforeMonth(year, b)
    decreases b - a
  {
    if a < b {
      MonthsAscend(year, a + 1, b);
    }
  }

  lemma EarlierIsBefore(a: DateTime, b: DateTime)
    requires a.Valid() && b.Valid() && Earlier(a, b)
    ensures Instant(a) < Instant(b)
  {
    if a.year < b.year {
      YearsAscend(a.year, b.year);
      MonthsAscend(a.year, a.month, 13);
      MonthsAscend(b.year, 1, b.month);
      MonthTotal(a.year);
      assert DayNumber(a) < DayNumber(b);
    } else if a.month < b.month {
      MonthsAscend(a.year, a.month, b.month);
      assert DayNumber(a) < DayNumber(b);
    }
  }

  /** Normalized timestamps compare as texts exactly as the instants they denote (the ordering
      property of section 5.1 of RFC 3339). */
  lemma TextOrderIsInstantOrder(a: DateTime, b: DateTime)
    requires a.Valid() && b.Valid()
    ensures LexLess(Text(a), Text(b)) <==> Instant(a) < Instant(b)
    ensures Text(a) == Text(b) <==> Instant(a) == Instant(b)
  {
    TextOrdersFields(a, b);
    TextOrdersFields(b, a);
    LexTrichotomy(Text(a), Text(b));
    if Earlier(a, b) {
      EarlierIsBefore(a, b);
    } else if Earlier(b, a) {
      EarlierIsBefore(b, a);
    } else {
      assert a == b;
    }
  }

  // ------------------------------------------------------------ from instants to texts

  predicate InstantInRange(t: int) {
    0 <= t < DaysBeforeYear(10000) * 86400
  }

  /** The last year, from `year` on, that starts on or before the day. */
  function YearOf(day: int, year: int): (y: int)
    requires 1 <= year <= 9999
    requires DaysBeforeYear(year) <= day < DaysBeforeYear(10000)
    ensures year <= y <= 9999
    ensures DaysBeforeYear(y) <= day < DaysBeforeYear(y + 1)
    decreases 9999 - year
  {
    if day < DaysBeforeYear(year + 1) then year else YearOf(day, year + 1)
  }

  function MonthOf(year: int, day: int, month: int): (m: int)
    requires 1 <= month <= 12
    requires DaysBeforeMonth(year, month) <= day < DaysBeforeMonth(year, 13)
    ensures month <= m <= 12
    ensures DaysBeforeMonth(year, m) <= day < DaysBeforeMonth(year, m) + DaysInMonth(year, m)
    decreases 12 - month
  {
    if day < DaysBeforeMonth(year, month + 1) then month else MonthOf(year, day, month + 1)
  }

  /** The UTC fields of an instant. */
  function Fields(t: int): (d: DateTime)
    requires InstantInRange(t)
    ensures d.Valid()
    ensures Instant(d) == t
  {
    var day, rest := t / 86400, t % 86400;
    assert day < DaysBeforeYear(10000);
    var year := YearOf(day, 1);
    YearLength(year);
    MonthTotal(year);
    var month := MonthOf(year, day - DaysBeforeYear(year), 1);
    var inMonth := day - DaysBeforeYear(year) - DaysBeforeMonth(year, month);
    assert rest == rest / 3600 * 3600 + rest % 3600 / 60 * 60 + rest % 60;
    DateTime(year, month, inMonth + 1, rest / 3600, rest % 3600 / 60, rest % 60)
  }

  lemma FieldsOfInstant(d: DateTime)
    requires d.Valid()
    ensures InstantInRange(Instant(d))
    ensures Fields(Instant(d)) == d
  {
    YearsAscend(1, d.year);
    YearsAscend(d.year, 10000);
    MonthsAscend(d.year, 1, d.month);
    MonthsAscend(d.year, d.month, 13);
    MonthTotal(d.year);
    YearLength(d.year);
    assert 0 <= DayNumber(d) < DaysBeforeYear(10000);
    var e := Fields(Instant(d));
    TextOrdersFields(d, e);
    if Earlier(d, e) {
      EarlierIsBefore(d, e);
    } else if Earlier(e, d) {
      EarlierIsBefore(e, d);
    }
  }

  datatype TimestampError = OutOfRange

  /** A local date and time, its microseconds and its zone's offset in microseconds, as a UTC instant
      cut to whole seconds. */
  function UtcSeconds(local: DateTime, micros: int, offset: int): int
    requires 1 <= local.month <= 12
  {
    (Instant(local) * 1000000 + micros - offset) / 1000000
  }

  /** `normalize_timestamp` of a date with a zone: the UTC text, with seconds as its precision. */
  function Normalize(local: DateTime, micros: int, offset: int): (r: Result<string, TimestampError>)
    requires local.Valid()
  {
    var t := UtcSeconds(local, micros, offset);
    if InstantInRange(t) then Ok(Text(Fields(t))) else Err(OutOfRange)
  }

  lemma TextOfInstantOrder(s: int, t: int)
    requires InstantInRange(s) && InstantInRange(t)
    ensures LexLess(Text(Fields(s)), Text(Fields(t))) <==> s < t
    ensures Text(Fields(s)) == Text(Fields(t)) <==> s == t
  {
    TextOrderIsInstantOrder(Fields(s), Fields(t));
  }

  /** Whatever zones they were written in, two normalized timestamps compare as texts the way their
      instants, cut to whole seconds, compare. */
  lemma NormalizedOrder(a: DateTime, aMicros: int, aOffset: int, b: DateTime, bMicros: int, bOffset: int)
    requires a.Valid() && b.Valid()
    requires Normalize(a, aMicros, aOffset).Ok? && Normalize(b, bMicros, bOffset).Ok?
    ensures LexLess(Normalize(a, aMicros, aOffset).value, Normalize(b, bMicros, bOffset).value)
       <==> UtcSeconds(a, aMicros, aOffset) < UtcSeconds(b, bMicros, bOffset)
    ensures Normalize(a, aMicros, aOffset) == Normalize(b, bMicros, bOffset)
       <==> UtcSeconds(a, aMicros, aOffset) == UtcSeconds(b, bMicros, bOffset)
  {
    TextOfInstantOrder(UtcSeconds(a, aMicros, aOffset), UtcSeconds(b, bMicros, bOffset));
  }

  /** Normalizing an already normalized timestamp gives it back. */
  lemma NormalizeIsIdempotent(t: int)
    requires InstantInRange(t)
    ensures Normalize(Fields(t), 0, 0) == Ok(Text(Fields(t)))
  {
    assert UtcSeconds(Fields(t), 0, 0) == t;
  }

  // ------------------------------------------------------------ what texts and instants mean

  /** The number that decimal digits write. */
  function NumberOf(digits: string): int {
    if digits == "" then 0 else 10 * NumberOf(digits[..|digits| - 1]) + (digits[|digits| - 1] as int - '0' as int)
  }

  lemma {:induction false} PaddedReadsBack(n: int, width: nat)
    requires 0 <= n < Power10(width)
    ensures NumberOf(Padded(n, width)) == n
    ensures forall i :: 0 <= i < width ==> '0' <= Padded(n, width)[i] <= '9'
  {
    if width > 0 {
      PaddedReadsBack(n / 10, width - 1);
      var s := Padded(n, width);
      assert s[..|s| - 1] == Padded(n / 10, width - 1);
      assert s[|s| - 1] as int - '0' as int == n % 10;
    }
  }

  /** A text of the form YYYY-MM-DDTHH:MM:SSZ with these numbers. */
  predicate Reads(s: string, year: int, month: int, day: int, hour: int, minute: int, second: int) {
    && |s| == 20
    && s[4] == '-' && s[7] == '-' && s[10] == 'T' && s[13] == ':' && s[16] == ':' && s[19] == 'Z'
    && NumberOf(s[..4]) == year && NumberOf(s[5..7]) == month && NumberOf(s[8..10]) == day
    && NumberOf(s[11..13]) == hour && NumberOf(s[14..16]) == minute && NumberOf(s[17..19]) == second
  }

  lemma DateParts(y: string, m: string, d: string, rest: string)
    requires |y| == 4 && |m| == |d| == 2
    ensures var s := y + ("-" + (m + ("-" + (d + rest))));
            s[..4] == y && s[4] == '-' && s[5..7] == m && s[7] == '-' && s[8..10] == d && s[10..] == rest
  {
  }

  lemma TimeParts(h: string, m: string, s: string)
    requires |h| == |m| == |s| == 2
    ensures var t := "T" + (h + (":" + (m + (":" + (s + "Z")))));
            && |t| == 10 && t[0] == 'T' && t[1..3] == h && t[3] == ':' && t[4..6] == m && t[6] == ':'
            && t[7..9] == s && t[9] == 'Z'
  {
  }

  lemma TextParts(d: DateTime)
    ensures var s := Text(d);
            && s[..4] == Padded(d.year, 4) && s[4] == '-' && s[5..7] == Padded(d.month, 2) && s[7] == '-'
            && s[8..10] == Padded(d.day, 2) && s[10] == 'T' && s[11..13] == Padded(d.hour, 2) && s[13] == ':'
            && s[14..16] == Padded(d.minute, 2) && s[16] == ':' && s[17..19] == Padded(d.second, 2) && s[19] == 'Z'
  {
    var hour, minute, second := Padded(d.hour, 2), Padded(d.minute, 2), Padded(d.second, 2);
    var s, time := Text(d), "T" + (hour + (":" + (minute + (":" + (second + "Z")))));
    DateParts(Padded(d.year, 4), Padded(d.month, 2), Padded(d.day, 2), time);
    TimeParts(hour, minute, second);
    assert s[10..] == time;
    assert s[11..13] == time[1..3] && s[14..16] == time[4..6] && s[17..19] == time[7..9];
    assert s[10] == time[0] && s[13] == time[3] && s[16] == time[6] && s[19] == time[9];
  }

  /** The text of a date reads as that date. */
  lemma TextReads(d: DateTime)
    requires d.Valid()
    ensures Reads(Text(d), d.year, d.month, d.day, d.hour, d.minute, d.second)
  {
    assert Power10(2) == 100 by { assert Power10(1) == 10; }
    assert Power10(4) == 10000 by { assert Power10(3) == 1000; }
    TextParts(d);
    PaddedReadsBack(d.year, 4);
    PaddedReadsBack(d.month, 2);
    PaddedReadsBack(d.day, 2);
    PaddedReadsBack(d.hour, 2);
    PaddedReadsBack(d.minute, 2);
    PaddedReadsBack(d.second, 2);
  }

  /** The months of the Gregorian calendar, by which dates exist. */
  lemma DatesThatExist(year: int, month: int, day: int)
    requires 1 <= year <= 9999
    ensures DateTime(year, month, day, 0, 0, 0).Valid()
       <==> || (month in {1, 3, 5, 7, 8, 10, 12} && 1 <= day <= 31)
            || (month in {4, 6, 9, 11} && 1 <= day <= 30)
            || (month == 2 && 1 <= day <= 28)
            || (month == 2 && day == 29 && year % 4 == 0 && (year % 100 == 0 ==> year % 400 == 0))
  {
  }

  /** The day after, on the calendar. */
  function NextDay(d: DateTime): (next: DateTime)
    requires d.Valid()
    ensures 1 <= next.month <= 12
  {
    if d.day < DaysInMonth(d.year, d.month) then d.(day := d.day + 1)
    else if d.month < 12 then d.(month := d.month + 1, day := 1)
    else d.(year := d.year + 1, month := 1, day := 1)
  }

  /** It exists whenever the year does. */
  lemma NextDayExists(d: DateTime)
    requires d.Valid()
    ensures NextDay(d).Valid() <==> NextDay(d).year <= 9999
    ensures NextDay(d).day == d.day + 1 || !d.(day := d.day + 1).Valid()
  {
  }

  lemma NextDayNumber(d: DateTime)
    requires d.Valid()
    ensures DayNumber(NextDay(d)) == DayNumber(d) + 1
  {
    if d.day == DaysInMonth(d.year, d.month) {
      if d.month < 12 {
        assert DaysBeforeMonth(d.year, d.month + 1) == DaysBeforeMonth(d.year, d.month) + DaysInMonth(d.year, d.month);
      } else {
        assert DaysBeforeMonth(d.year, 13) == DaysBeforeMonth(d.year, 12) + DaysInMonth(d.year, 12);
        MonthTotal(d.year);
        YearLength(d.year);
      }
    }
  }

  /** Instants count seconds: a day later is 86400 more, and within a day hours, minutes and seconds count as
      such. */
  lemma InstantsCountSeconds(d: DateTime)
    requires d.Valid()
    ensures Instant(NextDay(d)) == Instant(d) + 24 * 60 * 60
    ensures Instant(d) == Instant(d.(hour := 0, minute := 0, second := 0)) + (d.hour * 60 + d.minute) * 60 + d.second
  {
    NextDayNumber(d);
  }

  /** They begin with the calendar. */
  lemma FirstInstant()
    ensures Instant(DateTime(1, 1, 1, 0, 0, 0)) == 0
  {
  }

  /** What normalizing gives, for any zone: the UTC date whose second holds the instant, which is the local
      time less the offset. */
  lemma NormalizedSecond(local: DateTime, micros: int, offset: int)
    requires local.Valid() && Normalize(local, micros, offset).Ok?
    ensures exists d: DateTime ::
              && d.Valid() && Normalize(local, micros, offset) == Ok(Text(d))
              && Instant(d) * 1000000 <= Instant(local) * 1000000 + micros - offset < Instant(d) * 1000000 + 1000000
  {
    var d := Fields(UtcSeconds(local, micros, offset));
    assert Normalize(local, micros, offset) == Ok(Text(d));
  }

  /** Only an instant outside the years 1 to 9999 is refused: these have 3652059 days. */
  lemma RefusedInstants(local: DateTime, micros: int, offset: int)
    requires local.Valid()
    ensures Normalize(local, micros, offset).Err?
       <==> !(0 <= Instant(local) * 1000000 + micros - offset < 3652059 * 86400 * 1000000)
  {
    var t := Instant(local) * 1000000 + micros - offset;
    assert t < 3652059 * 86400 * 1000000 <==> t / 1000000 < 3652059 * 86400;
  }

  lemma LastInstant()
    ensures Instant(DateTime(9999, 12, 31, 23, 59, 59)) + 1 == 3652059 * 86400
  {
    NextDayNumber(DateTime(9999, 12, 31, 23, 59, 59));
    assert NextDay(DateTime(9999, 12, 31, 23, 59, 59)) == DateTime(10000, 1, 1, 23, 59, 59);
  }

  /** Half past midnight one hour east of Greenwich is in the day before. */
  lemma AnHourEast()
    ensures var local := DateTime(2024, 3, 1, 0, 30, 0);
            && Normalize(local, 999999, 3600000000).Ok?
            && Reads(Normalize(local, 999999, 3600000000).value, 2024, 2, 29, 23, 30, 0)
  {
    var local, utc := DateTime(2024, 3, 1, 0, 30, 0), DateTime(2024, 2, 29, 23, 30, 0);
    assert DaysBeforeMonth(2024, 2) == 31;
    assert UtcSeconds(local, 999999, 3600000000) == Instant(utc);
    FieldsOfInstant(utc);
    TextReads(utc);
  }
}
