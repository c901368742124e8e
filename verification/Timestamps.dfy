/** Fixed-width UTC timestamps, compared as strings: why that is the comparison of points in time
    (section 5.1 of RFC 3339). */
module Timestamps {
  import opened Basics
  import opened Strings
  import opened UpdateInfo

  // ---------------------------------------------------------------- the calendar

  datatype Time = Time(year: nat, month: nat, day: nat, hour: nat, minute: nat, second: nat)

  predicate Leap(y: nat) {
    y % 4 == 0 && (y % 100 != 0 || y % 400 == 0)
  }

  function DaysInMonth(y: nat, m: nat): nat {
    if m == 2 then (if Leap(y) then 29 else 28)
    else if m == 4 || m == 6 || m == 9 || m == 11 then 30
    else 31
  }

  predicate Valid(t: Time) {
    && t.year <= 9999 && 1 <= t.month <= 12 && 1 <= t.day <= DaysInMonth(t.year, t.month)
    && t.hour < 24 && t.minute < 60 && t.second < 60
  }

  function DaysBeforeYear(y: nat): nat {
    if y == 0 then 0 else DaysBeforeYear(y - 1) + if Leap(y - 1) then 366 else 365
  }

  function DaysBeforeMonth(y: nat, m: nat): nat {
    if m <= 1 then 0 else DaysBeforeMonth(y, m - 1) + DaysInMonth(y, m - 1)
  }

  function DayNumber(t: Time): int {
    DaysBeforeYear(t.year) + DaysBeforeMonth(t.year, t.month) + t.day - 1
  }

  const EPOCH_DAY := 719528

  /** Seconds since 1970-01-01T00:00:00Z, not counting leap seconds. */
  function Seconds(t: Time): int {
    (DayNumber(t) - EPOCH_DAY) * 86400 + t.hour * 3600 + t.minute * 60 + t.second
  }

  /** The next second on the calendar. */
  function Tomorrow(t: Time): Time {
    if t.day < DaysInMonth(t.year, t.month) then t.(day := t.day + 1, hour := 0, minute := 0, second := 0)
    else if t.month < 12 then Time(t.year, t.month + 1, 1, 0, 0, 0)
    else Time(t.year + 1, 1, 1, 0, 0, 0)
  }

  function NextSecond(t: Time): Time {
    if t.second < 59 then t.(second := t.second + 1)
    else if t.minute < 59 then t.(minute := t.minute + 1, second := 0)
    else if t.hour < 23 then t.(hour := t.hour + 1, minute := 0, second := 0)
    else Tomorrow(t)
  }

  lemma Quotient4(x: nat)
    ensures (x + 4) / 4 == (x + 3) / 4 + if x % 4 == 0 then 1 else 0
  {
  }

  lemma Quotient100(x: nat)
    ensures (x + 100) / 100 == (x + 99) / 100 + if x % 100 == 0 then 1 else 0
  {
  }

  lemma Quotient400(x: nat)
    ensures (x + 400) / 400 == (x + 399) / 400 + if x % 400 == 0 then 1 else 0
  {
  }

  lemma Multiples(x: nat)
    ensures x % 400 == 0 ==> x % 100 == 0
    ensures x % 100 == 0 ==> x % 4 == 0
  {
    var a, b := x / 400, x / 100;
    if x % 400 == 0 {
      assert x == 100 * (4 * a);
    }
    if x % 100 == 0 {
      assert x == 4 * (25 * b);
    }
  }

  lemma {:induction false} LeapCount(y: nat)
    ensures DaysBeforeYear(y) == 365 * y + (y + 3) / 4 - (y + 99) / 100 + (y + 399) / 400
  {
    if y == 0 {
    } else {
      LeapCount(y - 1);
      LeapYearStep(y - 1, 365 * (y - 1), DaysBeforeYear(y - 1));
    }
  }

  lemma LeapYearStep(x: nat, base: nat, days: nat)
    requires days == base + (x + 3) / 4 - (x + 99) / 100 + (x + 399) / 400
    ensures days + (if Leap(x) then 366 else 365) == base + 365 + (x + 4) / 4 - (x + 100) / 100 + (x + 400) / 400
  {
    Quotient4(x);
    Quotient100(x);
    Quotient400(x);
    Multiples(x);
  }

  lemma YearLength(y: nat)
    ensures DaysBeforeMonth(y, 12) + 31 == if Leap(y) then 366 else 365
  {
    assert DaysBeforeMonth(y, 2) == 31;
    assert DaysBeforeMonth(y, 3) == 31 + DaysInMonth(y, 2);
    assert DaysBeforeMonth(y, 4) == DaysBeforeMonth(y, 3) + 31;
    assert DaysBeforeMonth(y, 5) == DaysBeforeMonth(y, 4) + 30;
    assert DaysBeforeMonth(y, 6) == DaysBeforeMonth(y, 5) + 31;
    assert DaysBeforeMonth(y, 7) == DaysBeforeMonth(y, 6) + 30;
    assert DaysBeforeMonth(y, 8) == DaysBeforeMonth(y, 7) + 31;
    assert DaysBeforeMonth(y, 9) == DaysBeforeMonth(y, 8) + 31;
    assert DaysBeforeMonth(y, 10) == DaysBeforeMonth(y, 9) + 30;
    assert DaysBeforeMonth(y, 11) == DaysBeforeMonth(y, 10) + 31;
    assert DaysBeforeMonth(y, 12) == DaysBeforeMonth(y, 11) + 30;
  }

  /** The lengths of the months by another rule: from January and from August on, long and short months
      alternate; February has 29 days in the leap years of the Gregorian calendar. */
  lemma MonthLengths(y: nat, m: nat)
    requires 1 <= m <= 12
    ensures DaysInMonth(y, m) == if m != 2 then 30 + (m + m / 8) % 2
                                 else if y % 400 == 0 || (y % 4 == 0 && y % 100 != 0) then 29 else 28
  {
    Multiples(y);
  }

  /** The next day at midnight, across the ends of months and years. */
  lemma TomorrowIsNextDay(t: Time)
    requires Valid(t)
    ensures DayNumber(Tomorrow(t)) == DayNumber(t) + 1
  {
    YearLength(t.year);
  }

  lemma EpochIsDayZero()
    ensures DayNumber(Time(1970, 1, 1, 0, 0, 0)) == EPOCH_DAY
  {
    LeapCount(1970);
  }

  /** The count of seconds is the one that starts at the epoch and goes on by one with every second of
      the calendar, over the ends of months, years and Februaries of leap years. */
  lemma SecondsFollowTheCalendar(t: Time)
    requires Valid(t)
    ensures Seconds(NextSecond(t)) == Seconds(t) + 1
    ensures Seconds(Time(1970, 1, 1, 0, 0, 0)) == 0
  {
    EpochIsDayZero();
    hide DayNumber, DaysInMonth;
    var u := NextSecond(t);
    if u.year == t.year && u.month == t.month && u.day == t.day {
      SameDay(t, u);
    }
    if t.second == 59 && t.minute == 59 && t.hour == 23 {
      TomorrowIsNextDay(t);
      assert u == Tomorrow(t) && u.hour == u.minute == u.second == 0;
      assert DayNumber(u) == DayNumber(t) + 1;
    } else {
      assert DayNumber(u) == DayNumber(t);
    }
    hide Tomorrow;
  }

  lemma SameDay(t: Time, u: Time)
    requires t.year == u.year && t.month == u.month && t.day == u.day
    ensures DayNumber(t) == DayNumber(u)
  {
  }

  /** Comparison field by field, from the year down. */
  predicate Before(a: Time, b: Time) {
    || a.year < b.year
    || (a.year == b.year
        && (|| a.month < b.month
            || (a.month == b.month
                && (|| a.day < b.day
                    || (a.day == b.day
                        && (|| a.hour < b.hour
                            || (a.hour == b.hour
                                && (a.minute < b.minute || (a.minute == b.minute && a.second < b.second)))))))))
  }

  lemma {:induction false} YearsGrow(x: nat, y: nat)
    requires x < y
    ensures DaysBeforeYear(x) + (if Leap(x) then 366 else 365) <= DaysBeforeYear(y)
  {
    if x + 1 == y {
    } else {
      YearsGrow(x, y - 1);
    }
  }

  lemma {:induction false} MonthsGrow(y: nat, m: nat, n: nat)
    requires 1 <= m < n
    ensures DaysBeforeMonth(y, m) + DaysInMonth(y, m) <= DaysBeforeMonth(y, n)
  {
    if m + 1 == n {
    } else {
      MonthsGrow(y, m, n - 1);
    }
  }

  lemma DayFitsInYear(t: Time)
    requires Valid(t)
    ensures DaysBeforeMonth(t.year, t.month) + t.day <= if Leap(t.year) then 366 else 365
  {
    YearLength(t.year);
    if t.month < 12 {
      MonthsGrow(t.year, t.month, 12);
    }
  }

  lemma BeforeIsEarlier(a: Time, b: Time)
    requires Valid(a) && Valid(b) && Before(a, b)
    ensures Seconds(a) < Seconds(b)
  {
    if a.year < b.year {
      YearsGrow(a.year, b.year);
      DayFitsInYear(a);
      assert DayNumber(a) < DayNumber(b);
    } else if a.month < b.month {
      MonthsGrow(a.year, a.month, b.month);
      assert DayNumber(a) < DayNumber(b);
    }
  }

  /** Comparing field by field is comparing points in time. */
  lemma BeforeIffEarlier(a: Time, b: Time)
    requires Valid(a) && Valid(b)
    ensures Before(a, b) <==> Seconds(a) < Seconds(b)
  {
    if Before(a, b) {
      BeforeIsEarlier(a, b);
    } else if a != b {
      BeforeIsEarlier(b, a);
    }
  }

  // ---------------------------------------------------------------- strings

  /** Order of strings by code points; a proper prefix comes first. */
  predicate LexLess(a: string, b: string) {
    if b == "" then false
    else if a == "" then true
    else if a[0] != b[0] then a[0] < b[0]
    else LexLess(a[1..], b[1..])
  }

  lemma {:induction false} LexIrreflexive(a: string)
    ensures !LexLess(a, a)
  {
    if a == "" {
    } else {
      LexIrreflexive(a[1..]);
    }
  }

  lemma {:induction false} LexTotal(a: string, b: string)
    ensures LexLess(a, b) || LexLess(b, a) || a == b
    ensures !(LexLess(a, b) && LexLess(b, a))
  {
    if a == "" || b == "" {
    } else {
      LexTotal(a[1..], b[1..]);
      if a[0] == b[0] && a[1..] == b[1..] {
        assert a == [a[0]] + a[1..] && b == [b[0]] + b[1..];
      }
    }
  }

  lemma {:induction false} LexTransitive(a: string, b: string, c: string)
    requires LexLess(a, b) && LexLess(b, c)
    ensures LexLess(a, c)
  {
    if a == "" {
    } else if a[0] == b[0] == c[0] {
      LexTransitive(a[1..], b[1..], c[1..]);
    }
  }

  lemma {:induction false} LexAppend(a: string, b: string, x: string, y: string)
    requires |a| == |b|
    ensures LexLess(a + x, b + y) <==> LexLess(a, b) || (a == b && LexLess(x, y))
  {
    if a == "" {
      assert a + x == x && b + y == y;
    } else {
      LexAppend(a[1..], b[1..], x, y);
      assert (a + x)[1..] == a[1..] + x && (b + y)[1..] == b[1..] + y;
      LexIrreflexive(a);
      if a[0] == b[0] && a[1..] == b[1..] {
        assert a == [a[0]] + a[1..] && b == [b[0]] + b[1..];
      }
    }
  }

  function Digit(d: nat): char
    requires d < 10
  {
    ('0' as int + d) as char
  }

  /** The last `width` decimal digits. */
  function Pad(n: nat, width: nat): (s: string)
    ensures |s| == width
    ensures forall i | 0 <= i < width :: '0' <= s[i] <= '9'
  {
    if width == 0 then "" else Pad(n / 10, width - 1) + [Digit(n % 10)]
  }

  function Power10(w: nat): nat {
    if w == 0 then 1 else 10 * Power10(w - 1)
  }

  lemma {:induction false} PadOrder(x: nat, y: nat, w: nat)
    requires x < Power10(w) && y < Power10(w)
    ensures LexLess(Pad(x, w), Pad(y, w)) <==> x < y
    ensures Pad(x, w) == Pad(y, w) <==> x == y
  {
    if w == 0 {
    } else {
      PadOrder(x / 10, y / 10, w - 1);
      var p, q := Pad(x / 10, w - 1), Pad(y / 10, w - 1);
      var c, d := [Digit(x % 10)], [Digit(y % 10)];
      LexAppend(p, q, c, d);
      assert LexLess(c, d) <==> x % 10 < y % 10;
      assert Pad(x, w)[..w - 1] == p && Pad(y, w)[..w - 1] == q;
      assert Pad(x, w)[w - 1] == c[0] && Pad(y, w)[w - 1] == d[0];
    }
  }

  function Clock(t: Time): string {
    Pad(t.hour, 2) + (":" + (Pad(t.minute, 2) + (":" + (Pad(t.second, 2) + "Z"))))
  }

  function Format(t: Time): string {
    Pad(t.year, 4) + ("-" + (Pad(t.month, 2) + ("-" + (Pad(t.day, 2) + ("T" + Clock(t))))))
  }

  /** A number field followed by a separator and the rest. */
  lemma FieldOrder(x: nat, y: nat, w: nat, sep: char, a: string, b: string)
    requires x < Power10(w) && y < Power10(w)
    ensures LexLess(Pad(x, w) + ([sep] + a), Pad(y, w) + ([sep] + b)) <==> x < y || (x == y && LexLess(a, b))
  {
    PadOrder(x, y, w);
    LexAppend(Pad(x, w), Pad(y, w), [sep] + a, [sep] + b);
    LexAppend([sep], [sep], a, b);
    LexIrreflexive([sep]);
  }

  lemma ClockOrder(a: Time, b: Time)
    requires Valid(a) && Valid(b)
    ensures LexLess(Clock(a), Clock(b)) <==>
            || a.hour < b.hour
            || (a.hour == b.hour && (a.minute < b.minute || (a.minute == b.minute && a.second < b.second)))
  {
    assert Power10(2) == 100;
    FieldOrder(a.hour, b.hour, 2, ':', Pad(a.minute, 2) + (":" + (Pad(a.second, 2) + "Z")),
        Pad(b.minute, 2) + (":" + (Pad(b.second, 2) + "Z")));
    FieldOrder(a.minute, b.minute, 2, ':', Pad(a.second, 2) + "Z", Pad(b.second, 2) + "Z");
    FieldOrder(a.second, b.second, 2, 'Z', "", "");
    assert ['Z'] + "" == "Z";
  }

  lemma FormatOrder(a: Time, b: Time)
    requires Valid(a) && Valid(b)
    ensures LexLess(Format(a), Format(b)) <==> Before(a, b)
  {
    assert Power10(2) == 100;
    assert Power10(4) == 100 * Power10(2);
    ClockOrder(a, b);
    var da, db := Pad(a.day, 2) + ("T" + Clock(a)), Pad(b.day, 2) + ("T" + Clock(b));
    FieldOrder(a.day, b.day, 2, 'T', Clock(a), Clock(b));
    FieldOrder(a.month, b.month, 2, '-', da, db);
    FieldOrder(a.year, b.year, 4, '-', Pad(a.month, 2) + ("-" + da), Pad(b.month, 2) + ("-" + db));
  }

  /** On fixed-width timestamps the order of strings is the order in time. */
  lemma StringOrderIsTimeOrder(a: Time, b: Time)
    requires Valid(a) && Valid(b)
    ensures LexLess(Format(a), Format(b)) <==> Seconds(a) < Seconds(b)
    ensures Format(a) == Format(b) <==> a == b
  {
    FormatOrder(a, b);
    FormatOrder(b, a);
    BeforeIffEarlier(a, b);
    BeforeIffEarlier(b, a);
    LexIrreflexive(Format(a));
    if a != b {
      assert Before(a, b) || Before(b, a);
    }
  }

  // ---------------------------------------------------------------- retention

  /** `(.retain_until // "") > $now` */
  predicate Retained(retainUntil: Option<string>, now: string) {
    LexLess(now, retainUntil.GetOr(""))
  }

  /** Without a retention date a file is expired, whatever the time; with one it is kept exactly as long
      as that date lies in the future. */
  lemma RetainedUntilThen(retainUntil: Option<Time>, now: Time)
    requires Valid(now) && (retainUntil.Some? ==> Valid(retainUntil.value))
    ensures var text := if retainUntil.Some? then Some(Format(retainUntil.value)) else None;
            Retained(text, Format(now)) <==> retainUntil.Some? && Seconds(now) < Seconds(retainUntil.value)
  {
    if retainUntil.Some? {
      StringOrderIsTimeOrder(now, retainUntil.value);
    }
  }

  /** What is expired stays expired, for any text in the record. */
  lemma ExpiryIsFinal(retainUntil: Option<string>, now: string, later: string)
    requires !LexLess(later, now) && Retained(retainUntil, later)
    ensures Retained(retainUntil, now)
  {
    LexTotal(now, later);
    if LexLess(now, later) {
      LexTransitive(now, later, retainUntil.GetOr(""));
    }
  }

  // ---------------------------------------------------------------- the issue date of an advisory

  lemma NoLetters(n: nat, w: nat, c: char)
    requires !('0' <= c <= '9')
    ensures c !in Pad(n, w)
  {
  }

  function DateText(t: Time): string {
    Pad(t.year, 4) + ("-" + (Pad(t.month, 2) + ("-" + Pad(t.day, 2))))
  }

  function TimeText(t: Time): string {
    Pad(t.hour, 2) + (":" + (Pad(t.minute, 2) + (":" + Pad(t.second, 2))))
  }

  lemma FormatParts(t: Time)
    ensures Format(t) == DateText(t) + ['T'] + (TimeText(t) + "Z")
    ensures 'T' !in DateText(t)
  {
    NoLetters(t.year, 4, 'T');
    NoLetters(t.month, 2, 'T');
    NoLetters(t.day, 2, 'T');
    var y, m, d, h, n, s := Pad(t.year, 4), Pad(t.month, 2), Pad(t.day, 2), Pad(t.hour, 2), Pad(t.minute, 2),
        Pad(t.second, 2);
    hide Pad;
    assert y + ("-" + (m + ("-" + (d + ("T" + Clock(t)))))) == (y + ("-" + (m + ("-" + d)))) + (['T'] + Clock(t));
    assert h + (":" + (n + (":" + (s + "Z")))) == (h + (":" + (n + (":" + s)))) + "Z";
  }

  predicate EndsInZ(s: string) {
    (|s| >= 1 && s[|s| - 1] == 'Z') || (|s| >= 2 && s[|s| - 2] == 'Z' && s[|s| - 1] == '\n')
  }

  lemma FirstTBecomesSpace(date: string, rest: string)
    requires 'T' !in date
    ensures SubT(date + ['T'] + rest) == date + " " + rest && SubT(date) == date
  {
    IndexOfAfter(date, 'T', rest);
    IndexOfAbsent(date, 'T');
    hide IndexOf;
    var s := date + ['T'] + rest;
    assert s[..|date|] == date && s[|date| + 1..] == rest;
  }

  lemma FinalZGoes(s: string)
    ensures SubZ(s + "Z") == s && SubZ(s + "Z\n") == s + "\n"
    ensures !EndsInZ(s) ==> SubZ(s) == s
  {
    assert (s + "Z")[..|s|] == s && (s + "Z\n")[..|s|] == s;
  }

  /** For any text in the record: the first "T", and no other, becomes a space, and a "Z" at the end, or just
      before a final newline, is gone. */
  lemma IssuedDateOfText(date: string, rest: string)
    requires 'T' !in date
    ensures IssuedDate(date + ['T'] + (rest + "Z")) == date + " " + rest
    ensures IssuedDate(date + ['T'] + (rest + "Z\n")) == date + " " + rest + "\n"
    ensures !EndsInZ(date + " " + rest) ==> IssuedDate(date + ['T'] + rest) == date + " " + rest
    ensures IssuedDate(date + "Z") == date && (!EndsInZ(date) ==> IssuedDate(date) == date)
  {
    FirstTBecomesSpace(date, rest + "Z");
    FirstTBecomesSpace(date, rest + "Z\n");
    FirstTBecomesSpace(date, rest);
    FirstTBecomesSpace(date + "Z", rest);
    FinalZGoes(date + " " + rest);
    FinalZGoes(date);
    hide SubT, SubZ, EndsInZ;
    assert date + " " + (rest + "Z") == (date + " " + rest) + "Z";
    assert date + " " + (rest + "Z\n") == (date + " " + rest) + "Z\n";
  }

  /** In an advisory the date of issue appears as date and time with a space between them: exactly the
      "T" and the "Z" of the timestamp are gone. */
  lemma IssuedDateOfTimestamp(t: Time)
    ensures IssuedDate(Format(t)) == DateText(t) + " " + TimeText(t)
  {
    FormatParts(t);
    IssuedDateOfText(DateText(t), TimeText(t));
    hide IssuedDate;
  }
}
