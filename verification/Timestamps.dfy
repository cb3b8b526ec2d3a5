/** ComicVine's timestamps are compared as text. Formatted in fixed width, text order is time order. */
module Timestamps {
  /** The fields of "%Y-%m-%d %H:%M:%S", the year in four digits. */
  datatype Civil = Civil(year: nat, month: nat, day: nat, hour: nat, minute: nat, second: nat) {
    predicate Valid() {
      && year < 10_000 && 1 <= month <= 12 && 1 <= day <= DaysIn(year, month)
      && hour < 24 && minute < 60 && second < 60
    }
  }

  predicate Leap(year: nat) { year % 4 == 0 && (year % 100 != 0 || year % 400 == 0) }

  function DaysIn(year: nat, month: nat): nat {
    if month == 2 then (if Leap(year) then 29 else 28)
    else if month == 4 || month == 6 || month == 9 || month == 11 then 30
    else 31
  }

  /** Days before the first of the month, counted from the first of January of the year. */
  function DaysBefore(year: nat, month: nat): nat {
    if month <= 1 then 0 else DaysBefore(year, month - 1) + DaysIn(year, month - 1)
  }

  function DaysInYears(year: nat): nat {
    if year == 0 then 0 else DaysInYears(year - 1) + if Leap(year - 1) then 366 else 365
  }

  /** Seconds since the start of year 0. */
  function Seconds(t: Civil): int {
    (((DaysInYears(t.year) + DaysBefore(t.year, t.month) + t.day) * 24 + t.hour) * 60 + t.minute) * 60 + t.second
  }

  /** The Gregorian calendar, by other formulas than the ones above: a leap year is a multiple of 4 that
      is no multiple of 25 or one of 16, months alternate between 31 and 30 days on both sides of August,
      February aside, and the months make up the year. */
  lemma CalendarIsGregorian(year: nat, month: nat)
    requires 1 <= month <= 12
    ensures Leap(year) <==> year % 4 == 0 && (year % 25 != 0 || year % 16 == 0)
    ensures month != 2 ==> DaysIn(year, month) == 30 + (month + month / 8) % 2
    ensures DaysIn(year, 2) == if Leap(year) then 29 else 28
    ensures DaysInYears(year + 1) - DaysInYears(year) == DaysBefore(year, 13)
  {
    LeapYears(year);
    YearLength(year);
  }

  lemma LeapYears(year: nat)
    ensures Leap(year) <==> year % 4 == 0 && (year % 25 != 0 || year % 16 == 0)
  {
    var a, b := year / 25, year / 4;
    if year % 4 == 0 && year % 25 == 0 {
      assert year == 25 * a == 4 * b && a == 4 * (b - 6 * a);
      Hundreds(year, b - 6 * a);
    }
  }

  lemma Hundreds(year: nat, c: int)
    requires year == 100 * c
    ensures year % 100 == 0 && (year % 16 == 0 <==> year % 400 == 0)
  {
    var q, r := c / 4, c % 4;
    Remainder16(year, 25 * q + 6 * r, 4 * r);
    Remainder400(year, q, 100 * r);
  }

  lemma Remainder16(n: int, q: int, r: int)
    requires n == 16 * q + r && 0 <= r < 16
    ensures n % 16 == r
  {}

  lemma Remainder400(n: int, q: int, r: int)
    requires n == 400 * q + r && 0 <= r < 400
    ensures n % 400 == r
  {}

  /** One unit more of one field is that many seconds more. */
  lemma UnitsAre(t: Civil)
    ensures Seconds(t.(second := t.second + 1)) == Seconds(t) + 1
    ensures Seconds(t.(minute := t.minute + 1)) == Seconds(t) + 60
    ensures Seconds(t.(hour := t.hour + 1)) == Seconds(t) + 3600
    ensures Seconds(t.(day := t.day + 1)) == Seconds(t) + 86_400
  {}

  // ---- text ----------------------------------------------------------------

  predicate Less(a: string, b: string) {
    b != "" && (a == "" || a[0] < b[0] || (a[0] == b[0] && Less(a[1..], b[1..])))
  }

  function Digit(n: nat): char
    requires n < 10
  {
    '0' + n as char
  }

  /** `n` as `width` decimal digits. */
  function Pad(n: nat, width: nat): (s: string)
    ensures |s| == width
  {
    if width == 0 then "" else Pad(n / 10, width - 1) + [Digit(n % 10)]
  }

  function Format(t: Civil): string {
    Pad(t.year, 4) + "-" + (Pad(t.month, 2) + "-" + (Pad(t.day, 2) + " "
      + (Pad(t.hour, 2) + ":" + (Pad(t.minute, 2) + ":" + Pad(t.second, 2)))))
  }

  function Pow10(width: nat): nat { if width == 0 then 1 else 10 * Pow10(width - 1) }

  function Number(s: string): nat {
    if s == "" then 0
    else
      var c := s[|s| - 1];
      10 * Number(s[..|s| - 1]) + if '0' <= c <= '9' then (c - '0') as nat else 0
  }

  /** Reads the fields back, as `strptime` does. */
  function Parse(s: string): Civil
    requires |s| == 19
  {
    Civil(Number(s[..4]), Number(s[5..7]), Number(s[8..10]), Number(s[11..13]), Number(s[14..16]), Number(s[17..]))
  }

  lemma {:induction false} NumberOfPad(n: nat, width: nat)
    requires n < Pow10(width)
    ensures Number(Pad(n, width)) == n
  {
    if width > 0 {
      NumberOfPad(n / 10, width - 1);
      assert Pad(n, width)[..width - 1] == Pad(n / 10, width - 1);
    }
  }

  /** A watermark that was written is read back as the same time. */
  lemma ParseFormat(t: Civil)
    requires t.Valid()
    ensures |Format(t)| == 19 && Parse(Format(t)) == t
  {
    assert Pow10(2) == 100 && Pow10(4) == 10_000 by { assert Pow10(3) == 10 * Pow10(2); }
    NumberOfPad(t.year, 4);
    NumberOfPad(t.month, 2);
    NumberOfPad(t.day, 2);
    NumberOfPad(t.hour, 2);
    NumberOfPad(t.minute, 2);
    NumberOfPad(t.second, 2);
    FieldsOf(Pad(t.year, 4), Pad(t.month, 2), Pad(t.day, 2), Pad(t.hour, 2), Pad(t.minute, 2), Pad(t.second, 2));
  }

  lemma FieldsOf(y: string, m: string, d: string, h: string, min: string, sec: string)
    requires |y| == 4 && |m| == |d| == |h| == |min| == |sec| == 2
    ensures var s := y + "-" + (m + "-" + (d + " " + (h + ":" + (min + ":" + sec))));
            && |s| == 19 && s[..4] == y && s[5..7] == m && s[8..10] == d
            && s[11..13] == h && s[14..16] == min && s[17..] == sec
  {}

  /** Texts of equal length compare first by their heads, then by their tails. */
  lemma {:induction false} LessConcat(a: string, b: string, c: string, d: string)
    requires |a| == |b|
    ensures Less(a + c, b + d) <==> Less(a, b) || (a == b && Less(c, d))
  {
    if a == "" {
      assert a + c == c && b + d == d;
    } else {
      assert (a + c)[0] == a[0] && (a + c)[1..] == a[1..] + c;
      assert (b + d)[0] == b[0] && (b + d)[1..] == b[1..] + d;
      assert a == [a[0]] + a[1..] && b == [b[0]] + b[1..];
      LessConcat(a[1..], b[1..], c, d);
    }
  }

  lemma {:induction false} PadOrder(m: nat, n: nat, width: nat)
    requires m < Pow10(width) && n < Pow10(width)
    ensures Less(Pad(m, width), Pad(n, width)) <==> m < n
    ensures Pad(m, width) == Pad(n, width) <==> m == n
  {
    if width > 0 {
      var a, b := Pad(m / 10, width - 1), Pad(n / 10, width - 1);
      var c, d := [Digit(m % 10)], [Digit(n % 10)];
      PadOrder(m / 10, n / 10, width - 1);
      LessConcat(a, b, c, d);
      assert Less(c, d) <==> m % 10 < n % 10 by { assert c[1..] == "" && d[1..] == ""; }
      assert (a + c)[|a|] == Digit(m % 10) && (b + d)[|b|] == Digit(n % 10);
      assert (a + c)[..|a|] == a && (b + d)[..|b|] == b;
      assert m == m / 10 * 10 + m % 10 && n == n / 10 * 10 + n % 10;
    }
  }

  /** One field and its separator. */
  lemma FieldOrder(m: nat, n: nat, width: nat, sep: string, c: string, d: string)
    requires m < Pow10(width) && n < Pow10(width)
    ensures Less(Pad(m, width) + sep + c, Pad(n, width) + sep + d) <==> m < n || (m == n && Less(c, d))
  {
    PadOrder(m, n, width);
    LessConcat(Pad(m, width), Pad(n, width), sep + c, sep + d);
    LessConcat(sep, sep, c, d);
    LessIrreflexive(sep);
    assert Pad(m, width) + sep + c == Pad(m, width) + (sep + c);
    assert Pad(n, width) + sep + d == Pad(n, width) + (sep + d);
  }

  lemma {:induction false} LessIrreflexive(a: string)
    ensures !Less(a, a)
  {
    if a != "" { LessIrreflexive(a[1..]); }
  }

  // ---- the calendar --------------------------------------------------------

  lemma {:induction false} MonthFits(year: nat, month: nat, later: nat)
    requires 1 <= month < later <= 13
    ensures DaysBefore(year, month) + DaysIn(year, month) <= DaysBefore(year, later)
  {
    if month + 1 < later { MonthFits(year, month, later - 1); }
  }

  lemma YearLength(year: nat)
    ensures DaysBefore(year, 13) == if Leap(year) then 366 else 365
  {
    NextMonth(year, 1); NextMonth(year, 2); NextMonth(year, 3); NextMonth(year, 4);
    NextMonth(year, 5); NextMonth(year, 6); NextMonth(year, 7); NextMonth(year, 8);
    NextMonth(year, 9); NextMonth(year, 10); NextMonth(year, 11); NextMonth(year, 12);
  }

  lemma NextMonth(year: nat, month: nat)
    requires 1 <= month
    ensures DaysBefore(year, month + 1) == DaysBefore(year, month) + DaysIn(year, month)
  {}

  lemma {:induction false} YearFits(year: nat, later: nat)
    requires year < later
    ensures DaysInYears(year) + (if Leap(year) then 366 else 365) <= DaysInYears(later)
  {
    if year + 1 < later { YearFits(year, later - 1); }
  }

  predicate Earlier(a: Civil, b: Civil) {
    a.year < b.year || (a.year == b.year && (a.month < b.month || (a.month == b.month &&
      (a.day < b.day || (a.day == b.day && (a.hour < b.hour || (a.hour == b.hour &&
        (a.minute < b.minute || (a.minute == b.minute && a.second < b.second)))))))))
  }

  lemma EarlierIsLess(a: Civil, b: Civil)
    requires a.Valid() && b.Valid() && Earlier(a, b)
    ensures Seconds(a) < Seconds(b)
  {
    var m := DaysInYears(a.year) + DaysBefore(a.year, a.month) + a.day;
    var n := DaysInYears(b.year) + DaysBefore(b.year, b.month) + b.day;
    if a.year < b.year {
      YearFits(a.year, b.year);
      YearLength(a.year);
      MonthFits(a.year, a.month, 13);
      assert m < n;
    } else if a.month < b.month {
      MonthFits(a.year, a.month, b.month);
      assert m < n;
    }
  }

  lemma FormatIsEarlier(a: Civil, b: Civil)
    requires a.Valid() && b.Valid()
    ensures Less(Format(a), Format(b)) <==> Earlier(a, b)
  {
    assert Pow10(2) == 100 && Pow10(4) == 10_000 by { assert Pow10(3) == 10 * Pow10(2); }
    PadOrder(a.second, b.second, 2);
    var c5, d5 := Pad(a.second, 2), Pad(b.second, 2);
    FieldOrder(a.minute, b.minute, 2, ":", c5, d5);
    var c4, d4 := Pad(a.minute, 2) + ":" + c5, Pad(b.minute, 2) + ":" + d5;
    FieldOrder(a.hour, b.hour, 2, ":", c4, d4);
    var c3, d3 := Pad(a.hour, 2) + ":" + c4, Pad(b.hour, 2) + ":" + d4;
    FieldOrder(a.day, b.day, 2, " ", c3, d3);
    var c2, d2 := Pad(a.day, 2) + " " + c3, Pad(b.day, 2) + " " + d3;
    FieldOrder(a.month, b.month, 2, "-", c2, d2);
    var c1, d1 := Pad(a.month, 2) + "-" + c2, Pad(b.month, 2) + "-" + d2;
    FieldOrder(a.year, b.year, 4, "-", c1, d1);
    assert Format(a) == Pad(a.year, 4) + "-" + c1;
    assert Format(b) == Pad(b.year, 4) + "-" + d1;
  }

  /** Comparing two formatted timestamps as text is comparing them as times. */
  lemma TextOrderIsTimeOrder(a: Civil, b: Civil)
    requires a.Valid() && b.Valid()
    ensures Less(Format(a), Format(b)) <==> Seconds(a) < Seconds(b)
  {
    FormatIsEarlier(a, b);
    if Earlier(a, b) {
      EarlierIsLess(a, b);
    } else if Earlier(b, a) {
      EarlierIsLess(b, a);
    } else {
      assert a == b;
    }
  }
}
