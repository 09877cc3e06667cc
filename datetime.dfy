/**
 * The "%Y-%m-%d %H:%M" date-time format the booking records use, read into
 * a count of minutes since 0001-01-01 00:00 in the proleptic Gregorian
 * calendar (the calendar of Python's `datetime`).  Only the canonical,
 * zero-padded spelling is accepted.
 */
module DateTime {
  import opened Wrappers
  import Text

  datatype Stamp = Stamp(year: int, month: int, day: int, hour: int, minute: int)

  const MinutesPerDay := 1440

  predicate IsLeapYear(y: int)
  {
    y % 4 == 0 && (y % 100 != 0 || y % 400 == 0)
  }

  function DaysInMonth(y: int, m: int): (n: int)
    requires 1 <= m <= 12
    ensures 28 <= n <= 31
    ensures m == 2 ==> (n == 29 <==> IsLeapYear(y))
  {
    if m == 2 then (if IsLeapYear(y) then 29 else 28)
    else if m == 4 || m == 6 || m == 9 || m == 11 then 30
    else 31
  }

  /** Days of the year `y` that lie before the first of month `m`. */
  function DaysBeforeMonth(y: int, m: int): int
    requires 1 <= m <= 12
  {
    var table := [0, 31, 59, 90, 120, 151, 181, 212, 243, 273, 304, 334];
    table[m - 1] + (if m > 2 && IsLeapYear(y) then 1 else 0)
  }

  /** Days from 0001-01-01 to the first of January of year `y`. */
  function DaysBeforeYear(y: int): int
    requires y >= 1
  {
    var p := y - 1;
    365 * p + p / 4 - p / 100 + p / 400
  }

  predicate Valid(st: Stamp)
  {
    1 <= st.year <= 9999 && 1 <= st.month <= 12
    && 1 <= st.day <= DaysInMonth(st.year, st.month)
    && 0 <= st.hour <= 23 && 0 <= st.minute <= 59
  }

  /** Days since 0001-01-01. */
  function DayNumber(st: Stamp): int
    requires Valid(st)
  {
    DaysBeforeYear(st.year) + DaysBeforeMonth(st.year, st.month) + st.day - 1
  }

  /** Minutes since 0001-01-01 00:00. */
  function Minutes(st: Stamp): int
    requires Valid(st)
  {
    DayNumber(st) * MinutesPerDay + st.hour * 60 + st.minute
  }

  predicate DigitsAt(s: string, lo: nat, hi: nat)
  {
    lo <= hi <= |s| && Text.AllDigits(s[lo..hi])
  }

  /** Reads "YYYY-MM-DD HH:MM"; `None` for anything else or an impossible date. */
  function ParseStamp(s: string): (r: Option<Stamp>)
    ensures r.Some? ==> Valid(r.value)
    ensures r.Some? ==> |s| == 16
  {
    if |s| == 16 && s[4] == '-' && s[7] == '-' && s[10] == ' ' && s[13] == ':'
       && DigitsAt(s, 0, 4) && DigitsAt(s, 5, 7) && DigitsAt(s, 8, 10)
       && DigitsAt(s, 11, 13) && DigitsAt(s, 14, 16)
    then
      var st := Stamp(Text.Value(s[0..4]), Text.Value(s[5..7]), Text.Value(s[8..10]),
                      Text.Value(s[11..13]), Text.Value(s[14..16]));
      if Valid(st) then Some(st) else None
    else None
  }

  /**
   * `datetime.strptime(f"{date} {time}", "%Y-%m-%d %H:%M")` as a minute count,
   * `None` where Python raises `ValueError`.
   */
  function ParseDateTime(date: string, time: string): Option<int>
  {
    match ParseStamp(date + " " + time)
    case None => None
    case Some(st) => Some(Minutes(st))
  }

  function Pad(n: nat, width: nat): string
  {
    Text.ZFill(Text.NatToString(n), width)
  }

  /** The canonical spelling of a stamp, as `strftime("%Y-%m-%d %H:%M")` writes it. */
  function Format(st: Stamp): (s: string)
    requires Valid(st)
  {
    Pad(st.year, 4) + "-" + Pad(st.month, 2) + "-" + Pad(st.day, 2) + " "
    + Pad(st.hour, 2) + ":" + Pad(st.minute, 2)
  }

  function Pow10(k: nat): nat
  {
    if k == 0 then 1 else 10 * Pow10(k - 1)
  }

  lemma {:induction false} NatToStringLength(n: nat, k: nat)
    requires n < Pow10(k)
    ensures |Text.NatToString(n)| <= if k == 0 then 1 else k
  {
    if n >= 10 {
      NatToStringLength(n / 10, k - 1);
    }
  }

  lemma {:induction false} PadDigits(n: nat, width: nat)
    requires 1 <= width && n < Pow10(width)
    ensures |Pad(n, width)| == width && Text.AllDigits(Pad(n, width))
    ensures Text.Value(Pad(n, width)) == n
  {
    var s := Text.NatToString(n);
    NatToStringLength(n, width);
    if |s| < width {
      Text.LeadingZeros(s, width - |s|);
    }
  }

  lemma {:induction false} ParseFields(a: string, b: string, c: string, d: string, e: string)
    requires |a| == 4 && |b| == 2 && |c| == 2 && |d| == 2 && |e| == 2
    requires Text.AllDigits(a) && Text.AllDigits(b) && Text.AllDigits(c)
    requires Text.AllDigits(d) && Text.AllDigits(e)
    ensures var s := a + "-" + b + "-" + c + " " + d + ":" + e;
            var st := Stamp(Text.Value(a), Text.Value(b), Text.Value(c), Text.Value(d), Text.Value(e));
            ParseStamp(s) == if Valid(st) then Some(st) else None
  {
    var s := a + "-" + b + "-" + c + " " + d + ":" + e;
    assert |s| == 16;
    assert s[4] == '-' && s[7] == '-' && s[10] == ' ' && s[13] == ':';
    assert s[0..4] == a && s[5..7] == b && s[8..10] == c;
    assert s[11..13] == d && s[14..16] == e;
  }

  /** Reading back the canonical spelling gives the stamp: the format's inverse. */
  lemma ParseFormat(st: Stamp)
    requires Valid(st)
    ensures ParseStamp(Format(st)) == Some(st)
  {
    assert Pow10(2) == 100 && Pow10(4) == 10000;
    PadDigits(st.year, 4);
    PadDigits(st.month, 2);
    PadDigits(st.day, 2);
    PadDigits(st.hour, 2);
    PadDigits(st.minute, 2);
    ParseFields(Pad(st.year, 4), Pad(st.month, 2), Pad(st.day, 2), Pad(st.hour, 2), Pad(st.minute, 2));
  }

  /** Reading a date and a time written digit by digit. */
  lemma ParseParts(y: string, mo: string, d: string, h: string, mi: string)
    requires |y| == 4 && |mo| == 2 && |d| == 2 && |h| == 2 && |mi| == 2
    requires Text.AllDigits(y) && Text.AllDigits(mo) && Text.AllDigits(d)
    requires Text.AllDigits(h) && Text.AllDigits(mi)
    ensures var st := Stamp(1000 * Text.DigitValue(y[0]) + 100 * Text.DigitValue(y[1])
                            + 10 * Text.DigitValue(y[2]) + Text.DigitValue(y[3]),
                            10 * Text.DigitValue(mo[0]) + Text.DigitValue(mo[1]),
                            10 * Text.DigitValue(d[0]) + Text.DigitValue(d[1]),
                            10 * Text.DigitValue(h[0]) + Text.DigitValue(h[1]),
                            10 * Text.DigitValue(mi[0]) + Text.DigitValue(mi[1]));
            ParseDateTime(y + "-" + mo + "-" + d, h + ":" + mi)
            == if Valid(st) then Some(Minutes(st)) else None
  {
    assert (y + "-" + mo + "-" + d) + " " + (h + ":" + mi) == y + "-" + mo + "-" + d + " " + h + ":" + mi;
    Text.ValueOfFour(y);
    Text.ValueOfTwo(mo);
    Text.ValueOfTwo(d);
    Text.ValueOfTwo(h);
    Text.ValueOfTwo(mi);
    ParseFields(y, mo, d, h, mi);
  }

  /** The calendar day after `st`'s, at the same time of day. */
  function NextDay(st: Stamp): (n: Stamp)
    requires Valid(st) && !(st.year == 9999 && st.month == 12 && st.day == 31)
    ensures Valid(n)
  {
    if st.day < DaysInMonth(st.year, st.month) then st.(day := st.day + 1)
    else if st.month < 12 then st.(month := st.month + 1, day := 1)
    else st.(year := st.year + 1, month := 1, day := 1)
  }

  lemma DivStep4(n: int)
    requires n >= 0
    ensures (n + 1) / 4 == n / 4 + (if (n + 1) % 4 == 0 then 1 else 0)
  {
    var q, r := n / 4, n % 4;
    assert n == 4 * q + r;
    if r == 3 {
      assert n + 1 == 4 * (q + 1);
    } else {
      assert n + 1 == 4 * q + (r + 1);
    }
  }

  lemma DivStep100(n: int)
    requires n >= 0
    ensures (n + 1) / 100 == n / 100 + (if (n + 1) % 100 == 0 then 1 else 0)
  {
    var q, r := n / 100, n % 100;
    assert n == 100 * q + r;
    if r == 99 {
      assert n + 1 == 100 * (q + 1);
    } else {
      assert n + 1 == 100 * q + (r + 1);
    }
  }

  lemma DivStep400(n: int)
    requires n >= 0
    ensures (n + 1) / 400 == n / 400 + (if (n + 1) % 400 == 0 then 1 else 0)
  {
    var q, r := n / 400, n % 400;
    assert n == 400 * q + r;
    if r == 399 {
      assert n + 1 == 400 * (q + 1);
    } else {
      assert n + 1 == 400 * q + (r + 1);
    }
  }

  lemma YearLength(y: int)
    requires y >= 1
    ensures DaysBeforeYear(y + 1) == DaysBeforeYear(y) + (if IsLeapYear(y) then 366 else 365)
  {
    var p := y - 1;
    DivStep4(p);
    DivStep100(p);
    DivStep400(p);
  }

  /**
   * Consecutive calendar days are exactly 1440 minutes apart, across month
   * and year ends: the minute count measures elapsed time, as the source's
   * `(a - b).total_seconds()` does.
   */
  lemma NextDayMinutes(st: Stamp)
    requires Valid(st) && !(st.year == 9999 && st.month == 12 && st.day == 31)
    ensures Minutes(NextDay(st)) == Minutes(st) + MinutesPerDay
  {
    if st.day == DaysInMonth(st.year, st.month) && st.month == 12 {
      YearLength(st.year);
    }
  }

  /** "2024-12-DD HH:MM" read digit by digit, for the dates of the tests. */
  lemma December2024(d: string, h: string, mi: string)
    requires |d| == 2 && |h| == 2 && |mi| == 2
    requires Text.AllDigits(d) && Text.AllDigits(h) && Text.AllDigits(mi)
    requires 1 <= 10 * Text.DigitValue(d[0]) + Text.DigitValue(d[1]) <= 31
    requires 10 * Text.DigitValue(h[0]) + Text.DigitValue(h[1]) <= 23
    requires 10 * Text.DigitValue(mi[0]) + Text.DigitValue(mi[1]) <= 59
    ensures ParseDateTime("2024-12-" + d, h + ":" + mi)
            == Some(Minutes(Stamp(2024, 12, 10 * Text.DigitValue(d[0]) + Text.DigitValue(d[1]),
                                  10 * Text.DigitValue(h[0]) + Text.DigitValue(h[1]),
                                  10 * Text.DigitValue(mi[0]) + Text.DigitValue(mi[1]))))
  {
    var y, mo := "2024", "12";
    assert Text.AllDigits(y) && Text.AllDigits(mo);
    assert y + "-" + mo + "-" + d == "2024-12-" + d;
    ParseParts(y, mo, d, h, mi);
  }

  /** "2024-12-25" "10:00" reads as that stamp. */
  lemma Dec25At1000(date: string, time: string)
    requires date == "2024-12-25" && time == "10:00"
    ensures ParseDateTime(date, time) == Some(Minutes(Stamp(2024, 12, 25, 10, 0)))
  {
    assert "2024-12-" + "25" == "2024-12-25" && "10" + ":" + "00" == "10:00";
    December2024("25", "10", "00");
  }

  /** "2024-12-25" "15:00" reads as that stamp. */
  lemma Dec25At1500(date: string, time: string)
    requires date == "2024-12-25" && time == "15:00"
    ensures ParseDateTime(date, time) == Some(Minutes(Stamp(2024, 12, 25, 15, 0)))
  {
    assert "2024-12-" + "25" == "2024-12-25" && "15" + ":" + "00" == "15:00";
    December2024("25", "15", "00");
  }

  /** "2024-12-20" "14:00" reads as that stamp. */
  lemma Dec20At1400(date: string, time: string)
    requires date == "2024-12-20" && time == "14:00"
    ensures ParseDateTime(date, time) == Some(Minutes(Stamp(2024, 12, 20, 14, 0)))
  {
    assert "2024-12-" + "20" == "2024-12-20" && "14" + ":" + "00" == "14:00";
    December2024("20", "14", "00");
  }

  /** "2024-12-20" "14:30" reads as that stamp. */
  lemma Dec20At1430(date: string, time: string)
    requires date == "2024-12-20" && time == "14:30"
    ensures ParseDateTime(date, time) == Some(Minutes(Stamp(2024, 12, 20, 14, 30)))
  {
    assert "2024-12-" + "20" == "2024-12-20" && "14" + ":" + "30" == "14:30";
    December2024("20", "14", "30");
  }

  /** Two times of one day are as many minutes apart as their clock readings. */
  lemma SameDay(st: Stamp, hour: int, minute: int)
    requires Valid(st) && 0 <= hour <= 23 && 0 <= minute <= 59
    ensures Valid(st.(hour := hour, minute := minute))
    ensures Minutes(st.(hour := hour, minute := minute))
            == Minutes(st) + (hour - st.hour) * 60 + (minute - st.minute)
  {
  }

  /**
   * The booking times of the availability test, 10:00 and 15:00 on
   * 2024-12-25, read five hours apart.
   */
  lemma ChristmasTimes(date: string, at10: string, at15: string) returns (e: int)
    requires date == "2024-12-25" && at10 == "10:00" && at15 == "15:00"
    ensures ParseDateTime(date, at10) == Some(e)
    ensures ParseDateTime(date, at15) == Some(e + 300)
  {
    e := Minutes(Stamp(2024, 12, 25, 10, 0));
    Dec25At1000(date, at10);
    Dec25At1500(date, at15);
    SameDay(Stamp(2024, 12, 25, 10, 0), 15, 0);
  }

  /** The times of the store test, 14:00 and 14:30 on 2024-12-20, read half an hour apart. */
  lemma StoreTestTimes(date: string, at1400: string, at1430: string) returns (e: int)
    requires date == "2024-12-20" && at1400 == "14:00" && at1430 == "14:30"
    ensures ParseDateTime(date, at1400) == Some(e)
    ensures ParseDateTime(date, at1430) == Some(e + 30)
  {
    e := Minutes(Stamp(2024, 12, 20, 14, 0));
    Dec20At1400(date, at1400);
    Dec20At1430(date, at1430);
    SameDay(Stamp(2024, 12, 20, 14, 0), 14, 30);
  }
}
