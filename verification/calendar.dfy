/**
 * Calendar values as Python's `datetime` sees them: proleptic Gregorian
 * dates, second-precision timestamps, the day ordinal of `date.toordinal()`
 * (so that differences of timestamps are exact numbers of seconds) and the
 * `strftime` renderings the reports use as keys and labels.
 */
module Calendar {
  import opened Text
  import opened Ordering

  datatype Date = Date(year: nat, month: nat, day: nat)

  /** A log timestamp: a date and a time of day with second precision. */
  datatype Stamp = Stamp(date: Date, hour: nat, minute: nat, second: nat)

  /** The `YYYY-MM` key of the monthly report. */
  datatype Month = Month(year: nat, month: nat)

  predicate IsLeap(y: int) {
    y % 4 == 0 && (y % 100 != 0 || y % 400 == 0)
  }

  function DaysInMonth(y: int, m: int): nat {
    if m == 2 then (if IsLeap(y) then 29 else 28)
    else if m == 4 || m == 6 || m == 9 || m == 11 then 30
    else 31
  }

  /** A date `datetime.date` accepts. */
  predicate ValidDate(d: Date) {
    1 <= d.year <= 9999 && 1 <= d.month <= 12 && 1 <= d.day <= DaysInMonth(d.year, d.month)
  }

  predicate ValidStamp(st: Stamp) {
    ValidDate(st.date) && st.hour < 24 && st.minute < 60 && st.second < 60
  }

  function DaysBeforeMonth(y: int, m: nat): nat {
    if m <= 1 then 0 else DaysBeforeMonth(y, m - 1) + DaysInMonth(y, m - 1)
  }

  function DaysInYear(y: int): nat {
    if IsLeap(y) then 366 else 365
  }

  /** Days in the years 1 .. y - 1. */
  function DaysBeforeYear(y: nat): nat {
    if y <= 1 then 0 else DaysBeforeYear(y - 1) + DaysInYear(y - 1)
  }

  /** `date.toordinal()`: 0001-01-01 is day 1. */
  function DayNumber(d: Date): nat {
    DaysBeforeYear(d.year) + DaysBeforeMonth(d.year, d.month) + d.day
  }

  function SecondOfDay(st: Stamp): nat {
    st.hour * 3600 + st.minute * 60 + st.second
  }

  /** Seconds since the start of the proleptic Gregorian calendar. */
  function Instant(st: Stamp): int {
    DayNumber(st.date) * 86400 + SecondOfDay(st)
  }

  /** A date of the proleptic Gregorian calendar, with no upper bound on the year. */
  predicate OnCalendar(d: Date) {
    1 <= d.year && 1 <= d.month <= 12 && 1 <= d.day <= DaysInMonth(d.year, d.month)
  }

  /** A year's twelve months fill the year. */
  lemma MonthsFillYear(y: int)
    ensures DaysBeforeMonth(y, 12) + DaysInMonth(y, 12) == DaysInYear(y)
  {
    var f := DaysInMonth(y, 2);
    assert DaysBeforeMonth(y, 1) == 0;
    assert DaysBeforeMonth(y, 2) == 31;
    assert DaysBeforeMonth(y, 3) == 31 + f;
    assert DaysBeforeMonth(y, 4) == 62 + f;
    assert DaysBeforeMonth(y, 5) == 92 + f;
    assert DaysBeforeMonth(y, 6) == 123 + f;
    assert DaysBeforeMonth(y, 7) == 153 + f;
    assert DaysBeforeMonth(y, 8) == 184 + f;
    assert DaysBeforeMonth(y, 9) == 215 + f;
    assert DaysBeforeMonth(y, 10) == 245 + f;
    assert DaysBeforeMonth(y, 11) == 276 + f;
    assert DaysBeforeMonth(y, 12) == 306 + f;
  }

  /** `d + timedelta(days=1)`: the next day of the month, else the first of the next month or year. */
  function NextDay(d: Date): (r: Date)
    ensures OnCalendar(d) ==> OnCalendar(r) && DayNumber(r) == DayNumber(d) + 1
  {
    if d.day < DaysInMonth(d.year, d.month) then
      Date(d.year, d.month, d.day + 1)
    else if d.month < 12 then
      Date(d.year, d.month + 1, 1)
    else
      MonthsFillYear(d.year);
      Date(d.year + 1, 1, 1)
  }

  /** `d + timedelta(days=n)`. */
  function AddDays(d: Date, n: nat): (r: Date)
    ensures OnCalendar(d) ==> OnCalendar(r) && DayNumber(r) == DayNumber(d) + n
    decreases n
  {
    if n == 0 then d else AddDays(NextDay(d), n - 1)
  }

  function MonthOf(d: Date): Month {
    Month(d.year, d.month)
  }

  // ---- month names (strptime's %b in the C locale) ----

  const MonthNames: seq<string> :=
    ["Jan", "Feb", "Mar", "Apr", "May", "Jun", "Jul", "Aug", "Sep", "Oct", "Nov", "Dec"]

  function LowerAscii(c: char): char {
    if 'A' <= c <= 'Z' then (c as int + 32) as char else c
  }

  /** Equality of two strings up to ASCII case, as strptime's case-insensitive match. */
  predicate SameIgnoringCase(a: string, b: string) {
    |a| == |b| && forall k :: 0 <= k < |a| ==> LowerAscii(a[k]) == LowerAscii(b[k])
  }

  /** `w` is, up to case, the abbreviated name of month `k`. */
  predicate Names(w: string, k: int) {
    1 <= k <= 12 && SameIgnoringCase(w, MonthNames[k - 1])
  }

  function MonthFrom(w: string, m: nat): (r: nat)
    requires 1 <= m <= 13
    ensures m <= r <= 13
    ensures r <= 12 ==> Names(w, r)
    ensures forall k :: m <= k < r ==> !Names(w, k)
    decreases 13 - m
  {
    if m == 13 || Names(w, m) then m else MonthFrom(w, m + 1)
  }

  /** The month number a `%b` directive reads from `w`, or 0 when `w` names no month. */
  function MonthNumber(w: string): (m: nat)
    ensures m <= 12
    ensures 1 <= m ==> Names(w, m)
    ensures m == 0 ==> forall k :: !Names(w, k)
  {
    var r := MonthFrom(w, 1);
    if r == 13 then 0 else r
  }

  /** No two month abbreviations are equal up to case. */
  lemma MonthNamesDiffer(k: int, m: int)
    requires 1 <= k < m <= 12
    ensures !SameIgnoringCase(MonthNames[m - 1], MonthNames[k - 1])
  {
    var a, b := MonthNames[m - 1], MonthNames[k - 1];
    assert LowerAscii(a[0]) != LowerAscii(b[0]) || LowerAscii(a[1]) != LowerAscii(b[1]) || LowerAscii(a[2]) != LowerAscii(b[2]);
  }

  /** `%b` reads each abbreviation back as its own month. */
  lemma MonthNumberOfName(m: int)
    requires 1 <= m <= 12
    ensures MonthNumber(MonthNames[m - 1]) == m
  {
    var w := MonthNames[m - 1];
    assert Names(w, m);
    var r := MonthFrom(w, 1);
    if r < m {
      MonthNamesDiffer(r, m);
    }
  }

  // ---- strftime renderings ----

  /** `strftime("%Y-%m-%d")`, the `Date` column. */
  function DateText(d: Date): string {
    Padded(d.year, 4) + "-" + Padded(d.month, 2) + "-" + Padded(d.day, 2)
  }

  /** `strftime("%H:%M:%S")`, the `Time` column. */
  function TimeText(st: Stamp): string {
    Padded(st.hour, 2) + ":" + Padded(st.minute, 2) + ":" + Padded(st.second, 2)
  }

  /** `strftime("%Y-%m")`, the monthly label. */
  function MonthText(m: Month): string {
    Padded(m.year, 4) + "-" + Padded(m.month, 2)
  }

  // ---- orders ----

  predicate DateLt(a: Date, b: Date) {
    a.year < b.year || (a.year == b.year && (a.month < b.month || (a.month == b.month && a.day < b.day)))
  }

  predicate MonthLt(a: Month, b: Month) {
    a.year < b.year || (a.year == b.year && a.month < b.month)
  }

  lemma DateLtTotal()
    ensures StrictTotal(DateLt)
  {
  }

  lemma MonthLtTotal()
    ensures StrictTotal(MonthLt)
  {
  }

  /** Dates whose fields fit their `strftime` widths. */
  predicate Printable(d: Date) {
    d.year < 10000 && d.month < 100 && d.day < 100
  }

  lemma {:induction false} StrLtAppend(p1: string, q1: string, p2: string, q2: string)
    requires |p1| == |p2|
    ensures StrLt(p1 + q1, p2 + q2) <==> StrLt(p1, p2) || (p1 == p2 && StrLt(q1, q2))
  {
    if |p1| > 0 {
      assert (p1 + q1)[1..] == p1[1..] + q1;
      assert (p2 + q2)[1..] == p2[1..] + q2;
      StrLtAppend(p1[1..], q1, p2[1..], q2);
      if p1[0] == p2[0] && p1[1..] == p2[1..] {
        assert p1 == [p1[0]] + p1[1..] && p2 == [p2[0]] + p2[1..];
      }
    } else {
      assert p1 + q1 == q1 && p2 + q2 == q2;
    }
  }

  lemma PaddedInjective(a: nat, b: nat, w: nat)
    requires a < Pow10(w) && b < Pow10(w)
    ensures Padded(a, w) == Padded(b, w) <==> a == b
  {
    ParsePadded(a, w);
    ParsePadded(b, w);
  }

  /** Zero-padded numerals of one width compare as text exactly as they compare as numbers. */
  lemma {:induction false} StrLtPadded(a: nat, b: nat, w: nat)
    requires a < Pow10(w) && b < Pow10(w)
    ensures StrLt(Padded(a, w), Padded(b, w)) <==> a < b
  {
    if w > 0 {
      assert a / 10 < Pow10(w - 1) && b / 10 < Pow10(w - 1);
      StrLtAppend(Padded(a / 10, w - 1), [DigitChar(a % 10)], Padded(b / 10, w - 1), [DigitChar(b % 10)]);
      StrLtPadded(a / 10, b / 10, w - 1);
      PaddedInjective(a / 10, b / 10, w - 1);
      assert StrLt([DigitChar(a % 10)], [DigitChar(b % 10)]) <==> a % 10 < b % 10;
    }
  }

  /**
   * For printable dates the `%Y-%m-%d` text orders dates chronologically, so
   * grouping and sorting by the `Date` column is grouping and sorting by date.
   */
  lemma DateTextOrder(a: Date, b: Date)
    requires Printable(a) && Printable(b)
    ensures StrLt(DateText(a), DateText(b)) <==> DateLt(a, b)
    ensures DateText(a) == DateText(b) <==> a == b
  {
    DateTextLess(a, b);
    DateTextSame(a, b);
  }

  lemma DateTextLess(a: Date, b: Date)
    requires Printable(a) && Printable(b)
    ensures StrLt(DateText(a), DateText(b)) <==> DateLt(a, b)
  {
    var ya, yb := Padded(a.year, 4), Padded(b.year, 4);
    var ma, mb := Padded(a.month, 2), Padded(b.month, 2);
    var da, db := Padded(a.day, 2), Padded(b.day, 2);
    assert DateText(a) == ya + ("-" + (ma + ("-" + da)));
    assert DateText(b) == yb + ("-" + (mb + ("-" + db)));
    PaddedInjective(a.year, b.year, 4);
    PaddedInjective(a.month, b.month, 2);
    StrLtIrreflexive("-");
    StrLtAppend(ya, "-" + (ma + ("-" + da)), yb, "-" + (mb + ("-" + db)));
    StrLtAppend("-", ma + ("-" + da), "-", mb + ("-" + db));
    StrLtAppend(ma, "-" + da, mb, "-" + db);
    StrLtAppend("-", da, "-", db);
    StrLtPadded(a.year, b.year, 4);
    StrLtPadded(a.month, b.month, 2);
    StrLtPadded(a.day, b.day, 2);
  }

  lemma DateTextSame(a: Date, b: Date)
    requires Printable(a) && Printable(b)
    ensures DateText(a) == DateText(b) <==> a == b
  {
    var ya, yb := Padded(a.year, 4), Padded(b.year, 4);
    var ma, mb := Padded(a.month, 2), Padded(b.month, 2);
    var da, db := Padded(a.day, 2), Padded(b.day, 2);
    PaddedInjective(a.year, b.year, 4);
    PaddedInjective(a.month, b.month, 2);
    PaddedInjective(a.day, b.day, 2);
    assert DateText(a) == ya + ("-" + (ma + ("-" + da)));
    assert DateText(b) == yb + ("-" + (mb + ("-" + db)));
    if DateText(a) == DateText(b) {
      SameSplit(ya, "-" + (ma + ("-" + da)), yb, "-" + (mb + ("-" + db)));
      SameSplit("-", ma + ("-" + da), "-", mb + ("-" + db));
      SameSplit(ma, "-" + da, mb, "-" + db);
      SameSplit("-", da, "-", db);
    }
  }

  /** Equal joins whose first parts have equal lengths have equal parts. */
  lemma SameSplit(x: string, y: string, u: string, v: string)
    requires x + y == u + v && |x| == |u|
    ensures x == u && y == v
  {
    assert x == (x + y)[..|x|] && u == (u + v)[..|u|];
    assert y == (x + y)[|x|..] && v == (u + v)[|u|..];
  }

  /** The same for the `%Y-%m` label of the monthly report. */
  lemma MonthTextOrder(a: Month, b: Month)
    requires a.year < 10000 && a.month < 100 && b.year < 10000 && b.month < 100
    ensures StrLt(MonthText(a), MonthText(b)) <==> MonthLt(a, b)
    ensures MonthText(a) == MonthText(b) <==> a == b
  {
    var ya, yb := Padded(a.year, 4), Padded(b.year, 4);
    var ma, mb := Padded(a.month, 2), Padded(b.month, 2);
    assert MonthText(a) == ya + ("-" + ma);
    assert MonthText(b) == yb + ("-" + mb);
    StrLtAppend(ya, "-" + ma, yb, "-" + mb);
    StrLtAppend("-", ma, "-", mb);
    StrLtIrreflexive("-");
    StrLtPadded(a.year, b.year, 4);
    StrLtPadded(a.month, b.month, 2);
    PaddedInjective(a.year, b.year, 4);
    PaddedInjective(a.month, b.month, 2);
    if MonthText(a) == MonthText(b) {
      assert MonthText(a)[..4] == ya && MonthText(b)[..4] == yb;
      assert MonthText(a)[5..] == ma && MonthText(b)[5..] == mb;
    }
  }
}
