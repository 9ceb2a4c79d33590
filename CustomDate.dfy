/**
 * Dates as the component uses them: a month and day of the reference year 2024, its Chinese
 * rendering "M月D日", and the validation of a typed "MM-DD" / "M-D" string (handleCustomDate).
 */
module CustomDate {
  import opened Wrappers
  import opened JsString

  /** A month (counted from 1) and a day of the year 2024. */
  datatype MonthDay = MonthDay(month: nat, day: nat)

  /** Days in each month of 2024, a leap year. */
  function DaysInMonth2024(month: int): (n: int)
    requires 1 <= month <= 12
    ensures 29 <= n <= 31
    ensures n == 29 <==> month == 2
    ensures n == 30 <==> month in {4, 6, 9, 11}
  {
    if month == 2 then 29 else if month in {4, 6, 9, 11} then 30 else 31
  }

  predicate IsDate2024(d: MonthDay) {
    1 <= d.month <= 12 && 1 <= d.day <= DaysInMonth2024(d.month)
  }

  /**
   * The month (counted from 0) of `new Date(2024, month0, day)` for a day from 1 to 31: a day
   * past the end of the month rolls over into the next month, December's into January.
   */
  function LandingMonth2024(month0: int, day: int): (m: int)
    requires 0 <= month0 <= 11 && 1 <= day <= 31
    ensures 0 <= m <= 11
    ensures m == month0 <==> day <= DaysInMonth2024(month0 + 1)
  {
    if day <= DaysInMonth2024(month0 + 1) then month0 else (month0 + 1) % 12
  }

  /** formatDate (and formatDateForPrompt, which is the same template): "7月20日". */
  function FormatDate(d: MonthDay): string {
    NatToString(d.month) + "月" + NatToString(d.day) + "日"
  }

  /** Different dates never render alike, so the rendering identifies the session's date. */
  lemma FormatDateInjective(a: MonthDay, b: MonthDay)
    requires FormatDate(a) == FormatDate(b)
    ensures a == b
  {
    var ma, da := NatToString(a.month), NatToString(a.day);
    var mb, db := NatToString(b.month), NatToString(b.day);
    assert '月' !in ma && '月' !in mb;
    assert FormatDate(a) == ma + ['月'] + (da + "日");
    assert FormatDate(b) == mb + ['月'] + (db + "日");
    SplitAtMarker(ma, da + "日", mb, db + "日", '月');
    assert da == (da + "日")[..|da + "日"| - 1];
    assert db == (db + "日")[..|db + "日"| - 1];
    NatToStringInjective(a.month, b.month);
    NatToStringInjective(a.day, b.day);
  }

  /** `x + [c] + y` has only one such decomposition when `c` does not occur in `x`. */
  lemma SplitAtMarker(x: string, y: string, x': string, y': string, c: char)
    requires c !in x && c !in x'
    requires x + [c] + y == x' + [c] + y'
    ensures x == x' && y == y'
  {
    var s := x + [c] + y;
    FirstIndexOfMarker(x, y, c);
    FirstIndexOfMarker(x', y', c);
    assert x == s[..|x|];
    assert y == s[|x| + 1..];
  }

  /** The position of the first `c` in `s`, or |s| when there is none. */
  function FirstIndex(s: string, c: char): (i: nat)
    ensures i <= |s|
  {
    if s == [] || s[0] == c then 0 else 1 + FirstIndex(s[1..], c)
  }

  lemma {:induction false} FirstIndexOfMarker(x: string, y: string, c: char)
    requires c !in x
    ensures FirstIndex(x + [c] + y, c) == |x|
  {
    if x != [] {
      assert (x + [c] + y)[1..] == x[1..] + [c] + y;
      FirstIndexOfMarker(x[1..], y, c);
    } else {
      assert x + [c] + y == [c] + y;
    }
  }

  /** Why a typed date is refused; each is reported to the user in an alert. */
  datatype DateError =
    | EmptyInput      // nothing typed
    | WrongPartCount  // '日期格式不正确': not exactly one '-'
    | OutOfRange      // '日期超出范围': a month outside 1..12 or a day outside 1..31
    | NoSuchDay       // '该月份没有这一天': the month has no such day, or a part is not a number

  /**
   * The reference definition of an accepted input: non-empty, exactly two '-'-separated parts,
   * both read by parseInt as numbers, naming a real day of 2024.
   */
  predicate AcceptedDate(input: string, d: MonthDay) {
    var parts := Split(input, '-');
    && input != ""
    && |parts| == 2
    && ParseInt(parts[0]) == Some(d.month as int)
    && ParseInt(parts[1]) == Some(d.day as int)
    && IsDate2024(d)
  }

  /**
   * handleCustomDate up to the call of generateEventsList: the sequence of checks with early
   * exits. NaN (None) passes the range comparisons, which are all false for it, and is caught
   * by the getMonth() comparison, which is false for an invalid date.
   */
  method ValidateCustomDate(input: string) returns (r: Result<MonthDay, DateError>)
    ensures r.Success? ==> AcceptedDate(input, r.value)
    ensures r.Failure? ==> forall d :: !AcceptedDate(input, d)
    ensures r == Failure(EmptyInput) <==> input == ""
    ensures r == Failure(WrongPartCount) <==> input != "" && Count(input, '-') != 1
    ensures r == Failure(OutOfRange) <==>
      && input != "" && |Split(input, '-')| == 2
      && var month, day := ParseInt(Split(input, '-')[0]), ParseInt(Split(input, '-')[1]);
         (month.Some? && !(1 <= month.value <= 12)) || (day.Some? && !(1 <= day.value <= 31))
  {
    if input == "" {
      return Failure(EmptyInput);
    }
    var parts := Split(input, '-');
    SplitParts(input, '-');
    if |parts| != 2 {
      return Failure(WrongPartCount);
    }
    var parsedMonth := ParseInt(parts[0]);
    var month0: Option<int> := if parsedMonth.Some? then Some(parsedMonth.value - 1) else None;
    var day := ParseInt(parts[1]);
    if (month0.Some? && (month0.value < 0 || month0.value > 11)) || (day.Some? && (day.value < 1 || day.value > 31)) {
      return Failure(OutOfRange);
    }
    if month0.None? || day.None? || LandingMonth2024(month0.value, day.value) != month0.value {
      return Failure(NoSuchDay);
    }
    r := Success(MonthDay(month0.value + 1, day.value));
  }

  /** A number written in decimal, possibly with leading zeros. */
  function Padded(zeros: nat, n: nat): string {
    Repeat('0', zeros) + NatToString(n)
  }

  /**
   * Every real day of 2024 is accepted however many leading zeros its month and day carry:
   * "02-29", "2-29" and "002-029" all name the 29th of February.
   */
  lemma EveryDayAccepted(d: MonthDay, zm: nat, zd: nat)
    requires IsDate2024(d)
    ensures AcceptedDate(Padded(zm, d.month) + "-" + Padded(zd, d.day), d)
  {
    var a, b := Padded(zm, d.month), Padded(zd, d.day);
    PaddedIsDecimal(zm, d.month);
    PaddedIsDecimal(zd, d.day);
    SplitsInTwo(a, b);
    ParsesAs(a, zm, d.month);
    ParsesAs(b, zd, d.day);
  }

  /**
   * An input whose two parts parseInt reads as a month and a day past that month's end is
   * refused, however the parts are spelled ("02-30", " 2-30", "0x2-0x1e").
   */
  lemma DayPastMonthEndRefused(input: string, month: int, day: int, d: MonthDay)
    requires |Split(input, '-')| == 2
    requires ParseInt(Split(input, '-')[0]) == Some(month) && ParseInt(Split(input, '-')[1]) == Some(day)
    requires 1 <= month <= 12 && day > DaysInMonth2024(month)
    ensures !AcceptedDate(input, d)
  {
  }

  /** The same in the zero-padded decimal spellings, the 30th of February among them. */
  lemma PaddedDayPastMonthEndRefused(month: nat, day: nat, zm: nat, zd: nat, d: MonthDay)
    requires 1 <= month <= 12 && day > DaysInMonth2024(month)
    ensures !AcceptedDate(Padded(zm, month) + "-" + Padded(zd, day), d)
  {
    var a, b := Padded(zm, month), Padded(zd, day);
    PaddedIsDecimal(zm, month);
    PaddedIsDecimal(zd, day);
    SplitsInTwo(a, b);
    ParsesAs(a, zm, month);
    ParsesAs(b, zd, day);
    DayPastMonthEndRefused(a + "-" + b, month, day, d);
  }

  lemma PaddedIsDecimal(zeros: nat, n: nat)
    ensures AllDecimal(Padded(zeros, n)) && '-' !in Padded(zeros, n)
  {
    var p := Padded(zeros, n);
    forall k | 0 <= k < |p| ensures IsDecimalDigit(p[k]) {
      if k < zeros { assert p[k] == '0'; } else { assert p[k] == NatToString(n)[k - zeros]; }
    }
  }

  lemma SplitsInTwo(a: string, b: string)
    requires '-' !in a && '-' !in b
    ensures Split(a + "-" + b, '-') == [a, b]
  {
    SplitJoin([a, b], '-');
    assert Join([a, b], '-') == a + "-" + b by {
      assert [a, b][1..] == [b];
    }
  }

  lemma ParsesAs(s: string, z: nat, n: nat)
    requires s == Padded(z, n)
    ensures ParseInt(s) == Some(n)
  {
    assert "" + Repeat('0', z) + NatToString(n) + "" == s;
    ParseIntLenient("", z, n, "");
  }
}
