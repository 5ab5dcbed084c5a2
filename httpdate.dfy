/**
 * get_date (src/ssocket.c): the value of the responder's Date header,
 * written from the broken-down UTC time gmtime returns. The layout follows
 * the IMF-fixdate of section 7.1.1.1 of RFC 7231 ("Sun, 06 Nov 1994
 * 08:49:37 GMT") with two differences the code has: numbers are printed
 * without zero padding, and the weekday table starts at Monday although
 * gmtime counts from Sunday.
 */
module HttpDate {
  import opened CLib

  /** The fields of struct tm that get_date reads. */
  datatype Tm = Tm(sec: int, min: int, hour: int, mday: int, mon: int, year: int, wday: int)

  /**
   * The ranges gmtime guarantees for these fields, with a tm_year whose
   * tm_year + 1900 still fits an int.
   */
  predicate GmtimeRanges(tm: Tm) {
    && 0 <= tm.sec <= 60
    && 0 <= tm.min <= 59
    && 0 <= tm.hour <= 23
    && 1 <= tm.mday <= 31
    && 0 <= tm.mon <= 11
    && 0 <= tm.wday <= 6
    && IntMin <= tm.year && tm.year + 1900 <= IntMax
  }

  /** The first switch of get_date: tm_wday 0 prints "Mon, "; any other value prints nothing. */
  function WeekdayPrefix(wday: int): string {
    match wday
    case 0 => "Mon, "
    case 1 => "Tue, "
    case 2 => "Wed, "
    case 3 => "Thu, "
    case 4 => "Fri, "
    case 5 => "Sat, "
    case 6 => "Sun, "
    case _ => ""
  }

  /** The second switch of get_date: tm_mon 0 to 11 prints " Jan " to " Dec "; any other value nothing. */
  function MonthInfix(mon: int): string {
    match mon
    case 0 => " Jan "
    case 1 => " Feb "
    case 2 => " Mar "
    case 3 => " Apr "
    case 4 => " May "
    case 5 => " Jun "
    case 6 => " Jul "
    case 7 => " Aug "
    case 8 => " Sep "
    case 9 => " Oct "
    case 10 => " Nov "
    case 11 => " Dec "
    case _ => ""
  }

  /**
   * The text get_date leaves in its buffer: weekday, day of month, month,
   * tm_year + 1900, then hour:minute:second and " GMT", every number as
   * "%d" prints it.
   */
  function DateString(tm: Tm): string {
    WeekdayPrefix(tm.wday) + IntToDecimal(tm.mday) + MonthInfix(tm.mon) +
    IntToDecimal(tm.year + 1900) + " " + IntToDecimal(tm.hour) + ":" +
    IntToDecimal(tm.min) + ":" + IntToDecimal(tm.sec) + " GMT"
  }

  /**
   * get_date: a 50-byte buffer filled by strcat in the order of the source.
   * The time itself (time and gmtime) is the parameter.
   */
  method GetDate(tm: Tm) returns (date: CBuffer)
    requires GmtimeRanges(tm)
    ensures fresh(date) && fresh(date.data) && date.Valid()
    ensures date.data.Length == 50
    ensures date.contents == DateString(tm)
  {
    var weekday, day, month := WeekdayPrefix(tm.wday), IntToDecimal(tm.mday), MonthInfix(tm.mon);
    var year, hour := IntToDecimal(tm.year + 1900), IntToDecimal(tm.hour);
    var minute, second := IntToDecimal(tm.min), IntToDecimal(tm.sec);
    var space, colon, gmt := " ", ":", " GMT";
    assert NoNul(space) && NoNul(colon) && NoNul(gmt);
    DatePieces(tm);
    // get_date takes malloc(50) and empties it with strcpy(*date, ""); the
    // bytes past the terminator are never read, so a zeroed buffer stands in.
    date := new CBuffer.Calloc(50);
    date.Cat(weekday);
    assert date.contents == weekday;
    date.Cat(day);
    date.Cat(month);
    date.Cat(year);
    date.Cat(space);
    date.Cat(hour);
    date.Cat(colon);
    date.Cat(minute);
    date.Cat(colon);
    date.Cat(second);
    date.Cat(gmt);
  }

  /** The weekday and month texts are five characters without NUL or carriage return. */
  lemma TableText(wday: int, mon: int)
    ensures NoNul(WeekdayPrefix(wday)) && NoCr(WeekdayPrefix(wday))
    ensures NoNul(MonthInfix(mon)) && NoCr(MonthInfix(mon))
    ensures 0 <= wday <= 6 ==> |WeekdayPrefix(wday)| == 5
    ensures 0 <= mon <= 11 ==> |MonthInfix(mon)| == 5
  {
  }

  /** The sizes and the characters of the pieces get_date concatenates. */
  lemma DatePieces(tm: Tm)
    requires GmtimeRanges(tm)
    ensures |WeekdayPrefix(tm.wday)| == 5 && |MonthInfix(tm.mon)| == 5
    ensures |IntToDecimal(tm.mday)| <= 2 && |IntToDecimal(tm.hour)| <= 2
    ensures |IntToDecimal(tm.min)| <= 2 && |IntToDecimal(tm.sec)| <= 2
    ensures |IntToDecimal(tm.year + 1900)| <= 11
    ensures NoNul(WeekdayPrefix(tm.wday)) && NoNul(MonthInfix(tm.mon))
    ensures NoNul(IntToDecimal(tm.mday)) && NoNul(IntToDecimal(tm.year + 1900))
    ensures NoNul(IntToDecimal(tm.hour)) && NoNul(IntToDecimal(tm.min)) && NoNul(IntToDecimal(tm.sec))
  {
    TableText(tm.wday, tm.mon);
    SmallDecimalLength(tm.mday);
    SmallDecimalLength(tm.hour);
    SmallDecimalLength(tm.min);
    SmallDecimalLength(tm.sec);
    IntDecimalLength(tm.year + 1900);
    DecimalIsText(tm.mday);
    DecimalIsText(tm.year + 1900);
    DecimalIsText(tm.hour);
    DecimalIsText(tm.min);
    DecimalIsText(tm.sec);
  }

  /**
   * For any time gmtime can return, the date takes at most 36 characters,
   * so it and its terminating NUL fit get_date's 50-byte buffer.
   */
  lemma DateLength(tm: Tm)
    requires GmtimeRanges(tm)
    ensures |DateString(tm)| <= 36
  {
    DatePieces(tm);
  }

  /** The date holds neither NUL nor carriage-return characters. */
  lemma DateIsText(tm: Tm)
    ensures NoNul(DateString(tm)) && NoCr(DateString(tm))
  {
    var space, colon, gmt := " ", ":", " GMT";
    assert NoNul(space) && NoCr(space) && NoNul(colon) && NoCr(colon) && NoNul(gmt) && NoCr(gmt);
    var w, m := WeekdayPrefix(tm.wday), MonthInfix(tm.mon);
    TableText(tm.wday, tm.mon);
    var d, y := IntToDecimal(tm.mday), IntToDecimal(tm.year + 1900);
    var h, mi, sc := IntToDecimal(tm.hour), IntToDecimal(tm.min), IntToDecimal(tm.sec);
    DecimalIsText(tm.mday);
    DecimalIsText(tm.year + 1900);
    DecimalIsText(tm.hour);
    DecimalIsText(tm.min);
    DecimalIsText(tm.sec);
    var text := w;
    TextAppend(text, d); text := text + d;
    TextAppend(text, m); text := text + m;
    TextAppend(text, y); text := text + y;
    TextAppend(text, space); text := text + space;
    TextAppend(text, h); text := text + h;
    TextAppend(text, colon); text := text + colon;
    TextAppend(text, mi); text := text + mi;
    TextAppend(text, colon); text := text + colon;
    TextAppend(text, sc); text := text + sc;
    TextAppend(text, gmt); text := text + gmt;
    assert text == DateString(tm);
  }

  // ---------------------------------------------------------------------
  // Reading a date back
  // ---------------------------------------------------------------------

  /** The weekday whose prefix the text starts with. */
  function WeekdayOf(s: string): (r: Option<int>)
    ensures r.Some? ==> 0 <= r.value <= 6 && StartsWith(s, WeekdayPrefix(r.value)) && 5 <= |s|
  {
    if StartsWith(s, "Mon, ") then Some(0)
    else if StartsWith(s, "Tue, ") then Some(1)
    else if StartsWith(s, "Wed, ") then Some(2)
    else if StartsWith(s, "Thu, ") then Some(3)
    else if StartsWith(s, "Fri, ") then Some(4)
    else if StartsWith(s, "Sat, ") then Some(5)
    else if StartsWith(s, "Sun, ") then Some(6)
    else None
  }

  /** The month whose infix the text starts with. */
  function MonthOf(s: string): (r: Option<int>)
    ensures r.Some? ==> 0 <= r.value <= 11 && StartsWith(s, MonthInfix(r.value)) && 5 <= |s|
  {
    if StartsWith(s, " Jan ") then Some(0)
    else if StartsWith(s, " Feb ") then Some(1)
    else if StartsWith(s, " Mar ") then Some(2)
    else if StartsWith(s, " Apr ") then Some(3)
    else if StartsWith(s, " May ") then Some(4)
    else if StartsWith(s, " Jun ") then Some(5)
    else if StartsWith(s, " Jul ") then Some(6)
    else if StartsWith(s, " Aug ") then Some(7)
    else if StartsWith(s, " Sep ") then Some(8)
    else if StartsWith(s, " Oct ") then Some(9)
    else if StartsWith(s, " Nov ") then Some(10)
    else if StartsWith(s, " Dec ") then Some(11)
    else None
  }

  /** A number read with strtol, and the text after it. */
  function ParseNumber(s: string): Option<(int, string)> {
    var r := Strtol(s);
    if r.end == 0 then None else Some((r.value, s[r.end..]))
  }

  /** The text after a fixed literal it must start with. */
  function Skip(s: string, literal: string): Option<string> {
    if StartsWith(s, literal) then Some(s[|literal|..]) else None
  }

  /** A number read with strtol, then a separator that must follow it; and the text after both. */
  function NumberThen(s: string, separator: string): Option<(int, string)> {
    var n :- ParseNumber(s);
    var rest :- Skip(n.1, separator);
    Some((n.0, rest))
  }

  /** Reads "h:m:s GMT" back into hour, minute and second. */
  function ParseClock(s: string): Option<(int, int, int)> {
    var hour :- NumberThen(s, ":");
    var min :- NumberThen(hour.1, ":");
    var sec :- NumberThen(min.1, " GMT");
    if sec.1 == [] then Some((hour.0, min.0, sec.0)) else None
  }

  /** Reads the fields back out of a date in get_date's layout. */
  function ParseDate(s: string): Option<Tm> {
    var wday :- WeekdayOf(s);
    var day :- ParseNumber(s[5..]);
    var mon :- MonthOf(day.1);
    var year :- NumberThen(day.1[5..], " ");
    var clock :- ParseClock(year.1);
    Some(Tm(clock.2, clock.1, clock.0, day.0, mon, year.0 - 1900, wday))
  }

  lemma ParseNumberOfDecimal(n: int, t: string)
    requires IntMin <= n <= IntMax
    requires t == [] || !IsDigit(t[0])
    ensures ParseNumber(IntToDecimal(n) + t) == Some((n, t))
  {
    StrtolOfDecimal(n, t);
    assert (IntToDecimal(n) + t)[|IntToDecimal(n)|..] == t;
  }

  lemma WeekdayOfPrefix(wday: int, t: string)
    requires 0 <= wday <= 6
    ensures |WeekdayPrefix(wday)| == 5
    ensures WeekdayOf(WeekdayPrefix(wday) + t) == Some(wday)
  {
    var s := WeekdayPrefix(wday) + t;
    assert s[..5] == WeekdayPrefix(wday);
  }

  lemma MonthOfInfix(mon: int, t: string)
    requires 0 <= mon <= 11
    ensures |MonthInfix(mon)| == 5 && MonthInfix(mon)[0] == ' '
    ensures MonthOf(MonthInfix(mon) + t) == Some(mon)
  {
    var s := MonthInfix(mon) + t;
    assert s[..5] == MonthInfix(mon);
    if mon < 6 {
      assert !StartsWith(s, " Jul ") && !StartsWith(s, " Aug ") && !StartsWith(s, " Sep ");
    } else {
      assert !StartsWith(s, " Jan ") && !StartsWith(s, " Feb ") && !StartsWith(s, " Mar ");
      assert !StartsWith(s, " Apr ") && !StartsWith(s, " May ") && !StartsWith(s, " Jun ");
    }
  }

  lemma SkipLiteral(literal: string, t: string)
    ensures Skip(literal + t, literal) == Some(t)
  {
    assert (literal + t)[..|literal|] == literal;
    assert (literal + t)[|literal|..] == t;
  }

  lemma NumberThenOfDecimal(n: int, separator: string, t: string)
    requires IntMin <= n <= IntMax
    requires separator != [] && !IsDigit(separator[0])
    ensures NumberThen(IntToDecimal(n) + (separator + t), separator) == Some((n, t))
  {
    ParseNumberOfDecimal(n, separator + t);
    SkipLiteral(separator, t);
  }

  /** The clock part of the date: "h:m:s GMT" as "%d" prints the numbers. */
  function ClockString(hour: int, min: int, sec: int): string {
    IntToDecimal(hour) + (":" + (IntToDecimal(min) + (":" + (IntToDecimal(sec) + (" GMT" + [])))))
  }

  lemma {:induction false} ClockRoundTrip(hour: int, min: int, sec: int)
    requires 0 <= hour <= 23 && 0 <= min <= 59 && 0 <= sec <= 60
    ensures ParseClock(ClockString(hour, min, sec)) == Some((hour, min, sec))
  {
    var colon, gmt, none := ":", " GMT", [];
    var t2 := IntToDecimal(sec) + (gmt + none);
    var t1 := IntToDecimal(min) + (colon + t2);
    assert NumberThen(IntToDecimal(hour) + (colon + t1), colon) == Some((hour, t1)) by {
      NumberThenOfDecimal(hour, colon, t1);
    }
    assert NumberThen(t1, colon) == Some((min, t2)) by {
      NumberThenOfDecimal(min, colon, t2);
    }
    assert NumberThen(t2, gmt) == Some((sec, none)) by {
      NumberThenOfDecimal(sec, gmt, none);
    }
  }

  /** get_date's text, regrouped as weekday, day, month, year, a space and the clock. */
  lemma DateStringParts(tm: Tm)
    ensures DateString(tm) ==
            WeekdayPrefix(tm.wday) + (IntToDecimal(tm.mday) + (MonthInfix(tm.mon) +
            (IntToDecimal(tm.year + 1900) + (" " + ClockString(tm.hour, tm.min, tm.sec)))))
  {
    GroupDatePieces(WeekdayPrefix(tm.wday), IntToDecimal(tm.mday), MonthInfix(tm.mon),
                    IntToDecimal(tm.year + 1900), " ", IntToDecimal(tm.hour), ":",
                    IntToDecimal(tm.min), ":", IntToDecimal(tm.sec), " GMT");
  }

  /** The eleven pieces get_date appends, concatenated left to right, are the same text grouped to the right. */
  lemma GroupDatePieces(a: string, b: string, c: string, d: string, e: string, f: string,
                        g: string, h: string, i: string, j: string, k: string)
    ensures a + b + c + d + e + f + g + h + i + j + k ==
            a + (b + (c + (d + (e + (f + (g + (h + (i + (j + (k + []))))))))))
  {
  }

  /**
   * Unpadded as the numbers are, the date is unambiguous: reading it back
   * recovers every field of the time it was written from.
   */
  lemma {:induction false} DateRoundTrip(tm: Tm)
    requires GmtimeRanges(tm)
    ensures ParseDate(DateString(tm)) == Some(tm)
  {
    DateStringParts(tm);
    ParseOfFields(tm.wday, tm.mday, tm.mon, tm.year + 1900, tm.hour, tm.min, tm.sec);
  }

  /** The fields of a date, written in get_date's layout, are read back by ParseDate. */
  lemma ParseOfFields(wday: int, mday: int, mon: int, year: int, hour: int, min: int, sec: int)
    requires 0 <= wday <= 6 && 1 <= mday <= 31 && 0 <= mon <= 11 && IntMin <= year <= IntMax
    requires 0 <= hour <= 23 && 0 <= min <= 59 && 0 <= sec <= 60
    ensures ParseDate(WeekdayPrefix(wday) + (IntToDecimal(mday) + (MonthInfix(mon) +
              (IntToDecimal(year) + (" " + ClockString(hour, min, sec)))))) ==
            Some(Tm(sec, min, hour, mday, mon, year - 1900, wday))
  {
    var space := " ";
    var w, d, m := WeekdayPrefix(wday), IntToDecimal(mday), MonthInfix(mon);
    var clock := ClockString(hour, min, sec);
    var t2 := IntToDecimal(year) + (space + clock);
    var t1 := m + t2;
    var t0 := d + t1;
    assert WeekdayOf(w + t0) == Some(wday) && (w + t0)[5..] == t0 by {
      WeekdayOfPrefix(wday, t0);
    }
    assert MonthOf(t1) == Some(mon) && t1[5..] == t2 by {
      MonthOfInfix(mon, t2);
    }
    assert ParseNumber(t0) == Some((mday, t1)) by {
      MonthOfInfix(mon, t2);
      ParseNumberOfDecimal(mday, t1);
    }
    assert NumberThen(t2, space) == Some((year, clock)) by {
      NumberThenOfDecimal(year, space, clock);
    }
    ClockRoundTrip(hour, min, sec);
    ParseDateSteps(w + t0, wday, mday, t1, mon, year, clock, hour, min, sec);
  }

  /** ParseDate, one field after the other. */
  lemma ParseDateSteps(s: string, wday: int, mday: int, t1: string, mon: int, year: int, clock: string,
                       hour: int, min: int, sec: int)
    requires WeekdayOf(s) == Some(wday) && ParseNumber(s[5..]) == Some((mday, t1))
    requires MonthOf(t1) == Some(mon) && NumberThen(t1[5..], " ") == Some((year, clock))
    requires ParseClock(clock) == Some((hour, min, sec))
    ensures ParseDate(s) == Some(Tm(sec, min, hour, mday, mon, year - 1900, wday))
  {
    var r := ParseDate(s).value;
    assert r.wday == wday && r.mday == mday && r.mon == mon && r.year == year - 1900;
    assert r.hour == hour && r.min == min && r.sec == sec;
  }

  // ---------------------------------------------------------------------
  // The weekday table as written
  // ---------------------------------------------------------------------

  /** Day names in the order of section 7.1.1.1 of RFC 7231, which is also gmtime's tm_wday order (0 is Sunday). */
  const DayNames: seq<string> := ["Sun", "Mon", "Tue", "Wed", "Thu", "Fri", "Sat"]

  /**
   * As written, get_date names the day after the one gmtime reports:
   * tm_wday w prints the name of day (w + 1) mod 7, so a Sunday prints
   * "Mon" and a Saturday "Sun".
   */
  lemma WeekdayShifted(wday: int)
    requires 0 <= wday <= 6
    ensures WeekdayPrefix(wday) == DayNames[(wday + 1) % 7] + ", "
  {
  }

  /**
   * Saturday 5 January 2019, 07:03:09 UTC (tm_wday 6) comes out as
   * "Sun, 5 Jan 2019 7:3:9 GMT", where the IMF-fixdate would read
   * "Sat, 05 Jan 2019 07:03:09 GMT".
   */
  lemma DateExample()
    ensures DateString(Tm(9, 3, 7, 5, 0, 119, 6)) == "Sun, 5 Jan 2019 7:3:9 GMT"
  {
    DecimalStep(2, 0);
    DecimalStep(20, 1);
    DecimalStep(201, 9);
    assert IntToDecimal(2019) == "2019";
  }
}
