/** The sale date: a time stamp read with the format
    "%d-%b-%Y %I.%M.%S %p", where a text that does not read becomes NaT
    rather than an error, and then written as "%m/%d/%Y".

    The format is matched the way Python's strptime turns it into a
    regular expression: every directive has a fixed small pattern, the
    space in the format matches one or more whitespace characters, the
    match ignores letter case and must cover the whole text. A text that
    does not match, or names a day the calendar does not have, becomes
    NaT and its row is dropped. The time of day is checked and then
    dropped, except that a leap second at 11.59 PM carries over into the
    next day. */
module Dates {
  import opened Options
  import opened Text

  datatype Date = Date(year: int, month: int, day: int)

  predicate IsLeapYear(y: int) {
    y % 4 == 0 && (y % 100 != 0 || y % 400 == 0)
  }

  function DaysInMonth(y: int, m: int): (n: int)
    requires 1 <= m <= 12
    ensures 28 <= n <= 31
  {
    if m == 2 then (if IsLeapYear(y) then 29 else 28)
    else if m == 4 || m == 6 || m == 9 || m == 11 then 30
    else 31
  }

  /** A day of the proleptic Gregorian calendar between the years 1 and 9999. */
  predicate ValidDate(d: Date) {
    1 <= d.year <= 9999 && 1 <= d.month <= 12 && 1 <= d.day <= DaysInMonth(d.year, d.month)
  }

  const MonthAbbreviations: seq<string> :=
    ["Jan", "Feb", "Mar", "Apr", "May", "Jun", "Jul", "Aug", "Sep", "Oct", "Nov", "Dec"]

  /** The abbreviation of month `m` (1 is January). */
  function Abbreviation(m: int): (r: string)
    requires 1 <= m <= 12
    ensures |r| == 3
  {
    MonthAbbreviations[m - 1]
  }

  function LowerAscii(c: char): char {
    if 'A' <= c <= 'Z' then (c as int + 32) as char else c
  }

  predicate SameIgnoringCase(a: string, b: string) {
    |a| == |b| && forall i :: 0 <= i < |a| ==> LowerAscii(a[i]) == LowerAscii(b[i])
  }

  // ---------------------------------------------------------------------
  // One function per directive: the text the directive's pattern accepts
  // and the number it stands for.

  /** `%d`: "1" to "9", a space and "1" to "9", or two digits from 01 to 31. */
  function DayField(t: string): (r: Option<int>)
    ensures r.Some? ==> 1 <= r.value <= 31
  {
    if |t| == 1 && IsDigit(t[0]) && t[0] != '0' then Some(DigitValue(t[0]))
    else if |t| == 2 && t[0] == ' ' && IsDigit(t[1]) && t[1] != '0' then Some(DigitValue(t[1]))
    else if |t| == 2 && AllDigits(t) && 1 <= DigitsValue(t) <= 31 then Some(DigitsValue(t))
    else None
  }

  /** `%b`: one of the twelve month abbreviations, in any letter case. */
  function MonthField(t: string): (r: Option<int>)
    ensures r.Some? ==> 1 <= r.value <= 12 && SameIgnoringCase(t, Abbreviation(r.value))
    ensures r.None? ==> forall m :: 1 <= m <= 12 ==> !SameIgnoringCase(t, Abbreviation(m))
  {
    FindMonth(t, 1)
  }

  function FindMonth(t: string, m: int): (r: Option<int>)
    requires 1 <= m <= 13
    ensures r.Some? ==> m <= r.value <= 12 && SameIgnoringCase(t, Abbreviation(r.value))
    ensures r.None? ==> forall k :: m <= k <= 12 ==> !SameIgnoringCase(t, Abbreviation(k))
    decreases 13 - m
  {
    if m == 13 then None
    else if SameIgnoringCase(t, Abbreviation(m)) then Some(m)
    else FindMonth(t, m + 1)
  }

  /** `%I`: "1" to "9", or two digits from 01 to 12. */
  function HourField(t: string): (r: Option<int>)
    ensures r.Some? ==> 1 <= r.value <= 12
  {
    if |t| == 1 && IsDigit(t[0]) && t[0] != '0' then Some(DigitValue(t[0]))
    else if |t| == 2 && AllDigits(t) && 1 <= DigitsValue(t) <= 12 then Some(DigitsValue(t))
    else None
  }

  /** `%M`: one digit, or two digits from 00 to 59. */
  function MinuteField(t: string): (r: Option<int>)
    ensures r.Some? ==> 0 <= r.value <= 59
  {
    if |t| == 1 && IsDigit(t[0]) then Some(DigitValue(t[0]))
    else if |t| == 2 && AllDigits(t) && DigitsValue(t) <= 59 then Some(DigitsValue(t))
    else None
  }

  /** `%S`: one digit, or two digits from 00 to 61 (the pattern leaves room
      for leap seconds). */
  function SecondField(t: string): (r: Option<int>)
    ensures r.Some? ==> 0 <= r.value <= 61
  {
    if |t| == 1 && IsDigit(t[0]) then Some(DigitValue(t[0]))
    else if |t| == 2 && AllDigits(t) && DigitsValue(t) <= 61 then Some(DigitsValue(t))
    else None
  }

  /** `%p`: "AM" or "PM" in any letter case. */
  predicate IsMeridiem(t: string) {
    SameIgnoringCase(t, "AM") || SameIgnoringCase(t, "PM")
  }

  /** What follows the year: whitespace, `%I.%M.%S`, whitespace and `%p`,
      up to the end of the text. */
  predicate IsClockText(t: string) {
    var w := SpanSpaces(t);
    w > 0 &&
    match SplitFirst(t[w..], '.')
    case None => false
    case Some((hourText, rest)) =>
      HourField(hourText).Some? &&
      match SplitFirst(rest, '.')
      case None => false
      case Some((minuteText, rest2)) =>
        MinuteField(minuteText).Some? && IsSecondsText(rest2)
  }

  /** `%S`, whitespace and `%p` up to the end of the text. */
  predicate IsSecondsText(t: string) {
    var k := SpanDigits(t);
    var w := SpanSpaces(t[k..]);
    SecondField(t[..k]).Some? && w > 0 && IsMeridiem(t[k..][w..])
  }

  /** The time of day is 11.59 PM and a leap second (60 or 61): the
      seconds carry over into the next day. */
  predicate ClockRollsOver(t: string) {
    var w := SpanSpaces(t);
    match SplitFirst(t[w..], '.')
    case None => false
    case Some((hourText, rest)) =>
      HourField(hourText) == Some(11) &&
      match SplitFirst(rest, '.')
      case None => false
      case Some((minuteText, rest2)) =>
        MinuteField(minuteText) == Some(59) && SecondsRollOver(rest2)
  }

  /** The seconds are 60 or 61 and the marker is PM. */
  predicate SecondsRollOver(t: string) {
    var k := SpanDigits(t);
    var second := SecondField(t[..k]);
    var w := SpanSpaces(t[k..]);
    second.Some? && second.value >= 60 && SameIgnoringCase(t[k..][w..], "PM")
  }

  /** Calendar order: by year, then month, then day. */
  predicate Before(a: Date, b: Date) {
    a.year < b.year || (a.year == b.year && (a.month < b.month || (a.month == b.month && a.day < b.day)))
  }

  /** The day after `d`, or None after the last day of the year 9999. */
  function NextDay(d: Date): (r: Option<Date>)
    requires ValidDate(d)
    ensures r.Some? ==> ValidDate(r.value) && Before(d, r.value)
    ensures r.None? <==> d == Date(9999, 12, 31)
  {
    if d.day < DaysInMonth(d.year, d.month) then Some(Date(d.year, d.month, d.day + 1))
    else if d.month < 12 then Some(Date(d.year, d.month + 1, 1))
    else if d.year < 9999 then Some(Date(d.year + 1, 1, 1))
    else None
  }

  /** No real day lies between a day and the day after it. */
  lemma NextDayIsNext(d: Date, e: Date)
    requires ValidDate(d) && ValidDate(e) && NextDay(d).Some?
    ensures Before(d, e) <==> e == NextDay(d).value || Before(NextDay(d).value, e)
  {
  }

  /** The calendar day a report time stamp names, or None (NaT). */
  function ParseStamp(s: string): (r: Option<Date>)
    ensures r.Some? ==> ValidDate(r.value)
  {
    match SplitFirst(s, '-')
    case None => None
    case Some((dayText, rest)) =>
      if |rest| < 8 || rest[3] != '-' || !AllDigits(rest[4..8]) then None
      else
        var day, month := DayField(dayText), MonthField(rest[..3]);
        if day.None? || month.None? || !IsClockText(rest[8..]) then None
        else
          var d := Date(DigitsValue(rest[4..8]), month.value, day.value);
          if !ValidDate(d) then None
          else if ClockRollsOver(rest[8..]) then NextDay(d)
          else Some(d)
  }

  /** A time stamp as the report writes it, e.g. "01-Jan-2024 10.00.00 AM". */
  function StampText(d: Date, hour: int, minute: int, second: int, pm: bool): string
    requires ValidDate(d) && 1 <= hour <= 12 && 0 <= minute <= 59 && 0 <= second <= 61
  {
    PadDigits(d.day, 2) + "-" + Abbreviation(d.month) + "-" + PadDigits(d.year, 4)
      + ClockText(hour, minute, second, pm)
  }

  /** The time of day of a time stamp, e.g. " 10.00.00 AM". */
  function ClockText(hour: int, minute: int, second: int, pm: bool): string
    requires 1 <= hour <= 12 && 0 <= minute <= 59 && 0 <= second <= 61
  {
    " " + PadDigits(hour, 2) + "." + PadDigits(minute, 2) + "." + SecondsText(second, pm)
  }

  /** The seconds and the AM/PM marker of a time stamp, e.g. "00 AM". */
  function SecondsText(second: int, pm: bool): string
    requires 0 <= second <= 61
  {
    PadDigits(second, 2) + " " + (if pm then "PM" else "AM")
  }

  lemma AbbreviationsDistinct(m: int, k: int)
    requires 1 <= m <= 12 && 1 <= k <= 12
    requires SameIgnoringCase(Abbreviation(m), Abbreviation(k))
    ensures m == k
  {
    var a, b := Abbreviation(m), Abbreviation(k);
    assert LowerAscii(a[0]) == LowerAscii(b[0]);
    assert LowerAscii(a[1]) == LowerAscii(b[1]);
    assert LowerAscii(a[2]) == LowerAscii(b[2]);
  }

  lemma MonthFieldOf(m: int)
    requires 1 <= m <= 12
    ensures MonthField(Abbreviation(m)) == Some(m)
  {
    var r := MonthField(Abbreviation(m));
    assert SameIgnoringCase(Abbreviation(m), Abbreviation(m));
    AbbreviationsDistinct(m, r.value);
  }

  lemma TwoDigitField(t: string, n: int)
    requires |t| == 2 && AllDigits(t) && DigitsValue(t) == n
    ensures 1 <= n <= 31 ==> DayField(t) == Some(n)
    ensures 1 <= n <= 12 ==> HourField(t) == Some(n)
    ensures 0 <= n <= 59 ==> MinuteField(t) == Some(n)
    ensures 0 <= n <= 61 ==> SecondField(t) == Some(n)
  {
    assert t[0] != ' ';
  }

  lemma SpanSpacesOne(t: string)
    requires |t| >= 2 && IsSpace(t[0]) && !IsSpace(t[1])
    ensures SpanSpaces(t) == 1
  {
    assert SpanSpaces(t[1..]) == 0;
  }

  lemma SecondsTextAccepted(second: int, pm: bool)
    requires 0 <= second <= 61
    ensures IsSecondsText(SecondsText(second, pm))
    ensures SecondsRollOver(SecondsText(second, pm)) <==> second >= 60 && pm
  {
    var ss := PadDigits(second, 2);
    var p := if pm then "PM" else "AM";
    SecondsDigitsAccepted(ss, p);
  }

  lemma SecondsDigitsAccepted(ss: string, p: string)
    requires |ss| == 2 && AllDigits(ss) && DigitsValue(ss) <= 61
    requires p == "AM" || p == "PM"
    ensures IsSecondsText(ss + " " + p)
    ensures SecondsRollOver(ss + " " + p) <==> DigitsValue(ss) >= 60 && p == "PM"
  {
    var t := ss + (" " + p);
    assert ss + " " + p == t;
    SpanDigitsAppend(ss, " " + p);
    assert SpanDigits(" " + p) == 0;
    assert t[..2] == ss && t[2..] == " " + p;
    SpanSpacesOne(" " + p);
    assert (" " + p)[1..] == p;
    assert SameIgnoringCase(p, p);
    assert SameIgnoringCase(p, "PM") <==> p == "PM" by {
      assert LowerAscii('A') != LowerAscii('P');
    }
    TwoDigitField(ss, DigitsValue(ss));
  }

  /** A clock part is accepted once its pieces are, and carries over into
      the next day exactly when it is 11.59 PM and a leap second. */
  lemma ClockPieces(t: string, hourText: string, rest: string, minuteText: string, rest2: string)
    requires SpanSpaces(t) == 1
    requires SplitFirst(t[1..], '.') == Some((hourText, rest)) && HourField(hourText).Some?
    requires SplitFirst(rest, '.') == Some((minuteText, rest2)) && MinuteField(minuteText).Some?
    requires IsSecondsText(rest2)
    ensures IsClockText(t)
    ensures ClockRollsOver(t) <==> HourField(hourText) == Some(11) && MinuteField(minuteText) == Some(59)
                                   && SecondsRollOver(rest2)
  {
  }

  /** The clock part of a time stamp, e.g. " 10.00.00 AM", is accepted. */
  lemma ClockTextAccepted(hh: string, mi: string, rest2: string)
    requires |hh| == 2 && AllDigits(hh) && 1 <= DigitsValue(hh) <= 12
    requires |mi| == 2 && AllDigits(mi) && DigitsValue(mi) <= 59
    requires IsSecondsText(rest2)
    ensures IsClockText(" " + hh + "." + mi + "." + rest2)
    ensures ClockRollsOver(" " + hh + "." + mi + "." + rest2)
            <==> DigitsValue(hh) == 11 && DigitsValue(mi) == 59 && SecondsRollOver(rest2)
  {
    var rest := mi + "." + rest2;
    var u := hh + "." + rest;
    var t := " " + u;
    Regroup(" ", hh, ".", mi, ".", rest2);
    DropFirst(" ", u);
    assert t[1] == u[0] == hh[0];
    SpanSpacesOne(t);
    SplitFirstOf(hh, '.', rest);
    SplitFirstOf(mi, '.', rest2);
    TwoDigitField(hh, DigitsValue(hh));
    TwoDigitField(mi, DigitsValue(mi));
    ClockPieces(t, hh, rest, mi, rest2);
  }

  /** A time stamp is read as the day its pieces name, or the day after
      when its clock carries over. */
  lemma StampPieces(s: string, dayText: string, rest: string, day: int, month: int)
    requires SplitFirst(s, '-') == Some((dayText, rest))
    requires |rest| >= 8 && rest[3] == '-' && AllDigits(rest[4..8])
    requires DayField(dayText) == Some(day) && MonthField(rest[..3]) == Some(month)
    requires IsClockText(rest[8..])
    requires ValidDate(Date(DigitsValue(rest[4..8]), month, day))
    ensures ParseStamp(s) == if ClockRollsOver(rest[8..]) then NextDay(Date(DigitsValue(rest[4..8]), month, day))
                             else Some(Date(DigitsValue(rest[4..8]), month, day))
  {
  }

  /** A two-digit day, a month abbreviation and a four-digit year naming a
      real day, followed by an accepted clock part, are read as that day,
      or as the day after when the clock carries over. */
  lemma StampAccepted(dd: string, month: int, yyyy: string, clock: string)
    requires |dd| == 2 && AllDigits(dd) && |yyyy| == 4 && AllDigits(yyyy) && 1 <= month <= 12
    requires ValidDate(Date(DigitsValue(yyyy), month, DigitsValue(dd)))
    requires IsClockText(clock)
    ensures ParseStamp(dd + "-" + Abbreviation(month) + "-" + yyyy + clock)
            == if ClockRollsOver(clock) then NextDay(Date(DigitsValue(yyyy), month, DigitsValue(dd)))
               else Some(Date(DigitsValue(yyyy), month, DigitsValue(dd)))
  {
    var mon := Abbreviation(month);
    var rest := mon + "-" + yyyy + clock;
    Regroup(dd, "-", mon, "-", yyyy, clock);
    SplitFirstOf(dd, '-', rest);
    FourPieces(mon, "-", yyyy, clock);
    MonthFieldOf(month);
    TwoDigitField(dd, DigitsValue(dd));
    StampPieces(dd + "-" + rest, dd, rest, DigitsValue(dd), month);
  }

  /** A stamp of the format whose day does not exist in its month is not
      read. */
  lemma StampRejected(dd: string, month: int, yyyy: string, clock: string)
    requires |dd| == 2 && AllDigits(dd) && |yyyy| == 4 && AllDigits(yyyy) && 1 <= month <= 12
    requires !ValidDate(Date(DigitsValue(yyyy), month, DigitsValue(dd)))
    requires IsClockText(clock)
    ensures ParseStamp(dd + "-" + Abbreviation(month) + "-" + yyyy + clock) == None
  {
    var mon := Abbreviation(month);
    var rest := mon + "-" + yyyy + clock;
    Regroup(dd, "-", mon, "-", yyyy, clock);
    SplitFirstOf(dd, '-', rest);
    FourPieces(mon, "-", yyyy, clock);
    MonthFieldOf(month);
    TwoDigitField(dd, DigitsValue(dd));
  }

  /** The four fields of a stamp read, and `d` is the day they name (the
      next one when the clock passes midnight). */
  predicate FieldsName(dayText: string, monthText: string, yearText: string, clock: string, d: Date) {
    DayField(dayText).Some? && MonthField(monthText).Some? && AllDigits(yearText) && IsClockText(clock)
    && var named := Date(DigitsValue(yearText), MonthField(monthText).value, DayField(dayText).value);
       ValidDate(named) && if ClockRollsOver(clock) then NextDay(named) == Some(d) else d == named
  }

  /** `s` is a stamp of the format whose first '-' is at `i`, naming `d`. */
  predicate StampAt(s: string, i: int, d: Date) {
    0 <= i && i + 9 <= |s| && s[i] == '-' && s[i + 4] == '-'
    && FieldsName(s[..i], s[i + 1..i + 4], s[i + 5..i + 9], s[i + 9..], d)
  }

  /** A day field holds no '-'. */
  lemma DayFieldNoDash(t: string)
    requires DayField(t).Some?
    ensures '-' !in t
  {
    assert !IsDigit('-');
  }

  /** When a day field is followed by '-', that '-' is the first one. */
  lemma DayFieldSplit(s: string, i: int)
    requires 0 <= i < |s| && s[i] == '-' && DayField(s[..i]).Some?
    ensures SplitFirst(s, '-') == Some((s[..i], s[i + 1..]))
  {
    DayFieldNoDash(s[..i]);
    assert s == s[..i] + "-" + s[i + 1..];
    SplitFirstOf(s[..i], '-', s[i + 1..]);
  }

  /** Once the first '-' is found, the reader gives `d` exactly when the
      fields after it are laid out as the format says and name `d`. */
  lemma RestNames(s: string, dayText: string, rest: string, d: Date)
    requires SplitFirst(s, '-') == Some((dayText, rest))
    ensures ParseStamp(s) == Some(d)
            <==> |rest| >= 8 && rest[3] == '-' && FieldsName(dayText, rest[..3], rest[4..8], rest[8..], d)
  {
  }

  /** The fields after the first '-' at `i`, as slices of the text. */
  lemma StampSlices(s: string, i: int)
    requires 0 <= i && i + 9 <= |s|
    ensures s[i + 1..][..3] == s[i + 1..i + 4] && s[i + 1..][3] == s[i + 4]
    ensures s[i + 1..][4..8] == s[i + 5..i + 9] && s[i + 1..][8..] == s[i + 9..]
  {
  }

  /** A text laid out as `StampAt` says is read as the day it names. */
  lemma StampAtParses(s: string, i: int, d: Date)
    requires StampAt(s, i, d)
    ensures ParseStamp(s) == Some(d)
  {
    DayFieldSplit(s, i);
    StampSlices(s, i);
    RestNames(s, s[..i], s[i + 1..], d);
  }

  /** A day field, '-' and fields that name `d` make a stamp at that '-'. */
  lemma RestStampAt(s: string, dayText: string, rest: string, d: Date)
    requires |dayText| < |s| && s[..|dayText|] == dayText && s[|dayText|] == '-' && s[|dayText| + 1..] == rest
    requires |rest| >= 8 && rest[3] == '-' && FieldsName(dayText, rest[..3], rest[4..8], rest[8..], d)
    ensures StampAt(s, |dayText|, d)
  {
    StampSlices(s, |dayText|);
  }

  /** A text the reader accepts is laid out as `StampAt` says, with its
      first '-' after the day field. */
  lemma ParsesStampAt(s: string, d: Date)
    requires ParseStamp(s) == Some(d)
    ensures SplitFirst(s, '-').Some? && StampAt(s, |SplitFirst(s, '-').value.0|, d)
  {
    var (dayText, rest) := SplitFirst(s, '-').value;
    RestNames(s, dayText, rest, d);
    AroundOne(s, dayText, '-', rest);
    RestStampAt(s, dayText, rest, d);
  }

  /** The reader gives a day exactly for the texts laid out as the format
      says, and the day it gives is the one they name. */
  lemma ParseStampShape(s: string, d: Date)
    ensures ParseStamp(s) == Some(d) <==> exists i :: StampAt(s, i, d)
  {
    if exists i :: StampAt(s, i, d) {
      var i :| StampAt(s, i, d);
      StampAtParses(s, i, d);
    }
    if ParseStamp(s) == Some(d) {
      ParsesStampAt(s, d);
    }
  }

  /** Every time stamp of a real day is read back as that day, except
      that 11.59.60 PM and 11.59.61 PM carry over into the day after. */
  lemma ParseStampText(d: Date, hour: int, minute: int, second: int, pm: bool)
    requires ValidDate(d) && 1 <= hour <= 12 && 0 <= minute <= 59 && 0 <= second <= 61
    ensures ParseStamp(StampText(d, hour, minute, second, pm))
            == if hour == 11 && minute == 59 && second >= 60 && pm then NextDay(d) else Some(d)
  {
    SecondsTextAccepted(second, pm);
    ClockTextAccepted(PadDigits(hour, 2), PadDigits(minute, 2), SecondsText(second, pm));
    StampAccepted(PadDigits(d.day, 2), d.month, PadDigits(d.year, 4), ClockText(hour, minute, second, pm));
  }

  // ---------------------------------------------------------------------
  // Writing a day as month, day and year with slashes.

  /** Ten characters "MM/DD/YYYY": digits with slashes at positions 2 and 5. */
  predicate IsDateKey(s: string) {
    |s| == 10 && s[2] == '/' && s[5] == '/'
    && AllDigits(s[..2]) && AllDigits(s[3..5]) && AllDigits(s[6..])
  }

  /** The date as month, day and four-digit year, zero-padded, separated by '/'. */
  function FormatDate(d: Date): (r: string)
    requires ValidDate(d)
    ensures IsDateKey(r)
    ensures DigitsValue(r[..2]) == d.month && DigitsValue(r[3..5]) == d.day
    ensures DigitsValue(r[6..]) == d.year
  {
    var mm, dd, yyyy := PadDigits(d.month, 2), PadDigits(d.day, 2), PadDigits(d.year, 4);
    var r := mm + ("/" + (dd + ("/" + yyyy)));
    assert r[..2] == mm && r[3..5] == dd && r[6..] == yyyy;
    r
  }

  /** Zero-padded numbers of one width compare as text as they do as numbers. */
  lemma {:induction false} PadDigitsLess(x: nat, y: nat, w: nat)
    requires x < Pow10(w) && y < Pow10(w)
    ensures StrLess(PadDigits(x, w), PadDigits(y, w)) <==> x < y
  {
    if w == 0 {
      assert PadDigits(x, w) == [] == PadDigits(y, w);
    } else {
      var a, b := PadDigits(x / 10, w - 1), PadDigits(y / 10, w - 1);
      var dx, dy := DigitChar(x % 10), DigitChar(y % 10);
      PadDigitsLess(x / 10, y / 10, w - 1);
      StrLessAppend(a, [dx], b, [dy]);
      assert StrLess([dx], [dy]) <==> x % 10 < y % 10 by {
        assert [dx][1..] == [] == [dy][1..];
      }
      assert a == b <==> x / 10 == y / 10;
    }
  }

  /** Date keys sort as text by month first, then day, then year: the
      order of the daily charge blocks is not the calendar order across
      the turn of a year. */
  lemma FormatDateOrder(a: Date, b: Date)
    requires ValidDate(a) && ValidDate(b)
    ensures StrLess(FormatDate(a), FormatDate(b))
            <==> a.month < b.month
                 || (a.month == b.month && (a.day < b.day || (a.day == b.day && a.year < b.year)))
  {
    var ma, da, ya := PadDigits(a.month, 2), PadDigits(a.day, 2), PadDigits(a.year, 4);
    var mb, db, yb := PadDigits(b.month, 2), PadDigits(b.day, 2), PadDigits(b.year, 4);
    PadDigitsLess(a.month, b.month, 2);
    PadDigitsLess(a.day, b.day, 2);
    PadDigitsLess(a.year, b.year, 4);
    StrLessAppend(ma, "/" + (da + ("/" + ya)), mb, "/" + (db + ("/" + yb)));
    StrLessAppend("/", da + ("/" + ya), "/", db + ("/" + yb));
    StrLessIrreflexive("/");
    StrLessAppend(da, "/" + ya, db, "/" + yb);
    StrLessAppend("/", ya, "/", yb);
    assert ma == mb <==> a.month == b.month;
    assert da == db <==> a.day == b.day;
  }
}
