/** Twelve-hour clock text (`getval`), its parser (`get24Hr`) and the weekly
    validation-email window built on them (`isTodayWednesday`,
    `isToSendRequestForValidationEmail`). The clock reading is a parameter. */
module ClockTime {
  import opened Wrappers
  import opened Decimal

  /** White space as JavaScript's `\s` sees it: the WhiteSpace and LineTerminator characters. */
  predicate IsWhiteSpace(c: char) {
    || c == '\t' || c == '\n' || c == '\U{000B}' || c == '\U{000C}' || c == '\r' || c == ' '
    || c == '\U{00A0}' || c == '\U{1680}' || ('\U{2000}' <= c <= '\U{200A}')
    || c == '\U{2028}' || c == '\U{2029}' || c == '\U{202F}' || c == '\U{205F}'
    || c == '\U{3000}' || c == '\U{FEFF}'
  }

  /** The characters a regular-expression `.` does not match. */
  predicate IsLineTerminator(c: char) {
    c == '\n' || c == '\r' || c == '\U{2028}' || c == '\U{2029}'
  }

  predicate NoLineTerminator(s: string) {
    |s| == 0 || (!IsLineTerminator(s[0]) && NoLineTerminator(s[1..]))
  }

  /** Position `j` is where `\s(.*)$` can match: a white space whose rest of line reaches the end. */
  predicate SuffixMatchAt(t: string, j: int)
    requires 0 <= j < |t|
  {
    IsWhiteSpace(t[j]) && NoLineTerminator(t[j + 1..])
  }

  /** Position `j` is where `:(\d+)` can match. */
  predicate ColonDigitsAt(t: string, j: int)
    requires 0 <= j < |t|
  {
    t[j] == ':' && j + 1 < |t| && IsDigit(t[j + 1])
  }

  /** The maximal run of digits at the front of `t`: the capture of `^(\d+)` when non-empty. */
  function LeadingDigits(t: string): (d: string)
    ensures d <= t && AllDigits(d)
    ensures |d| < |t| ==> !IsDigit(t[|d|])
  {
    if |t| > 0 && IsDigit(t[0]) then [t[0]] + LeadingDigits(t[1..]) else []
  }

  /** The capture of `\s(.*)$`, searching from position `i`: a proper suffix of `t`. */
  function SuffixFrom(t: string, i: nat): (r: Option<string>)
    requires i <= |t|
    ensures r.Some? ==> |r.value| < |t| - i && r.value == t[|t| - |r.value|..]
    decreases |t| - i
  {
    if i == |t| then None
    else if SuffixMatchAt(t, i) then Some(t[i + 1..])
    else SuffixFrom(t, i + 1)
  }

  /** The capture of `:(\d+)`, searching from position `i`: a non-empty run of digits. */
  function ColonDigitsFrom(t: string, i: nat): (r: Option<string>)
    requires i <= |t|
    ensures r.Some? ==> 0 < |r.value| && AllDigits(r.value)
    decreases |t| - i
  {
    if i == |t| then None
    else if ColonDigitsAt(t, i) then Some(LeadingDigits(t[i + 1..]))
    else ColonDigitsFrom(t, i + 1)
  }

  /** `\s(.*)$` fails exactly when no position from `i` on can match. */
  lemma {:induction false} SuffixFromFails(t: string, i: nat)
    requires i <= |t|
    ensures SuffixFrom(t, i).None? <==> forall j :: i <= j < |t| ==> !SuffixMatchAt(t, j)
    decreases |t| - i
  {
    if i < |t| && !SuffixMatchAt(t, i) {
      SuffixFromFails(t, i + 1);
    }
  }

  /** The leftmost position `j` where `\s(.*)$` matches decides the capture. */
  lemma {:induction false} SuffixFromLeftmost(t: string, i: nat, j: nat)
    requires i <= j < |t| && SuffixMatchAt(t, j)
    requires forall k :: i <= k < j ==> !SuffixMatchAt(t, k)
    ensures SuffixFrom(t, i).Some? && SuffixFrom(t, i).value == t[j + 1..]
    decreases j - i
  {
    if i < j {
      SuffixFromLeftmost(t, i + 1, j);
    }
  }

  /** `:(\d+)` fails exactly when no position from `i` on can match. */
  lemma {:induction false} ColonDigitsFromFails(t: string, i: nat)
    requires i <= |t|
    ensures ColonDigitsFrom(t, i).None? <==> forall j :: i <= j < |t| ==> !ColonDigitsAt(t, j)
    decreases |t| - i
  {
    if i < |t| && !ColonDigitsAt(t, i) {
      ColonDigitsFromFails(t, i + 1);
    }
  }

  /** The leftmost position `j` where `:(\d+)` matches decides the capture. */
  lemma {:induction false} ColonDigitsFromLeftmost(t: string, i: nat, j: nat)
    requires i <= j < |t| && ColonDigitsAt(t, j)
    requires forall k :: i <= k < j ==> !ColonDigitsAt(t, k)
    ensures ColonDigitsFrom(t, i).Some? && ColonDigitsFrom(t, i).value == LeadingDigits(t[j + 1..])
    decreases j - i
  {
    if i < j {
      ColonDigitsFromLeftmost(t, i + 1, j);
    }
  }

  /** The two adjustments `get24Hr` applies to the parsed hour for the "PM" and "AM" markers:
      a clock-face hour 1..12 becomes the 24-hour hour, any other marker leaves it alone. */
  function To24Hour(hours: nat, ampm: string): (h: nat)
    ensures 1 <= hours <= 12 && (ampm == "AM" || ampm == "PM") ==>
              h < 24 && h % 12 == hours % 12 && (h >= 12 <==> ampm == "PM")
    ensures ampm != "AM" && ampm != "PM" ==> h == hours
  {
    var h := if ampm == "PM" && hours < 12 then hours + 12 else hours;
    if ampm == "AM" && h == 12 then h - 12 else h
  }

  /** `get24Hr`: the clock text as the integer HHMM; `None` where a regular expression
      finds no match and the source throws. */
  function Get24Hr(t: string): (r: Option<nat>)
    ensures r.Some? ==> |t| > 0 && IsDigit(t[0])
  {
    var hourDigits := LeadingDigits(t);
    var ampm := SuffixFrom(t, 0);
    var minuteDigits := ColonDigitsFrom(t, 0);
    if |hourDigits| == 0 || ampm.None? || minuteDigits.None? then None
    else Some(To24Hour(DecimalValue(hourDigits), ampm.value) * 100 + DecimalValue(minuteDigits.value))
  }

  /** The hour shown on a twelve-hour clock face: midnight and noon both read 12. */
  function TwelveHour(hours: int): (h: nat)
    requires 0 <= hours < 24
    ensures 1 <= h <= 12
    ensures h % 12 == hours % 12
  {
    var h := if hours >= 12 then hours - 12 else hours;
    if h == 0 then 12 else h
  }

  /** The "AM"/"PM" marker `getval` prints. */
  function Meridiem(hours: int): (m: string)
    ensures m == "AM" || m == "PM"
    ensures m == "PM" <==> hours >= 12
  {
    if hours >= 12 then "PM" else "AM"
  }

  /** The clock face and its marker determine the 24-hour hour: `get24Hr`'s adjustments
      undo `getval`'s. */
  lemma ClockFaceRoundTrip(hours: int)
    requires 0 <= hours < 24
    ensures To24Hour(TwelveHour(hours), Meridiem(hours)) == hours
  {
  }

  /** `getval`: the clock reading as "H:MM AM" or "H:MM PM". */
  function Getval(hours: int, minutes: int): (t: string)
    requires 0 <= hours < 24 && 0 <= minutes < 60
    ensures 7 <= |t| <= 8
    ensures AllDigits(t[..|t| - 6]) && 1 <= DecimalValue(t[..|t| - 6]) <= 12
    ensures DecimalValue(t[..|t| - 6]) % 12 == hours % 12
    ensures t[|t| - 6] == ':' && t[|t| - 3] == ' '
    ensures AllDigits(t[|t| - 5..|t| - 3]) && DecimalValue(t[|t| - 5..|t| - 3]) == minutes
    ensures t[|t| - 2..] == (if hours >= 12 then "PM" else "AM")
    ensures t[0] != '0'
  {
    var hh := NatToDecimal(TwelveHour(hours));
    var t := hh + ":" + ZeroPad2(minutes) + " " + Meridiem(hours);
    assert t[..|t| - 6] == hh && t[0] == hh[0];
    assert t[|t| - 5..|t| - 3] == ZeroPad2(minutes);
    t
  }

  /** The digit run at the front stops at the first non-digit. */
  lemma {:induction false} LeadingDigitsStop(t: string, n: nat)
    requires n < |t| && AllDigits(t[..n]) && !IsDigit(t[n])
    ensures LeadingDigits(t) == t[..n]
  {
    if n > 0 {
      assert t[1..][..n - 1] == t[1..n];
      LeadingDigitsStop(t[1..], n - 1);
      assert t[..n] == [t[0]] + t[1..n];
    }
  }

  /** In "<digits>:<digits> <marker>" the leftmost `\s(.*)$` match is the space before the marker. */
  lemma SuffixOfClockText(hh: string, mm: string, ampm: string)
    requires AllDigits(hh) && AllDigits(mm) && NoLineTerminator(ampm)
    ensures SuffixFrom(hh + ":" + mm + " " + ampm, 0).Some?
    ensures SuffixFrom(hh + ":" + mm + " " + ampm, 0).value == ampm
  {
    var t := hh + ":" + mm + " " + ampm;
    var space := |hh| + 1 + |mm|;
    assert t[space] == ' ';
    assert t[space + 1..] == ampm;
    assert SuffixMatchAt(t, space);
    forall k | 0 <= k < space
      ensures !SuffixMatchAt(t, k)
    {
      if k < |hh| {
        assert t[k] == hh[k];
      } else if k > |hh| {
        assert t[k] == mm[k - |hh| - 1];
      }
    }
    SuffixFromLeftmost(t, 0, space);
  }

  /** In "<digits>:<digits> <marker>" the leftmost `:(\d+)` match captures the minute digits. */
  lemma ColonDigitsOfClockText(hh: string, mm: string, ampm: string)
    requires AllDigits(hh) && 0 < |mm| && AllDigits(mm)
    ensures ColonDigitsFrom(hh + ":" + mm + " " + ampm, 0).Some?
    ensures ColonDigitsFrom(hh + ":" + mm + " " + ampm, 0).value == mm
  {
    var t := hh + ":" + mm + " " + ampm;
    var colon := |hh|;
    assert t[colon] == ':' && t[colon + 1] == mm[0];
    assert ColonDigitsAt(t, colon);
    forall k | 0 <= k < colon
      ensures !ColonDigitsAt(t, k)
    {
      assert t[k] == hh[k];
    }
    ColonDigitsFromLeftmost(t, 0, colon);
    var rest := t[colon + 1..];
    assert rest[..|mm|] == mm && rest[|mm|] == ' ';
    LeadingDigitsStop(rest, |mm|);
  }

  /** Any text shaped "<digits>:<digits> <marker>" parses to the hour adjusted by the
      marker times 100 plus the minutes, provided the marker stays on one line. */
  lemma ParseClockText(hh: string, mm: string, ampm: string)
    requires 0 < |hh| && AllDigits(hh) && 0 < |mm| && AllDigits(mm)
    requires NoLineTerminator(ampm)
    ensures Get24Hr(hh + ":" + mm + " " + ampm).Some?
    ensures Get24Hr(hh + ":" + mm + " " + ampm).value == To24Hour(DecimalValue(hh), ampm) * 100 + DecimalValue(mm)
  {
    var t := hh + ":" + mm + " " + ampm;
    assert t[..|hh|] == hh && t[|hh|] == ':';
    LeadingDigitsStop(t, |hh|);
    SuffixOfClockText(hh, mm, ampm);
    ColonDigitsOfClockText(hh, mm, ampm);
    Get24HrOfParts(t, hh, ampm, mm);
  }

  lemma Get24HrOfParts(t: string, hh: string, ampm: string, mm: string)
    requires 0 < |hh| && AllDigits(hh) && AllDigits(mm)
    requires LeadingDigits(t) == hh
    requires SuffixFrom(t, 0).Some? && SuffixFrom(t, 0).value == ampm
    requires ColonDigitsFrom(t, 0).Some? && ColonDigitsFrom(t, 0).value == mm
    ensures Get24Hr(t).Some?
    ensures Get24Hr(t).value == To24Hour(DecimalValue(hh), ampm) * 100 + DecimalValue(mm)
  {
    assert Get24Hr(t).Some?;
    var h := DecimalValue(hh);
    var m := DecimalValue(mm);
    assert Get24Hr(t).value == To24Hour(h, ampm) * 100 + m;
  }

  /** `get24Hr(getval(h, m))` recovers the 24-hour reading HHMM for every clock time. */
  lemma GetvalRoundTrip(hours: int, minutes: int)
    requires 0 <= hours < 24 && 0 <= minutes < 60
    ensures Get24Hr(Getval(hours, minutes)).Some?
    ensures Get24Hr(Getval(hours, minutes)).value == 100 * hours + minutes
  {
    var hh := NatToDecimal(TwelveHour(hours));
    ParseClockText(hh, ZeroPad2(minutes), Meridiem(hours));
  }

  /** Midnight shows "12:MM AM" and reads back as MM. */
  lemma Midnight(minutes: int)
    requires 0 <= minutes < 60
    ensures Getval(0, minutes) == "12:" + ZeroPad2(minutes) + " AM"
    ensures Get24Hr(Getval(0, minutes)).Some? && Get24Hr(Getval(0, minutes)).value == minutes
  {
    assert TwelveHour(0) == 12 && Meridiem(0) == "AM";
    assert NatToDecimal(12) == "12";
    GetvalRoundTrip(0, minutes);
  }

  /** Noon shows "12:MM PM" and reads back as 1200 + MM. */
  lemma Noon(minutes: int)
    requires 0 <= minutes < 60
    ensures Getval(12, minutes) == "12:" + ZeroPad2(minutes) + " PM"
    ensures Get24Hr(Getval(12, minutes)).Some? && Get24Hr(Getval(12, minutes)).value == 1200 + minutes
  {
    assert TwelveHour(12) == 12 && Meridiem(12) == "PM";
    assert NatToDecimal(12) == "12";
    GetvalRoundTrip(12, minutes);
  }

  /** The day names in `getDay` numbering: Sunday is 0. */
  function DayName(weekday: int): string
    requires 0 <= weekday < 7
  {
    ["Sunday", "Monday", "Tuesday", "Wednesday", "Thursday", "Friday", "Saturday"][weekday]
  }

  /** `isTodayWednesday`: the weekday number `getDay` returns is Wednesday's. */
  function IsTodayWednesday(weekday: int): (r: bool)
    requires 0 <= weekday < 7
    ensures r <==> DayName(weekday) == "Wednesday"
  {
    weekday == 3
  }

  /** `isToSendRequestForValidationEmail` for a clock reading `weekday`, `hours`, `minutes`
      and the job window `startTime`..`endTime`. The `&&` chain short-circuits, so a
      malformed window text only throws (`None`) when the parse is actually reached. */
  function IsToSendRequestForValidationEmail(weekday: int, hours: int, minutes: int,
                                             startTime: string, endTime: string): (r: Option<bool>)
    requires 0 <= weekday < 7 && 0 <= hours < 24 && 0 <= minutes < 60
    ensures weekday != 3 ==> r == Some(false)
    ensures r == Some(true) <==>
              weekday == 3 && Get24Hr(startTime).Some? && Get24Hr(endTime).Some?
              && Get24Hr(startTime).value < 100 * hours + minutes < Get24Hr(endTime).value
    ensures r.None? <==>
              weekday == 3 && (Get24Hr(startTime).None?
                               || (Get24Hr(startTime).value < 100 * hours + minutes && Get24Hr(endTime).None?))
  {
    if !IsTodayWednesday(weekday) then Some(false)
    else
      GetvalRoundTrip(hours, minutes);
      var current := Get24Hr(Getval(hours, minutes));
      match (current, Get24Hr(startTime))
      case (Some(now), Some(start)) =>
        if !(now > start) then Some(false)
        else (
          match Get24Hr(endTime)
          case Some(end) => Some(now < end)
          case None => None)
      case _ => None
  }

  /** The job-window texts are what `getval` prints at 22:45 and 23:15, so they read
      back as 2245 and 2315. */
  lemma JobWindowStart()
    ensures Get24Hr("10:45 PM").Some? && Get24Hr("10:45 PM").value == 2245
  {
    assert NatToDecimal(10) == "10";
    assert ZeroPad2(45) == "45";
    assert Getval(22, 45) == "10:45 PM";
    GetvalRoundTrip(22, 45);
  }

  lemma JobWindowEnd()
    ensures Get24Hr("11:15 PM").Some? && Get24Hr("11:15 PM").value == 2315
  {
    assert NatToDecimal(11) == "11";
    assert ZeroPad2(15) == "15";
    assert Getval(23, 15) == "11:15 PM";
    GetvalRoundTrip(23, 15);
  }

  /** With the window the job comment gives in GMT outside daylight saving, 10:45 PM to
      11:15 PM, the decision is "Wednesday and strictly between 2245 and 2315". */
  lemma JobValidationWindow(weekday: int, hours: int, minutes: int, startTime: string, endTime: string)
    requires 0 <= weekday < 7 && 0 <= hours < 24 && 0 <= minutes < 60
    requires startTime == "10:45 PM" && endTime == "11:15 PM"
    ensures IsToSendRequestForValidationEmail(weekday, hours, minutes, startTime, endTime).Some?
    ensures IsToSendRequestForValidationEmail(weekday, hours, minutes, startTime, endTime).value
            <==> weekday == 3 && 2245 < 100 * hours + minutes < 2315
  {
    JobWindowStart();
    JobWindowEnd();
  }

  /** 11:00 PM on Wednesday is inside; 10:44 PM is before the window, both endpoints are
      excluded, and 11:00 PM on Thursday is the wrong day. */
  lemma ValidationWindowExamples(startTime: string, endTime: string)
    requires startTime == "10:45 PM" && endTime == "11:15 PM"
    ensures IsToSendRequestForValidationEmail(3, 23, 0, startTime, endTime) == Some(true)
    ensures IsToSendRequestForValidationEmail(3, 22, 44, startTime, endTime) == Some(false)
    ensures IsToSendRequestForValidationEmail(3, 22, 45, startTime, endTime) == Some(false)
    ensures IsToSendRequestForValidationEmail(3, 23, 15, startTime, endTime) == Some(false)
    ensures IsToSendRequestForValidationEmail(4, 23, 0, startTime, endTime) == Some(false)
  {
    JobValidationWindow(3, 23, 0, startTime, endTime);
    JobValidationWindow(3, 22, 44, startTime, endTime);
    JobValidationWindow(3, 22, 45, startTime, endTime);
    JobValidationWindow(3, 23, 15, startTime, endTime);
    JobValidationWindow(4, 23, 0, startTime, endTime);
  }
}
