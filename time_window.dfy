/**
 * The test `inMeeting` hands to `meetings.find`: whether the current hour
 * and minute lie between a record's start and end time, both ends included,
 * and the `find` over the records.
 *
 * `WithinWindow` follows the program as written: the end time's PM marker
 * is read from the start time, and a PM time's hour is its written hour
 * plus 12, so 12 PM reads as hour 24 and 12 AM as hour 12.
 * `WithinWindowIntended` is the conventional reading; the lemmas at the end
 * show where the two part.
 */
module TimeWindow {
  import opened Wrappers
  import opened Text
  import opened Patterns
  import opened MeetingParser

  /** An hour and a minute: the current ones, or those read from a time text. */
  datatype Clock = Clock(hour: int, minute: int)

  /** What `getHours()` and `getMinutes()` return. */
  predicate IsWallClock(c: Clock)
  {
    0 <= c.hour < 24 && 0 <= c.minute < 60
  }

  /** The TypeError thrown by `m.startTime.includes` or `m.endTime.match` when that time is undefined. */
  datatype Failure = StartTimeUndefined | EndTimeUndefined

  /** `a` is no later than `b`: an earlier hour, or the same hour and no later minute. */
  predicate NotAfter(a: Clock, b: Clock)
  {
    a.hour < b.hour || (a.hour == b.hour && a.minute <= b.minute)
  }

  function MinuteOfDay(c: Clock): int
  {
    60 * c.hour + c.minute
  }

  /** On clocks whose minutes are below 60, `NotAfter` orders them by minute of the day. */
  lemma NotAfterByMinuteOfDay(a: Clock, b: Clock)
    requires 0 <= a.minute < 60 && 0 <= b.minute < 60
    ensures NotAfter(a, b) <==> MinuteOfDay(a) <= MinuteOfDay(b)
  {
    if a.hour < b.hour {
      assert MinuteOfDay(a) < 60 * (a.hour + 1) <= MinuteOfDay(b);
    } else if a.hour > b.hour {
      assert MinuteOfDay(b) < 60 * (b.hour + 1) <= MinuteOfDay(a);
    }
  }

  /** Both times were read, and `now` lies between them, both ends included. */
  predicate Between(start: Option<Clock>, now: Clock, end: Option<Clock>)
  {
    start.Some? && end.Some? && NotAfter(start.value, now) && NotAfter(now, end.value)
  }

  /** `x.includes("PM")`. */
  function IsPm(t: string): bool
  {
    Includes(t, "PM")
  }

  /** The hour as the program computes it: the written hour, plus 12 when the PM flag is set. */
  function AsWrittenHour(h: int, pm: bool): int
  {
    h + if pm then 12 else 0
  }

  /**
   * `Number(x[1]) + (pm ? 12 : 0)` and `Number(x[2])` for `x` the match of
   * TIME_REGEX in `t`; `None` when there is no match, where `Number` of the
   * missing capture is NaN.
   */
  function ReadTime(t: string, pm: bool): (r: Option<Clock>)
    ensures r.Some? <==> FindClock(t).Some?
    ensures r.Some? ==> r.value.minute >= 0 && r.value.hour >= (if pm then 12 else 0)
  {
    match FindClock(t)
    case None => None
    case Some((h, m)) => Some(Clock(AsWrittenHour(DecimalValue(h), pm), DecimalValue(m)))
  }

  /** A text that starts with `h:m` and goes on with a non-digit is read as hour `h` and minute `m`. */
  lemma ReadTimeAtStart(h: string, m: string, rest: string, pm: bool)
    requires h != [] && m != [] && AllDigits(h) && AllDigits(m)
    requires rest == [] || !IsDigit(rest[0])
    ensures ReadTime(h + ":" + m + rest, pm) == Some(Clock(AsWrittenHour(DecimalValue(h), pm), DecimalValue(m)))
  {
    FindClockAtStart(h, m, rest);
  }

  /**
   * The callback of `meetings.find`, as written. It fails when the start
   * time is undefined, and otherwise when the end time is; it holds when
   * both times are read and `now` lies between them, the end's PM flag
   * being that of the start time.
   */
  function WithinWindow(m: Meeting, now: Clock): (r: Result<bool, Failure>)
    ensures m.startTime.None? ==> r == Err(StartTimeUndefined)
    ensures m.startTime.Some? && m.endTime.None? ==> r == Err(EndTimeUndefined)
    ensures m.startTime.Some? && m.endTime.Some? ==>
              var pm := IsPm(m.startTime.value);
              r == Ok(Between(ReadTime(m.startTime.value, pm), now, ReadTime(m.endTime.value, pm)))
  {
    match m.startTime
    case None => Err(StartTimeUndefined)
    case Some(startTime) =>
      var start := ReadTime(startTime, IsPm(startTime));
      var isAfterStart := start.Some? && start.value.hour <= now.hour
                          && (start.value.hour != now.hour || start.value.minute <= now.minute);
      var isEndPm := IsPm(startTime);
      match m.endTime
      case None => Err(EndTimeUndefined)
      case Some(endTime) =>
        var end := ReadTime(endTime, isEndPm);
        var isBeforeEnd := end.Some? && now.hour <= end.value.hour
                           && (end.value.hour != now.hour || now.minute <= end.value.minute);
        Ok(isAfterStart && isBeforeEnd)
  }

  /** `i` is the first record whose test does not answer false. */
  predicate FirstDecisive(ms: seq<Meeting>, now: Clock, i: int)
  {
    0 <= i < |ms| && WithinWindow(ms[i], now) != Ok(false)
    && forall j :: 0 <= j < i ==> WithinWindow(ms[j], now) == Ok(false)
  }

  /**
   * `Boolean(meetings.find(...))`: the records are tested in order until one
   * answers true or throws. Every record answering false gives false;
   * otherwise the answer is that of the first record that does not answer
   * false.
   */
  function InMeeting(ms: seq<Meeting>, now: Clock): (r: Result<bool, Failure>)
    ensures r == Ok(false) <==> forall i :: 0 <= i < |ms| ==> WithinWindow(ms[i], now) == Ok(false)
    ensures r != Ok(false) ==> exists i :: FirstDecisive(ms, now, i) && r == WithinWindow(ms[i], now)
    decreases |ms|
  {
    if ms == [] then Ok(false)
    else
      var r0 := WithinWindow(ms[0], now);
      if r0 != Ok(false) then
        assert FirstDecisive(ms, now, 0);
        r0
      else
        var r := InMeeting(ms[1..], now);
        assert forall i :: 1 <= i < |ms| ==> ms[i] == ms[1..][i - 1];
        assert r != Ok(false) ==> exists i :: FirstDecisive(ms, now, i) && r == WithinWindow(ms[i], now) by {
          if r != Ok(false) {
            var i :| FirstDecisive(ms[1..], now, i) && r == WithinWindow(ms[1..][i], now);
            assert FirstDecisive(ms, now, i + 1);
          }
        }
        r
  }

  /** A record that answers true decides the search unless an earlier one answers true or throws. */
  lemma InMeetingWhenSomeMatches(ms: seq<Meeting>, now: Clock, k: int)
    requires 0 <= k < |ms| && WithinWindow(ms[k], now) == Ok(true)
    requires forall j :: 0 <= j < k ==> WithinWindow(ms[j], now).Ok?
    ensures InMeeting(ms, now) == Ok(true)
  {
    var r := InMeeting(ms, now);
    assert r != Ok(false);
    var i :| FirstDecisive(ms, now, i) && r == WithinWindow(ms[i], now);
    assert i <= k;
    assert WithinWindow(ms[i], now).Ok?;
  }

  // ---------------------------------------------------------------------
  // The records parseMeetings returns
  // ---------------------------------------------------------------------

  /** The hour and minute digits of a time text of the shape `\d+:\d+ [A|P]M`. */
  lemma ReadTimeOfDay(t: string, pm: bool)
    requires IsTimeOfDay(t)
    ensures ReadTime(t, pm).Some?
    ensures FindClock(t).Some?
    ensures ReadTime(t, pm).value
            == Clock(AsWrittenHour(DecimalValue(FindClock(t).value.0), pm), DecimalValue(FindClock(t).value.1))
  {
    FindClockOfTimeOfDay(t);
  }

  /**
   * On a parsed record the test never fails for a missing end time, and
   * when the record has times both are read: the test answers whether `now`
   * lies between them, with no NaN involved.
   */
  lemma ParsedRecordWindow(output: string, k: int, now: Clock)
    requires 0 <= k < |Meetings(output)|
    ensures WithinWindow(Meetings(output)[k], now) != Err(EndTimeUndefined)
    ensures var m := Meetings(output)[k];
            m.startTime.Some? ==>
              m.endTime.Some?
              && ReadTime(m.startTime.value, IsPm(m.startTime.value)).Some?
              && ReadTime(m.endTime.value, IsPm(m.startTime.value)).Some?
  {
    MeetingTimesWellFormed(output);
    var m := Meetings(output)[k];
    if m.startTime.Some? {
      ReadTimeOfDay(m.startTime.value, IsPm(m.startTime.value));
      ReadTimeOfDay(m.endTime.value, IsPm(m.startTime.value));
    }
  }

  /**
   * Over parsed records the search fails only when it reaches, before any
   * match, a record that has no time range line.
   */
  lemma InMeetingOfParsed(output: string, now: Clock)
    ensures InMeeting(Meetings(output), now) != Err(EndTimeUndefined)
    ensures InMeeting(Meetings(output), now) == Err(StartTimeUndefined) <==>
              exists i :: FirstDecisive(Meetings(output), now, i) && Meetings(output)[i].startTime.None?
  {
    var ms := Meetings(output);
    var r := InMeeting(ms, now);
    if r != Ok(false) {
      var i :| FirstDecisive(ms, now, i) && r == WithinWindow(ms[i], now);
      ParsedRecordWindow(output, i, now);
      forall j | FirstDecisive(ms, now, j) ensures j == i {
      }
    }
  }

  // ---------------------------------------------------------------------
  // The conventional reading of 12-hour times
  // ---------------------------------------------------------------------

  /** The 24-hour hour of a 12-hour time: 12 AM is hour 0 and 12 PM is hour 12. */
  function To24Hour(h: int, pm: bool): int
  {
    if h == 12 then (if pm then 12 else 0) else h + (if pm then 12 else 0)
  }

  /**
   * For a written hour from 1 to 12, the 24-hour hour is a valid hour, it
   * agrees with the written one modulo 12, and it is in the afternoon
   * exactly when the time is PM.
   */
  lemma To24HourSpec(h: int, pm: bool)
    requires 1 <= h <= 12
    ensures 0 <= To24Hour(h, pm) < 24
    ensures To24Hour(h, pm) % 12 == h % 12
    ensures To24Hour(h, pm) >= 12 <==> pm
  {
  }

  /** Every hour of the day is the reading of exactly one 12-hour time. */
  lemma To24HourOneToOne(h1: int, pm1: bool, h2: int, pm2: bool)
    requires 1 <= h1 <= 12 && 1 <= h2 <= 12
    requires To24Hour(h1, pm1) == To24Hour(h2, pm2)
    ensures h1 == h2 && pm1 == pm2
  {
  }

  /** The written hour plus 12 agrees with the conventional reading except at hour 12. */
  lemma AsWrittenHourDiffers(h: int, pm: bool)
    ensures AsWrittenHour(h, pm) == To24Hour(h, pm) <==> h != 12
  {
  }

  /** The conventional reading of a time text, with its own PM marker. */
  function ReadTimeIntended(t: string): (r: Option<Clock>)
    ensures r.Some? <==> FindClock(t).Some?
  {
    match FindClock(t)
    case None => None
    case Some((h, m)) => Some(Clock(To24Hour(DecimalValue(h), IsPm(t)), DecimalValue(m)))
  }

  /**
   * The test as evidently intended: each time is read with its own marker
   * and 12 o'clock is read conventionally. It fails in the same cases as
   * the test as written.
   */
  function WithinWindowIntended(m: Meeting, now: Clock): (r: Result<bool, Failure>)
    ensures m.startTime.None? ==> r == Err(StartTimeUndefined)
    ensures m.startTime.Some? && m.endTime.None? ==> r == Err(EndTimeUndefined)
  {
    match m.startTime
    case None => Err(StartTimeUndefined)
    case Some(startTime) =>
      match m.endTime
      case None => Err(EndTimeUndefined)
      case Some(endTime) => Ok(Between(ReadTimeIntended(startTime), now, ReadTimeIntended(endTime)))
  }

  /**
   * `c` is the 24-hour reading of the 12-hour time text `t`: an hour from 1
   * to 12 and a minute below 60 are written, and `c` is the hour of the day
   * that agrees with the written one modulo 12 and is in the afternoon
   * exactly when `t` says PM.
   */
  predicate Reads12(t: string, c: Clock)
  {
    match FindClock(t)
    case None => false
    case Some((h, m)) =>
      1 <= DecimalValue(h) <= 12 && DecimalValue(m) < 60 && 0 <= c.hour < 24
      && c.hour % 12 == DecimalValue(h) % 12 && (c.hour >= 12 <==> IsPm(t))
      && c.minute == DecimalValue(m)
  }

  /**
   * The intended test answers whether the current minute of the day lies
   * between those of the start and the end, read as 24-hour times.
   */
  lemma IntendedWindowSpec(m: Meeting, now: Clock, s: Clock, e: Clock)
    requires IsWallClock(now)
    requires m.startTime.Some? && m.endTime.Some?
    requires Reads12(m.startTime.value, s) && Reads12(m.endTime.value, e)
    ensures WithinWindowIntended(m, now)
            == Ok(MinuteOfDay(s) <= MinuteOfDay(now) <= MinuteOfDay(e))
  {
    var (sh, sm) := FindClock(m.startTime.value).value;
    var (eh, em) := FindClock(m.endTime.value).value;
    To24HourSpec(DecimalValue(sh), IsPm(m.startTime.value));
    To24HourSpec(DecimalValue(eh), IsPm(m.endTime.value));
    To24HourOneToOne12(DecimalValue(sh), IsPm(m.startTime.value), s.hour);
    To24HourOneToOne12(DecimalValue(eh), IsPm(m.endTime.value), e.hour);
    assert ReadTimeIntended(m.startTime.value) == Some(s);
    assert ReadTimeIntended(m.endTime.value) == Some(e);
    NotAfterByMinuteOfDay(s, now);
    NotAfterByMinuteOfDay(now, e);
  }

  /** The conventional reading is the one hour of the day with the written hour's residue and half of the day. */
  lemma To24HourOneToOne12(h: int, pm: bool, hour: int)
    requires 1 <= h <= 12 && 0 <= hour < 24
    requires hour % 12 == h % 12 && (hour >= 12 <==> pm)
    ensures To24Hour(h, pm) == hour
  {
  }

  /**
   * Where neither time is at 12 o'clock and both carry the same marker, the
   * test as written and the intended one agree.
   */
  lemma IntendedAgreesElsewhere(m: Meeting, now: Clock)
    requires m.startTime.Some? && m.endTime.Some?
    requires IsPm(m.startTime.value) == IsPm(m.endTime.value)
    requires FindClock(m.startTime.value).Some? ==> DecimalValue(FindClock(m.startTime.value).value.0) != 12
    requires FindClock(m.endTime.value).Some? ==> DecimalValue(FindClock(m.endTime.value).value.0) != 12
    ensures WithinWindow(m, now) == WithinWindowIntended(m, now)
  {
    var pm := IsPm(m.startTime.value);
    assert ReadTime(m.startTime.value, pm) == ReadTimeIntended(m.startTime.value);
    assert ReadTime(m.endTime.value, pm) == ReadTimeIntended(m.endTime.value);
  }

  /** As written, a record starting at 12 PM never matches: its start reads as hour 24. */
  lemma NoonStartNeverMatches(m: Meeting, now: Clock)
    requires IsWallClock(now)
    requires m.startTime.Some? && IsPm(m.startTime.value)
    requires FindClock(m.startTime.value).Some? && DecimalValue(FindClock(m.startTime.value).value.0) == 12
    ensures WithinWindow(m, now) != Ok(true)
  {
  }

  /** A time text `h:m AM` or `h:m PM`: TIME_REGEX captures `h` and `m`, and it includes "PM" only when it says PM. */
  lemma TimeText(h: string, m: string, marker: string)
    requires h != [] && m != [] && AllDigits(h) && AllDigits(m)
    requires marker == "AM" || marker == "PM"
    ensures FindClock(h + ":" + m + " " + marker) == Some((h, m))
    ensures IsPm(h + ":" + m + " " + marker) <==> marker == "PM"
  {
    var t := h + ":" + m + " " + marker;
    assert t == h + ":" + m + (" " + marker);
    FindClockAtStart(h, m, " " + marker);
    var n := |h| + 1 + |m|;
    if marker == "PM" {
      assert OccursAt(t, "PM", n + 1);
    } else {
      forall i | OccursAt(t, "PM", i) ensures false {
      }
    }
  }

  /** The value of one or two written digits. */
  lemma SmallDecimal(d: string)
    requires 1 <= |d| <= 2 && AllDigits(d)
    ensures |d| == 1 ==> DecimalValue(d) == d[0] as int - '0' as int
    ensures |d| == 2 ==> DecimalValue(d) == 10 * (d[0] as int - '0' as int) + (d[1] as int - '0' as int)
  {
    if |d| == 2 {
      assert d[..1][..0] == [];
    } else {
      assert d[..0] == [];
    }
  }

  /** How the program and the conventional reading read the time text `h:m marker`. */
  lemma ReadTimeText(h: string, m: string, marker: string, pm: bool)
    requires 1 <= |h| <= 2 && |m| == 2 && AllDigits(h) && AllDigits(m)
    requires marker == "AM" || marker == "PM"
    ensures IsPm(h + ":" + m + " " + marker) <==> marker == "PM"
    ensures ReadTime(h + ":" + m + " " + marker, pm) == Some(Clock(AsWrittenHour(DecimalValue(h), pm), DecimalValue(m)))
    ensures ReadTimeIntended(h + ":" + m + " " + marker)
            == Some(Clock(To24Hour(DecimalValue(h), marker == "PM"), DecimalValue(m)))
  {
    TimeText(h, m, marker);
  }

  /**
   * Both ends of the window are included: a meeting from 10:00 AM to 11:00 AM
   * matches at 10:00 and at 11:00, and not at 9:59 or at 11:01.
   */
  lemma WindowEndsIncluded(start: string, end: string)
    requires start == "10:00 AM" && end == "11:00 AM"
    ensures var m := Meeting("Sync", None, Some(start), Some(end));
            WithinWindow(m, Clock(10, 0)) == Ok(true) && WithinWindow(m, Clock(11, 0)) == Ok(true)
            && WithinWindow(m, Clock(9, 59)) == Ok(false) && WithinWindow(m, Clock(11, 1)) == Ok(false)
  {
    assert !IsPm(start) && ReadTime(start, false) == Some(Clock(10, 0)) by {
      assert start == "10" + ":" + "00" + " " + "AM";
      ReadTimeText("10", "00", "AM", false);
      SmallDecimal("10");
      SmallDecimal("00");
    }
    assert ReadTime(end, false) == Some(Clock(11, 0)) by {
      assert end == "11" + ":" + "00" + " " + "AM";
      ReadTimeText("11", "00", "AM", false);
      SmallDecimal("11");
      SmallDecimal("00");
    }
  }

  /** A lunch from 12:00 PM to 12:30 PM is missed at 12:15 as written and caught as intended. */
  lemma NoonMeetingMissed(start: string, end: string)
    requires start == "12:00 PM" && end == "12:30 PM"
    ensures var m := Meeting("Lunch", None, Some(start), Some(end));
            WithinWindow(m, Clock(12, 15)) == Ok(false) && WithinWindowIntended(m, Clock(12, 15)) == Ok(true)
  {
    assert IsPm(start) && ReadTime(start, true) == Some(Clock(24, 0))
           && ReadTimeIntended(start) == Some(Clock(12, 0)) by {
      assert start == "12" + ":" + "00" + " " + "PM";
      ReadTimeText("12", "00", "PM", true);
      SmallDecimal("12");
      SmallDecimal("00");
    }
    assert ReadTime(end, true) == Some(Clock(24, 30)) && ReadTimeIntended(end) == Some(Clock(12, 30)) by {
      assert end == "12" + ":" + "30" + " " + "PM";
      ReadTimeText("12", "30", "PM", true);
      SmallDecimal("12");
      SmallDecimal("30");
    }
  }

  /**
   * A review from 11:00 AM to 1:00 PM is missed at 11:30 as written, since
   * its end is read as 1:00 with the start's AM, and caught as intended.
   */
  lemma EndMarkerMissed(start: string, end: string)
    requires start == "11:00 AM" && end == "1:00 PM"
    ensures var m := Meeting("Review", None, Some(start), Some(end));
            WithinWindow(m, Clock(11, 30)) == Ok(false) && WithinWindowIntended(m, Clock(11, 30)) == Ok(true)
  {
    assert !IsPm(start) && ReadTime(start, false) == Some(Clock(11, 0))
           && ReadTimeIntended(start) == Some(Clock(11, 0)) by {
      assert start == "11" + ":" + "00" + " " + "AM";
      ReadTimeText("11", "00", "AM", false);
      SmallDecimal("11");
      SmallDecimal("00");
    }
    assert ReadTime(end, false) == Some(Clock(1, 0)) && ReadTimeIntended(end) == Some(Clock(13, 0)) by {
      assert end == "1" + ":" + "00" + " " + "PM";
      ReadTimeText("1", "00", "PM", false);
      SmallDecimal("1");
      SmallDecimal("00");
    }
  }
}
