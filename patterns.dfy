/**
 * The three regular expressions of the light-state program, each written out
 * as a matcher anchored at one position, together with the unanchored
 * leftmost search that `RegExp.prototype.test` and `String.prototype.match`
 * perform with them.
 *
 * Every pattern here is made of greedy runs whose next character cannot
 * continue the run, so backtracking never changes the outcome and each
 * anchored matcher has at most one result.
 */
module Patterns {
  import opened Wrappers
  import opened Text

  /**
   * An unanchored search: the match that `at` finds at the leftmost
   * position from `from` on where it finds one.
   */
  function FirstMatch<T>(at: (string, nat) -> Option<T>, s: string, from: nat): Option<T>
    decreases |s| - from
  {
    if from >= |s| then None
    else match at(s, from)
      case Some(v) => Some(v)
      case None => FirstMatch(at, s, from + 1)
  }

  /**
   * The search finds something exactly when `at` does at some position from
   * `from` on, and then it is what `at` finds at the first such position.
   */
  lemma {:induction false} FirstMatchSpec<T>(at: (string, nat) -> Option<T>, s: string, from: nat)
    ensures FirstMatch(at, s, from).Some? ==>
              exists i :: from <= i < |s| && at(s, i) == FirstMatch(at, s, from)
                          && forall j :: from <= j < i ==> at(s, j).None?
    ensures FirstMatch(at, s, from).None? <==> forall i :: from <= i < |s| ==> at(s, i).None?
    decreases |s| - from
  {
    if from < |s| && at(s, from).None? {
      FirstMatchSpec(at, s, from + 1);
    }
  }

  // ---------------------------------------------------------------------
  // MEETING_TIME_REGEX  /(\d+:\d+ [A|P]M) - (\d+:\d+ [A|P]M)/
  // ---------------------------------------------------------------------

  /**
   * The class `[A|P]`: inside brackets the bar is a member, not an
   * alternation, so it admits 'A', '|' and 'P'.
   */
  predicate IsMeridiemLetter(c: char)
  {
    c == 'A' || c == '|' || c == 'P'
  }

  /** `c` has a colon at `p` with a non-empty run of digits on either side and nothing else. */
  predicate ColonAt(c: string, p: int)
  {
    0 < p < |c| - 1 && c[p] == ':' && AllDigits(c[..p]) && AllDigits(c[p + 1..])
  }

  /** The text `\d+:\d+`. */
  ghost predicate IsClockText(c: string)
  {
    exists p :: ColonAt(c, p)
  }

  /** The text `\d+:\d+ [A|P]M`. */
  ghost predicate IsTimeOfDay(t: string)
  {
    |t| >= 6 && IsClockText(t[..|t| - 3])
    && t[|t| - 3] == ' ' && IsMeridiemLetter(t[|t| - 2]) && t[|t| - 1] == 'M'
  }

  /** Where `\d+:\d+ [A|P]M` matched at `i` ends, if it matches there. */
  function TimeOfDayEnd(s: string, i: nat): (r: Option<nat>)
    ensures r.Some? ==> i < r.value <= |s| && IsTimeOfDay(s[i..r.value])
  {
    if i >= |s| then None
    else
      var a := RunEnd(s, i, IsDigit);
      if a == i || a >= |s| || s[a] != ':' then None
      else
        var b := RunEnd(s, a + 1, IsDigit);
        if b == a + 1 || b + 3 > |s| || s[b] != ' ' || !IsMeridiemLetter(s[b + 1]) || s[b + 2] != 'M' then None
        else
          RunEndSpec(s, i, IsDigit);
          RunEndSpec(s, a + 1, IsDigit);
          TimeOfDayShape(s, i, a, b);
          Some(b + 3)
  }

  /** The pieces `TimeOfDayEnd` checks make up a time of day. */
  lemma TimeOfDayShape(s: string, i: nat, a: nat, b: nat)
    requires i < a < a + 1 < b && b + 3 <= |s|
    requires forall j :: i <= j < a ==> IsDigit(s[j])
    requires forall j :: a + 1 <= j < b ==> IsDigit(s[j])
    requires s[a] == ':' && s[b] == ' ' && IsMeridiemLetter(s[b + 1]) && s[b + 2] == 'M'
    ensures IsTimeOfDay(s[i..b + 3])
  {
    var t := s[i..b + 3];
    var c := t[..|t| - 3];
    assert c == s[i..b];
    assert c[..a - i] == s[i..a];
    assert c[a - i + 1..] == s[a + 1..b];
    AllDigitsSlice(s, i, a);
    AllDigitsSlice(s, a + 1, b);
    assert ColonAt(c, a - i);
  }

  /** A time of day at `i` is found by `TimeOfDayEnd`, which stops exactly at its end. */
  lemma {:induction false} TimeOfDayEndComplete(s: string, i: nat, e: nat)
    requires i < e <= |s| && IsTimeOfDay(s[i..e])
    ensures TimeOfDayEnd(s, i) == Some(e)
  {
    var t := s[i..e];
    var c := t[..|t| - 3];
    var p :| ColonAt(c, p);
    assert c == s[i..e - 3];
    assert c[..p] == s[i..i + p];
    assert c[p + 1..] == s[i + p + 1..e - 3];
    AllDigitsSlice(s, i, i + p);
    AllDigitsSlice(s, i + p + 1, e - 3);
    RunEndUnique(s, i, i + p, IsDigit);
    RunEndUnique(s, i + p + 1, e - 3, IsDigit);
  }

  /** Text of the shape `<time of day> - <time of day>`, the two times being `a` and `b`, occurs in `s` at `i`. */
  ghost predicate RangeOccursAt(s: string, a: string, b: string, i: int)
  {
    IsTimeOfDay(a) && IsTimeOfDay(b) && OccursAt(s, a + " - " + b, i)
  }

  /** MEETING_TIME_REGEX anchored at `i`: its two captures, the start and end times. */
  function MeetingRangeAt(s: string, i: nat): (r: Option<(string, string)>)
    ensures r.Some? ==> RangeOccursAt(s, r.value.0, r.value.1, i)
  {
    match TimeOfDayEnd(s, i)
    case None => None
    case Some(e1) =>
      if e1 + 3 <= |s| && s[e1..e1 + 3] == " - " then
        match TimeOfDayEnd(s, e1 + 3)
        case None => None
        case Some(e2) =>
          assert s[i..e2] == s[i..e1] + s[e1..e1 + 3] + s[e1 + 3..e2];
          Some((s[i..e1], s[e1 + 3..e2]))
      else None
  }

  /** Where a range of two times of day occurs, `MeetingRangeAt` captures exactly those two times. */
  lemma MeetingRangeAtComplete(s: string, a: string, b: string, i: nat)
    requires RangeOccursAt(s, a, b, i)
    ensures MeetingRangeAt(s, i) == Some((a, b))
  {
    var e1, e2 := i + |a|, i + |a| + 3 + |b|;
    assert s[i..e1] == a && s[e1..e1 + 3] == " - " && s[e1 + 3..e2] == b by {
      OccursAtConcat(s, a + " - ", b, i);
      assert |a + " - "| == e1 + 3 - i;
      OccursAtConcat(s, a, " - ", i);
    }
    TimeOfDayEndComplete(s, i, e1);
    TimeOfDayEndComplete(s, e1 + 3, e2);
    MeetingRangeAtEnds(s, i, e1, e2);
  }

  /** `MeetingRangeAt` from where its two time-of-day matches end. */
  lemma MeetingRangeAtEnds(s: string, i: nat, e1: nat, e2: nat)
    requires TimeOfDayEnd(s, i) == Some(e1) && e1 + 3 <= |s| && s[e1..e1 + 3] == " - "
    requires TimeOfDayEnd(s, e1 + 3) == Some(e2)
    ensures MeetingRangeAt(s, i) == Some((s[i..e1], s[e1 + 3..e2]))
  {
  }

  /** `MEETING_TIME_REGEX.test(line)` holds when this is `Some`, and `line.match(...)` gives its captures. */
  function FindMeetingRange(line: string): Option<(string, string)>
  {
    FirstMatch(MeetingRangeAt, line, 0)
  }

  /**
   * A line is a time-range line exactly when some range of two times of day
   * occurs in it, and then the captures are those of the leftmost one.
   */
  lemma FindMeetingRangeSpec(line: string)
    ensures FindMeetingRange(line).Some? <==> exists i, a, b :: RangeOccursAt(line, a, b, i)
    ensures FindMeetingRange(line).Some? ==>
              exists i :: RangeOccursAt(line, FindMeetingRange(line).value.0, FindMeetingRange(line).value.1, i)
                          && forall j, a, b :: 0 <= j < i ==> !RangeOccursAt(line, a, b, j)
  {
    var r := FindMeetingRange(line);
    FirstMatchSpec(MeetingRangeAt, line, 0);
    if r.Some? {
      var i :| 0 <= i < |line| && MeetingRangeAt(line, i) == r
               && forall j :: 0 <= j < i ==> MeetingRangeAt(line, j).None?;
      forall j, a, b | 0 <= j < i
        ensures !RangeOccursAt(line, a, b, j)
      {
        if RangeOccursAt(line, a, b, j) { MeetingRangeAtComplete(line, a, b, j); }
      }
    } else {
      forall i, a, b ensures !RangeOccursAt(line, a, b, i) {
        if RangeOccursAt(line, a, b, i) { MeetingRangeAtComplete(line, a, b, i); }
      }
    }
  }

  /** A line that opens with a range of two times of day has those two times as its captures. */
  lemma RangeLineFound(a: string, b: string, rest: string)
    requires IsTimeOfDay(a) && IsTimeOfDay(b)
    ensures FindMeetingRange(a + " - " + b + rest) == Some((a, b))
  {
    var line := a + " - " + b + rest;
    assert line[..|a + " - " + b|] == a + " - " + b;
    assert RangeOccursAt(line, a, b, 0);
    MeetingRangeAtComplete(line, a, b, 0);
  }

  /** The bracket `[A|P]` lets `|M` through as a meridiem. */
  lemma BarMeridiemAccepted(a: string, b: string)
    requires a == "1:00 |M" && b == "2:00 |M"
    ensures FindMeetingRange(a + " - " + b) == Some((a, b))
  {
    assert a[..|a| - 3] == "1:00" && b[..|b| - 3] == "2:00";
    assert "1:00"[..1] == "1" && "1:00"[2..] == "00" && "2:00"[..1] == "2" && "2:00"[2..] == "00";
    assert ColonAt("1:00", 1) && ColonAt("2:00", 1);
    assert a + " - " + b == a + " - " + b + "";
    RangeLineFound(a, b, "");
  }

  // ---------------------------------------------------------------------
  // ZOOM_URL_REGEX  /https:\/\/us02web\.zoom\.us\/j\/\d+(?:\?pwd=.+)?/
  // ---------------------------------------------------------------------

  const ZoomJoinPrefix: string := "https://us02web.zoom.us/j/"
  const PasswordQuery: string := "?pwd="

  /** The characters JavaScript's `.` does not match when the `s` flag is off. */
  predicate IsLineTerminator(c: char)
  {
    c == '\n' || c == '\r' || c == '\U{2028}' || c == '\U{2029}'
  }

  /** JavaScript's `.`. */
  predicate IsAnyButLineTerminator(c: char)
  {
    !IsLineTerminator(c)
  }

  /** The text `?pwd=.+`. */
  predicate IsPasswordQuery(q: string)
  {
    |q| > |PasswordQuery| && q[..|PasswordQuery|] == PasswordQuery
    && forall k :: |PasswordQuery| <= k < |q| ==> IsAnyButLineTerminator(q[k])
  }

  /** `u` is the join prefix, digits up to `e`, then nothing or a password query. */
  predicate ZoomIdEndsAt(u: string, e: int)
  {
    |ZoomJoinPrefix| < e <= |u| && u[..|ZoomJoinPrefix|] == ZoomJoinPrefix
    && AllDigits(u[|ZoomJoinPrefix|..e]) && (e == |u| || IsPasswordQuery(u[e..]))
  }

  /** The text `https://us02web.zoom.us/j/\d+(?:\?pwd=.+)?`. */
  ghost predicate IsZoomUrl(u: string)
  {
    exists e :: ZoomIdEndsAt(u, e)
  }

  /** ZOOM_URL_REGEX anchored at `i`: the text it matches there. */
  function ZoomUrlAt(s: string, i: nat): (r: Option<string>)
    ensures r.Some? ==> IsZoomUrl(r.value) && OccursAt(s, r.value, i)
  {
    var d := i + |ZoomJoinPrefix|;
    if d < |s| && s[i..d] == ZoomJoinPrefix && IsDigit(s[d]) then
      var e := RunEnd(s, d, IsDigit);
      RunEndSpec(s, d, IsDigit);
      var q := e + |PasswordQuery|;
      if q < |s| && s[e..q] == PasswordQuery && IsAnyButLineTerminator(s[q]) then
        var f := RunEnd(s, q, IsAnyButLineTerminator);
        RunEndSpec(s, q, IsAnyButLineTerminator);
        ZoomUrlShape(s, i, e, f);
        Some(s[i..f])
      else
        ZoomUrlShape(s, i, e, e);
        Some(s[i..e])
    else None
  }

  /** The pieces `ZoomUrlAt` checks make up a Zoom URL. */
  lemma ZoomUrlShape(s: string, i: nat, e: nat, f: nat)
    requires i + |ZoomJoinPrefix| < e <= f <= |s|
    requires s[i..i + |ZoomJoinPrefix|] == ZoomJoinPrefix
    requires forall j :: i + |ZoomJoinPrefix| <= j < e ==> IsDigit(s[j])
    requires e < f ==> e + |PasswordQuery| < f && s[e..e + |PasswordQuery|] == PasswordQuery
    requires forall j :: e + |PasswordQuery| <= j < f ==> IsAnyButLineTerminator(s[j])
    ensures IsZoomUrl(s[i..f])
  {
    var u := s[i..f];
    var n := |ZoomJoinPrefix|;
    assert u[..n] == ZoomJoinPrefix by {
      assert u[..n] == s[i..i + n];
    }
    assert AllDigits(u[n..e - i]) by {
      var d := u[n..e - i];
      forall k | 0 <= k < |d|
        ensures IsDigit(d[k])
      {
        assert d[k] == s[i + n + k];
      }
    }
    assert e - i == |u| || IsPasswordQuery(u[e - i..]) by {
      if e < f {
        var q := u[e - i..];
        assert q == s[e..f];
        assert q[..|PasswordQuery|] == s[e..e + |PasswordQuery|];
        forall k | |PasswordQuery| <= k < |q|
          ensures IsAnyButLineTerminator(q[k])
        {
          assert q[k] == s[e + k];
        }
      }
    }
    assert ZoomIdEndsAt(u, e - i);
  }

  /** A Zoom URL occurring at `i` is found by `ZoomUrlAt`. */
  lemma ZoomUrlAtComplete(s: string, u: string, i: nat)
    requires IsZoomUrl(u) && OccursAt(s, u, i)
    ensures ZoomUrlAt(s, i).Some?
  {
    var e :| ZoomIdEndsAt(u, e);
    var n := |ZoomJoinPrefix|;
    assert s[i..i + n] == u[..n];
    assert u[n..e][0] == u[n] == s[i + n];
  }

  /**
   * The greedy `\d+` and `.+` make the match the longest Zoom URL starting
   * at `i`: every Zoom URL starting there ends no later than it.
   */
  lemma ZoomUrlAtLongest(s: string, i: nat, k: int)
    requires ZoomUrlSpan(s, i, k)
    ensures ZoomUrlAt(s, i).Some? && k <= i + |ZoomUrlAt(s, i).value|
  {
    ZoomUrlAtComplete(s, s[i..k], i);
    var d := i + |ZoomJoinPrefix|;
    var e' := ZoomSpanParts(s, i, k);
    var e := RunEnd(s, d, IsDigit);
    assert i + e' <= e && (i + e' < k ==> i + e' == e) by {
      RunEndSpec(s, d, IsDigit);
      if i + e' < k {
        assert s[i + e'] == s[i + e'..i + e' + |PasswordQuery|][0] == '?';
      }
    }
    if i + e' < k {
      var q := e + |PasswordQuery|;
      var f := RunEnd(s, q, IsAnyButLineTerminator);
      assert k <= f by {
        RunEndSpec(s, q, IsAnyButLineTerminator);
      }
      ZoomUrlAtQuery(s, i, e, f);
    } else {
      ZoomUrlAtDigits(s, i, e);
    }
  }

  /** Where the digits are followed by a password query, `ZoomUrlAt` takes the query up to the end of the line. */
  lemma ZoomUrlAtQuery(s: string, i: nat, e: nat, f: nat)
    requires ZoomUrlAt(s, i).Some?
    requires i + |ZoomJoinPrefix| < |s| && e == RunEnd(s, i + |ZoomJoinPrefix|, IsDigit)
    requires e + |PasswordQuery| < |s| && s[e..e + |PasswordQuery|] == PasswordQuery
    requires IsAnyButLineTerminator(s[e + |PasswordQuery|])
    requires f == RunEnd(s, e + |PasswordQuery|, IsAnyButLineTerminator)
    ensures ZoomUrlAt(s, i) == Some(s[i..f])
  {
  }

  /** A match found by `ZoomUrlAt` takes at least every digit after the join prefix. */
  lemma ZoomUrlAtDigits(s: string, i: nat, e: nat)
    requires ZoomUrlAt(s, i).Some?
    requires i + |ZoomJoinPrefix| < |s| && e == RunEnd(s, i + |ZoomJoinPrefix|, IsDigit)
    ensures e <= i + |ZoomUrlAt(s, i).value|
  {
  }

  /** A Zoom URL `s[i..k]` in terms of `s`: the join prefix, digits up to `i + e`, then nothing or a password query. */
  lemma ZoomSpanParts(s: string, i: nat, k: int) returns (e: int)
    requires ZoomUrlSpan(s, i, k)
    ensures |ZoomJoinPrefix| < e && i + e <= k
    ensures forall j :: i + |ZoomJoinPrefix| <= j < i + e ==> IsDigit(s[j])
    ensures i + e < k ==> i + e + |PasswordQuery| < k && s[i + e..i + e + |PasswordQuery|] == PasswordQuery
                          && forall j :: i + e + |PasswordQuery| <= j < k ==> IsAnyButLineTerminator(s[j])
  {
    var u := s[i..k];
    var n := |ZoomJoinPrefix|;
    e :| ZoomIdEndsAt(u, e);
    forall j | i + n <= j < i + e
      ensures IsDigit(s[j])
    {
      assert s[j] == u[n..e][j - i - n];
    }
    if i + e < k {
      var query := u[e..];
      assert s[i + e..i + e + |PasswordQuery|] == query[..|PasswordQuery|];
      forall j | i + e + |PasswordQuery| <= j < k
        ensures IsAnyButLineTerminator(s[j])
      {
        assert s[j] == query[j - i - e];
      }
    }
  }

  /** `s[i..j]` is a Zoom URL. */
  ghost predicate ZoomUrlSpan(s: string, i: int, j: int)
  {
    0 <= i <= j <= |s| && IsZoomUrl(s[i..j])
  }

  /** Some Zoom URL occurs in `s`. */
  ghost predicate ContainsZoomUrl(s: string)
  {
    exists i, j :: ZoomUrlSpan(s, i, j)
  }

  /** `(notes || "").match(ZOOM_URL_REGEX)`: the matched text, if any. */
  function FirstZoomUrl(notes: string): Option<string>
  {
    FirstMatch(ZoomUrlAt, notes, 0)
  }

  /** A URL is extracted exactly when the text holds a Zoom URL. */
  lemma FirstZoomUrlFound(s: string)
    ensures FirstZoomUrl(s).Some? <==> ContainsZoomUrl(s)
  {
    var r := FirstZoomUrl(s);
    FirstMatchSpec(ZoomUrlAt, s, 0);
    if r.Some? {
      var i :| 0 <= i < |s| && ZoomUrlAt(s, i) == r;
      assert ZoomUrlSpan(s, i, i + |r.value|);
    }
    if ContainsZoomUrl(s) {
      var i, j :| ZoomUrlSpan(s, i, j);
      ZoomUrlAtComplete(s, s[i..j], i);
      ZoomUrlNotEmpty(s[i..j]);
    }
  }

  /**
   * What is extracted is a Zoom URL occurring in the text, no Zoom URL
   * starts earlier in it, and none starting where it does is longer.
   */
  lemma FirstZoomUrlLeftmost(s: string)
    ensures FirstZoomUrl(s).Some? ==>
              IsZoomUrl(FirstZoomUrl(s).value)
              && exists i :: OccursAt(s, FirstZoomUrl(s).value, i)
                             && (forall j, k :: 0 <= j < i ==> !ZoomUrlSpan(s, j, k))
                             && forall k :: ZoomUrlSpan(s, i, k) ==> k <= i + |FirstZoomUrl(s).value|
  {
    var r := FirstZoomUrl(s);
    FirstMatchSpec(ZoomUrlAt, s, 0);
    if r.Some? {
      var i :| 0 <= i < |s| && ZoomUrlAt(s, i) == r && forall j :: 0 <= j < i ==> ZoomUrlAt(s, j).None?;
      NoZoomUrlBefore(s, i);
      forall k | ZoomUrlSpan(s, i, k)
        ensures k <= i + |r.value|
      {
        ZoomUrlAtLongest(s, i, k);
      }
    }
  }

  /** Where `ZoomUrlAt` finds nothing, no Zoom URL starts. */
  lemma NoZoomUrlBefore(s: string, i: int)
    requires forall j :: 0 <= j < i ==> ZoomUrlAt(s, j).None?
    ensures forall j, k :: 0 <= j < i ==> !ZoomUrlSpan(s, j, k)
  {
    forall j, k | 0 <= j < i
      ensures !ZoomUrlSpan(s, j, k)
    {
      if ZoomUrlSpan(s, j, k) { ZoomUrlAtComplete(s, s[j..k], j); }
    }
  }

  /** A Zoom URL is longer than its join prefix. */
  lemma ZoomUrlNotEmpty(u: string)
    requires IsZoomUrl(u)
    ensures |u| > |ZoomJoinPrefix|
  {
  }

  // ---------------------------------------------------------------------
  // TIME_REGEX  /(\d+):(\d+)/
  // ---------------------------------------------------------------------

  /** TIME_REGEX anchored at `i`: its two captures, the hour and minute digits. */
  function ClockAt(s: string, i: nat): (r: Option<(string, string)>)
    ensures r.Some? ==> r.value.0 != [] && r.value.1 != [] && AllDigits(r.value.0) && AllDigits(r.value.1)
                        && OccursAt(s, r.value.0 + ":" + r.value.1, i)
  {
    if i >= |s| then None
    else
      var a := RunEnd(s, i, IsDigit);
      if a > i && a + 1 < |s| && s[a] == ':' && IsDigit(s[a + 1]) then
        var b := RunEnd(s, a + 1, IsDigit);
        RunEndSpec(s, i, IsDigit);
        RunEndSpec(s, a + 1, IsDigit);
        AllDigitsSlice(s, i, a);
        AllDigitsSlice(s, a + 1, b);
        assert s[i..b] == s[i..a] + ":" + s[a + 1..b];
        Some((s[i..a], s[a + 1..b]))
      else None
  }

  /**
   * `t.match(TIME_REGEX)`: its two captures, if it matches. They are runs of
   * digits that occur in `t` joined by a colon.
   */
  function FindClock(t: string): (r: Option<(string, string)>)
    ensures r.Some? ==> r.value.0 != [] && r.value.1 != [] && AllDigits(r.value.0) && AllDigits(r.value.1)
                        && exists i :: OccursAt(t, r.value.0 + ":" + r.value.1, i)
  {
    FirstMatchSpec(ClockAt, t, 0);
    FirstMatch(ClockAt, t, 0)
  }

  /**
   * Text that starts with digits, a colon and digits, and goes on with
   * something other than a digit, has those digit runs as its captures.
   */
  lemma FindClockAtStart(h: string, m: string, rest: string)
    requires h != [] && m != [] && AllDigits(h) && AllDigits(m)
    requires rest == [] || !IsDigit(rest[0])
    ensures FindClock(h + ":" + m + rest) == Some((h, m))
  {
    var t := h + ":" + m + rest;
    var a, b := |h|, |h| + 1 + |m|;
    assert t[..a] == h && t[a + 1..b] == m && t[a] == ':';
    assert forall k :: 0 <= k < a ==> t[k] == h[k];
    assert forall k :: a + 1 <= k < b ==> t[k] == m[k - a - 1];
    RunEndUnique(t, 0, a, IsDigit);
    RunEndUnique(t, a + 1, b, IsDigit);
    assert ClockAt(t, 0) == Some((h, m));
  }

  /**
   * The hour and minute captured from a time of day are its digits before
   * and after the colon: they and the meridiem suffix make up the whole text.
   */
  lemma FindClockOfTimeOfDay(t: string)
    requires IsTimeOfDay(t)
    ensures FindClock(t).Some?
    ensures FindClock(t).value.0 + ":" + FindClock(t).value.1 + t[|t| - 3..] == t
  {
    var c := t[..|t| - 3];
    var p :| ColonAt(c, p);
    assert c[..p] == t[..p];
    assert c[p + 1..] == t[p + 1..|c|];
    assert t == t[..p] + ":" + t[p + 1..|c|] + t[|c|..];
    FindClockAtStart(t[..p], t[p + 1..|c|], t[|c|..]);
  }
}
