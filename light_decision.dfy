/**
 * `determineLightState`: unless the light was switched on by hand, it is
 * switched on when the calendar says a meeting is under way, or the
 * built-in camera is on, or an external camera is in use, and off
 * otherwise. The three questions are awaited in that order and an `||`
 * stops at the first true answer, so a later question is never asked once
 * an earlier one said yes.
 *
 * What the outside world answers is taken as input: whether the override
 * file exists, the calendar export printed by icalBuddy, the current hour
 * and minute, what `is-camera-on` resolves to, and the output of
 * `lsof | grep VDC`. A question whose promise rejects is `None`.
 */
module LightDecision {
  import opened Wrappers
  import opened Text
  import opened MeetingParser
  import opened TimeWindow

  datatype LightState = On | Off

  /**
   * What a run does: it leaves the light alone, calls
   * `changeLightState` with a state, or stops on a rejected promise
   * without calling it.
   */
  datatype Outcome = Unchanged | Switch(state: LightState) | Rejected

  /** `inMeeting()`: `None` when icalBuddy fails or the `find` callback throws. */
  function CalendarSignal(calendarExport: Option<string>, now: Clock): (r: Option<bool>)
    ensures calendarExport.None? ==> r.None?
    ensures calendarExport.Some? ==>
              (r == Some(true) <==> InMeeting(Meetings(calendarExport.value), now) == Ok(true))
              && (r == Some(false) <==> InMeeting(Meetings(calendarExport.value), now) == Ok(false))
  {
    match calendarExport
    case None => None
    case Some(output) =>
      match InMeeting(Meetings(output), now)
      case Ok(b) => Some(b)
      case Err(_) => None
  }

  /** `isExternalCameraOn()`: whether the `lsof | grep VDC` output mentions "caphost". */
  function ExternalCameraSignal(deviceList: Option<string>): (r: Option<bool>)
    ensures r.None? <==> deviceList.None?
    ensures r == Some(true) <==> deviceList.Some? && exists i :: OccursAt(deviceList.value, "caphost", i)
  {
    match deviceList
    case None => None
    case Some(out) => Some(Includes(out, "caphost"))
  }

  /** The answer at `k` is true and every earlier question was answered. */
  predicate DecidesTrue(signals: seq<Option<bool>>, k: int)
  {
    0 <= k < |signals| && signals[k] == Some(true) && forall j :: 0 <= j < k ==> signals[j].Some?
  }

  /** The question at `k` rejects and every earlier one answered false. */
  predicate Rejects(signals: seq<Option<bool>>, k: int)
  {
    0 <= k < |signals| && signals[k].None? && forall j :: 0 <= j < k ==> signals[j] == Some(false)
  }

  /**
   * `(await a) || (await b) || ...`, evaluated left to right: it stops at the
   * first true answer, rejects at the first rejection met before one, and
   * is false when every answer is false.
   */
  function AnyTrue(signals: seq<Option<bool>>): (r: Option<bool>)
    ensures r == Some(true) <==> exists k :: DecidesTrue(signals, k)
    ensures r.None? <==> exists k :: Rejects(signals, k)
    ensures r == Some(false) <==> forall k :: 0 <= k < |signals| ==> signals[k] == Some(false)
    decreases |signals|
  {
    if signals == [] then Some(false)
    else
      var rest := AnyTrue(signals[1..]);
      assert forall k :: 1 <= k < |signals| ==> signals[k] == signals[1..][k - 1];
      match signals[0]
      case None =>
        assert Rejects(signals, 0);
        None
      case Some(true) =>
        assert DecidesTrue(signals, 0);
        Some(true)
      case Some(false) =>
        assert (exists k :: DecidesTrue(signals[1..], k)) ==> exists k :: DecidesTrue(signals, k) by {
          if exists k :: DecidesTrue(signals[1..], k) {
            var k :| DecidesTrue(signals[1..], k);
            assert DecidesTrue(signals, k + 1);
          }
        }
        assert (exists k :: DecidesTrue(signals, k)) ==> exists k :: DecidesTrue(signals[1..], k) by {
          if exists k :: DecidesTrue(signals, k) {
            var k :| DecidesTrue(signals, k);
            assert DecidesTrue(signals[1..], k - 1);
          }
        }
        assert (exists k :: Rejects(signals[1..], k)) ==> exists k :: Rejects(signals, k) by {
          if exists k :: Rejects(signals[1..], k) {
            var k :| Rejects(signals[1..], k);
            assert Rejects(signals, k + 1);
          }
        }
        assert (exists k :: Rejects(signals, k)) ==> exists k :: Rejects(signals[1..], k) by {
          if exists k :: Rejects(signals, k) {
            var k :| Rejects(signals, k);
            assert Rejects(signals[1..], k - 1);
          }
        }
        rest
  }

  /** When every question is answered, the short-circuit `||` is the plain disjunction of the answers. */
  lemma AnyTrueWhenAllAnswered(signals: seq<Option<bool>>)
    requires forall k :: 0 <= k < |signals| ==> signals[k].Some?
    ensures AnyTrue(signals) == Some(exists k :: 0 <= k < |signals| && signals[k].value)
  {
    if exists k :: 0 <= k < |signals| && signals[k].value {
      var k :| 0 <= k < |signals| && signals[k].value;
      assert DecidesTrue(signals, k);
    }
  }

  /** The three answers, in the order `determineLightState` awaits them. */
  function Signals(calendarExport: Option<string>, now: Clock, cameraOn: Option<bool>, deviceList: Option<string>)
    : seq<Option<bool>>
  {
    [CalendarSignal(calendarExport, now), cameraOn, ExternalCameraSignal(deviceList)]
  }

  /**
   * `determineLightState()`. With the override file present the light is
   * left alone; otherwise it is switched on exactly when some answer is
   * true with every earlier question answered, switched off exactly when
   * all three answers are false, and the run rejects when a question
   * rejects before any answer is true.
   */
  function DetermineLightState(overridePresent: bool, calendarExport: Option<string>, now: Clock,
                               cameraOn: Option<bool>, deviceList: Option<string>): (r: Outcome)
    ensures overridePresent ==> r == Unchanged
    ensures !overridePresent ==>
              var signals := Signals(calendarExport, now, cameraOn, deviceList);
              (r == Switch(On) <==> exists k :: DecidesTrue(signals, k))
              && (r == Switch(Off) <==> forall k :: 0 <= k < 3 ==> signals[k] == Some(false))
              && (r == Rejected <==> exists k :: Rejects(signals, k))
  {
    if overridePresent then Unchanged
    else
      match AnyTrue(Signals(calendarExport, now, cameraOn, deviceList))
      case None => Rejected
      case Some(true) => Switch(On)
      case Some(false) => Switch(Off)
  }

  /** A meeting under way turns the light on, whatever the cameras would say. */
  lemma MeetingTurnsLightOn(calendarExport: string, now: Clock, cameraOn: Option<bool>, deviceList: Option<string>)
    requires InMeeting(Meetings(calendarExport), now) == Ok(true)
    ensures DetermineLightState(false, Some(calendarExport), now, cameraOn, deviceList) == Switch(On)
  {
    assert DecidesTrue(Signals(Some(calendarExport), now, cameraOn, deviceList), 0);
  }

  /** With no meeting under way, the built-in camera being on turns the light on, whatever `lsof` says. */
  lemma CameraTurnsLightOn(calendarExport: string, now: Clock, deviceList: Option<string>)
    requires InMeeting(Meetings(calendarExport), now) == Ok(false)
    ensures DetermineLightState(false, Some(calendarExport), now, Some(true), deviceList) == Switch(On)
  {
    assert DecidesTrue(Signals(Some(calendarExport), now, Some(true), deviceList), 1);
  }

  /**
   * A calendar export without bullet lines lists no meetings, so the light
   * then follows the cameras alone.
   */
  lemma EmptyCalendarFollowsCameras(calendarExport: string, now: Clock, cameraOn: bool, deviceList: string)
    requires forall k :: 0 <= k < |Split(calendarExport)| ==> !IsBulletLine(Trim(Split(calendarExport)[k]))
    ensures DetermineLightState(false, Some(calendarExport), now, Some(cameraOn), Some(deviceList))
            == Switch(if cameraOn || Includes(deviceList, "caphost") then On else Off)
  {
    NoBulletNoMeetings(calendarExport);
    NoMeetingsFollowsCameras(calendarExport, now, cameraOn, deviceList);
  }

  /** An export that lists no meetings answers false, and the cameras decide. */
  lemma NoMeetingsFollowsCameras(calendarExport: string, now: Clock, cameraOn: bool, deviceList: string)
    requires Meetings(calendarExport) == []
    ensures DetermineLightState(false, Some(calendarExport), now, Some(cameraOn), Some(deviceList))
            == Switch(if cameraOn || Includes(deviceList, "caphost") then On else Off)
  {
    assert CalendarSignal(Some(calendarExport), now) == Some(false);
    AnyTrueOfThree(false, cameraOn, Includes(deviceList, "caphost"));
  }

  /** Three answered questions joined by `||`. */
  lemma AnyTrueOfThree(a: bool, b: bool, c: bool)
    ensures AnyTrue([Some(a), Some(b), Some(c)]) == Some(a || b || c)
  {
    var signals := [Some(a), Some(b), Some(c)];
    AnyTrueWhenAllAnswered(signals);
    if a || b || c {
      var k := if a then 0 else if b then 1 else 2;
      assert signals[k].value;
    } else {
      assert forall k :: 0 <= k < 3 ==> signals[k] == Some(false);
    }
  }
}
