# meeting-light: which way the light should go

meeting-light switches a Philips Hue light on while its owner is in a
meeting and off otherwise. Each run of `determine-light-state.ts` does the
following:

- it leaves the light alone when the override file `meeting-light/is-on`
  exists;
- otherwise it asks three questions in order and switches the light on at
  the first "yes":
  - whether the calendar, as printed by icalBuddy for today, has a meeting
    under way;
  - whether the built-in camera is on;
  - whether `lsof` shows an external camera in use.
- When all three answer "no", it switches the light off.

This project models that decision and the two pieces of logic behind the
first question:

- `parseMeetings` reads the calendar export line by line (module
  `MeetingParser`):
  - a line starting with a bullet starts a record, emitting the previous one
    if it has a title;
  - a `H:MM AM - H:MM PM` line sets the record's times;
  - every other line is added to its notes;
  - when a record is emitted, the first Zoom join URL in its notes becomes
    its `meetingUrl`.
- The `find` callback in `inMeeting` (module `TimeWindow`) decides whether
  the current hour and minute lie between a record's start and end time.
- `determineLightState` (module `LightDecision`) combines the three answers
  with a short-circuit `||`.

The other modules supply what these rely on:

- `Text`: the JavaScript string built-ins `trim`, `split`, `includes` and
  `Number` on digit strings.
- `Patterns`: the program's three regular expressions, each written as a
  matcher anchored at one position, plus the leftmost search that `test` and
  `match` perform.
- `Wrappers`: `Option` (for `undefined`) and `Result` (for a thrown error).

The parse comes in two forms:

- `MeetingParser.Run` / `Meetings` is the specification, a fold of one
  `Step` per line.
- `MeetingParser.ParseMeetings` is the program's loop. It keeps the record
  under construction in a `PartialMeeting` object whose fields are set one
  at a time, and replaces that object after each emission. It is proved to
  compute the fold.

What the program does as written is modelled exactly:

- The end time's PM flag is read from the start time.
- 12 PM reads as hour 24.
- `[A|P]` also accepts `|`.
- A time range seen before the first bullet, or under a bullet whose title
  trims to empty, carries into the next titled record. The record object is
  only replaced when a record is emitted.
- A record without a range line keeps both times undefined. The `find`
  callback then throws when it reaches that record.
- A time that TIME_REGEX does not match reads as NaN, which matches nothing.

Emitted records have no `notes` field: `delete meeting.notes` is modelled by
a `Meeting` type that has none.

`addMeeting` stores the URL on `currentMeeting` rather than on its argument.
It is always called with `currentMeeting`, so the two are the same object.

## Model

| member | source | states |
|---|---|---|
| Text.TrimSpec | determine-light-state.ts:40 | `trim` returns a slice of the line with only white space around it, and neither end of it is white space |
| Text.TrimmedIsFixed | determine-light-state.ts:40 | a text with no white space at either end is returned unchanged |
| Text.Split | determine-light-state.ts:24 | `split("\n")` gives one more piece than there are newlines, and no piece holds a newline |
| Text.JoinSplit | determine-light-state.ts:24 | joining the pieces of a split with newlines gives back the text |
| Text.SplitJoin | determine-light-state.ts:24 | splitting the newline-join of newline-free lines gives back the lines |
| Text.Includes | determine-light-state.ts:84 | `includes` holds exactly when the needle occurs at some position |
| Text.DecimalValue | determine-light-state.ts:86-87 | `Number` of a string of n decimal digits is a whole number below 10 to the n |
| Text.RunEndSpec | determine-light-state.ts:17 | a greedy run (`\d+`, `.+`) covers only matching characters and stops at the first that does not match |
| Patterns.FirstMatchSpec | determine-light-state.ts:50-51 | the unanchored search finds something exactly when the anchored matcher does at some position, and then returns the leftmost such match |
| Patterns.TimeOfDayEnd | determine-light-state.ts:19 | where the matcher for `\d+:\d+ [A|P]M` stops, the text it passed over is a time of day |
| Patterns.TimeOfDayEndComplete | determine-light-state.ts:19 | every time of day that starts at a position is matched there and ends where the matcher stops |
| Patterns.MeetingRangeAt | determine-light-state.ts:19 | the anchored range matcher captures two times of day joined by ` - ` occurring at that position |
| Patterns.MeetingRangeAtComplete | determine-light-state.ts:19 | every range of two times of day occurring at a position is captured there |
| Patterns.FindMeetingRangeSpec | determine-light-state.ts:50-51 | `MEETING_TIME_REGEX.test(line)` holds exactly when a range occurs in the line, and `match` captures the leftmost one |
| Patterns.RangeLineFound | determine-light-state.ts:50-53 | a line opening with a range of two times of day captures exactly those two times |
| Patterns.BarMeridiemAccepted | determine-light-state.ts:19 | `1:00 \|M - 2:00 \|M` is a range line: the class `[A\|P]` admits the bar |
| Patterns.ZoomUrlAt | determine-light-state.ts:18 | the anchored Zoom matcher returns a Zoom join URL occurring at that position |
| Patterns.ZoomUrlAtLongest | determine-light-state.ts:18 | the greedy `\d+` and `.+` make the match the longest: every Zoom join URL starting at that position ends no later than it |
| Patterns.ZoomUrlAtComplete | determine-light-state.ts:18 | wherever a Zoom join URL starts, the matcher finds one |
| Patterns.FirstZoomUrlFound | determine-light-state.ts:29 | a URL is extracted from the notes exactly when they hold a Zoom join URL |
| Patterns.FirstZoomUrlLeftmost | determine-light-state.ts:29 | the extracted URL is a Zoom join URL occurring in the notes, no Zoom join URL starts before it, and none starting where it does is longer |
| Patterns.ClockAt | determine-light-state.ts:17 | TIME_REGEX anchored at a position captures two non-empty digit runs that occur there joined by a colon |
| Patterns.FindClock | determine-light-state.ts:85 | `match(TIME_REGEX)` captures two non-empty digit runs joined by a colon that occur in the text |
| Patterns.FindClockAtStart | determine-light-state.ts:85-87 | a text opening with `digits:digits` and a non-digit captures exactly those two digit runs |
| Patterns.FindClockOfTimeOfDay | determine-light-state.ts:85-87 | on a captured time of day, the two captures and the meridiem suffix make up the whole text |
| MeetingParser.BulletTitle | determine-light-state.ts:48 | the title of a bullet line has no white space at either end and is shorter than the line |
| MeetingParser.AppendNote | determine-light-state.ts:55 | the notes so far stay at the front and the line and a newline are added after them; undefined notes become the text "undefined" first |
| MeetingParser.Step | determine-light-state.ts:40-56 | one line keeps every pushed record, pushes one exactly on a bullet line met while the draft has a title, adds at most one to the records the state stands for, and leaves the title alone on other lines |
| MeetingParser.Run | determine-light-state.ts:39-57 | consuming lines keeps every pushed record and adds at most one record per line |
| MeetingParser.Finish | determine-light-state.ts:59-61 | after the loop, the pushed records are kept and the draft is pushed exactly when it has a title |
| MeetingParser.Meetings | determine-light-state.ts:23-64 | `parseMeetings` returns at most one record per line of the export |
| MeetingParser.AddMeeting | determine-light-state.ts:28-37 | an emitted record keeps the draft's non-empty title and both its times |
| MeetingParser.AddMeetingUrl | determine-light-state.ts:29-33 | `meetingUrl` is set exactly when the notes hold a Zoom join URL, and then it is the longest Zoom join URL at the leftmost position where one starts |
| MeetingParser.PartialMeeting.constructor | determine-light-state.ts:26 | a new `currentMeeting` has every field undefined |
| MeetingParser.ParseMeetings | determine-light-state.ts:23-64 | the loop over the lines, with `currentMeeting` updated in place, returns what the line-by-line fold specifies |
| MeetingParser.ConsumeLine | determine-light-state.ts:39-57 | one iteration of the loop moves the records and the current object exactly as one step of the fold does |
| MeetingParser.BulletTitles | determine-light-state.ts:43-48 | the reference list for TitlesFollowBullets: the titles of the bullet lines in order, leaving out those that trim to empty, so none is empty |
| MeetingParser.RunTitles | determine-light-state.ts:39-57 | after any prefix of the lines, the emitted titles followed by the pending one are the non-empty bullet titles in order |
| MeetingParser.TitlesFollowBullets | determine-light-state.ts:42-61 | records follow the bullet lines with non-empty titles one for one and in order, so their count is the number of such lines and every title is non-empty |
| MeetingParser.NoBulletNoMeetings | determine-light-state.ts:59-63 | text without a bullet line gives no records |
| MeetingParser.EmptyOutputNoMeetings | determine-light-state.ts:23-64 | the empty export gives no records |
| MeetingParser.FoundRangeWellFormed | determine-light-state.ts:50-53 | both captures of a range line are times of day |
| MeetingParser.RunTimesWellFormed | determine-light-state.ts:50-53 | every step keeps start and end set together and each a time of day |
| MeetingParser.MeetingTimesWellFormed | determine-light-state.ts:50-53 | every record has both times or neither, and each is a captured time of day |
| MeetingParser.ExpectedMeetings | determine-light-state.ts:23-64 | the reference reading of an export: one record per block, in block order |
| MeetingParser.RunAppend | determine-light-state.ts:39 | consuming two runs of lines one after the other is consuming their concatenation |
| MeetingParser.RunBody | determine-light-state.ts:50-56 | under a heading, the notes become the non-range lines each followed by a newline, and the last range line overrides any earlier times |
| MeetingParser.RunBlock | determine-light-state.ts:42-56 | a block emits the titled draft before it and leaves a draft with its own title, notes and last range |
| MeetingParser.RunBlocks | determine-light-state.ts:39-57 | after whole blocks, the records of all but the last are out and the last one's draft is pending |
| MeetingParser.WellFormedExport | determine-light-state.ts:23-64 | an export of well-formed blocks gives one record per block with its title, the first Zoom URL of its notes and the times of its last range line |
| MeetingParser.WellFormedExportText | determine-light-state.ts:23-64 | the same holds for the text made by joining the blocks' lines with newlines |
| MeetingParser.RunPreamble | determine-light-state.ts:50-56 | lines before the first bullet emit nothing and set no title, but a range among them sets the times |
| MeetingParser.PreambleRangeCarriesOver | determine-light-state.ts:43-49 | a range before the first bullet gives its times to the first record when that record's own lines hold no range |
| MeetingParser.BlockAfterUntitled | determine-light-state.ts:42-61 | a block read while the draft has no title pushes nothing before it, and its record keeps the times the draft held |
| MeetingParser.UntitledBulletRangeCarriesOver | determine-light-state.ts:42-56 | a bullet whose title trims to empty keeps the object, so a range under it gives its times to the next titled record when that record's lines hold none |
| TimeWindow.NotAfterByMinuteOfDay | determine-light-state.ts:88-90 | with minutes below 60, the program's hour-then-minute comparison orders times by minute of the day |
| TimeWindow.ReadTime | determine-light-state.ts:85-87 | a time reads as a number exactly when TIME_REGEX matches it, and a PM-flagged hour is at least 12 |
| TimeWindow.ReadTimeAtStart | determine-light-state.ts:85-87 | `h:m...` reads as hour `Number(h)` (plus 12 when flagged PM) and minute `Number(m)` |
| TimeWindow.WithinWindow | determine-light-state.ts:83-101 | the callback throws when the start time is undefined, else when the end time is; otherwise it holds exactly when both times read and now lies between them inclusively, hour then minute, the end using the start's PM flag |
| TimeWindow.InMeeting | determine-light-state.ts:83-103 | `Boolean(find(...))` is false exactly when every record answers false, and otherwise is the answer of the first record that does not answer false |
| TimeWindow.InMeetingWhenSomeMatches | determine-light-state.ts:83-103 | a record that matches makes the calendar answer true when no earlier record throws |
| TimeWindow.ReadTimeOfDay | determine-light-state.ts:85-87 | a captured time of day always reads as numbers, from the digits before and after its colon |
| TimeWindow.ParsedRecordWindow | determine-light-state.ts:84-98 | on a parsed record the callback never throws for a missing end time, and a record with times reads both without NaN |
| TimeWindow.InMeetingOfParsed | determine-light-state.ts:83-103 | over parsed records the search throws only when it reaches a record without times before any match |
| TimeWindow.To24HourSpec | determine-light-state.ts:86 | the conventional reading of hours 1 to 12 gives a valid hour, equal modulo 12, in the afternoon exactly for PM |
| TimeWindow.To24HourOneToOne | determine-light-state.ts:86 | no two 12-hour times share a conventional 24-hour reading |
| TimeWindow.AsWrittenHourDiffers | determine-light-state.ts:86 | the program's hour agrees with the conventional reading exactly when the written hour is not 12 |
| TimeWindow.ReadTimeIntended | determine-light-state.ts:92-95 | the conventional reading of a time reads exactly when TIME_REGEX matches |
| TimeWindow.WithinWindowIntended | determine-light-state.ts:83-101 | the corrected callback throws in the same cases as the program's |
| TimeWindow.IntendedWindowSpec | determine-light-state.ts:83-101 | for 12-hour times the corrected callback holds exactly when now's minute of the day lies between those of the start and the end |
| TimeWindow.IntendedAgreesElsewhere | determine-light-state.ts:84-98 | where no time is at 12 o'clock and both carry the same marker, the program's callback and the corrected one agree |
| TimeWindow.NoonStartNeverMatches | determine-light-state.ts:84-90 | as written, a record starting at 12 PM never matches any wall-clock time |
| TimeWindow.TimeText | determine-light-state.ts:84-85 | `h:m AM` and `h:m PM` capture `h` and `m`, and include "PM" only when PM |
| TimeWindow.ReadTimeText | determine-light-state.ts:84-95 | how the program and the conventional reading read `h:m AM` and `h:m PM` |
| TimeWindow.WindowEndsIncluded | determine-light-state.ts:88-98 | a 10:00 AM to 11:00 AM meeting matches at 10:00 and 11:00 and not at 9:59 or 11:01 |
| TimeWindow.NoonMeetingMissed | determine-light-state.ts:86 | a 12:00 PM to 12:30 PM meeting does not match at 12:15 as written, and does under the corrected reading |
| TimeWindow.EndMarkerMissed | determine-light-state.ts:92 | an 11:00 AM to 1:00 PM meeting does not match at 11:30 as written, and does under the corrected reading |
| LightDecision.CalendarSignal | determine-light-state.ts:67-104 | `inMeeting()` rejects when icalBuddy fails, and otherwise answers the search over the parsed export (rejecting if it throws) |
| LightDecision.ExternalCameraSignal | determine-light-state.ts:107-110 | `isExternalCameraOn()` is true exactly when the `lsof` output holds "caphost" |
| LightDecision.AnyTrue | determine-light-state.ts:118-122 | awaited answers joined by `\|\|` are true exactly when one is true with all before it answered, reject exactly when one rejects after only false answers, and are false exactly when all are false |
| LightDecision.AnyTrueWhenAllAnswered | determine-light-state.ts:118-122 | when every question is answered, the short-circuit `\|\|` is the plain disjunction |
| LightDecision.DetermineLightState | determine-light-state.ts:112-127 | with the override file the light is left alone; otherwise it is switched on exactly when some answer is true with all earlier ones answered, off exactly when all three are false, and the run rejects otherwise |
| LightDecision.MeetingTurnsLightOn | determine-light-state.ts:118-123 | a meeting under way switches the light on whatever the cameras would say |
| LightDecision.CameraTurnsLightOn | determine-light-state.ts:118-123 | with no meeting under way, the built-in camera switches the light on whatever `lsof` says |
| LightDecision.EmptyCalendarFollowsCameras | determine-light-state.ts:118-126 | an export without bullet lines leaves the decision to the two cameras |
| LightDecision.AnyTrueOfThree | determine-light-state.ts:118-122 | three answered questions joined by `\|\|` give their disjunction |
| LightDecision.NoMeetingsFollowsCameras | determine-light-state.ts:118-126 | a calendar that lists no meetings answers false, so the built-in camera or `lsof` decides |

## Left out

- change-light-state.ts and on-server.js are not part of this model. `Switch(state)` stands for the call `changeLightState(state)`.
- The icalBuddy and `lsof | grep VDC` processes are not modelled. Their standard output is an input, and `None` stands for a rejected `execa` promise (for `grep`, a run that finds no line).
- `is-camera-on` is not modelled; its answer is an input.
- `new Date()` is not modelled; the current hour and minute are an input.
- `fs.existsSync` is not modelled; whether the override file exists is an input.
- The `||` in `determineLightState` does not call a later question once an earlier one says yes. The model takes all three answers as values and ignores those the `||` never reaches. It does not capture that the later processes are never started.
- `Number` on a run of digits is exact here. JavaScript rounds runs of more than 15 or so digits to a nearby double.
- Strings are sequences of Unicode scalar values, not UTF-16 code units. Every character the program tests for lies in the Basic Multilingual Plane.
- The parse is modelled on values. Each emitted record is an object the program never mutates after pushing it, so no aliasing is lost.
- The decision uses the callback as written (`TimeWindow.WithinWindow`), not the corrected one, so that the model does what the program does.

## Findings

| source | as written | input that shows it | evidently intended | confidence | as-written member | corrected member |
|---|---|---|---|---|---|---|
| determine-light-state.ts:92 | the end time's PM flag is taken from `m.startTime` | an 11:00 AM to 1:00 PM meeting at 11:30: the end reads as 1:00, so the meeting does not match | the end time's own marker decides whether 12 is added | not executed | TimeWindow.EndMarkerMissed | TimeWindow.IntendedWindowSpec |
| determine-light-state.ts:86 | 12 is added to every PM hour, so 12 PM reads as 24 and 12 AM as 12 | a 12:00 PM to 12:30 PM meeting at 12:15: the start reads as 24:00, so it does not match | 12 PM is hour 12 and 12 AM is hour 0 | not executed | TimeWindow.NoonMeetingMissed | TimeWindow.IntendedWindowSpec |
