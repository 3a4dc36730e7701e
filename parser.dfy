/**
 * `parseMeetings`: turns the text that the calendar export tool prints for
 * today's events into meeting records.
 *
 * The text is split into lines and each trimmed line is classified:
 *   - a line starting with the bullet `•` starts a new record, after the
 *     record under construction is emitted if it has a non-empty title;
 *   - a line holding a `H:MM AM - H:MM PM` range sets the start and end
 *     times of the record under construction;
 *   - any other line, blank ones included, is appended to its notes.
 * The record under construction is emitted once more at the end if it has a
 * non-empty title. On emission the first Zoom join URL in its notes becomes
 * its `meetingUrl` and the notes are dropped.
 *
 * `Run` and `Meetings` specify the parse as a fold over the lines;
 * `ParseMeetings` is the loop of the program, proved equal to it. The lemmas
 * state what the fold guarantees.
 */
module MeetingParser {
  import opened Wrappers
  import opened Text
  import opened Patterns

  /** BULLET, U+2022. */
  const Bullet: char := '\U{2022}'

  /**
   * An emitted record. `notes` is deleted before a record is emitted, so it
   * has no such field; the two times are absent when no range line was seen.
   */
  datatype Meeting = Meeting(
    title: string,
    meetingUrl: Option<string>,
    startTime: Option<string>,
    endTime: Option<string>)

  /** The value of the `Partial<Meeting>` object under construction; every field may be undefined. */
  datatype Draft = Draft(
    title: Option<string>,
    notes: Option<string>,
    startTime: Option<string>,
    endTime: Option<string>)

  /** The empty object `{}`. */
  const EmptyDraft: Draft := Draft(None, None, None, None)

  /** The records emitted so far and the record under construction. */
  datatype ParseState = ParseState(meetings: seq<Meeting>, current: Draft)

  const Start: ParseState := ParseState([], EmptyDraft)

  /** `if (currentMeeting.title)`: defined and not the empty string. */
  predicate HasTitle(d: Draft)
  {
    d.title.Some? && d.title.value != ""
  }

  /** `line.startsWith(BULLET)`. */
  predicate IsBulletLine(line: string)
  {
    |line| > 0 && line[0] == Bullet
  }

  /**
   * `line.replace(BULLET, "").trim()`: `replace` with a string pattern
   * removes the first bullet, which is the leading one.
   */
  function BulletTitle(line: string): (title: string)
    requires IsBulletLine(line)
    ensures IsTrimmed(title) && |title| < |line|
  {
    TrimSpec(line[1..]);
    Trim(line[1..])
  }

  /**
   * `notes += `${line}\n``: the notes so far are kept at the front, with the
   * line and a newline after them; undefined notes read as the text
   * "undefined".
   */
  function AppendNote(notes: Option<string>, line: string): (r: string)
    ensures notes.Some? ==> |r| == |notes.value| + |line| + 1 && r[..|notes.value|] == notes.value
    ensures notes.None? ==> |r| == 9 + |line| + 1 && r[..9] == "undefined"
    ensures r[|r| - |line| - 1..] == line + "\n"
  {
    (match notes case None => "undefined" case Some(n) => n) + line + "\n"
  }

  /** `meeting.notes || ""`. */
  function NotesText(d: Draft): string
  {
    match d.notes case None => "" case Some(n) => n
  }

  /** `addMeeting`: the record pushed for a titled draft; `notes` is left out of it. */
  function AddMeeting(d: Draft): (m: Meeting)
    requires HasTitle(d)
    ensures m.title == d.title.value && m.title != ""
    ensures m.startTime == d.startTime && m.endTime == d.endTime
  {
    Meeting(d.title.value, FirstZoomUrl(NotesText(d)), d.startTime, d.endTime)
  }

  /**
   * A record carries a `meetingUrl` exactly when the notes of its draft hold
   * a Zoom URL, and then it is a Zoom URL of the notes that no other starts
   * before and none starting where it does is longer.
   */
  lemma AddMeetingUrl(d: Draft)
    requires HasTitle(d)
    ensures AddMeeting(d).meetingUrl.Some? <==> ContainsZoomUrl(NotesText(d))
    ensures AddMeeting(d).meetingUrl.Some? ==>
              IsZoomUrl(AddMeeting(d).meetingUrl.value)
              && exists i :: OccursAt(NotesText(d), AddMeeting(d).meetingUrl.value, i)
                             && (forall j, k :: 0 <= j < i ==> !ZoomUrlSpan(NotesText(d), j, k))
                             && forall k :: ZoomUrlSpan(NotesText(d), i, k) ==> k <= i + |AddMeeting(d).meetingUrl.value|
  {
    FirstZoomUrlFound(NotesText(d));
    FirstZoomUrlLeftmost(NotesText(d));
  }

  /**
   * One iteration of the loop over the lines. Records already pushed are
   * kept, at most one is added (only on a bullet line, when the draft has a
   * title), and a line that is not a bullet line leaves the title alone.
   */
  function Step(st: ParseState, raw: string): (r: ParseState)
    ensures st.meetings <= r.meetings
    ensures |r.meetings| > |st.meetings| <==> IsBulletLine(Trim(raw)) && HasTitle(st.current)
    ensures Pending(r) <= Pending(st) + 1
    ensures !IsBulletLine(Trim(raw)) ==> r.meetings == st.meetings && r.current.title == st.current.title
  {
    var line := Trim(raw);
    if IsBulletLine(line) then
      var flush := HasTitle(st.current);
      var meetings := if flush then st.meetings + [AddMeeting(st.current)] else st.meetings;
      var current := if flush then EmptyDraft else st.current;
      ParseState(meetings, current.(title := Some(BulletTitle(line)), notes := Some("")))
    else
      match FindMeetingRange(line)
      case Some((startTime, endTime)) =>
        st.(current := st.current.(startTime := Some(startTime), endTime := Some(endTime)))
      case None =>
        st.(current := st.current.(notes := Some(AppendNote(st.current.notes, line))))
  }

  /** A bullet line emits the titled draft and starts a new one with its title and empty notes. */
  lemma StepOnBullet(st: ParseState, raw: string)
    requires IsBulletLine(Trim(raw))
    ensures Step(st, raw)
            == ParseState(Finish(st), (if HasTitle(st.current) then EmptyDraft else st.current)
                                        .(title := Some(BulletTitle(Trim(raw))), notes := Some("")))
  {
  }

  /** The state after the loop has consumed `lines`, starting from `st`. */
  function Run(st: ParseState, lines: seq<string>): (r: ParseState)
    ensures st.meetings <= r.meetings
    ensures Pending(r) <= Pending(st) + |lines|
    decreases |lines|
  {
    if lines == [] then st else Step(Run(st, lines[..|lines| - 1]), lines[|lines| - 1])
  }

  /** How many records the state stands for: those pushed, and the draft if it has a title. */
  function Pending(st: ParseState): nat
  {
    |st.meetings| + if HasTitle(st.current) then 1 else 0
  }

  /** The records once the last, still titled, draft is emitted after the loop. */
  function Finish(st: ParseState): (ms: seq<Meeting>)
    ensures st.meetings <= ms
    ensures |ms| == Pending(st)
  {
    if HasTitle(st.current) then st.meetings + [AddMeeting(st.current)] else st.meetings
  }

  /** `parseMeetings(output)`. */
  function Meetings(output: string): (ms: seq<Meeting>)
    ensures |ms| <= |Split(output)|
  {
    Finish(Run(Start, Split(output)))
  }

  /** The object `currentMeeting`, whose fields the loop sets one at a time. */
  class PartialMeeting {
    var title: Option<string>
    var notes: Option<string>
    var startTime: Option<string>
    var endTime: Option<string>

    /** `{}` */
    constructor ()
      ensures Value() == EmptyDraft
    {
      title := None;
      notes := None;
      startTime := None;
      endTime := None;
    }

    function Value(): Draft
      reads this
    {
      Draft(title, notes, startTime, endTime)
    }
  }

  /**
   * `parseMeetings`: the loop over the lines, with `currentMeeting` an object
   * that is updated field by field and replaced by a fresh one after each
   * emission. It computes `Meetings(output)`, so its records follow the
   * titled bullet lines.
   */
  method ParseMeetings(output: string) returns (meetings: seq<Meeting>)
    ensures meetings == Meetings(output)
  {
    var lines := Split(output);
    meetings := [];
    var currentMeeting := new PartialMeeting();
    var i := 0;
    while i < |lines|
      invariant i <= |lines|
      invariant fresh(currentMeeting)
      invariant Run(Start, lines[..i]) == ParseState(meetings, currentMeeting.Value())
    {
      assert lines[..i + 1][..i] == lines[..i];
      meetings, currentMeeting := ConsumeLine(meetings, currentMeeting, lines[i]);
      i := i + 1;
    }
    assert lines[..i] == lines;
    if HasTitle(currentMeeting.Value()) {
      meetings := meetings + [AddMeeting(currentMeeting.Value())];
    }
  }

  /** The body of the loop of `parseMeetings`, for one line. */
  method ConsumeLine(meetings: seq<Meeting>, currentMeeting: PartialMeeting, raw: string)
    returns (meetings': seq<Meeting>, currentMeeting': PartialMeeting)
    modifies currentMeeting
    ensures currentMeeting' == currentMeeting || fresh(currentMeeting')
    ensures ParseState(meetings', currentMeeting'.Value())
            == Step(ParseState(meetings, old(currentMeeting.Value())), raw)
  {
    ghost var before := ParseState(meetings, currentMeeting.Value());
    meetings', currentMeeting' := meetings, currentMeeting;
    var line := Trim(raw);
    if IsBulletLine(line) {
      if HasTitle(currentMeeting'.Value()) {
        meetings' := meetings' + [AddMeeting(currentMeeting'.Value())];
        currentMeeting' := new PartialMeeting();
      }
      currentMeeting'.title := Some(BulletTitle(line));
      currentMeeting'.notes := Some("");
      StepOnBullet(before, raw);
    } else {
      var range := FindMeetingRange(line);
      if range.Some? {
        currentMeeting'.startTime := Some(range.value.0);
        currentMeeting'.endTime := Some(range.value.1);
      } else {
        currentMeeting'.notes := Some(AppendNote(currentMeeting'.notes, line));
      }
    }
  }

  // ---------------------------------------------------------------------
  // Titles, order and count
  // ---------------------------------------------------------------------

  function Titles(ms: seq<Meeting>): (ts: seq<string>)
    ensures |ts| == |ms| && forall k :: 0 <= k < |ms| ==> ts[k] == ms[k].title
  {
    seq(|ms|, k requires 0 <= k < |ms| => ms[k].title)
  }

  /** The titles of the bullet lines among `lines`, in order, leaving out those that trim to empty. */
  function BulletTitles(lines: seq<string>): (ts: seq<string>)
    ensures forall k :: 0 <= k < |ts| ==> ts[k] != ""
    decreases |lines|
  {
    if lines == [] then []
    else
      var line := Trim(lines[|lines| - 1]);
      BulletTitles(lines[..|lines| - 1])
      + (if IsBulletLine(line) && BulletTitle(line) != "" then [BulletTitle(line)] else [])
  }

  /** The title of the draft if it will be emitted. */
  function PendingTitle(d: Draft): seq<string>
  {
    if HasTitle(d) then [d.title.value] else []
  }

  /** The emitted titles followed by the pending one are the titles of the bullet lines seen. */
  lemma {:induction false} RunTitles(lines: seq<string>)
    ensures var st := Run(Start, lines);
            Titles(st.meetings) + PendingTitle(st.current) == BulletTitles(lines)
    decreases |lines|
  {
    if lines != [] {
      var prefix := lines[..|lines| - 1];
      RunTitles(prefix);
      var st := Run(Start, prefix);
      var line := Trim(lines[|lines| - 1]);
      if IsBulletLine(line) && HasTitle(st.current) {
        assert Titles(st.meetings + [AddMeeting(st.current)]) == Titles(st.meetings) + [st.current.title.value];
      }
    }
  }

  /**
   * Every record has a non-empty title, which is the trimmed text after the
   * bullet, and the records follow the bullet lines with non-empty titles,
   * one for one and in order.
   */
  lemma TitlesFollowBullets(output: string)
    ensures Titles(Meetings(output)) == BulletTitles(Split(output))
    ensures |Meetings(output)| == |BulletTitles(Split(output))|
    ensures forall k :: 0 <= k < |Meetings(output)| ==> Meetings(output)[k].title != ""
  {
    var lines := Split(output);
    var st := Run(Start, lines);
    RunTitles(lines);
    var ms := Finish(st);
    assert Meetings(output) == ms;
    assert Titles(ms) == Titles(st.meetings) + PendingTitle(st.current);
    assert |Titles(ms)| == |ms|;
  }

  /** Lines none of which is a bullet line give no titles. */
  lemma {:induction false} NoBulletNoTitles(lines: seq<string>)
    requires forall k :: 0 <= k < |lines| ==> !IsBulletLine(Trim(lines[k]))
    ensures BulletTitles(lines) == []
    decreases |lines|
  {
    if lines != [] {
      NoBulletNoTitles(lines[..|lines| - 1]);
    }
  }

  /** Text without a bullet line, the empty text among it, gives no records. */
  lemma NoBulletNoMeetings(output: string)
    requires forall k :: 0 <= k < |Split(output)| ==> !IsBulletLine(Trim(Split(output)[k]))
    ensures Meetings(output) == []
  {
    NoBulletNoTitles(Split(output));
    TitlesFollowBullets(output);
  }

  /** The empty export gives no records. */
  lemma EmptyOutputNoMeetings()
    ensures Meetings("") == []
  {
    assert Split("") == [""];
    NoBulletNoMeetings("");
  }

  // ---------------------------------------------------------------------
  // Times
  // ---------------------------------------------------------------------

  /** Start and end are set together, and each is a `\d+:\d+ [A|P]M` text. */
  ghost predicate TimesWellFormed(startTime: Option<string>, endTime: Option<string>)
  {
    (startTime.Some? <==> endTime.Some?)
    && (startTime.Some? ==> IsTimeOfDay(startTime.value) && IsTimeOfDay(endTime.value))
  }

  ghost predicate StateTimesWellFormed(st: ParseState)
  {
    TimesWellFormed(st.current.startTime, st.current.endTime)
    && forall k :: 0 <= k < |st.meetings| ==> TimesWellFormed(st.meetings[k].startTime, st.meetings[k].endTime)
  }

  /** The captures of a range line are two times of day. */
  lemma FoundRangeWellFormed(line: string)
    requires FindMeetingRange(line).Some?
    ensures IsTimeOfDay(FindMeetingRange(line).value.0) && IsTimeOfDay(FindMeetingRange(line).value.1)
  {
    FindMeetingRangeSpec(line);
  }

  /** Every step keeps the times of the drafts and records well formed. */
  lemma {:induction false} RunTimesWellFormed(lines: seq<string>)
    ensures StateTimesWellFormed(Run(Start, lines))
    decreases |lines|
  {
    if lines != [] {
      RunTimesWellFormed(lines[..|lines| - 1]);
      var line := Trim(lines[|lines| - 1]);
      if !IsBulletLine(line) && FindMeetingRange(line).Some? {
        FoundRangeWellFormed(line);
      }
    }
  }

  /**
   * Every record either has both times or neither, and each time it has is
   * the text of a `H:MM AM` time of day captured from a range line.
   */
  lemma MeetingTimesWellFormed(output: string)
    ensures forall k :: 0 <= k < |Meetings(output)| ==>
              TimesWellFormed(Meetings(output)[k].startTime, Meetings(output)[k].endTime)
  {
    RunTimesWellFormed(Split(output));
  }

  // ---------------------------------------------------------------------
  // Exports made of well-formed blocks
  // ---------------------------------------------------------------------

  /** One event of an export: its bullet line and the lines under it. */
  datatype Block = Block(heading: string, body: seq<string>)

  /** The heading is a bullet line with a non-empty title and no body line is a bullet line. */
  predicate WellFormedBlock(b: Block)
  {
    IsBulletLine(Trim(b.heading)) && BulletTitle(Trim(b.heading)) != ""
    && forall k :: 0 <= k < |b.body| ==> !IsBulletLine(Trim(b.body[k]))
  }

  predicate AllWellFormed(blocks: seq<Block>)
  {
    forall k :: 0 <= k < |blocks| ==> WellFormedBlock(blocks[k])
  }

  /** The lines of the blocks, one block after the other. */
  function Flatten(blocks: seq<Block>): seq<string>
    decreases |blocks|
  {
    if blocks == [] then []
    else
      var b := blocks[|blocks| - 1];
      Flatten(blocks[..|blocks| - 1]) + ([b.heading] + b.body)
  }

  /** The notes of a body: every line that holds no time range, trimmed, each followed by a newline. */
  function NoteText(body: seq<string>): string
    decreases |body|
  {
    if body == [] then ""
    else
      var line := Trim(body[|body| - 1]);
      NoteText(body[..|body| - 1]) + (if FindMeetingRange(line).Some? then "" else line + "\n")
  }

  /** The captures of the last line of a body that holds a time range. */
  function LastRange(body: seq<string>): Option<(string, string)>
    decreases |body|
  {
    if body == [] then None
    else match FindMeetingRange(Trim(body[|body| - 1]))
      case Some(range) => Some(range)
      case None => LastRange(body[..|body| - 1])
  }

  /** `time` replaced by the first capture of `range` when `first`, else by the second, when there is a range. */
  function Later(range: Option<(string, string)>, first: bool, time: Option<string>): Option<string>
  {
    match range
    case None => time
    case Some((s, e)) => Some(if first then s else e)
  }

  /** The draft a block leaves behind when it starts from a fresh object. */
  function BlockDraft(b: Block): Draft
    requires WellFormedBlock(b)
  {
    var range := LastRange(b.body);
    Draft(Some(BulletTitle(Trim(b.heading))), Some(NoteText(b.body)), Later(range, true, None), Later(range, false, None))
  }

  /**
   * The record a block stands for: the title of its bullet line, the first
   * Zoom URL among its note lines, and the times of its last range line.
   */
  function ExpectedMeeting(b: Block): Meeting
    requires WellFormedBlock(b)
  {
    var range := LastRange(b.body);
    Meeting(BulletTitle(Trim(b.heading)), FirstZoomUrl(NoteText(b.body)), Later(range, true, None), Later(range, false, None))
  }

  /** One record per block, in the order of the blocks. */
  function ExpectedMeetings(blocks: seq<Block>): (ms: seq<Meeting>)
    requires AllWellFormed(blocks)
    ensures |ms| == |blocks|
    ensures forall k :: 0 <= k < |blocks| ==> ms[k] == ExpectedMeeting(blocks[k])
    decreases |blocks|
  {
    if blocks == [] then []
    else ExpectedMeetings(blocks[..|blocks| - 1]) + [ExpectedMeeting(blocks[|blocks| - 1])]
  }

  /** Consuming `a` and then `b` is consuming `a + b`. */
  lemma {:induction false} RunAppend(st: ParseState, a: seq<string>, b: seq<string>)
    ensures Run(st, a + b) == Run(Run(st, a), b)
    decreases |b|
  {
    if b == [] {
      assert a + b == a;
    } else {
      assert (a + b)[..|a + b| - 1] == a + b[..|b| - 1];
      RunAppend(st, a, b[..|b| - 1]);
    }
  }

  /**
   * Under a heading, body lines without bullets only add notes and set
   * times: the notes become the body's note text and a range line overrides
   * the times held before.
   */
  lemma {:induction false} RunBody(ms: seq<Meeting>, d: Draft, body: seq<string>)
    requires d.notes == Some("")
    requires forall k :: 0 <= k < |body| ==> !IsBulletLine(Trim(body[k]))
    ensures Run(ParseState(ms, d), body)
            == ParseState(ms, d.(notes := Some(NoteText(body)),
                                 startTime := Later(LastRange(body), true, d.startTime),
                                 endTime := Later(LastRange(body), false, d.endTime)))
    decreases |body|
  {
    if body != [] {
      var prefix, raw := body[..|body| - 1], body[|body| - 1];
      RunBody(ms, d, prefix);
      var st := Run(ParseState(ms, d), prefix);
      var line := Trim(raw);
      assert !IsBulletLine(line);
      match FindMeetingRange(line)
      case Some(range) =>
        assert LastRange(body) == Some(range) && NoteText(body) == NoteText(prefix);
        assert Step(st, raw) == st.(current := st.current.(startTime := Some(range.0), endTime := Some(range.1)));
      case None =>
        assert LastRange(body) == LastRange(prefix) && NoteText(body) == AppendNote(st.current.notes, line);
        assert Step(st, raw) == st.(current := st.current.(notes := Some(NoteText(body))));
    }
  }

  /** A block flushes a titled draft, or takes over the empty one, and leaves its own draft. */
  lemma RunBlock(st: ParseState, b: Block)
    requires WellFormedBlock(b)
    requires st.current == EmptyDraft || HasTitle(st.current)
    ensures Run(st, [b.heading] + b.body) == ParseState(Finish(st), BlockDraft(b))
  {
    RunAppend(st, [b.heading], b.body);
    assert [b.heading][..0] == [];
    var title := BulletTitle(Trim(b.heading));
    RunBody(Finish(st), EmptyDraft.(title := Some(title), notes := Some("")), b.body);
  }

  /** After whole blocks, the records of all but the last block are out and the last is pending. */
  lemma {:induction false} RunBlocks(blocks: seq<Block>)
    requires AllWellFormed(blocks) && blocks != []
    ensures Run(Start, Flatten(blocks))
            == ParseState(ExpectedMeetings(blocks[..|blocks| - 1]), BlockDraft(blocks[|blocks| - 1]))
    decreases |blocks|
  {
    var n := |blocks|;
    var prefix := blocks[..n - 1];
    var b := blocks[n - 1];
    assert Flatten(blocks) == Flatten(prefix) + ([b.heading] + b.body);
    assert AllWellFormed(prefix) && WellFormedBlock(b) by {
      assert forall k :: 0 <= k < |prefix| ==> prefix[k] == blocks[k];
    }
    RunAppend(Start, Flatten(prefix), [b.heading] + b.body);
    if prefix == [] {
      assert Flatten(prefix) == [];
      RunBlock(Start, b);
    } else {
      RunBlocks(prefix);
      NextBlock(prefix, b, Run(Start, Flatten(prefix)));
    }
  }

  /** One more block after whole blocks: the pending draft is emitted and the new block's is pending. */
  lemma NextBlock(prefix: seq<Block>, b: Block, st: ParseState)
    requires AllWellFormed(prefix) && prefix != [] && WellFormedBlock(b)
    requires st == ParseState(ExpectedMeetings(prefix[..|prefix| - 1]), BlockDraft(prefix[|prefix| - 1]))
    ensures Run(st, [b.heading] + b.body) == ParseState(ExpectedMeetings(prefix), BlockDraft(b))
  {
    RunBlock(st, b);
    var last := prefix[|prefix| - 1];
    assert AddMeeting(BlockDraft(last)) == ExpectedMeeting(last);
  }

  /**
   * An export made of well-formed blocks gives one record per block, in
   * order: its title, the first Zoom URL of its notes, and the times of its
   * last range line (none when it has no range line).
   */
  lemma WellFormedExport(blocks: seq<Block>)
    requires AllWellFormed(blocks)
    ensures Finish(Run(Start, Flatten(blocks))) == ExpectedMeetings(blocks)
  {
    if blocks != [] {
      var b := blocks[|blocks| - 1];
      RunBlocks(blocks);
      assert HasTitle(BlockDraft(b));
      assert AddMeeting(BlockDraft(b)) == ExpectedMeeting(b);
    }
  }

  /** The same, for the text the blocks make when their lines are joined with newlines. */
  lemma WellFormedExportText(blocks: seq<Block>)
    requires AllWellFormed(blocks) && blocks != []
    requires forall k :: 0 <= k < |Flatten(blocks)| ==> '\n' !in Flatten(blocks)[k]
    ensures |Flatten(blocks)| >= 1
    ensures Meetings(Join(Flatten(blocks))) == ExpectedMeetings(blocks)
  {
    FlattenNotEmpty(blocks);
    SplitJoin(Flatten(blocks));
    WellFormedExport(blocks);
  }

  lemma FlattenNotEmpty(blocks: seq<Block>)
    requires blocks != []
    ensures |Flatten(blocks)| >= 1
  {
  }

  // ---------------------------------------------------------------------
  // A range line seen before the first bullet carries into the first record
  // ---------------------------------------------------------------------

  /** Lines before any bullet line set no title but do set the times. */
  lemma {:induction false} RunPreamble(pre: seq<string>)
    requires forall k :: 0 <= k < |pre| ==> !IsBulletLine(Trim(pre[k]))
    ensures Run(Start, pre).meetings == []
    ensures Run(Start, pre).current.title == None
    ensures Run(Start, pre).current.startTime == Later(LastRange(pre), true, None)
    ensures Run(Start, pre).current.endTime == Later(LastRange(pre), false, None)
    decreases |pre|
  {
    if pre != [] {
      RunPreamble(pre[..|pre| - 1]);
    }
  }

  /**
   * `currentMeeting` is only replaced when a record is emitted, so a range
   * line before the first bullet gives its times to the first record when
   * that record's own lines hold no range.
   */
  lemma PreambleRangeCarriesOver(pre: seq<string>, b: Block)
    requires forall k :: 0 <= k < |pre| ==> !IsBulletLine(Trim(pre[k]))
    requires WellFormedBlock(b) && LastRange(pre).Some? && LastRange(b.body).None?
    ensures Finish(Run(Start, pre + ([b.heading] + b.body)))
            == [Meeting(BulletTitle(Trim(b.heading)), FirstZoomUrl(NoteText(b.body)),
                        Some(LastRange(pre).value.0), Some(LastRange(pre).value.1))]
  {
    RunPreamble(pre);
    RunAppend(Start, pre, [b.heading] + b.body);
    BlockAfterUntitled(Run(Start, pre), b);
  }

  /**
   * A block read while the draft has no title emits nothing before it, so
   * the block's record keeps the times the draft held.
   */
  lemma BlockAfterUntitled(st: ParseState, b: Block)
    requires WellFormedBlock(b) && LastRange(b.body).None?
    requires !HasTitle(st.current)
    ensures Finish(Run(st, [b.heading] + b.body))
            == st.meetings + [Meeting(BulletTitle(Trim(b.heading)), FirstZoomUrl(NoteText(b.body)),
                                      st.current.startTime, st.current.endTime)]
  {
    RunAppend(st, [b.heading], b.body);
    assert [b.heading][..0] == [];
    var d := st.current.(title := Some(BulletTitle(Trim(b.heading))), notes := Some(""));
    RunBody(st.meetings, d, b.body);
  }

  /**
   * A bullet line whose title trims to empty emits nothing and keeps the
   * object, so a range line under it gives its times to the next titled
   * record when that record's own lines hold no range.
   */
  lemma UntitledBulletRangeCarriesOver(st: ParseState, heading: string, rangeLine: string, b: Block)
    requires !HasTitle(st.current)
    requires IsBulletLine(Trim(heading)) && BulletTitle(Trim(heading)) == ""
    requires FindMeetingRange(Trim(rangeLine)).Some? && !IsBulletLine(Trim(rangeLine))
    requires WellFormedBlock(b) && LastRange(b.body).None?
    ensures Finish(Run(st, [heading, rangeLine] + ([b.heading] + b.body)))
            == st.meetings + [Meeting(BulletTitle(Trim(b.heading)), FirstZoomUrl(NoteText(b.body)),
                                      Some(FindMeetingRange(Trim(rangeLine)).value.0),
                                      Some(FindMeetingRange(Trim(rangeLine)).value.1))]
  {
    RunAppend(st, [heading, rangeLine], [b.heading] + b.body);
    var range := FindMeetingRange(Trim(rangeLine)).value;
    var mid := Run(st, [heading, rangeLine]);
    assert mid == ParseState(st.meetings, st.current.(title := Some(""), notes := Some(""),
                                                      startTime := Some(range.0), endTime := Some(range.1))) by {
      RunPair(st, heading, rangeLine);
      var st1 := Step(st, heading);
      assert st1 == ParseState(st.meetings, st.current.(title := Some(""), notes := Some("")));
    }
    BlockAfterUntitled(mid, b);
  }

  /** Consuming two lines is two steps. */
  lemma RunPair(st: ParseState, x: string, y: string)
    ensures Run(st, [x, y]) == Step(Step(st, x), y)
  {
    assert [x][..0] == [];
    assert Run(st, [x]) == Step(st, x);
    assert [x, y][..1] == [x];
  }
}
