/** The shift-block extractor of `scrape_schedule`: every collapsible block of
    the schedule page becomes at most one shift entry, and a block that is
    malformed, is an availability placeholder, or raises while being read is
    dropped without disturbing the blocks after it. */
module Extractor {
  import opened Wrappers
  import opened Text
  import opened Clock

  /** One `calendarListRow` div of a block: its stripped text, and whether an
      anchor element sits inside it. */
  datatype Row = Row(text: string, hasAnchor: bool)

  /** One `<div data-role="collapsible">` block as the markup library shows it.
      - `dayId`: the `id` attribute of the enclosing `ul`; `None` when there is
        no such `ul` or it has no `id`.
      - `header`: the stripped texts of the `calendarListRow` divs inside the
        block's `h6`; `None` when the block has no `h6`.
      - `rows`: every `calendarListRow` div of the block, header rows included,
        in document order.
      - `address`: the stripped text of the first anchor whose id contains
        `lnkAddress`, if there is one.
      - `text`: the whole text of the block, not stripped. */
  datatype Block = Block(
    dayId: Option<string>,
    header: Option<seq<string>>,
    rows: seq<Row>,
    address: Option<string>,
    text: string)

  /** The dictionary appended to `schedule_entries`. */
  datatype Entry = Entry(start: DateTime, end: DateTime, location: string, summary: string, description: string)

  /** Exceptions raised while a block is read; the loop catches and logs them. */
  datatype Fault =
    | NotTwoTimes   // the time line does not split into exactly two parts on '-'
    | BadStart      // strptime rejects the start
    | BadEnd        // strptime rejects the end
    | NoShiftId     // nothing follows the last "ID:" (IndexError)

  /** Why a block yields no entry. */
  datatype Skip =
    | NoDay             // no enclosing ul with a non-empty id
    | NoHeader          // no h6
    | TooFewRows        // fewer than three header rows
    | AvailabilityBlock // an availability placeholder, not a booking
    | NoTimeRange       // the time line holds no '-'
    | Raised(fault: Fault)

  datatype Outcome = Emitted(entry: Entry) | Skipped(reason: Skip)

  const DayPrefix: string := "dayShifts-"
  const Availability: string := "Tillgänglighet"
  const BreakMarker: string := "Rast"
  const IdMarker: string := "ID:"

  /** `time_info.split('\n')[0].strip()`: the first line of the time row,
      a single line without surrounding whitespace. */
  function TimeLine(timeInfo: string): (r: string)
  {
    Strip(Split(timeInfo, "\n")[0])
  }

  /** The first line of the time row holds no line break and neither starts
      nor ends with whitespace. */
  lemma TimeLineClean(timeInfo: string)
    ensures '\n' !in TimeLine(timeInfo)
    ensures TimeLine(timeInfo) == [] || (!IsSpace(TimeLine(timeInfo)[0]) && !IsSpace(TimeLine(timeInfo)[|TimeLine(timeInfo)| - 1]))
  {
    var first := Split(timeInfo, "\n")[0];
    SplitPiecesClean(timeInfo, "\n");
    ContainsChar(first, '\n');
    StripWithin(first);
  }

  /** The break annotation: `"Rast N min"` where N is the stripped text between
      the first and the second "Rast" of the time row, or "" without "Rast". */
  function BreakNote(timeInfo: string): (r: string)
    ensures r != "" <==> Contains(timeInfo, BreakMarker)
  {
    if Contains(timeInfo, BreakMarker) then "Rast " + Strip(Split(timeInfo, BreakMarker)[1]) + " min"
    else ""
  }

  /** The event summary: `" - ".join` of the shift type, the location code when
      it is non-empty, and the break annotation when there is one. */
  function Summary(shiftType: string, code: string, breakNote: string): (r: string)
    ensures StartsWith(r, shiftType)
    ensures code == "" && breakNote == "" ==> r == shiftType
  {
    Join([shiftType] + (if code != "" then [code] else []) + (if breakNote != "" then [breakNote] else []), " - ")
  }

  /** The event location: `", ".join` of the address when it is non-empty,
      else of the location code when that is non-empty. */
  function Location(address: Option<string>, code: string): (r: string)
    ensures r == "" <==> (address.None? || address.value == "") && code == ""
    ensures r == code || (address.Some? && r == address.value)
  {
    var full := if address.Some? then address.value else "";
    Join(if full != "" then [full] else if code != "" then [code] else [], ", ")
  }

  /** Whether a row's text goes into the notes. */
  predicate IsNote(row: Row, shiftType: string, timeInfo: string, code: string)
  {
    row.text != "" && row.text != shiftType && row.text != timeInfo && row.text != code
    && !StartsWith(row.text, IdMarker) && !row.hasAnchor
  }

  /** The notes list: the texts of the rows that pass `IsNote`, in row order. */
  function Notes(rows: seq<Row>, shiftType: string, timeInfo: string, code: string): (r: seq<string>)
    ensures |r| <= |rows|
    ensures forall i :: 0 <= i < |r| ==> !StartsWith(r[i], IdMarker)
  {
    if rows == [] then []
    else
      var last := rows[|rows| - 1];
      Notes(rows[..|rows| - 1], shiftType, timeInfo, code)
      + (if IsNote(last, shiftType, timeInfo, code) then [last.text] else [])
  }

  /** What the search for "ID:" in the block's text finds. */
  datatype IdScan = NoMarker | IdToken(id: string) | NoToken

  /** `text.split("ID:")[-1].strip().split()[0]`, guarded by `"ID:" in text`. */
  function ScanId(text: string): (r: IdScan)
    ensures r.NoMarker? <==> !Contains(text, IdMarker)
    ensures r.IdToken? ==> r.id != "" && NoSpace(r.id)
  {
    if !Contains(text, IdMarker) then NoMarker
    else
      match FirstWord(Strip(LastPiece(text, IdMarker)))
      case None => NoToken
      case Some(w) => IdToken(w)
  }

  /** "ID:" followed by text without "ID:" is the last piece of a split on
      "ID:": no occurrence overlaps the marker, as "ID:" cannot overlap itself. */
  lemma {:induction false} IdLastPiece(pre: string, post: string)
    requires !Contains(post, IdMarker)
    ensures Contains(pre + IdMarker + post, IdMarker)
    ensures LastPiece(pre + IdMarker + post, IdMarker) == post
    decreases |pre|
  {
    var s := pre + IdMarker + post;
    IdOccurs(pre, post);
    var f := Find(s, IdMarker).value;
    LastPieceCut(s, IdMarker, f);
    if f == |pre| {
      assert s[f + 3..] == post;
      SplitWhole(post, IdMarker);
    } else {
      IdSkip(pre, post, f);
      IdLastPiece(pre[f + 3..], post);
    }
  }

  /** The marker occurs where it was put. */
  lemma IdOccurs(pre: string, post: string)
    ensures OccursAt(pre + IdMarker + post, IdMarker, |pre|)
  {
    var s := pre + IdMarker + post;
    assert s[|pre|..|pre| + 3] == IdMarker;
  }

  /** An earlier "ID:" ends before the marker, and cutting after it leaves the
      rest of the text before the marker, the marker and what follows. */
  lemma IdSkip(pre: string, post: string, f: nat)
    requires OccursAt(pre + IdMarker + post, IdMarker, f) && f < |pre|
    ensures f + 3 <= |pre|
    ensures (pre + IdMarker + post)[f + 3..] == pre[f + 3..] + IdMarker + post
  {
    var s := pre + IdMarker + post;
    assert s[|pre|] == 'I';
    OccursChars(s, IdMarker, f);
    assert s == pre + (IdMarker + post);
    DropAppend(pre, IdMarker + post, f + 3);
  }

  /** The id is the first token after the last "ID:", and there is none
      when only whitespace follows it. */
  lemma ScanIdAfterLast(pre: string, post: string)
    requires !Contains(post, IdMarker)
    ensures ScanId(pre + IdMarker + post)
            == if AllSpace(post) then NoToken else IdToken(TakeWord(TrimStart(post)))
  {
    IdLastPiece(pre, post);
    FirstWordStrip(post);
  }

  /** The event description: the notes joined by newlines, then `"ID: <id>"`,
      on a line of its own only when there are notes before it. */
  function Description(notes: seq<string>, id: string): (r: string)
    ensures id == "" ==> r == Join(notes, "\n")
    ensures id != "" ==> EndsWith(r, "ID: " + id)
  {
    var line := "ID: " + id;
    assert id != "" && notes != [] ==> (Join(notes, "\n") + "\n" + line)[|Join(notes, "\n") + "\n" + line| - |line|..] == line;
    var text := if notes != [] then Join(notes, "\n") else "";
    if id == "" then text
    else if text != "" then text + "\n" + ("ID: " + id)
    else "ID: " + id
  }

  /** The two times of a shift, or why the block yields none. */
  datatype Timing = Timed(start: DateTime, end: DateTime) | Untimed(reason: Skip)

  /** The two `strptime` calls: both halves parsed against the same date, the
      start first, so a bad start is reported before a bad end. */
  function StampPair(date: string, first: string, second: string): (r: Timing)
    ensures r.Timed? ==>
              && ValidDateTime(r.start) && ValidDateTime(r.end)
              && ParseDate(date) == Some(r.start.date) && r.start.date == r.end.date
              && r.start.second == 0 && r.start.micro == 0 && r.end.second == 0 && r.end.micro == 0
    ensures r.Untimed? ==> r.reason == Raised(BadStart) || r.reason == Raised(BadEnd)
  {
    match (ParseStamp(date, first), ParseStamp(date, second))
    case (None, _) => Untimed(Raised(BadStart))
    case (Some(_), None) => Untimed(Raised(BadEnd))
    case (Some(start), Some(end)) => Timed(start, end)
  }

  /** The time part of the loop body: the first line of the time row, cut at
      its one dash, each half parsed with `strptime` against the date taken
      from the container id. */
  function ShiftTimes(dayId: string, timeInfo: string): (r: Timing)
    ensures r.Timed? ==>
              && multiset(TimeLine(timeInfo))['-'] == 1
              && ValidDateTime(r.start) && ValidDateTime(r.end)
              && ParseDate(RemoveAll(dayId, DayPrefix)) == Some(r.start.date) && r.start.date == r.end.date
              && r.start.second == 0 && r.start.micro == 0 && r.end.second == 0 && r.end.micro == 0
    ensures r.Untimed? ==>
              || r.reason == NoTimeRange || r.reason == Raised(NotTwoTimes)
              || r.reason == Raised(BadStart) || r.reason == Raised(BadEnd)
  {
    var line := TimeLine(timeInfo);
    if !Contains(line, "-") then Untimed(NoTimeRange)
    else
      var halves := Split(line, "-");
      if |halves| != 2 then Untimed(Raised(NotTwoTimes))
      else
        SplitCharCount(line, '-');
        StampPair(RemoveAll(dayId, DayPrefix), Strip(halves[0]), Strip(halves[1]))
  }

  /** The body of the `for shift in shifts` loop, as one value. */
  function Extract(b: Block): (o: Outcome)
    ensures o.Emitted? ==>
              && b.dayId.Some? && b.dayId.value != "" && b.header.Some?
              && |b.header.value| >= 3 && b.header.value[0] != Availability
              && multiset(TimeLine(b.header.value[1]))['-'] == 1
    ensures o.Emitted? ==>
              && ValidDateTime(o.entry.start) && ValidDateTime(o.entry.end)
              && o.entry.start.date == o.entry.end.date
              && o.entry.start.second == 0 && o.entry.start.micro == 0
              && o.entry.end.second == 0 && o.entry.end.micro == 0
  {
    if b.dayId.None? || b.dayId.value == "" then Skipped(NoDay)
    else if b.header.None? then Skipped(NoHeader)
    else if |b.header.value| < 3 then Skipped(TooFewRows)
    else
      var shiftType, timeInfo, code := b.header.value[0], b.header.value[1], b.header.value[2];
      if shiftType == Availability then Skipped(AvailabilityBlock)
      else
        match ShiftTimes(b.dayId.value, timeInfo)
        case Untimed(reason) => Skipped(reason)
        case Timed(start, end) => Emit(b, start, end)
  }

  /** The rest of the loop body once the times are parsed: the block is
      dropped without an id, and otherwise becomes an entry. */
  function Emit(b: Block, start: DateTime, end: DateTime): Outcome
    requires b.header.Some? && |b.header.value| >= 3
  {
    var shiftType, timeInfo, code := b.header.value[0], b.header.value[1], b.header.value[2];
    var id := ScanId(b.text);
    if id.NoToken? then Skipped(Raised(NoShiftId))
    else
      Emitted(Entry(start, end, Location(b.address, code),
                    Summary(shiftType, code, BreakNote(timeInfo)),
                    Description(Notes(b.rows, shiftType, timeInfo, code), if id.IdToken? then id.id else "")))
  }

  /** An emitted entry starts on the date that the block's day id names once
      its "dayShifts-" prefix is removed. */
  lemma ExtractDay(b: Block)
    requires Extract(b).Emitted?
    ensures b.dayId.Some? && b.header.Some? && |b.header.value| >= 3
    ensures ParseDate(RemoveAll(b.dayId.value, DayPrefix)) == Some(Extract(b).entry.start.date)
  {
    var t := ShiftTimes(b.dayId.value, b.header.value[1]);
    assert t.Timed? && Extract(b) == Emit(b, t.start, t.end);
  }

  /** The notes loop: each row's text is appended when it passes the filter. */
  method CollectNotes(rows: seq<Row>, shiftType: string, timeInfo: string, code: string)
    returns (notes: seq<string>)
    ensures notes == Notes(rows, shiftType, timeInfo, code)
  {
    notes := [];
    for i := 0 to |rows|
      invariant notes == Notes(rows[..i], shiftType, timeInfo, code)
    {
      assert rows[..i + 1][..i] == rows[..i];
      var text := rows[i].text;
      if text != "" && text != shiftType && text != timeInfo && text != code && !StartsWith(text, IdMarker) {
        if !rows[i].hasAnchor {
          notes := notes + [text];
        }
      }
    }
    assert rows[..|rows|] == rows;
  }

  /** The loop body written out statement by statement, with the notes list
      built row by row; it computes exactly `Extract`. */
  method ParseShift(b: Block) returns (o: Outcome)
    ensures o == Extract(b)
  {
    if b.dayId.None? || b.dayId.value == "" {
      return Skipped(NoDay);
    }
    var date := RemoveAll(b.dayId.value, DayPrefix);
    if b.header.None? {
      return Skipped(NoHeader);
    }
    var header := b.header.value;
    if |header| < 3 {
      return Skipped(TooFewRows);
    }
    var shiftType := header[0];
    if shiftType == Availability {
      return Skipped(AvailabilityBlock);
    }
    var timeInfo, code := header[1], header[2];
    var line := TimeLine(timeInfo);
    if !Contains(line, "-") {
      return Skipped(NoTimeRange);
    }
    var halves := Split(line, "-");
    if |halves| != 2 {
      return Skipped(Raised(NotTwoTimes));
    }
    var start := ParseStamp(date, Strip(halves[0]));
    if start.None? {
      return Skipped(Raised(BadStart));
    }
    var end := ParseStamp(date, Strip(halves[1]));
    if end.None? {
      return Skipped(Raised(BadEnd));
    }
    var breakNote := BreakNote(timeInfo);
    var notes := CollectNotes(b.rows, shiftType, timeInfo, code);
    var id := ScanId(b.text);
    if id.NoToken? {
      return Skipped(Raised(NoShiftId));
    }
    var summary := Summary(shiftType, code, breakNote);
    var location := Location(b.address, code);
    var description := Description(notes, if id.IdToken? then id.id else "");
    o := Emitted(Entry(start.value, end.value, location, summary, description));
  }

  /** The entries a run collects from its blocks, in block order. */
  function Entries(blocks: seq<Block>): (r: seq<Entry>)
    ensures |r| <= |blocks|
  {
    if blocks == [] then []
    else
      var last := blocks[|blocks| - 1];
      Entries(blocks[..|blocks| - 1]) + (match Extract(last) case Emitted(e) => [e] case Skipped(_) => [])
  }

  /** The `for shift in shifts` loop: one `ParseShift` per block, appending
      what it emits; a skipped or failing block adds nothing. */
  method ScrapeSchedule(blocks: seq<Block>) returns (entries: seq<Entry>)
    ensures entries == Entries(blocks)
  {
    entries := [];
    for i := 0 to |blocks|
      invariant entries == Entries(blocks[..i])
    {
      assert blocks[..i + 1][..i] == blocks[..i];
      var o := ParseShift(blocks[i]);
      if o.Emitted? {
        entries := entries + [o.entry];
      }
    }
    assert blocks[..|blocks|] == blocks;
  }

  // ---------------------------------------------------------------------
  // Properties

  /** Collecting over two runs of blocks is collecting over each. */
  lemma {:induction false} EntriesAppend(a: seq<Block>, b: seq<Block>)
    ensures Entries(a + b) == Entries(a) + Entries(b)
    decreases |b|
  {
    if b != [] {
      var init := b[..|b| - 1];
      assert (a + b)[..|a + b| - 1] == a + init;
      assert (a + b)[|a + b| - 1] == b[|b| - 1];
      EntriesAppend(a, init);
    } else {
      assert a + b == a;
    }
  }

  /** A block that yields nothing (malformed, availability, or raising) leaves
      the entries of every block before and after it untouched. */
  lemma SkippedBlockIsolated(before: seq<Block>, b: Block, after: seq<Block>)
    requires Extract(b).Skipped?
    ensures Entries(before + [b] + after) == Entries(before) + Entries(after)
  {
    EntriesAppend(before + [b], after);
    assert (before + [b])[..|before|] == before;
    assert Entries(before + [b]) == Entries(before);
  }

  /** The five structural reasons for a block to yield nothing. */
  lemma SkipReasons(b: Block)
    ensures b.dayId.None? || b.dayId == Some("") ==> Extract(b) == Skipped(NoDay)
    ensures b.dayId.Some? && b.dayId.value != "" && b.header.None? ==> Extract(b) == Skipped(NoHeader)
    ensures b.dayId.Some? && b.dayId.value != "" && b.header.Some? && |b.header.value| < 3
      ==> Extract(b) == Skipped(TooFewRows)
    ensures b.header.Some? && |b.header.value| >= 3 && b.header.value[0] == Availability
      ==> Extract(b).Skipped?
    ensures b.header.Some? && |b.header.value| >= 3 && '-' !in TimeLine(b.header.value[1])
      ==> Extract(b).Skipped?
  {
    if b.header.Some? && |b.header.value| >= 3 {
      ContainsChar(TimeLine(b.header.value[1]), '-');
    }
  }

  /** A time line with two or more dashes fails the two-way split and the
      block is dropped. */
  lemma ManyDashesRaise(b: Block)
    requires b.dayId.Some? && b.dayId.value != "" && b.header.Some? && |b.header.value| >= 3
    requires b.header.value[0] != Availability
    requires multiset(TimeLine(b.header.value[1]))['-'] >= 2
    ensures Extract(b) == Skipped(Raised(NotTwoTimes))
  {
    var line := TimeLine(b.header.value[1]);
    SplitCharCount(line, '-');
    ContainsChar(line, '-');
  }

  /** The summary spelled out: the shift type, then " - " and the location
      code if it is non-empty, then " - " and the break note if there is one. */
  lemma SummaryShape(shiftType: string, code: string, breakNote: string)
    ensures Summary(shiftType, code, breakNote)
      == shiftType + (if code != "" then " - " + code else "") + (if breakNote != "" then " - " + breakNote else "")
  {
    var parts := [shiftType] + (if code != "" then [code] else []) + (if breakNote != "" then [breakNote] else []);
    if code != "" && breakNote != "" {
      assert parts == [shiftType, code, breakNote];
      assert parts[1..] == [code, breakNote];
      assert parts[1..][1..] == [breakNote];
      assert Join(parts[1..], " - ") == code + " - " + breakNote;
      assert Join(parts, " - ") == shiftType + " - " + (code + " - " + breakNote);
    } else if code != "" {
      assert parts == [shiftType, code];
      assert parts[1..] == [code];
      assert Join(parts, " - ") == shiftType + " - " + code;
    } else if breakNote != "" {
      assert parts == [shiftType, breakNote];
      assert parts[1..] == [breakNote];
      assert Join(parts, " - ") == shiftType + " - " + breakNote;
    } else {
      assert parts == [shiftType];
    }
  }

  /** The location is the address when that is non-empty and the location
      code otherwise; it never combines the two. */
  lemma LocationChoice(address: Option<string>, code: string)
    ensures Location(address, code)
      == if address.Some? && address.value != "" then address.value else code
  {
  }

  /** A note is exactly the text of a row that passes the filter. */
  lemma {:induction false} NotesMembers(rows: seq<Row>, shiftType: string, timeInfo: string, code: string)
    ensures |Notes(rows, shiftType, timeInfo, code)| <= |rows|
    ensures forall t ::
              t in Notes(rows, shiftType, timeInfo, code)
              <==> exists i :: 0 <= i < |rows| && rows[i].text == t && IsNote(rows[i], shiftType, timeInfo, code)
    decreases |rows|
  {
    if rows != [] {
      var init := rows[..|rows| - 1];
      NotesMembers(init, shiftType, timeInfo, code);
      forall t
        ensures t in Notes(rows, shiftType, timeInfo, code)
          <==> exists i :: 0 <= i < |rows| && rows[i].text == t && IsNote(rows[i], shiftType, timeInfo, code)
      {
        if exists i :: 0 <= i < |rows| && rows[i].text == t && IsNote(rows[i], shiftType, timeInfo, code) {
          var i :| 0 <= i < |rows| && rows[i].text == t && IsNote(rows[i], shiftType, timeInfo, code);
          if i < |rows| - 1 {
            assert init[i] == rows[i];
          }
        }
        if t in Notes(init, shiftType, timeInfo, code) {
          var i :| 0 <= i < |init| && init[i].text == t && IsNote(init[i], shiftType, timeInfo, code);
          assert rows[i] == init[i];
        }
      }
    }
  }

  /** The description is the notes and, when there is an id, the line
      `"ID: <id>"`, joined by newlines. */
  lemma DescriptionLines(notes: seq<string>, id: string)
    requires forall i :: 0 <= i < |notes| ==> notes[i] != ""
    ensures Description(notes, id) == Join(notes + (if id != "" then ["ID: " + id] else []), "\n")
  {
    if id == "" {
      assert notes + [] == notes;
    } else if notes == [] {
      assert notes + ["ID: " + id] == ["ID: " + id];
    } else {
      var text := Join(notes, "\n");
      JoinNonEmpty(notes, "\n");
      JoinSnoc(notes, "ID: " + id, "\n");
    }
  }

  /** Joining non-empty pieces never yields the empty string. */
  lemma JoinNonEmpty(parts: seq<string>, sep: string)
    requires parts != [] && parts[0] != ""
    ensures Join(parts, sep) != ""
  {
  }

  /** The rows that pass the filter are non-empty. */
  lemma {:induction false} NotesNonEmpty(rows: seq<Row>, shiftType: string, timeInfo: string, code: string)
    ensures forall i :: 0 <= i < |Notes(rows, shiftType, timeInfo, code)| ==> Notes(rows, shiftType, timeInfo, code)[i] != ""
  {
    NotesMembers(rows, shiftType, timeInfo, code);
    var n := Notes(rows, shiftType, timeInfo, code);
    forall i | 0 <= i < |n| ensures n[i] != "" {
      assert n[i] in n;
    }
  }

  /** A string with no whitespace at either end is left alone by `strip()`. */
  lemma StripKeeps(s: string)
    requires s != [] && !IsSpace(s[0]) && !IsSpace(s[|s| - 1])
    ensures Strip(s) == s
  {
    assert s == [] + s + [];
    StripUnique(s, [], s, []);
  }

  /** The date of a `dayShifts-YYYY-MM-DD` container id is `YYYY-MM-DD`. */
  lemma DayIdDate(d: Date)
    requires ValidDate(d)
    ensures RemoveAll(DayPrefix + FormatDate(d), DayPrefix) == FormatDate(d)
  {
    FormatDateChars(d);
    if Contains(FormatDate(d), DayPrefix) {
      ContainsHead(FormatDate(d), DayPrefix);
    }
    RemoveAllPrefix(DayPrefix, FormatDate(d));
  }

  /** What `ShiftTimes` does once the first line has been cut at its one
      dash: the outcome depends only on the two `strptime` results. */
  lemma TimesAtDash(dayId: string, timeInfo: string, p1: string, p2: string, date: string)
    requires Contains(TimeLine(timeInfo), "-")
    requires |Split(TimeLine(timeInfo), "-")| == 2
    requires Split(TimeLine(timeInfo), "-")[0] == p1
    requires Split(TimeLine(timeInfo), "-")[1] == p2
    requires RemoveAll(dayId, DayPrefix) == date
    ensures ShiftTimes(dayId, timeInfo) == StampPair(date, Strip(p1), Strip(p2))
  {
  }

  /** For a block with a day, at least three header rows and no availability
      marker, a time row that does not parse makes `Extract` skip the block
      for that reason, whatever else the block holds. */
  lemma ExtractUntimed(b: Block)
    requires b.dayId.Some? && b.dayId.value != "" && b.header.Some?
    requires |b.header.value| >= 3 && b.header.value[0] != Availability
    requires ShiftTimes(b.dayId.value, b.header.value[1]).Untimed?
    ensures Extract(b) == Skipped(ShiftTimes(b.dayId.value, b.header.value[1]).reason)
  {
  }

  /** For such a block with no "ID:" in its text, parsed times make `Extract`
      emit an entry built from the header rows. */
  lemma ExtractWithoutId(b: Block, start: DateTime, end: DateTime)
    requires b.dayId.Some? && b.dayId.value != "" && b.header.Some?
    requires |b.header.value| >= 3 && b.header.value[0] != Availability
    requires ShiftTimes(b.dayId.value, b.header.value[1]) == Timed(start, end)
    requires !Contains(b.text, IdMarker)
    ensures Extract(b) == Emitted(Entry(start, end, Location(b.address, b.header.value[2]),
                                        Summary(b.header.value[0], b.header.value[2], BreakNote(b.header.value[1])),
                                        Description(Notes(b.rows, b.header.value[0], b.header.value[1], b.header.value[2]), "")))
  {
    NoIdScan(b.text);
    assert Extract(b) == Emit(b, start, end);
  }

  /** A text without "ID:" has no id. */
  lemma NoIdScan(text: string)
    requires !Contains(text, IdMarker)
    ensures ScanId(text) == NoMarker
  {
  }

  /** For such a block whose text has a last "ID:", parsed times make
      `Extract` emit the entry described with the first token after that
      marker, or drop the block when only whitespace follows it. */
  lemma ExtractWithId(b: Block, start: DateTime, end: DateTime, pre: string, post: string)
    requires b.dayId.Some? && b.dayId.value != "" && b.header.Some?
    requires |b.header.value| >= 3 && b.header.value[0] != Availability
    requires ShiftTimes(b.dayId.value, b.header.value[1]) == Timed(start, end)
    requires b.text == pre + IdMarker + post && !Contains(post, IdMarker)
    ensures AllSpace(post) ==> Extract(b) == Skipped(Raised(NoShiftId))
    ensures !AllSpace(post) ==>
              Extract(b) == Emitted(Entry(start, end, Location(b.address, b.header.value[2]),
                                          Summary(b.header.value[0], b.header.value[2], BreakNote(b.header.value[1])),
                                          Description(Notes(b.rows, b.header.value[0], b.header.value[1], b.header.value[2]),
                                                      TakeWord(TrimStart(post)))))
  {
    ScanIdAfterLast(pre, post);
    assert Extract(b) == Emit(b, start, end);
  }

  /** The first line of a time row, when it is free of leading and trailing
      whitespace. */
  lemma FirstLine(line: string, more: string)
    requires line != [] && !IsSpace(line[0]) && !IsSpace(line[|line| - 1]) && '\n' !in line
    requires more == [] || more[0] == '\n'
    ensures TimeLine(line + more) == line
  {
    if more == [] {
      assert line + more == line;
      SplitNone(line, '\n');
    } else {
      assert line + more == line + ['\n'] + more[1..];
      SplitFirst(line, '\n', more[1..]);
    }
    StripKeeps(line);
  }

  /** A first line made of two dash-free, unpadded halves around one dash
      is cut into exactly those halves. */
  lemma DashCut(p1: string, p2: string, more: string)
    requires p1 != [] && !IsSpace(p1[0]) && !IsSpace(p1[|p1| - 1])
    requires p2 != [] && !IsSpace(p2[0]) && !IsSpace(p2[|p2| - 1])
    requires '-' !in p1 && '-' !in p2 && '\n' !in p1 && '\n' !in p2
    requires more == [] || more[0] == '\n'
    ensures TimeLine(p1 + "-" + p2 + more) == p1 + "-" + p2
    ensures Contains(p1 + "-" + p2, "-")
    ensures |Split(p1 + "-" + p2, "-")| == 2
    ensures Split(p1 + "-" + p2, "-")[0] == p1 && Split(p1 + "-" + p2, "-")[1] == p2
    ensures Strip(p1) == p1 && Strip(p2) == p2
  {
    var line := p1 + "-" + p2;
    assert line + more == p1 + "-" + p2 + more;
    FirstLine(line, more);
    ContainsChar(line, '-');
    SplitTwo(p1, p2, '-');
    StripKeeps(p1);
    StripKeeps(p2);
  }

  /** A first line `HH:MM-HH:MM` under a `dayShifts-YYYY-MM-DD` id gives
      those two times on that date. */
  lemma FormattedTimes(d: Date, h1: nat, m1: nat, h2: nat, m2: nat, more: string)
    requires ValidDate(d) && h1 < 24 && m1 < 60 && h2 < 24 && m2 < 60
    requires more == [] || more[0] == '\n'
    ensures ShiftTimes(DayPrefix + FormatDate(d), FormatClock(h1, m1) + "-" + FormatClock(h2, m2) + more)
            == Timed(DateTime(d, h1, m1, 0, 0), DateTime(d, h2, m2, 0, 0))
  {
    var c1, c2 := FormatClock(h1, m1), FormatClock(h2, m2);
    FormatClockChars(h1, m1);
    FormatClockChars(h2, m2);
    DashCut(c1, c2, more);
    DayIdDate(d);
    ParseFormat(d, h1, m1);
    ParseFormat(d, h2, m2);
    TimesAtDash(DayPrefix + FormatDate(d), c1 + "-" + c2 + more, c1, c2, FormatDate(d));
  }

  /** A time followed by more text is no `%H:%M`, and the whole stays a
      dash-free, unpadded half. */
  lemma TimeWithText(h: nat, m: nat, rest: string)
    requires h < 24 && m < 60
    requires rest != [] && !IsSpace(rest[|rest| - 1]) && '\n' !in rest && '-' !in rest
    ensures ParseClock(FormatClock(h, m) + rest).None?
    ensures var tail := FormatClock(h, m) + rest;
            && !IsSpace(tail[0]) && !IsSpace(tail[|tail| - 1]) && '-' !in tail && '\n' !in tail
  {
    var tail := FormatClock(h, m) + rest;
    FormatClockChars(h, m);
    assert tail[0] == FormatClock(h, m)[0];
    assert tail[|tail| - 1] == rest[|rest| - 1];
    if ParseClock(tail).Some? {
      ClockLength(tail);
    }
  }

  /** A start time, a dash and an end half `strptime` rejects: the shift has
      no times, for a bad end. */
  lemma BadEndHalf(d: Date, h1: nat, m1: nat, tail: string)
    requires ValidDate(d) && h1 < 24 && m1 < 60
    requires tail != [] && !IsSpace(tail[0]) && !IsSpace(tail[|tail| - 1])
    requires '-' !in tail && '\n' !in tail && ParseClock(tail).None?
    ensures ShiftTimes(DayPrefix + FormatDate(d), FormatClock(h1, m1) + "-" + tail) == Untimed(Raised(BadEnd))
  {
    var c1 := FormatClock(h1, m1);
    FormatClockChars(h1, m1);
    DashCut(c1, tail, []);
    assert c1 + "-" + tail + [] == c1 + "-" + tail;
    DayIdDate(d);
    ParseFormat(d, h1, m1);
    TimesAtDash(DayPrefix + FormatDate(d), c1 + "-" + tail, c1, tail, FormatDate(d));
  }

  /** A first line `HH:MM-HH:MM<text>`: the end half keeps the text after
      the time, `strptime` rejects it, and the shift has no times. */
  lemma SameLineTimes(d: Date, h1: nat, m1: nat, h2: nat, m2: nat, rest: string)
    requires ValidDate(d) && h1 < 24 && m1 < 60 && h2 < 24 && m2 < 60
    requires rest != [] && !IsSpace(rest[|rest| - 1]) && '\n' !in rest && '-' !in rest
    ensures ShiftTimes(DayPrefix + FormatDate(d), FormatClock(h1, m1) + "-" + FormatClock(h2, m2) + rest)
            == Untimed(Raised(BadEnd))
  {
    var c1, c2 := FormatClock(h1, m1), FormatClock(h2, m2);
    TimeWithText(h2, m2, rest);
    assert c1 + "-" + c2 + rest == c1 + "-" + (c2 + rest);
    BadEndHalf(d, h1, m1, c2 + rest);
  }

  /** A booking block whose container id is `dayShifts-` and a date, and whose
      time row starts with a line `HH:MM-HH:MM` (further lines, such as the
      break, may follow), yields an entry on that date at those two times,
      titled, placed and described from its header rows. */
  lemma WellFormedBlock(b: Block, d: Date, h1: nat, m1: nat, h2: nat, m2: nat, more: string)
    requires ValidDate(d) && h1 < 24 && m1 < 60 && h2 < 24 && m2 < 60
    requires b.dayId == Some(DayPrefix + FormatDate(d))
    requires b.header.Some? && |b.header.value| >= 3 && b.header.value[0] != Availability
    requires b.header.value[1] == FormatClock(h1, m1) + "-" + FormatClock(h2, m2) + more
    requires more == [] || more[0] == '\n'
    requires !Contains(b.text, IdMarker)
    ensures Extract(b) == Emitted(Entry(DateTime(d, h1, m1, 0, 0), DateTime(d, h2, m2, 0, 0),
                                        Location(b.address, b.header.value[2]),
                                        Summary(b.header.value[0], b.header.value[2],
                                                BreakNote(b.header.value[1])),
                                        Description(Notes(b.rows, b.header.value[0],
                                                          b.header.value[1], b.header.value[2]), "")))
  {
    FormattedTimes(d, h1, m1, h2, m2, more);
    ExtractWithoutId(b, DateTime(d, h1, m1, 0, 0), DateTime(d, h2, m2, 0, 0));
  }

  /** The same block with a shift id: the description ends with the line
      `ID: <id>`, where the id is the first token after the last "ID:". */
  lemma WellFormedIdBlock(b: Block, d: Date, h1: nat, m1: nat, h2: nat, m2: nat, more: string,
                          pre: string, post: string)
    requires ValidDate(d) && h1 < 24 && m1 < 60 && h2 < 24 && m2 < 60
    requires b.dayId == Some(DayPrefix + FormatDate(d))
    requires b.header.Some? && |b.header.value| >= 3 && b.header.value[0] != Availability
    requires b.header.value[1] == FormatClock(h1, m1) + "-" + FormatClock(h2, m2) + more
    requires more == [] || more[0] == '\n'
    requires b.text == pre + IdMarker + post && !Contains(post, IdMarker) && !AllSpace(post)
    ensures Extract(b) == Emitted(Entry(DateTime(d, h1, m1, 0, 0), DateTime(d, h2, m2, 0, 0),
                                        Location(b.address, b.header.value[2]),
                                        Summary(b.header.value[0], b.header.value[2],
                                                BreakNote(b.header.value[1])),
                                        Description(Notes(b.rows, b.header.value[0],
                                                          b.header.value[1], b.header.value[2]),
                                                    TakeWord(TrimStart(post)))))
  {
    FormattedTimes(d, h1, m1, h2, m2, more);
    ExtractWithId(b, DateTime(d, h1, m1, 0, 0), DateTime(d, h2, m2, 0, 0), pre, post);
  }

  /** The break on the same line as the times (`HH:MM-HH:MM Rast N`, or
      `HH:MM-HH:MMRast N` when the two are separate text nodes joined by
      `get_text(strip=True)`) makes the block yield nothing: `strptime` fails
      on the end time. */
  lemma SameLineBreakDropped(b: Block, d: Date, h1: nat, m1: nat, h2: nat, m2: nat, rest: string)
    requires ValidDate(d) && h1 < 24 && m1 < 60 && h2 < 24 && m2 < 60
    requires b.dayId == Some(DayPrefix + FormatDate(d))
    requires b.header.Some? && |b.header.value| >= 3 && b.header.value[0] != Availability
    requires b.header.value[1] == FormatClock(h1, m1) + "-" + FormatClock(h2, m2) + rest
    requires rest != [] && !IsSpace(rest[|rest| - 1]) && '\n' !in rest && '-' !in rest
    ensures Extract(b) == Skipped(Raised(BadEnd))
  {
    SameLineTimes(d, h1, m1, h2, m2, rest);
    ExtractUntimed(b);
  }

  /** With no "Rast" before the given one, the break note is "Rast", the
      stripped text up to the next "Rast" (or the end), and "min". */
  lemma BreakNoteText(pre: string, post: string)
    requires !Contains(pre, BreakMarker)
    ensures BreakNote(pre + BreakMarker + post) == "Rast " + Strip(Split(post, BreakMarker)[0]) + " min"
  {
    var s := pre + BreakMarker + post;
    assert s[|pre|..|pre| + 4] == BreakMarker;
    assert OccursAt(s, BreakMarker, |pre|);
    var f := Find(s, BreakMarker).value;
    RastFirst(pre, post, f);
    assert s[f + 4..] == post;
    assert Split(s, BreakMarker) == [s[..f]] + Split(post, BreakMarker);
  }

  /** The leftmost "Rast" of such a text is the given one: an earlier one
      would lie inside `pre` or overlap the marker, and "Rast" cannot overlap
      itself. */
  lemma RastFirst(pre: string, post: string, f: nat)
    requires OccursAt(pre + BreakMarker + post, BreakMarker, f) && f <= |pre|
    requires !Contains(pre, BreakMarker)
    ensures f == |pre|
  {
    var s := pre + BreakMarker + post;
    assert f + 4 > |pre| || pre[f..f + 4] == s[f..f + 4];
    assert f + 4 > |pre| || OccursAt(pre, BreakMarker, f);
    assert s[|pre|] == 'R';
    OccursChars(s, BreakMarker, f);
  }
}
