# TimeCare Pool webcal: a verified model of the scraper core

The service logs in to the TimeCare Pool staffing site, reads the week's
schedule page, turns each booked shift into a calendar event, merges those
with the events of the calendar file it wrote last time, and serves the
result as a webcal feed. This project models the three decisions at its
core, all in `src/timepool_webcal/timecare_webcal.py`, and proves what they
promise:

- **The shift-block extractor** (`scrape_schedule`, module `Extractor`).
  - Each collapsible block of the schedule page is given as a record: the
    enclosing list's id, the header rows, all rows, the address link text
    and the block text.
  - From that record the model decides, exactly as the loop body does,
    whether the block yields an entry, and which one.
  - It yields nothing when the block has no day, no header, too few rows,
    is an availability placeholder or has no time range. It also yields
    nothing when the loop body would raise: a time line that does not
    split in two, a time `strptime` rejects, or nothing after the last
    "ID:".
  - Blocks after a failing block are still processed.
- **The event merge** (`generate_ical`, module `Reconciler`).
  - New events come first, in entry order. Each has the UID
    `YYYYMMDDHHMMSS@timepool.boras.se` taken from its start.
  - Previous events are loaded into a dictionary: a later event with the
    same UID overwrites an earlier one, but keeps the earlier one's place.
  - They are appended in dictionary order when their UID is not new and
    their start is no earlier than 90 days before now. The source applies
    this test to date-time starts only and drops every all-day event; the
    model takes an all-day start at its midnight (see "## Findings").
- **The login decision** (`login_to_timecare`, module `Login`). The form
  carries the hidden ASP.NET inputs, with the credentials and the submit
  label on top. The POST's status, final URL and validation summary decide
  the outcome.

Two support modules model the Python library behaviour the core relies on:

- `Text`: `str.strip`, `split`, `join`, `replace`, `in`, `startswith` and
  `split()[0]`, with Python's exact whitespace set.
- `Clock`: proleptic Gregorian dates and the microsecond time line that
  `datetime` comparison amounts to. It also covers the `%Y-%m-%d %H:%M`
  subset of `strptime` and the `%Y%m%d%H%M%S` form of `strftime`.

The loops of the source are methods proved equal to specification functions:

- `Extractor.ScrapeSchedule`, `Extractor.ParseShift` and `Extractor.CollectNotes`;
- `Reconciler.LoadPrevious`, `Reconciler.AddNewEvents`, `Reconciler.MergeHistory` and `Reconciler.GenerateCalendar`;
- `Login.CollectHiddenFields`.

The lemmas then prove the promised properties of those functions.

A behaviour worth knowing, which the model follows because the code does:
only the first line of the time row is cut at its dash. A row such as
`08:30-16:30\nRast 30` yields a shift from 08:30 to 16:30 with the note
"Rast 30 min". But if the break is on the same line, as in `08:30-16:30 Rast 30`,
or glued to it, as in `08:30-16:30Rast 30` (what `get_text(strip=True)` makes
of two text nodes), the end half becomes `16:30 Rast 30`. `strptime` rejects
that, and the shift is dropped (`Extractor.SameLineBreakDropped`). That form
matches the example in the source's own comment on line 215.

## Model

| member | source | states |
|---|---|---|
| Text.StripUnique | src/timepool_webcal/timecare_webcal.py:219-223 | `strip()` removes exactly the leading and trailing whitespace: a string that is whitespace, a core with non-space ends, and whitespace strips to that core |
| Text.Strip | src/timepool_webcal/timecare_webcal.py:219-223 | the stripped text is empty exactly when the input is all whitespace, and otherwise neither starts nor ends with whitespace; it is never longer than the input |
| Text.StripWithin | src/timepool_webcal/timecare_webcal.py:219-223 | every character the strip keeps comes from the input |
| Text.TrimStart | src/timepool_webcal/timecare_webcal.py:219-223 | the leading strip removes a whitespace prefix only, and leaves a result that starts with a non-space or is empty |
| Text.TrimEnd | src/timepool_webcal/timecare_webcal.py:219-223 | the trailing strip removes a whitespace suffix only, and leaves a result that ends with a non-space or is empty |
| Text.Find | src/timepool_webcal/timecare_webcal.py:220 | the substring test (`in`) finds the leftmost occurrence, and finds none only when there is none |
| Text.ContainsChar | src/timepool_webcal/timecare_webcal.py:220 | `'-' in s` as a substring test agrees with character membership |
| Text.Split | src/timepool_webcal/timecare_webcal.py:219-221 | `split(sep)` gives at least one piece, exactly one when `sep` does not occur, and joining the pieces with `sep` gives back the string |
| Text.SplitPiecesClean | src/timepool_webcal/timecare_webcal.py:221 | no piece of a split contains the separator |
| Text.SplitCharCount | src/timepool_webcal/timecare_webcal.py:221 | splitting on one character gives one more piece than the character's occurrences, so the two-name unpacking succeeds exactly with one dash |
| Text.SplitJoinChar | src/timepool_webcal/timecare_webcal.py:221 | split inverts join for pieces free of the separator |
| Text.RemoveAllPrefix | src/timepool_webcal/timecare_webcal.py:192 | `replace('dayShifts-', '')` on the prefix followed by text free of the prefix gives that text |
| Text.RemoveAll | src/timepool_webcal/timecare_webcal.py:192 | `replace(pat, '')` is never longer than the text, and is the text itself when `pat` does not occur |
| Text.SplitFirst | src/timepool_webcal/timecare_webcal.py:219 | `split('\n')[0]` of a text is what precedes its first newline |
| Text.SplitNone | src/timepool_webcal/timecare_webcal.py:219 | a text without the separator splits into itself alone |
| Text.FirstWord | src/timepool_webcal/timecare_webcal.py:257 | `split()[0]` fails exactly on all-whitespace text, and otherwise gives the longest whitespace-free prefix of the text after its leading whitespace, which is non-empty |
| Text.TakeWord | src/timepool_webcal/timecare_webcal.py:257 | the first token is the longest whitespace-free prefix |
| Text.FirstWordOf | src/timepool_webcal/timecare_webcal.py:257 | the first token of whitespace, a token, and then whitespace or nothing, is that token |
| Text.FirstWordStrip | src/timepool_webcal/timecare_webcal.py:257 | `strip().split()[0]` gives the same token, or the same failure, as `split()[0]` |
| Text.LastPieceCut | src/timepool_webcal/timecare_webcal.py:257 | `split(sep)[-1]` is unchanged when the text is cut after its first separator |
| Text.SplitAt | src/timepool_webcal/timecare_webcal.py:221 | a split is the text before the first separator, then the split of what follows the separator |
| Text.JoinSnoc | src/timepool_webcal/timecare_webcal.py:260-278 | joining one more piece appends the separator and the piece |
| Text.JoinEnds | src/timepool_webcal/timecare_webcal.py:260-278 | a join of one or more pieces starts with the first piece and ends with the last |
| Clock.ParseDate | src/timepool_webcal/timecare_webcal.py:226-227 | a date `strptime` accepts is a real calendar date in years 1 to 9999 |
| Clock.ParseClock | src/timepool_webcal/timecare_webcal.py:226-227 | an accepted `%H:%M` has hour 0-23 and minute 0-59 |
| Clock.ClockLength | src/timepool_webcal/timecare_webcal.py:226-227 | an accepted `%H:%M` text has at most five characters, so trailing text on the line is rejected |
| Clock.ParseStamp | src/timepool_webcal/timecare_webcal.py:226-227 | an accepted stamp is a valid date-time with zero seconds and microseconds |
| Clock.ParseFormat | src/timepool_webcal/timecare_webcal.py:226-227 | the zero-padded text of a date and a time parses back to that date and time |
| Clock.MicrosOrder | src/timepool_webcal/timecare_webcal.py:371-380 | comparing date-times field by field agrees with comparing their positions on the microsecond time line, so the `timedelta` cutoff test is a comparison of integers |
| Clock.OrdinalMonotone | src/timepool_webcal/timecare_webcal.py:371-380 | a date earlier in the calendar has a smaller day number |
| Clock.CompactRoundTrip | src/timepool_webcal/timecare_webcal.py:360 | the `%Y%m%d%H%M%S` text reads back as the date-time with its microseconds dropped |
| Clock.Compact | src/timepool_webcal/timecare_webcal.py:360 | `strftime('%Y%m%d%H%M%S')` is exactly fourteen digits |
| Clock.Pad | src/timepool_webcal/timecare_webcal.py:360 | the zero-padded number has exactly the field width, all digits |
| Clock.PadValue | src/timepool_webcal/timecare_webcal.py:360 | a zero-padded field reads back as the number it pads |
| Clock.PadInjective | src/timepool_webcal/timecare_webcal.py:360 | two numbers that fit the width pad to the same text exactly when they are equal |
| Clock.CompactInjective | src/timepool_webcal/timecare_webcal.py:360 | two date-times have the same `%Y%m%d%H%M%S` text exactly when they agree to the second |
| Extractor.ShiftTimes | src/timepool_webcal/timecare_webcal.py:191-227 | the times parse only from a first line with exactly one dash, as two valid date-times with zero seconds on the date that the day id names once "dayShifts-" is removed; otherwise the reason is no range, not two parts, a bad start or a bad end |
| Extractor.StampPair | src/timepool_webcal/timecare_webcal.py:226-227 | both halves are parsed against the one date: parsed times are valid, lie on the date the date text parses to, have zero seconds, and a bad start is reported before a bad end |
| Extractor.Extract | src/timepool_webcal/timecare_webcal.py:185-286 | an entry is emitted only for a block with a day, three header rows, no availability marker and exactly one dash in its first time line, with valid start and end on one date |
| Extractor.ExtractDay | src/timepool_webcal/timecare_webcal.py:191-227 | an emitted entry starts on the date that the day id names once "dayShifts-" is removed |
| Extractor.TimeLineClean | src/timepool_webcal/timecare_webcal.py:219 | the first line of the time row holds no newline and neither starts nor ends with whitespace |
| Extractor.TimesAtDash | src/timepool_webcal/timecare_webcal.py:219-227 | once the first line splits at its one dash, the times are the two stripped halves parsed against the date of the day id |
| Extractor.BreakNote | src/timepool_webcal/timecare_webcal.py:230-234 | the break note is non-empty exactly when "Rast" occurs in the time row |
| Extractor.BreakNoteText | src/timepool_webcal/timecare_webcal.py:230-234 | when "Rast" does not occur before a given "Rast", the break note is "Rast", the stripped text between that "Rast" and the next, and "min" |
| Extractor.ScanId | src/timepool_webcal/timecare_webcal.py:254-257 | there is no "ID:" exactly when the text lacks it; a found id is a non-empty token without whitespace |
| Extractor.ScanIdAfterLast | src/timepool_webcal/timecare_webcal.py:254-257 | for a text whose last "ID:" is followed by `post`, the scan fails when `post` is whitespace and otherwise gives the first token of `post` |
| Extractor.IdLastPiece | src/timepool_webcal/timecare_webcal.py:257 | `split("ID:")[-1]` is what follows the last "ID:" |
| Extractor.NoIdScan | src/timepool_webcal/timecare_webcal.py:255-256 | a text without "ID:" has no id |
| Extractor.CollectNotes | src/timepool_webcal/timecare_webcal.py:243-251 | the notes loop computes the notes list |
| Extractor.NotesMembers | src/timepool_webcal/timecare_webcal.py:243-251 | a text is a note exactly when some row has it, is non-empty, differs from the shift type, time row and location code, does not start with "ID:", and holds no anchor |
| Extractor.NotesNonEmpty | src/timepool_webcal/timecare_webcal.py:246-248 | no note is empty |
| Extractor.Notes | src/timepool_webcal/timecare_webcal.py:243-251 | no more notes than rows, and no note starts with "ID:" |
| Extractor.Description | src/timepool_webcal/timecare_webcal.py:275-278 | without an id the description is the notes joined by newlines; with one it ends with `ID: <id>` |
| Extractor.DescriptionLines | src/timepool_webcal/timecare_webcal.py:276-278 | the description is the notes and then `ID: <id>` when there is an id, one per line, with no leading newline when there are no notes |
| Extractor.SummaryShape | src/timepool_webcal/timecare_webcal.py:260-265 | the summary is the shift type, then " - " and the location code if non-empty, then " - " and the break note if any |
| Extractor.Summary | src/timepool_webcal/timecare_webcal.py:260-265 | the summary starts with the shift type, and is the shift type alone without a location code and a break note |
| Extractor.LocationChoice | src/timepool_webcal/timecare_webcal.py:237-273 | the location is the address if non-empty, otherwise the location code, and never both |
| Extractor.Location | src/timepool_webcal/timecare_webcal.py:267-273 | the location is empty exactly when there is neither an address nor a location code, and otherwise is one of the two |
| Extractor.ParseShift | src/timepool_webcal/timecare_webcal.py:185-286 | the loop body, statement by statement, computes exactly `Extract` |
| Extractor.ScrapeSchedule | src/timepool_webcal/timecare_webcal.py:182-294 | the block loop collects exactly the entries the blocks emit, in block order |
| Extractor.Entries | src/timepool_webcal/timecare_webcal.py:182-294 | no more entries than blocks |
| Extractor.EntriesAppend | src/timepool_webcal/timecare_webcal.py:182-294 | the entries of two runs of blocks are the entries of each, in order |
| Extractor.SkippedBlockIsolated | src/timepool_webcal/timecare_webcal.py:290-294 | a block that yields nothing, including one that raises, leaves the entries of every other block unchanged |
| Extractor.SkipReasons | src/timepool_webcal/timecare_webcal.py:185-220 | a block without a day id, without a header, with fewer than three rows, marked as availability, or without a dash in its first time line yields nothing |
| Extractor.ManyDashesRaise | src/timepool_webcal/timecare_webcal.py:221 | a first time line with two or more dashes raises on the two-name unpacking and the block is dropped |
| Extractor.ExtractUntimed | src/timepool_webcal/timecare_webcal.py:219-227 | a block whose times do not parse is skipped for that reason, whatever else it holds |
| Extractor.ExtractWithoutId | src/timepool_webcal/timecare_webcal.py:226-286 | a block with parsed times and no "ID:" emits the entry built from its header rows |
| Extractor.ExtractWithId | src/timepool_webcal/timecare_webcal.py:254-286 | a block with parsed times whose last "ID:" is followed by whitespace only raises and is dropped; otherwise it emits the entry whose description ends with the first token after that "ID:" |
| Extractor.DayIdDate | src/timepool_webcal/timecare_webcal.py:191-192 | the date of a `dayShifts-YYYY-MM-DD` id is `YYYY-MM-DD` |
| Extractor.DashCut | src/timepool_webcal/timecare_webcal.py:219-223 | a first line of two unpadded, dash-free halves around one dash is cut into exactly those halves |
| Extractor.FirstLine | src/timepool_webcal/timecare_webcal.py:219 | the time line of a row is its first line, stripped |
| Extractor.FormattedTimes | src/timepool_webcal/timecare_webcal.py:191-227 | a first line `HH:MM-HH:MM` under a `dayShifts-YYYY-MM-DD` id gives those two times on that date |
| Extractor.SameLineTimes | src/timepool_webcal/timecare_webcal.py:219-227 | text after the end time on the first line makes the end time fail to parse |
| Extractor.WellFormedBlock | src/timepool_webcal/timecare_webcal.py:185-286 | a well-formed booking block without an id emits the entry at its date and times, with the summary, location and description built from its rows |
| Extractor.WellFormedIdBlock | src/timepool_webcal/timecare_webcal.py:185-286 | a well-formed booking block with an id emits the entry at its date and times, described with its notes and that id |
| Extractor.SameLineBreakDropped | src/timepool_webcal/timecare_webcal.py:215-227 | a booking block whose break follows the end time on the same line is dropped |
| Reconciler.UidDecodes | src/timepool_webcal/timecare_webcal.py:360 | a UID is fourteen digits that read back as the start to the second, then `@timepool.boras.se` |
| Reconciler.UidInjective | src/timepool_webcal/timecare_webcal.py:360 | two starts get the same UID exactly when they agree to the second |
| Reconciler.EntriesValid | src/timepool_webcal/timecare_webcal.py:226-286 | every scraped entry has a valid start, as the merge needs |
| Reconciler.Uid | src/timepool_webcal/timecare_webcal.py:360 | a UID is fourteen digits followed by `@timepool.boras.se` |
| Reconciler.Key | src/timepool_webcal/timecare_webcal.py:324 | `str(uid)`: the UID itself when present, and "None" exactly when the UID is missing or is the text "None" |
| Reconciler.NewEvent | src/timepool_webcal/timecare_webcal.py:344-365 | a new event's key is the UID of its start, its start, end and summary are the entry's, and its location and description are the entry's when non-empty and absent otherwise |
| Reconciler.NewEvents | src/timepool_webcal/timecare_webcal.py:343-367 | one new event per entry, in entry order |
| Reconciler.NewUids | src/timepool_webcal/timecare_webcal.py:340-362 | every entry's UID is among the new UIDs |
| Reconciler.NewUidsMembers | src/timepool_webcal/timecare_webcal.py:340-362 | a UID is new exactly when some entry's start gives it |
| Reconciler.AddNewEvents | src/timepool_webcal/timecare_webcal.py:340-367 | the first loop builds exactly the new events and the new UID set |
| Reconciler.Index | src/timepool_webcal/timecare_webcal.py:317-325 | the dictionary holds every loaded event's UID, under which it stores an event with that UID (a missing UID is the key "None") |
| Reconciler.IndexLastWins | src/timepool_webcal/timecare_webcal.py:324-325 | the last event with a UID is what the dictionary holds under it |
| Reconciler.IndexHoldsLast | src/timepool_webcal/timecare_webcal.py:324-325 | whatever the dictionary holds under a UID is the last event carrying it |
| Reconciler.FirstSeenKeys | src/timepool_webcal/timecare_webcal.py:325-374 | the dictionary's iteration order lists each of its keys exactly once |
| Reconciler.LoadPrevious | src/timepool_webcal/timecare_webcal.py:317-325 | the loading loop builds exactly the last-wins dictionary and its first-insertion order |
| Reconciler.DateOnlyDropped | src/timepool_webcal/timecare_webcal.py:377-380 | an all-day previous event dated today is dropped by the test as written and kept by the intended test |
| Reconciler.KeepAgrees | src/timepool_webcal/timecare_webcal.py:377-380 | the test as written and the intended test agree on date-time starts |
| Reconciler.KeepAsWritten | src/timepool_webcal/timecare_webcal.py:377-380 | the test as written passes only events with a date-time start |
| Reconciler.Keep | src/timepool_webcal/timecare_webcal.py:377-380 | the intended test fails without a start, and takes a date start at its midnight against the cutoff |
| Reconciler.KeepLater | src/timepool_webcal/timecare_webcal.py:371-380 | the cutoff is inclusive, and a start no earlier than a kept start is kept |
| Reconciler.KeepShrinks | src/timepool_webcal/timecare_webcal.py:371-380 | an event kept at a later `now` is kept at an earlier one |
| Reconciler.RetainedFrom | src/timepool_webcal/timecare_webcal.py:374-382 | the carried-over events pass the retention test and are no more than the dictionary's keys |
| Reconciler.RetainedFromMembers | src/timepool_webcal/timecare_webcal.py:374-382 | an event is carried over exactly when a key not among the new UIDs holds it and it passes the retention test |
| Reconciler.Retained | src/timepool_webcal/timecare_webcal.py:369-382 | every carried-over event passes the retention test |
| Reconciler.MergeHistory | src/timepool_webcal/timecare_webcal.py:372-382 | the second loop appends exactly the carried-over events and counts them in `merged_count` |
| Reconciler.GenerateCalendar | src/timepool_webcal/timecare_webcal.py:317-390 | the calendar is the merge of the new and previous events, and its size is the entry count plus `merged_count` |
| Reconciler.Merge | src/timepool_webcal/timecare_webcal.py:317-390 | the calendar holds every entry's event first, in entry order and duplicates included, and every event after them passes the retention test |
| Reconciler.MergeWithoutHistory | src/timepool_webcal/timecare_webcal.py:317-328 | with no readable previous file, the calendar is the new events alone |
| Reconciler.MergeRetainedIff | src/timepool_webcal/timecare_webcal.py:317-382 | a previous event is carried over exactly when it is the last with its UID, its UID is not new, it has a start, and that start (midnight for a date) is no earlier than 90 days before now |
| Reconciler.RetainedFresh | src/timepool_webcal/timecare_webcal.py:374-375 | carried-over events have distinct UIDs, none of them new |
| Reconciler.MergeDistinctKeys | src/timepool_webcal/timecare_webcal.py:360-375 | when the entries start at distinct times (to the second), no two events of the calendar share a UID |
| Reconciler.Remerge | src/timepool_webcal/timecare_webcal.py:317-390 | merging the same entries into the calendar this merge wrote keeps the new events and re-applies the retention test at the new time to the carried-over ones |
| Reconciler.MergeIdempotent | src/timepool_webcal/timecare_webcal.py:317-390 | re-running the merge with the same entries at the same instant reproduces the calendar |
| Reconciler.KeptAtMembers | src/timepool_webcal/timecare_webcal.py:380 | filtering by the retention test keeps an event exactly when the list holds it and it passes the test |
| Reconciler.KeptAll | src/timepool_webcal/timecare_webcal.py:380 | when every event passes the retention test, filtering by it keeps them all |
| Login.HiddenFields | src/timepool_webcal/timecare_webcal.py:90-93 | no forwarded field has an empty name |
| Login.CollectHiddenFields | src/timepool_webcal/timecare_webcal.py:90-93 | the hidden-field loop builds exactly the last-wins dictionary of forwarded inputs |
| Login.HiddenFieldsKeys | src/timepool_webcal/timecare_webcal.py:90-93 | a name is forwarded exactly when some hidden input has it as a non-empty name and has a value |
| Login.HiddenFieldsLastWins | src/timepool_webcal/timecare_webcal.py:92-93 | the value forwarded under a name is that of the last input carrying it |
| Login.LoginForm | src/timepool_webcal/timecare_webcal.py:96-101 | the form's names are the hidden ones and the three login names; the user name, password and "Logga in" sit under their own names, and every other hidden name keeps its value |
| Login.LoginFormFields | src/timepool_webcal/timecare_webcal.py:96-101 | the form carries the user name, password and "Logga in" under their own names, overriding hidden fields, and the hidden value under every other forwarded name, nothing else |
| Login.LoginRequest | src/timepool_webcal/timecare_webcal.py:82-101 | a login POST is made exactly when the login page answered 200 |
| Login.Decide | src/timepool_webcal/timecare_webcal.py:82-138 | success exactly when both pages answer 200 and the final URL does not contain "Login.aspx"; a failure message exactly when it stays on the login page with a validation summary not styled `display:none;`; a rejection exactly when the POST status is not 200 |

## Left out

- The markup library (`find_parent`, `find`, `find_all`, `get_text`): each block arrives as the record `Extractor.Block`, already read out of the page.
- The HTTP client, redirects and the network: the two login responses are inputs. Exceptions raised by the transport, which the login turns into failure, are not modelled.
- Calendar parsing and serialisation by the iCalendar library: events are records. Reading the previous file is taken to give back the events written. An absent or unreadable file is `None`. The calendar headers, `DTSTAMP` and `TRANSP` are not modelled.
- File writes, the history copy, the scheduler, the web endpoints and their token check, `debug_login`, and logging.
- `datetime.now()`: one `now` parameter stands for the separate calls.
- Clock.ParseStamp: parses the date and the time separately. A date part containing whitespace or a colon, which the combined `strptime` pattern could split differently, is not modelled. Neither are non-ASCII digits or the space-padded day `strptime` accepts.
- Reconciler.Uid: pads years below 1000 to four digits. The C library's `strftime('%Y')` may print fewer.
- Reconciler.Keep: compares naive date-times only. A previous event with a time-zone-aware start, whose comparison would raise and abort the merge, is not modelled. Neither is the overflow of `now - 90 days` in the first 90 days of year 1.
- Reconciler.LoadPrevious: the model loads either every event or none. It does not model a file that raises partway through the walk and leaves some events loaded.
- Login.LoginForm: a map, so the order of fields in the POST body is not modelled.
- The summary fallback "Work Shift" for an entry without a summary: the extractor always sets one.

## Findings

| source | as written | input that shows it | evidently intended | confidence | as-written member | corrected member |
|---|---|---|---|---|---|---|
| src/timepool_webcal/timecare_webcal.py:378-379 | `hasattr(dtstart.dt, 'date')` is false for a plain `date`, so the `datetime.combine` branch never runs and every all-day previous event is dropped | a previous event whose DTSTART is the date-only value of today | an all-day event is compared at its midnight against the cutoff and kept within 90 days | not executed | Reconciler.KeepAsWritten (shown by Reconciler.DateOnlyDropped) | Reconciler.Keep (proved in Reconciler.DateOnlyDropped and Reconciler.KeepAgrees; used by Reconciler.RetainedFrom) |
