# ie-exam-calendar, modelled in Dafny

The script `main.py` reads a university calendar and finds the exam dates of the year-2 courses. It walks the calendar's components and keeps every "VEVENT". From each event summary it reads a session number ("... Ses. 14 ...", "Ses. (14)", "Ses. 14-15"). It then looks up two session numbers for each course of a hard-coded table: the final's and, when listed, the midterm's. An event matches a (course, session) pair when its summary contains the course name and its session contains the decimal text of the number. Each exam that matches some event becomes a timeline entry. The entry holds the event's date, the weekday name of that date, and the headline "<course> Final" or "<course> Midterm".

The model has these modules:

- `Text`: the Python string operations the script relies on, each with its own contract:
  - the substring test (`in`);
  - `split(sep)[-1]` and `split(" ")[0]`;
  - `replace(pat, "")`;
  - `strip()` with Python's whitespace set;
  - `str(n)` of a natural number.
- `Session`: the session number of a summary.
- `Events`: the calendar walk. The spec function `EventsOf` and the loop method `GetEvents` are proved equal.
- `Matching`: the selection of the events of one exam, an order-preserving filter.
- `Courses`: the course table.
- `Timeline`: the corrected timeline assembly. The spec function `Entries` and the loop method `BuildTimeline` are proved equal, and the lemmas give soundness, completeness, order and first-match dating.
- `TimelineAsWritten`: the same loop as written, including its two defects (see "## Findings").

The model's own example `Timeline.SingleFinalExample` is a table with one course that lists only a final, and an event that matches it. The corrected timeline has exactly one "Final" entry for it. The script as written stops with a NameError on the same input (`TimelineAsWritten.SingleFinalNameError`). The model follows the script in `TimelineAsWritten` and proves the expected behaviour of the corrected assembly in `Timeline`.

Dates are `Date(year, month, day)`; the time of day is not modelled. The weekday name of a date is a function parameter `dayName`.

## Model

| member | source | states |
|---|---|---|
| Text.SplitLastSpec | main.py:32 | `split(sep)[-1]` is a suffix with no separator in it, preceded by a separator unless it is the whole text |
| Text.LastPieceShorter | main.py:32 | the last piece is shorter than the text exactly when the separator occurs in it |
| Text.SplitFirst | main.py:32 | `split(" ")[0]` is a prefix without a space, followed by a space when it is not the whole text |
| Text.SplitFirstWhole | main.py:32 | text without a space is its own first piece |
| Text.RemoveAbsent | main.py:34 | `replace(pat, "")` leaves text without the pattern unchanged |
| Text.RemoveCharDrop | main.py:34 | deleting a character drops it at the front of the text |
| Text.RemoveCharKeep | main.py:34 | deleting a character keeps any other character at the front, followed by the rest with the character deleted |
| Text.RemoveCharKeepAll | main.py:34 | deleting a character keeps a leading piece without it unchanged in front of the rest with the character deleted |
| Text.RemoveChar | main.py:34 | deleting a one-character pattern removes exactly that character and keeps every other one |
| Text.RemoveKeeps | main.py:34 | deleting a pattern never introduces a character |
| Text.Strip | main.py:34 | `strip()` gives a slice of the text with no whitespace at either end, all removed characters are whitespace, and trimmed text is unchanged |
| Text.StripKeeps | main.py:34 | stripping never introduces a character |
| Text.DecimalText | main.py:45 | `str(n)` is a non-empty digit string with no leading zero |
| Text.DecimalRoundTrip | main.py:45 | reading back the decimal text of `n` gives `n` |
| Session.Clean | main.py:34 | the cleaned session has no parenthesis and no whitespace at its ends |
| Session.CleanKeeps | main.py:34 | cleaning only deletes characters |
| Session.Extract | main.py:32-34 | no session exactly when the summary has no "Ses. " or the text after the last one starts with a space or is empty; otherwise a session without parentheses or spaces |
| Session.MarkerNoOverlap | main.py:32 | two occurrences of "Ses. " cannot overlap |
| Session.RawTokenAfterLastMarker | main.py:32 | the raw token is the text after the last "Ses. ", up to the first space |
| Session.TokenUnique | main.py:32 | that token is determined by the text |
| Session.ExtractPlainToken | main.py:32-34 | when the last marker is followed by a plain token ("30", "14-15"), the session is exactly that token |
| Session.CleanUnchanged | main.py:34 | a token without parentheses, 'S' or outer whitespace is left as it is |
| Session.PlainTokenOf | main.py:32-34 | a token without spaces, parentheses, 'S' or outer whitespace holds no marker, is its own first piece before a space, and is unchanged by cleaning |
| Session.ExtractParenthesisedToken | main.py:32-34 | when the last marker is followed by a plain token in parentheses ("(30)", "()"), the session is the token inside |
| Session.ParenthesesDeleted | main.py:34 | cleaning a plain token in parentheses gives the token |
| Session.ExtractShortSummary | main.py:32-34 | the summary "<x> Ses. <tok>", with a one-letter name other than 'S' and a plain token, has session `tok` |
| Session.ExtractPlainExample | main.py:31-34 | "X Ses. 14 Y" has session "14" |
| Session.ExtractParenthesisedExample | main.py:31-34 | "X Ses. (14)" has session "14" |
| Session.ExtractRangeExample | main.py:31-34 | "X Ses. 14-15" has session "14-15", kept as one string |
| Session.MarkerAtEndExample | main.py:32-34 | "X Ses. " has no session: the empty token is falsy |
| Session.SpaceAfterMarkerExample | main.py:32-34 | "X Ses.  14" has no session: the token before the first space is empty |
| Session.EmptySessionExample | main.py:34 | "X Ses. ()" has the empty session, not an absent one |
| Events.ToEvent | main.py:26-33 | an event record copies summary and dates of its component and carries the session extracted from the summary |
| Events.EventsOfMembers | main.py:24-35 | an event is listed exactly when it is the record of some "VEVENT" component, and its session is the one its summary names |
| Events.ShortEvent | main.py:26-34 | the record of a component with summary "<x> Ses. <tok>" (plain token) carries `tok` as its session |
| Events.GetEvents | main.py:22-36 | the loop returns the records of the "VEVENT" components in walk order |
| Matching.SessionMatchesSpec | main.py:44-45 | the matches are a subsequence of the events, every match contains the course name and a session containing `str(n)`, and every such event is a match |
| Matching.SessionMatchesCount | main.py:44-45 | the filter keeps rows: a selected event occurs among the matches exactly as often as in the list, and an unselected one never |
| Matching.FirstMatch | main.py:44-45 | the first match is the first selected event of the list |
| Matching.SubstringMatchExamples | main.py:45 | target 1 also selects sessions "11", "21" and "14-15"; an event without a session is never selected |
| Courses.CourseData | main.py:48-70 | five courses with distinct names; each but the last lists a midterm; the last lists none |
| Timeline.Headline | main.py:116-136 | the headline is the course name followed by " Final" or " Midterm" |
| Timeline.EntryFor | main.py:106-119 | an entry is labelled with its course and exam kind |
| Timeline.EntryForFirstMatch | main.py:102-119 | a scheduled exam is dated, with its weekday, by the first matching event; a midterm only for a course that lists one |
| Timeline.EntriesSnoc | main.py:95-139 | one more course at the end of the table adds its entries at the end of the timeline |
| Timeline.AddCourse | main.py:98-139 | one iteration appends exactly the entries of the course's scheduled exams, final first |
| Timeline.EntriesPrefix | main.py:95-139 | each further row of the table adds its own entries at the end of the timeline |
| Timeline.BuildTimeline | main.py:95-139 | the loop builds the timeline `Entries` of the table |
| Timeline.CourseEntriesSpec | main.py:102-139 | a course's entries are exactly those of its scheduled exams, under its own name |
| Timeline.EntriesSound | main.py:95-139 | every entry is an entry of some course of the table |
| Timeline.EntriesComplete | main.py:95-139 | every scheduled exam of every course has its entry |
| Timeline.EntryOrigin | main.py:98-121 | every entry is the entry of a scheduled exam of a table course; a midterm entry only for a course that lists a midterm |
| Timeline.HeadOrdered | main.py:100-139 | within one course the final's entry comes before the midterm's |
| Timeline.TailCourse | main.py:95-96 | an entry of a later row names a course placed after the first one |
| Timeline.ConcatOrdered | main.py:95-139 | the first course's entries followed by ordered entries of the later rows are ordered |
| Timeline.EntriesOrdered | main.py:95-139 | with distinct names, every entry comes before every later one in table order, the final before the midterm of the same course |
| Timeline.SingleFinalExample | main.py:95-119 | table {"X": final 30} with "X Ses. 30" on 2024-05-01 and an unrelated event: exactly one match and one entry, "X Final" on 2024-05-01 |
| TimelineAsWritten.EntryOf | main.py:110-132 | reading the date of a match set succeeds exactly for a set of one event |
| TimelineAsWritten.AsWrittenAgrees | main.py:95-139 | when every course lists a midterm and no exam finds two events, the loop as written builds exactly the corrected timeline |
| TimelineAsWritten.StepAgrees | main.py:97-139 | one such iteration appends the course's corrected entries |
| TimelineAsWritten.StaleMidtermReemitted | main.py:98-139 | a course without a midterm appends its own entries and then a midterm entry built from the previous course's midterm match set |
| TimelineAsWritten.FirstCourseWithoutMidterm | main.py:98-121 | a first course without a midterm stops the loop with a NameError |
| TimelineAsWritten.MultiRowMatchFails | main.py:100-112 | a final with two or more matching events stops the loop with a TypeError |
| TimelineAsWritten.SingleFinalNameError | main.py:98-121 | the single-course example stops with a NameError instead of giving its one entry |
| TimelineAsWritten.StaleMidtermExample | main.py:98-139 | course A (midterm 1) then course B (no midterm), with event "A Ses. 1": the run as written also emits "B Midterm" on A's date; the corrected timeline does not |
| TimelineAsWritten.MultiRowExample | main.py:100-112 | with events "A Ses. 1" and "A Ses. 11", the final of A at session 1 matches both: TypeError as written; dated by the first event in the corrected timeline |

## Left out

- `get_calendar` (main.py:8-20): the cache file, the network fetch and iCalendar parsing are I/O. The model starts from the sequence of parsed components that `cal.walk()` yields.
- Component fields: a component without a summary, a start date or an end date makes the script crash (main.py:27-32). This is not modelled, because every component carries its fields here. A missing description is kept as a value by the script and is an empty string here.
- `get_events_df` (main.py:38-42): building the data frame and converting dates are representation changes for a non-empty event list. The model keeps the event list, and `Date` holds the converted date.
- A calendar with no "VEVENT" component: the empty list gives a data frame without columns, and `df["start"]` raises a KeyError (main.py:39-40). The model does not raise this error: `GetEvents` returns `[]`, and `BuildTimeline` and `RunAsWritten` give an empty timeline for it.
- Course names are tested as literal substrings, not as regular expressions. The names in the table contain no regular-expression special characters, so this is the same test for them. Regular-expression semantics in general is not modelled.
- Python's `str.contains` on an absent session yields a missing value, which the `&` treats as false. The model states this as "an event without a session is never selected".
- The weekday name (`day_name()`) is the parameter `dayName`. Calendar arithmetic is not modelled.
- The entry caption ("Session ..." of a whole pandas column), the media and credit fields, the title block, the `print` calls and the Streamlit `timeline` rendering are presentation and I/O.
- Courses.CourseData: the contract does not restate the table's session numbers or the full spelling of the names, which are in the body. It states the structure the timeline relies on: five distinct names, and which courses list a midterm.
- Session.Clean: the contract does not state which characters survive beyond "no parenthesis, trimmed". Its exact effect is proved for plain tokens, which are left unchanged (`CleanUnchanged`), and for plain tokens in parentheses, which lose the parentheses (`ParenthesesDeleted`).

## Findings

| source | as written | input that shows it | evidently intended | confidence | as-written member | corrected member |
|---|---|---|---|---|---|---|
| main.py:98-121 | `mid` is assigned only when the course lists a midterm, but it is read for every course | a first course without a midterm (e.g. table {"X": final 30}): NameError; or course A (midterm 1) then B (no midterm) with event "A Ses. 1": an extra "B Midterm" entry on A's date | a course without a midterm gets no midterm entry | not executed | TimelineAsWritten.StaleMidtermExample | Timeline.EntryOrigin |
| main.py:110-132 | the date is read with `int(...)` on the whole match set, which fails for two or more rows | course A with final session 1 and events "A Ses. 1", "A Ses. 11" (substring matching selects both): TypeError | date the entry by one match, the first, as the weekday already does with `values[0]` | not executed | TimelineAsWritten.MultiRowExample | Timeline.EntryForFirstMatch |
