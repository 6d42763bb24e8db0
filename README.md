# timewarrior-to-solidinvoice, modelled in Dafny

`main.py` reads a Timewarrior export, which is a JSON array of intervals. Each
interval has a `start`, an optional `end` and a list of `tags`. The script
drops the "structural" tags. A structural tag is a single word that contains a
period, such as a ticket code like `proj.42`. The remaining tags are joined
into one label. The script sums each interval's duration into a log keyed
first by local date (`YYYYMMDD`) and then by label. Both levels remember the
order in which their keys were first seen. Finally it turns every
(date, label) group into a line item of a draft SolidInvoice invoice.

The model covers that core in six modules:

- `Tags`: `filter_tags` and the two pieces of Python it relies on.
  - `str.split()` is modelled with Python's whitespace set.
  - `", ".join` is modelled directly.
- `Timestamp`: the `%Y%m%dT%H%M%SZ` timestamps.
  - A proleptic Gregorian calendar.
  - Parsing and formatting.
  - `calculate_hours`, kept as a whole number of seconds.
- `OrderedDict`: Python's insertion-ordered `dict`.
  - It is a key sequence plus a map.
  - `FirstSeen` gives the key order that a run of insertions produces.
- `WorkLog`: the per-interval step and the aggregation loop over `work_log`.
  - The aggregation loop is an imperative method.
  - It is proved against `Describes`, a specification written on the sequence of rows the intervals contribute.
- `Invoice`: the nested item-building loop, which is also an imperative method.
  - It is connected end to end by `Invoice.Run`.
  - That connection goes from the export to the invoice's items, stated on the same rows.
- `Scenarios`: worked cases.
  - The nested ordering.
  - Repeated intervals merging into one line.
  - A ticket-only interval being skipped.

The conversion to the host's local time zone is a parameter `localDate` of
type `DateTime -> DateKey`. It says which calendar day a parsed start falls
on. Durations are taken from the UTC timestamps, so they do not depend on it.

A timestamp that does not parse makes `strptime` raise, which ends the script.
The model returns `Failure(BadTimestamp(text))` for the first such timestamp
in input order. The start of every interval is parsed, including intervals
that are later skipped because of their tags. The end is parsed only when it
is present and non-empty.

main.py does not check that `end` is not before `start`. An end before the
start gives a negative duration, and that duration is added into its group.
`Timestamp.DurationSign` and `Timestamp.DurationExample` state and show the
negative case.

## Model

| member | source | states |
|---|---|---|
| Tags.FilterTags | main.py:51-52 | every kept tag comes from the input and is not structural |
| Tags.FilterIsSubsequence | main.py:51-52 | the kept tags are a subsequence of the input, in their original order |
| Tags.FilterCounts | main.py:51-52 | a structural tag occurs 0 times in the result; any other tag occurs exactly as often as in the input |
| Tags.FilterMembership | main.py:51-52 | a tag is kept if and only if it is in the input and is not structural |
| Tags.FilterIdempotent | main.py:51-52 | filtering twice gives the same list as filtering once |
| Tags.StructuralIff | main.py:52 | a tag is dropped exactly when it contains '.' and has no whitespace between two non-space characters |
| Tags.WordStructuralIff | main.py:52 | a tag with no whitespace is dropped exactly when it contains '.' |
| Tags.MultiWordIsDescriptive | main.py:52 | a tag with whitespace, of any width, between two non-space characters is kept, even when it contains '.' |
| Tags.Split | main.py:52 | `str.split()`: every word is non-empty and holds no whitespace |
| Tags.SplitLayout | main.py:52 | a text made of leading whitespace, then words separated by non-empty whitespace runs (trailing whitespace allowed) splits into exactly those words |
| Tags.SplitEmptyIff | main.py:52 | `split()` yields no words exactly when the string is all whitespace |
| Tags.SplitSingleIff | main.py:52 | `split()` yields exactly one word exactly when the string has a non-space character and no gap between words |
| Tags.WordLength | main.py:52 | the first word ends at the first whitespace character, or at the end of the string |
| Tags.JoinSnoc | main.py:93 | `", ".join`: one more tag extends the label by ", " and that tag, so the label lists the surviving tags in order |
| Tags.JoinConflates | main.py:93 | the single tag "a, b" and the two tags "a", "b" get the same label, so they fall into one group |
| Tags.FilterDropsCodeKeepsPhrase | main.py:51-52 | ["proj.42", "design review"] filters to ["design review"] |
| Tags.FilterDropsDottedWord | main.py:51-52 | an interval tagged only "a.b.c" is left with no tags |
| Tags.FilterKeepsEmptyTag | main.py:51-52 | the empty tag and a word without '.' are both kept |
| Timestamp.DaysInMonth | main.py:44-45 | every month of any year has between 28 and 31 days |
| Timestamp.Parse | main.py:44-45 | a result is produced exactly for a 16-character `YYYYMMDDTHHMMSSZ` text that names a real date and time; every result is a valid date and time |
| Timestamp.ParseFormat | main.py:44-45 | parsing the canonical text of any valid date and time gives that date and time back |
| Timestamp.FormatParse | main.py:44-45 | a parsed text written with upper-case 'T' and 'Z' is rebuilt exactly from its parse |
| Timestamp.DurationSeconds | main.py:43-47 | the duration exists exactly when both timestamps parse; otherwise the error names the start, or else the end |
| Timestamp.DurationSign | main.py:46 | the duration is positive, zero or negative exactly when the end is after, equal to or before the start |
| Timestamp.ToSeconds | main.py:46 | the second count is the day number times 86400 plus a time of day below one day |
| Timestamp.DaysBeforeMonthStep | main.py:46 | each month starts exactly the day after the previous month ends |
| Timestamp.DaysBeforeYearEnd | main.py:46 | December ends on the last day of the year: the month lengths sum to the year's length |
| Timestamp.NextDay | main.py:46 | the next calendar day, also across a month end or a year end, has the next day number |
| Timestamp.MidnightDuration | main.py:43-47 | a duration that crosses midnight is 86400 seconds plus the difference of the clock times |
| Timestamp.DayNumberMonotone | main.py:46 | a later calendar day has a larger day number |
| Timestamp.SecondsMonotone | main.py:46 | a later date and time has a larger absolute second count |
| Timestamp.DurationExample | main.py:43-47 | 09:00 to 11:30 is 9000 seconds; with the two swapped it is -9000 |
| OrderedDict.Dict.Put | main.py:96-102 | assigning a key keeps the key order if the key exists and appends it otherwise, and it keeps the dict well formed |
| OrderedDict.FirstSeen | main.py:96-102 | the first occurrences of a sequence, in order: same members, no repeats |
| OrderedDict.InsertionOrder | main.py:96-97 | assigning keys one by one to `{}` gives a well-formed dict whose iteration order is the keys' first-seen order and whose keys are exactly those assigned |
| OrderedDict.FirstSeenOrder | main.py:117-118 | a key listed before another first occurs before any occurrence of the later key |
| WorkLog.Normalize | main.py:60-93 | one interval fails exactly when its start, or its non-empty end, does not parse; it is skipped exactly when no tag survives the filter |
| WorkLog.Rows | main.py:59-93 | the rows the loop body contributes, in input order: at most one per interval |
| WorkLog.RowsFailIff | main.py:59-65 | the run fails exactly when some interval has a start, or a non-empty end, that does not parse |
| WorkLog.Dates | main.py:77 | the date key of each row, position by position |
| WorkLog.Aggregate | main.py:56-102 | the loop fails exactly when the rows fail, with the same error; otherwise the log has the dates in first-seen order, each date's labels in first-seen order, each group holding its summed seconds, and no other keys |
| WorkLog.Record | main.py:96-102 | adding one row appends a new date and a new label and adds the seconds to that one group; every other group is unchanged |
| WorkLog.AddDate | main.py:96-97 | a date not yet in the log is appended with an empty inner dict; a present date keeps its inner dict and the key order |
| WorkLog.AddSeconds | main.py:99-102 | a new label is appended with the row's seconds; a present label keeps its place and its total grows by the row's seconds |
| WorkLog.RecordStep | main.py:96-102 | one update of a log that describes some rows gives a log that describes those rows plus the new row |
| WorkLog.DescribesUnique | main.py:56-102 | at most one log describes a given sequence of rows |
| WorkLog.DescribesKeys | main.py:96-100 | a date is a key exactly when some row has it; a label is a key under a date exactly when some row has both |
| WorkLog.LabelsOnMembership | main.py:99-100 | a label is listed under a date exactly when some row carries both |
| WorkLog.FilteredOutEntryChangesNothing | main.py:88-90 | an interval whose tags are all structural leaves the rows, and so the log, unchanged |
| WorkLog.OpenEntryAddsZero | main.py:80-83 | an interval without an end adds a 0-second row: no total changes, yet its date and label become groups |
| WorkLog.RowsStopAtFailure | main.py:64-65 | the first interval that fails to parse decides the error of the whole run, whatever follows it |
| Invoice.IsoDate | main.py:119 | the 8-character key is rewritten as a 10-character date with '-' at positions 4 and 7 |
| Invoice.Description | main.py:119-120 | the description is `YYYY-MM-DD: label`: '-' at positions 4 and 7, ": " at 10-11, the label after it; the date key and the label are read back from it |
| Invoice.DescriptionInjective | main.py:119-120 | different groups get different descriptions |
| Invoice.LineItem | main.py:122-128 | an item is of type "Item", has no tax, carries the given price and the group's seconds, and its description reads back as the group's date key and label |
| Invoice.BuildInvoice | main.py:105-129 | the document has the fixed draft wrapper and the client and contact references; it has one item per group of the log, in the order of the nested loops, each holding its group's description and total |
| Invoice.AddDateItems | main.py:117-129 | the inner loop appends one item per label of the date, in label order, each holding its group's description and total, and changes nothing else in the document |
| Invoice.GroupsMatch | main.py:117-118 | walking a log that describes some rows visits the groups in the order given by those rows |
| Invoice.GroupsForMembership | main.py:117-118 | a group is listed exactly when its date is visited and some row carries its date and label |
| Invoice.GroupsForDistinct | main.py:117-129 | no group is listed twice |
| Invoice.ExpectedGroupsExact | main.py:56-129 | the groups are exactly the (date, label) pairs of the rows, and each is listed once, so there is one item per group |
| Invoice.Run | main.py:56-129 | export to invoice: fails exactly when a timestamp does not parse; otherwise item k describes the k-th expected group and holds that group's total over the rows |
| Scenarios.NestedOrder | main.py:96-118 | rows on dates d1, d2, d1 with labels a, b, c give the groups d1/a, d1/c, d2/b |
| Scenarios.NestedOrderExample | main.py:96-118 | the same with the dates 20240101 and 20240102 |
| Scenarios.OneGroup | main.py:99-102 | two rows of one group give one group holding their sum |
| Scenarios.RepeatedLabelMerges | main.py:59-102 | two closed intervals on one local date with the same surviving label become one group with the summed duration |
| Scenarios.DesignReviewInvoice | main.py:59-129 | two 2.5-hour "design review" sessions on 1 January 2024 give one 18000-second line described "2024-01-01: design review" |
| Scenarios.TicketOnlyEntrySkipped | main.py:86-90 | an open interval tagged only "proj.42" leaves the rows unchanged |

## Left out

- Command-line arguments, reading stdin and JSON decoding are left out. The model starts from a sequence of `Entry` values.
- A missing `start` or `tags` key, or a JSON value of the wrong type, raises an error in the script. The model has no such entries.
- The time-zone conversion (main.py:68-77) is the parameter `localDate`. main.py:72 takes `datetime.now().astimezone().tzinfo`, a fixed UTC offset: the one in force on the host when the script runs, applied to every start. `localDate` stands for the conversion by that offset, and its value is not modelled.
- `astimezone` can raise `OverflowError` for a timestamp at the very ends of the calendar (main.py:73-74, for the start and for the end). A total `localDate` leaves that failure out.
- Floating point: hours are `seconds / 3600` as floats, and `qty` is `round(total_hours, 2)`. The model keeps exact integer seconds, so the accumulated float error and the rounding are not modelled.
- The dead `item_total` computation (main.py:121) is left out. Nothing uses it.
- The price is an opaque string. It stands for `f"{price_per_hour:.2f}"` and float formatting is not modelled.
- Tags.Split: the words are characterised for every text written as a layout of words and whitespace runs (`SplitLayout`); that every text has such a layout is not stated as a lemma. main.py:52 only uses whether there are no words, one word or more, which SplitEmptyIff and SplitSingleIff characterise for every text.
- Timestamp.Parse: accepts only the exact 16-character `YYYYMMDDTHHMMSSZ` shape with ASCII digits; 'T' and 'Z' may be in either case. `strptime` also accepts one-digit month, day, hour, minute and second fields, a day padded with a space (as in `202401 5T090000Z`), and decimal digits outside ASCII. Those texts are modelled as failures.
- The re-parse of the date key with `%Y%m%d` at main.py:119 is modelled as a plain rewrite of the 8 characters. A key that `localDate` produced is always a valid date, so that parse cannot fail.
- Environment variables and the HTTP POST or PUT to SolidInvoice (main.py:131-159) are left out, as is printing the JSON document.
- Python's whitespace set for `str.split()` is written out for `str` (Unicode) strings. Bytes are not modelled.
