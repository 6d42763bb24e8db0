/**
 * The aggregation loop of main.py: each exported interval is read, its tags
 * are filtered, and its duration is added to `work_log[date][label]`, a dict of
 * dicts that remembers the order in which dates and labels were first seen.
 */
module WorkLog {
  import opened Wrappers
  import opened Tags
  import opened Timestamp
  import opened OrderedDict

  /** A local calendar date as `strftime("%Y%m%d")` writes it. */
  type DateKey = s: string | |s| == 8 witness "19700101"

  /** One element of the exported JSON array; `end` is absent for a running interval. */
  datatype Entry = Entry(start: string, end: Option<string>, tags: seq<string>)

  /** What one entry contributes to the log: its date, its tag label and its duration in seconds. */
  datatype Row = Row(date: DateKey, tagLabel: string, seconds: int)

  /** `work_log`: date key -> tag label -> accumulated seconds. */
  type Log = Dict<DateKey, Dict<string, int>>

  /** The label under which filtered tags are grouped: `", ".join(filtered_tags)`. */
  function Label(kept: seq<string>): string
  {
    Join(kept, ", ")
  }

  /** `if end:` holds for a present, non-empty end timestamp. */
  predicate HasEnd(e: Entry)
  {
    e.end.Some? && e.end.value != ""
  }

  /**
   * One pass of the loop body for entry `e`: the start is always parsed, the end
   * only when it is set; a parse failure aborts the run. `localDate` stands for
   * the conversion of the start to the host's time zone. `None` means the entry
   * is skipped because none of its tags survives the filter.
   */
  function Normalize(e: Entry, localDate: DateTime -> DateKey): (r: Result<Option<Row>, ParseError>)
    ensures r.Failure? <==> Parse(e.start).None? || (HasEnd(e) && Parse(e.end.value).None?)
    ensures r.Success? ==> (r.value.None? <==> FilterTags(e.tags) == [])
  {
    match Parse(e.start)
    case None => Failure(BadTimestamp(e.start))
    case Some(start) =>
      if HasEnd(e) && Parse(e.end.value).None? then Failure(BadTimestamp(e.end.value))
      else
        var seconds := if HasEnd(e) then DurationSeconds(e.start, e.end.value).value else 0;
        var kept := FilterTags(e.tags);
        if kept == [] then Success(None)
        else Success(Some(Row(localDate(start), Label(kept), seconds)))
  }

  /** The rows of all entries in input order, or the error of the first entry that fails to parse. */
  function Rows(entries: seq<Entry>, localDate: DateTime -> DateKey): (r: Result<seq<Row>, ParseError>)
    ensures r.Success? ==> |r.value| <= |entries|
  {
    if entries == [] then Success([])
    else
      match Rows(entries[..|entries| - 1], localDate)
      case Failure(err) => Failure(err)
      case Success(rows) =>
        match Normalize(entries[|entries| - 1], localDate)
        case Failure(err) => Failure(err)
        case Success(None) => Success(rows)
        case Success(Some(row)) => Success(rows + [row])
  }

  // ---------------------------------------------------------------------
  // What the finished log must hold, stated on the rows

  /** The date of every row, in order. */
  function Dates(rows: seq<Row>): (ds: seq<DateKey>)
    ensures |ds| == |rows| && forall i :: 0 <= i < |rows| ==> ds[i] == rows[i].date
  {
    if rows == [] then [] else Dates(rows[..|rows| - 1]) + [rows[|rows| - 1].date]
  }

  /** The labels of the rows dated `d`, in order. */
  function LabelsOn(rows: seq<Row>, d: DateKey): seq<string>
  {
    if rows == [] then []
    else
      var last := rows[|rows| - 1];
      LabelsOn(rows[..|rows| - 1], d) + (if last.date == d then [last.tagLabel] else [])
  }

  /** The summed seconds of the rows dated `d` and labelled `l`. */
  function Total(rows: seq<Row>, d: DateKey, l: string): int
  {
    if rows == [] then 0
    else
      var last := rows[|rows| - 1];
      Total(rows[..|rows| - 1], d, l) + (if last.date == d && last.tagLabel == l then last.seconds else 0)
  }

  /**
   * `log` is exactly the aggregation of `rows`: dates in first-seen order, the
   * labels of each date in first-seen order, each group holding its sum, and
   * no other keys.
   */
  ghost predicate Describes(log: Log, rows: seq<Row>)
  {
    && log.Valid()
    && log.keys == FirstSeen(Dates(rows))
    && forall d :: d in log.items ==> DescribesDay(log.items[d], rows, d)
  }

  // ---------------------------------------------------------------------
  // The aggregation loop

  /**
   * The `for entry in entries` loop (main.py lines 59-102). On success the log
   * describes the rows of all entries; a timestamp that does not parse aborts
   * with the same error the rows report.
   */
  method Aggregate(entries: seq<Entry>, localDate: DateTime -> DateKey) returns (r: Result<Log, ParseError>)
    ensures r.Failure? <==> Rows(entries, localDate).Failure?
    ensures r.Failure? ==> r.error == Rows(entries, localDate).error
    ensures r.Success? ==> Describes(r.value, Rows(entries, localDate).value)
  {
    var log: Log := Empty();
    ghost var rows: seq<Row> := [];
    for i := 0 to |entries|
      invariant Rows(entries[..i], localDate) == Success(rows)
      invariant Describes(log, rows)
    {
      var e := entries[i];
      RowsNext(entries, localDate, i);
      var start := Parse(e.start);
      if start.None? {
        RowsStopAtFailure(entries, localDate, i);
        return Failure(BadTimestamp(e.start));
      }
      var hasEnd := HasEnd(e);
      if hasEnd && Parse(e.end.value).None? {
        RowsStopAtFailure(entries, localDate, i);
        return Failure(BadTimestamp(e.end.value));
      }
      var date := localDate(start.value);
      var seconds := 0;
      if hasEnd {
        seconds := DurationSeconds(e.start, e.end.value).value;
      }
      var kept := FilterTags(e.tags);
      if kept == [] {
        continue;
      }
      var tagLabel := Label(kept);
      ghost var row := Row(date, tagLabel, seconds);
      ghost var before := log;
      assert Normalize(e, localDate) == Success(Some(row));
      log := Record(log, date, tagLabel, seconds);
      RecordStep(before, rows, row, log);
      rows := rows + [row];
    }
    assert entries[..|entries|] == entries;
    return Success(log);
  }

  // ---------------------------------------------------------------------
  // Properties of the aggregation

  /** The finished log is determined by the rows: two logs describing the same rows are equal. */
  lemma DescribesUnique(log1: Log, log2: Log, rows: seq<Row>)
    requires Describes(log1, rows) && Describes(log2, rows)
    ensures log1 == log2
  {
    DaysUnique(log1, log2, rows);
    assert log1.keys == log2.keys;
  }

  lemma DaysUnique(log1: Log, log2: Log, rows: seq<Row>)
    requires Describes(log1, rows) && Describes(log2, rows)
    ensures log1.items == log2.items
  {
    forall d | d in log1.items
      ensures d in log2.items && log1.items[d] == log2.items[d]
    {
      DayUnique(log1.items[d], log2.items[d], rows, d);
    }
    SameMaps(log1.items, log2.items);
  }

  lemma SameMaps<K, V>(m1: map<K, V>, m2: map<K, V>)
    requires forall k :: k in m1 ==> k in m2 && m1[k] == m2[k]
    requires forall k :: k in m2 ==> k in m1
    ensures m1 == m2
  {
  }

  lemma DayUnique(a: Dict<string, int>, b: Dict<string, int>, rows: seq<Row>, d: DateKey)
    requires DescribesDay(a, rows, d) && DescribesDay(b, rows, d)
    ensures a == b
  {
    assert a.items.Keys == b.items.Keys;
    assert a.items == b.items;
  }

  /** The log has a date exactly when some row has it, and a label under it exactly when some row has both. */
  lemma DescribesKeys(log: Log, rows: seq<Row>, d: DateKey, l: string)
    requires Describes(log, rows)
    ensures d in log.items <==> exists i :: 0 <= i < |rows| && rows[i].date == d
    ensures d in log.items ==> (l in log.items[d].items <==> exists i :: 0 <= i < |rows| && rows[i].date == d && rows[i].tagLabel == l)
  {
    assert d in log.items <==> d in Dates(rows);
    LabelsOnMembership(rows, d, l);
  }

  /** The labels on `d` are those of the rows dated `d`. */
  lemma {:induction false} LabelsOnMembership(rows: seq<Row>, d: DateKey, l: string)
    ensures l in LabelsOn(rows, d) <==> exists i :: 0 <= i < |rows| && rows[i].date == d && rows[i].tagLabel == l
  {
    if rows != [] {
      var init := rows[..|rows| - 1];
      LabelsOnMembership(init, d, l);
      if exists i :: 0 <= i < |rows| && rows[i].date == d && rows[i].tagLabel == l {
        var i :| 0 <= i < |rows| && rows[i].date == d && rows[i].tagLabel == l;
        if i < |rows| - 1 {
          assert init[i] == rows[i];
        }
      }
      if exists i :: 0 <= i < |init| && init[i].date == d && init[i].tagLabel == l {
        var i :| 0 <= i < |init| && init[i].date == d && init[i].tagLabel == l;
        assert rows[i] == init[i];
      }
    }
  }

  /** An entry whose tags are all structural leaves the rows, and so the log, unchanged. */
  lemma FilteredOutEntryChangesNothing(entries: seq<Entry>, e: Entry, localDate: DateTime -> DateKey)
    requires Rows(entries, localDate).Success?
    requires Normalize(e, localDate).Success? && FilterTags(e.tags) == []
    ensures Rows(entries + [e], localDate) == Rows(entries, localDate)
  {
    assert (entries + [e])[..|entries|] == entries;
  }

  /**
   * An entry without an end (or with an empty one) adds a row of 0 seconds:
   * every total stays as it was, yet its date and label become groups.
   */
  lemma OpenEntryAddsZero(entries: seq<Entry>, e: Entry, localDate: DateTime -> DateKey)
    requires Rows(entries, localDate).Success?
    requires !HasEnd(e) && Parse(e.start).Some? && FilterTags(e.tags) != []
    ensures var rows := Rows(entries, localDate).value;
            var d, l := localDate(Parse(e.start).value), Label(FilterTags(e.tags));
            && Rows(entries + [e], localDate) == Success(rows + [Row(d, l, 0)])
            && (forall d', l' :: Total(rows + [Row(d, l, 0)], d', l') == Total(rows, d', l'))
            && d in FirstSeen(Dates(rows + [Row(d, l, 0)]))
            && l in FirstSeen(LabelsOn(rows + [Row(d, l, 0)], d))
  {
    var rows := Rows(entries, localDate).value;
    var row := Row(localDate(Parse(e.start).value), Label(FilterTags(e.tags)), 0);
    OpenEntryRow(entries, e, localDate);
    ZeroRowAddsGroup(rows, row);
  }

  lemma OpenEntryRow(entries: seq<Entry>, e: Entry, localDate: DateTime -> DateKey)
    requires Rows(entries, localDate).Success?
    requires !HasEnd(e) && Parse(e.start).Some? && FilterTags(e.tags) != []
    ensures Rows(entries + [e], localDate)
            == Success(Rows(entries, localDate).value
                       + [Row(localDate(Parse(e.start).value), Label(FilterTags(e.tags)), 0)])
  {
    assert (entries + [e])[..|entries|] == entries;
  }

  /** A row of 0 seconds changes no total, yet its date and label become keys. */
  lemma ZeroRowAddsGroup(rows: seq<Row>, row: Row)
    requires row.seconds == 0
    ensures forall d', l' :: Total(rows + [row], d', l') == Total(rows, d', l')
    ensures row.date in FirstSeen(Dates(rows + [row]))
    ensures row.tagLabel in FirstSeen(LabelsOn(rows + [row], row.date))
  {
    forall d', l' ensures Total(rows + [row], d', l') == Total(rows, d', l') {
      RowsSnoc(rows, row, d', l');
    }
    RowsSnoc(rows, row, row.date, row.tagLabel);
  }

  // ---------------------------------------------------------------------
  // Lemmas about the loop

  /** The rows of one more entry extend the rows of the entries before it. */
  lemma RowsNext(entries: seq<Entry>, localDate: DateTime -> DateKey, i: nat)
    requires i < |entries|
    ensures Rows(entries[..i + 1], localDate) ==
      match Rows(entries[..i], localDate)
      case Failure(err) => Failure(err)
      case Success(rows) =>
        match Normalize(entries[i], localDate)
        case Failure(err) => Failure(err)
        case Success(None) => Success(rows)
        case Success(Some(row)) => Success(rows + [row])
  {
    assert entries[..i + 1][..i] == entries[..i];
  }

  /** Once an entry fails to parse, the whole run fails with its error. */
  lemma {:induction false} RowsStopAtFailure(entries: seq<Entry>, localDate: DateTime -> DateKey, i: nat)
    requires i < |entries|
    requires Rows(entries[..i], localDate).Success?
    requires Normalize(entries[i], localDate).Failure?
    ensures Rows(entries, localDate) == Failure(Normalize(entries[i], localDate).error)
    decreases |entries|
  {
    var n := |entries|;
    var init := entries[..n - 1];
    LastSplit(entries);
    if i == n - 1 {
      assert init == entries[..i];
      RowsFailLast(init, entries[i], localDate);
    } else {
      assert init[..i] == entries[..i] && init[i] == entries[i];
      RowsStopAtFailure(init, localDate, i);
      RowsFailureSticks(init, entries[n - 1], localDate);
    }
  }

  /** The run fails exactly when some entry fails to parse. */
  lemma {:induction false} RowsFailIff(entries: seq<Entry>, localDate: DateTime -> DateKey)
    ensures Rows(entries, localDate).Failure?
            <==> exists i :: 0 <= i < |entries| && Normalize(entries[i], localDate).Failure?
  {
    if entries != [] {
      var n := |entries|;
      var init := entries[..n - 1];
      LastSplit(entries);
      RowsFailIff(init, localDate);
      RowsFailSnoc(init, entries[n - 1], localDate);
      assert forall i :: 0 <= i < n - 1 ==> entries[i] == init[i];
    }
  }

  lemma RowsFailSnoc(init: seq<Entry>, e: Entry, localDate: DateTime -> DateKey)
    ensures Rows(init + [e], localDate).Failure?
            <==> Rows(init, localDate).Failure? || Normalize(e, localDate).Failure?
  {
    assert (init + [e])[..|init|] == init;
  }

  lemma LastSplit<T>(s: seq<T>)
    requires s != []
    ensures s == s[..|s| - 1] + [s[|s| - 1]]
  {
  }

  /** An entry that fails after a successful prefix fails the run. */
  lemma RowsFailLast(init: seq<Entry>, e: Entry, localDate: DateTime -> DateKey)
    requires Rows(init, localDate).Success? && Normalize(e, localDate).Failure?
    ensures Rows(init + [e], localDate) == Failure(Normalize(e, localDate).error)
  {
    assert (init + [e])[..|init|] == init;
  }

  /** A failed prefix is not undone by a further entry. */
  lemma RowsFailureSticks(init: seq<Entry>, e: Entry, localDate: DateTime -> DateKey)
    requires Rows(init, localDate).Failure?
    ensures Rows(init + [e], localDate) == Rows(init, localDate)
  {
    assert (init + [e])[..|init|] == init;
  }

  /** How the row-level summaries change when one row is appended. */
  lemma RowsSnoc(rows: seq<Row>, row: Row, d: DateKey, l: string)
    ensures LabelsOn(rows + [row], d) == LabelsOn(rows, d) + (if row.date == d then [row.tagLabel] else [])
    ensures Total(rows + [row], d, l) == Total(rows, d, l) + (if row.date == d && row.tagLabel == l then row.seconds else 0)
    ensures Dates(rows + [row]) == Dates(rows) + [row.date]
  {
    assert (rows + [row])[..|rows|] == rows;
  }

  /** A date never seen has no labels. */
  lemma {:induction false} UnseenDateHasNoLabels(rows: seq<Row>, d: DateKey)
    requires d !in Dates(rows)
    ensures LabelsOn(rows, d) == []
  {
    if rows != [] {
      var init := rows[..|rows| - 1];
      assert Dates(init) <= Dates(rows);
      UnseenDateHasNoLabels(init, d);
    }
  }

  /** A group never seen sums to zero. */
  lemma {:induction false} UnseenLabelTotalsZero(rows: seq<Row>, d: DateKey, l: string)
    requires l !in LabelsOn(rows, d)
    ensures Total(rows, d, l) == 0
  {
    if rows != [] {
      var init := rows[..|rows| - 1];
      UnseenLabelTotalsZero(init, d, l);
    }
  }

  /**
   * `log'` is `log` after `work_log[date][tags] += seconds` for `row`: a new date
   * is appended to the dates, a new label to the labels of its date, the group
   * grows by the row's seconds from 0 if it is new, and nothing else changes.
   */
  ghost predicate Updated(log: Log, row: Row, log': Log)
  {
    var d, l := row.date, row.tagLabel;
    var inner := if d in log.items then log.items[d] else Empty();
    && log'.keys == (if d in log.items then log.keys else log.keys + [d])
    && log'.items.Keys == log.items.Keys + {d}
    && (forall d' :: d' in log.items && d' != d ==> log'.items[d'] == log.items[d'])
    && GroupAdded(inner, row, log'.items[d])
  }

  /** `inner'` is the dict of one date after adding `row`'s seconds under its label. */
  ghost predicate GroupAdded(inner: Dict<string, int>, row: Row, inner': Dict<string, int>)
  {
    var l := row.tagLabel;
    && inner'.keys == (if l in inner.items then inner.keys else inner.keys + [l])
    && inner'.items == inner.items[l := (if l in inner.items then inner.items[l] else 0) + row.seconds]
  }

  /** The inner dict of `d` holds exactly the groups of `rows` on `d`. */
  ghost predicate DescribesDay(inner: Dict<string, int>, rows: seq<Row>, d: DateKey)
  {
    && inner.Valid()
    && inner.keys == FirstSeen(LabelsOn(rows, d))
    && forall l :: l in inner.items ==> inner.items[l] == Total(rows, d, l)
  }

  /** Adding a row to its own day's dict keeps that dict describing the rows. */
  lemma AccumulateDay(inner: Dict<string, int>, rows: seq<Row>, row: Row, inner': Dict<string, int>)
    requires DescribesDay(inner, rows, row.date) && GroupAdded(inner, row, inner')
    ensures DescribesDay(inner', rows + [row], row.date)
  {
    AccumulateDayKeys(inner, rows, row, inner');
    AccumulateDayTotals(inner, rows, row, inner');
  }

  lemma AccumulateDayKeys(inner: Dict<string, int>, rows: seq<Row>, row: Row, inner': Dict<string, int>)
    requires DescribesDay(inner, rows, row.date) && GroupAdded(inner, row, inner')
    ensures inner'.Valid() && inner'.keys == FirstSeen(LabelsOn(rows + [row], row.date))
  {
    var d, l := row.date, row.tagLabel;
    RowsSnoc(rows, row, d, l);
    FirstSeenSnoc(LabelsOn(rows, d), l);
  }

  lemma AccumulateDayTotals(inner: Dict<string, int>, rows: seq<Row>, row: Row, inner': Dict<string, int>)
    requires DescribesDay(inner, rows, row.date) && GroupAdded(inner, row, inner')
    ensures forall l :: l in inner'.items ==> inner'.items[l] == Total(rows + [row], row.date, l)
  {
    forall l | l in inner'.items
      ensures inner'.items[l] == Total(rows + [row], row.date, l)
    {
      AccumulateOneTotal(inner, rows, row, inner', l);
    }
  }

  lemma AccumulateOneTotal(inner: Dict<string, int>, rows: seq<Row>, row: Row, inner': Dict<string, int>, l: string)
    requires DescribesDay(inner, rows, row.date) && GroupAdded(inner, row, inner')
    requires l in inner'.items
    ensures inner'.items[l] == Total(rows + [row], row.date, l)
  {
    var d := row.date;
    RowsSnoc(rows, row, d, l);
    if l !in inner.items {
      assert l !in inner.keys;
      assert l !in LabelsOn(rows, d);
      UnseenLabelTotalsZero(rows, d, l);
    }
  }

  /** A row leaves the dicts of the other days describing the rows. */
  lemma OtherDayUnchanged(inner: Dict<string, int>, rows: seq<Row>, row: Row, d: DateKey)
    requires d != row.date && DescribesDay(inner, rows, d)
    ensures DescribesDay(inner, rows + [row], d)
  {
    RowsSnoc(rows, row, d, row.tagLabel);
    assert LabelsOn(rows + [row], d) == LabelsOn(rows, d);
    forall l | l in inner.items
      ensures inner.items[l] == Total(rows + [row], d, l)
    {
      RowsSnoc(rows, row, d, l);
    }
  }

  /** One pass of the loop body that records `row` keeps the log describing the rows. */
  lemma RecordStep(log: Log, rows: seq<Row>, row: Row, log': Log)
    requires Describes(log, rows) && Updated(log, row, log')
    ensures Describes(log', rows + [row])
  {
    RecordStepDates(log, rows, row, log');
    forall d | d in log'.items
      ensures DescribesDay(log'.items[d], rows + [row], d)
    {
      RecordStepDay(log, rows, row, log', d);
    }
  }

  lemma RecordStepDates(log: Log, rows: seq<Row>, row: Row, log': Log)
    requires Describes(log, rows) && Updated(log, row, log')
    ensures log'.Valid() && log'.keys == FirstSeen(Dates(rows + [row]))
  {
    RowsSnoc(rows, row, row.date, row.tagLabel);
    FirstSeenSnoc(Dates(rows), row.date);
  }

  lemma RecordStepDay(log: Log, rows: seq<Row>, row: Row, log': Log, d: DateKey)
    requires Describes(log, rows) && Updated(log, row, log') && d in log'.items
    ensures DescribesDay(log'.items[d], rows + [row], d)
  {
    if d == row.date {
      var inner := if d in log.items then log.items[d] else Empty();
      if d !in log.items {
        UnseenDateHasNoLabels(rows, d);
      }
      assert DescribesDay(inner, rows, d);
      AccumulateDay(inner, rows, row, log'.items[d]);
    } else {
      OtherDayUnchanged(log.items[d], rows, row, d);
    }
  }

  /**
   * The body of main.py lines 96-102: create `work_log[date] = {}` and
   * `work_log[date][tags] = 0` when missing, then add the seconds.
   */
  method Record(log: Log, date: DateKey, tagLabel: string, seconds: int) returns (log': Log)
    requires log.Valid()
    ensures Updated(log, Row(date, tagLabel, seconds), log')
    ensures log'.Valid()
  {
    var withDate := AddDate(log, date);
    var previous := if date in log.items then log.items[date] else Empty();
    assert withDate.items[date] == previous;
    var inner := AddSeconds(withDate.items[date], Row(date, tagLabel, seconds));
    log' := withDate.Put(date, inner);
    Overwrite(log.items, date, previous, inner);
    UpdatedByParts(log, Row(date, tagLabel, seconds), inner, log');
  }

  /** A second assignment to the same key replaces the first. */
  lemma Overwrite<K, V>(m: map<K, V>, k: K, a: V, b: V)
    ensures m[k := a][k := b] == m[k := b]
  {
  }

  /** main.py lines 96-97: `work_log[date] = {}` when the date is new. */
  method AddDate(log: Log, date: DateKey) returns (log': Log)
    requires log.Valid()
    ensures log'.Valid() && date in log'.items
    ensures log'.keys == (if date in log.items then log.keys else log.keys + [date])
    ensures log'.items == log.items[date := if date in log.items then log.items[date] else Empty()]
  {
    log' := log;
    if date !in log'.items {
      log' := log'.Put(date, Empty());
    }
  }

  /** main.py lines 99-102 on the dict of one date: create the label at 0 if missing, then add the seconds. */
  method AddSeconds(inner: Dict<string, int>, row: Row) returns (inner': Dict<string, int>)
    ensures GroupAdded(inner, row, inner')
  {
    inner' := inner;
    if row.tagLabel !in inner'.items {
      inner' := inner'.Put(row.tagLabel, 0);
    }
    inner' := inner'.Put(row.tagLabel, inner'.items[row.tagLabel] + row.seconds);
  }

  /** The two assignments of main.py lines 96-102 amount to `Updated`. */
  lemma UpdatedByParts(log: Log, row: Row, inner: Dict<string, int>, log': Log)
    requires log'.keys == (if row.date in log.items then log.keys else log.keys + [row.date])
    requires log'.items == log.items[row.date := inner]
    requires GroupAdded(if row.date in log.items then log.items[row.date] else Empty(), row, inner)
    ensures Updated(log, row, log')
  {
  }
}
