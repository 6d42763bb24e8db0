/**
 * Worked cases of the whole pipeline: the order in which groups are listed,
 * and repeated intervals under one label merging into a single invoice line.
 */
module Scenarios {
  import opened Wrappers
  import opened Tags
  import opened Timestamp
  import opened OrderedDict
  import opened WorkLog
  import opened Invoice

  /**
   * Rows on dates d1, d2, d1 with labels a, b, c give the groups d1/a, d1/c,
   * d2/b: dates in first-seen order, and under each date its labels in
   * first-seen order.
   */
  lemma NestedOrder(d1: DateKey, d2: DateKey, a: string, b: string, c: string)
    requires d1 != d2 && a != c
    ensures ExpectedGroups([Row(d1, a, 1), Row(d2, b, 2), Row(d1, c, 3)]) == [(d1, a), (d1, c), (d2, b)]
  {
    var rows := [Row(d1, a, 1), Row(d2, b, 2), Row(d1, c, 3)];
    ThreeRows(d1, d2, a, b, c);
    FirstSeenPair(d1, d2);
    assert FirstSeen(Dates(rows)) == [d1, d2];
    FirstSeenPair(a, c);
    FirstSeenOne(b);
    GroupsForTwo(rows, d1, d2);
    assert GroupsFor(rows, [d1, d2]) == Pairs(d1, [a, c]) + Pairs(d2, [b]);
    PairsOfTwo(d1, a, c);
    PairsOfTwo(d2, b, b);
  }

  lemma PairsOfTwo(d: DateKey, x: string, y: string)
    ensures Pairs(d, [x, y]) == [(d, x), (d, y)] && Pairs(d, [x]) == [(d, x)]
  {
  }

  lemma NestedOrderExample()
    ensures ExpectedGroups([Row("20240101", "a", 1), Row("20240102", "b", 2), Row("20240101", "c", 3)])
         == [("20240101", "a"), ("20240101", "c"), ("20240102", "b")]
  {
    var d1: DateKey, d2: DateKey := "20240101", "20240102";
    assert d1 != d2 by { assert d1[7] != d2[7]; }
    var a: string, c: string := "a", "c";
    assert a != c by { assert a[0] != c[0]; }
    NestedOrder(d1, d2, a, "b", c);
  }

  /** Rows on dates d1, d2, d1, unfolded. */
  lemma ThreeRows(d1: DateKey, d2: DateKey, a: string, b: string, c: string)
    requires d1 != d2
    ensures var rows := [Row(d1, a, 1), Row(d2, b, 2), Row(d1, c, 3)];
            Dates(rows) == [d1, d2, d1] && LabelsOn(rows, d1) == [a, c] && LabelsOn(rows, d2) == [b]
  {
    var r1, r2, r3 := Row(d1, a, 1), Row(d2, b, 2), Row(d1, c, 3);
    // The empty prefix is written as a slice: that is the term the snoc-recursive
    // definitions unfold to, so the solver can match it with their base case.
    var none: seq<Row> := [r1][..0];
    assert none == [];
    assert Dates(none) == [] && LabelsOn(none, d1) == [] && LabelsOn(none, d2) == [];
    assert Dates([r1]) == [d1] && LabelsOn([r1], d1) == [a] && LabelsOn([r1], d2) == [];
    assert [r1, r2][..1] == [r1];
    assert Dates([r1, r2]) == [d1, d2] && LabelsOn([r1, r2], d1) == [a] && LabelsOn([r1, r2], d2) == [b];
    assert [r1, r2, r3][..2] == [r1, r2];
  }

  lemma FirstSeenOne<T(!new)>(x: T)
    ensures FirstSeen([x]) == [x]
  {
    FirstSeenSnoc([], x);
    assert [x] == [] + [x];
  }

  /** Two distinct elements are each kept once, also when the first is repeated at the end. */
  lemma FirstSeenPair<T(!new)>(x: T, y: T)
    requires x != y
    ensures FirstSeen([x, y]) == [x, y] && FirstSeen([x, y, x]) == [x, y]
  {
    FirstSeenDistinctPair(x, y);
    FirstSeenSnoc([x, y], x);
    assert [x, y, x] == [x, y] + [x];
  }

  lemma FirstSeenDistinctPair<T(!new)>(x: T, y: T)
    requires x != y
    ensures FirstSeen([x, y]) == [x, y]
  {
    FirstSeenOne(x);
    FirstSeenSnoc([x], y);
    assert [x, y] == [x] + [y];
  }

  lemma GroupsForTwo(rows: seq<Row>, d1: DateKey, d2: DateKey)
    ensures GroupsFor(rows, [d1, d2]) == Pairs(d1, FirstSeen(LabelsOn(rows, d1))) + Pairs(d2, FirstSeen(LabelsOn(rows, d2)))
  {
    GroupsForOne(rows, d1);
    assert [d1, d2][..1] == [d1];
  }

  /** A closed interval whose tags are not all structural contributes one row. */
  lemma ClosedEntryRow(s: string, e: string, tags: seq<string>, localDate: DateTime -> DateKey)
    requires Parse(s).Some? && Parse(e).Some? && FilterTags(tags) != []
    ensures Normalize(Entry(s, Some(e), tags), localDate)
         == Success(Some(Row(localDate(Parse(s).value), Label(FilterTags(tags)), DurationSeconds(s, e).value)))
  {
    assert |e| == 16;
  }

  /** The rows of a two-entry export whose entries both contribute. */
  lemma TwoRows(a: Entry, b: Entry, ra: Row, rb: Row, localDate: DateTime -> DateKey)
    requires Normalize(a, localDate) == Success(Some(ra)) && Normalize(b, localDate) == Success(Some(rb))
    ensures Rows([a, b], localDate) == Success([ra, rb])
  {
    // The empty prefix is written as a slice: that is the term the snoc-recursive
    // definitions unfold to, so the solver can match it with their base case.
    var init: seq<Entry> := [a][..0];
    assert init == [];
    assert Rows(init, localDate) == Success([]);
    assert [] + [ra] == [ra];
    assert Rows([a], localDate) == Success([ra]);
    assert [a, b][..1] == [a];
    assert [ra] + [rb] == [ra, rb];
  }

  /** Two rows of one group, unfolded. */
  lemma TwoRowsOfGroup(d: DateKey, l: string, x: int, y: int)
    ensures var rows := [Row(d, l, x), Row(d, l, y)];
            Dates(rows) == [d, d] && LabelsOn(rows, d) == [l, l] && Total(rows, d, l) == x + y
  {
    var r1, r2 := Row(d, l, x), Row(d, l, y);
    // The empty prefix is written as a slice: that is the term the snoc-recursive
    // definitions unfold to, so the solver can match it with their base case.
    var none: seq<Row> := [r1][..0];
    assert none == [];
    assert Dates(none) == [] && LabelsOn(none, d) == [] && Total(none, d, l) == 0;
    assert Dates([r1]) == [d] && LabelsOn([r1], d) == [l] && Total([r1], d, l) == x;
    assert [r1, r2][..1] == [r1];
  }

  lemma FirstSeenTwice<T(!new)>(x: T)
    ensures FirstSeen([x, x]) == [x]
  {
    FirstSeenOne(x);
    FirstSeenSnoc([x], x);
    assert [x, x] == [x] + [x];
  }

  lemma GroupsForOne(rows: seq<Row>, d: DateKey)
    ensures GroupsFor(rows, [d]) == Pairs(d, FirstSeen(LabelsOn(rows, d)))
  {
    // The empty prefix is written as a slice: that is the term the snoc-recursive
    // definitions unfold to, so the solver can match it with their base case.
    var noDates: seq<DateKey> := [d][..0];
    assert noDates == [] && GroupsFor(rows, noDates) == [];
  }

  /** Two rows of one group: the group is listed once and holds their sum. */
  lemma OneGroup(d: DateKey, l: string, x: int, y: int)
    ensures ExpectedGroups([Row(d, l, x), Row(d, l, y)]) == [(d, l)]
    ensures Total([Row(d, l, x), Row(d, l, y)], d, l) == x + y
  {
    var rows := [Row(d, l, x), Row(d, l, y)];
    TwoRowsOfGroup(d, l, x, y);
    FirstSeenTwice(d);
    FirstSeenTwice(l);
    GroupsForOne(rows, d);
  }

  /**
   * Two closed intervals on the same local date, both left with the same label
   * once their structural tags are dropped, become one group whose total is the
   * sum of the two durations.
   */
  lemma RepeatedLabelMerges(s1: string, e1: string, s2: string, e2: string, tag: string, code: string,
                            localDate: DateTime -> DateKey)
    requires Parse(s1).Some? && Parse(e1).Some? && Parse(s2).Some? && Parse(e2).Some?
    requires localDate(Parse(s1).value) == localDate(Parse(s2).value)
    requires IsStructural(code) && !IsStructural(tag)
    ensures var d := localDate(Parse(s1).value);
            var rows := Rows([Entry(s1, Some(e1), [tag]), Entry(s2, Some(e2), [tag, code])], localDate);
            && rows.Success?
            && ExpectedGroups(rows.value) == [(d, tag)]
            && Total(rows.value, d, tag) == DurationSeconds(s1, e1).value + DurationSeconds(s2, e2).value
  {
    var d := localDate(Parse(s1).value);
    FilterPair(code, tag);
    assert FilterTags([tag]) == [tag] by {
      assert [tag][1..] == [];
    }
    assert Label([tag]) == tag;
    ClosedEntryRow(s1, e1, [tag], localDate);
    ClosedEntryRow(s2, e2, [tag, code], localDate);
    TwoRows(Entry(s1, Some(e1), [tag]), Entry(s2, Some(e2), [tag, code]),
            Row(d, tag, DurationSeconds(s1, e1).value), Row(d, tag, DurationSeconds(s2, e2).value), localDate);
    OneGroup(d, tag, DurationSeconds(s1, e1).value, DurationSeconds(s2, e2).value);
  }

  /**
   * Two 2.5-hour "design review" sessions on 1 January 2024, the second also
   * tagged with the ticket code "proj.42", make one line of 18000 seconds
   * described "2024-01-01: design review", provided the local date of both
   * starts is that day.
   */
  lemma DesignReviewInvoice(localDate: DateTime -> DateKey)
    requires localDate(DateTime(2024, 1, 1, 9, 0, 0)) == "20240101"
    ensures var rows := Rows([Entry("20240101T090000Z", Some("20240101T113000Z"), ["design review"]),
                              Entry("20240101T090000Z", Some("20240101T113000Z"), ["design review", "proj.42"])],
                             localDate);
            && rows.Success?
            && ExpectedGroups(rows.value) == [("20240101", "design review")]
            && Total(rows.value, "20240101", "design review") == 18000
            && LineItem("20240101", "design review", 18000, "95.00").description == "2024-01-01: design review"
  {
    DurationExample();
    CodeIsStructural();
    PhraseIsDescriptive();
    ParseNine();
    RepeatedLabelMerges("20240101T090000Z", "20240101T113000Z", "20240101T090000Z", "20240101T113000Z",
                        "design review", "proj.42", localDate);
    DesignReviewDescription();
  }

  lemma DesignReviewDescription()
    ensures LineItem("20240101", "design review", 18000, "95.00").description == "2024-01-01: design review"
  {
    NewYearIsoDate();
    var iso: string, phrase: string := "2024-01-01", "design review";
    assert iso + ": " + phrase == "2024-01-01: design review";
  }

  lemma NewYearIsoDate()
    ensures IsoDate("20240101") == "2024-01-01"
  {
    var d: DateKey := "20240101";
    assert d[..4] == "2024" && d[4..6] == "01" && d[6..] == "01";
  }

  /**
   * An interval tagged only with a ticket code is skipped: appending it to any
   * export leaves the rows, and so the invoice, as they were.
   */
  lemma TicketOnlyEntrySkipped(entries: seq<Entry>, start: string, localDate: DateTime -> DateKey)
    requires Rows(entries, localDate).Success? && Parse(start).Some?
    ensures Rows(entries + [Entry(start, None, ["proj.42"])], localDate) == Rows(entries, localDate)
  {
    TicketCodeFiltered();
    FilteredOutEntryChangesNothing(entries, Entry(start, None, ["proj.42"]), localDate);
  }

  lemma TicketCodeFiltered()
    ensures FilterTags(["proj.42"]) == []
  {
    CodeIsStructural();
    assert ["proj.42"][1..] == [];
  }
}
