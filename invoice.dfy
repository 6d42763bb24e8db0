/**
 * The invoice builder of main.py: one line item per (date, tag label) group of
 * the work log, walked in insertion order, inside the fixed draft-invoice
 * wrapper sent to the invoicing service.
 */
module Invoice {
  import opened Wrappers
  import opened Timestamp
  import opened OrderedDict
  import opened WorkLog

  /** An invoice line. `seconds` stands for the `qty` in hours, `price` for the formatted hourly rate. */
  datatype Item = Item(kind: string, description: string, price: string, seconds: int, tax: Option<string>)

  /** The invoice document, field for field as main.py assembles it. */
  datatype Document = Document(
    context: string, kind: string, client: string, items: seq<Item>,
    users: seq<string>, status: string, terms: Option<string>, notes: Option<string>)

  /** A work group: a date key and a tag label. */
  type Group = (DateKey, string)

  // ---------------------------------------------------------------------
  // Descriptions

  /** `YYYYMMDD` rewritten as `YYYY-MM-DD`. */
  function IsoDate(d: DateKey): (s: string)
    ensures |s| == 10 && s[4] == '-' && s[7] == '-'
  {
    d[..4] + "-" + d[4..6] + "-" + d[6..]
  }

  /**
   * `f"{formatted_date}: {tag}"`. The description records its group without
   * loss: the date key and the label can be read back from it.
   */
  function Description(d: DateKey, tagLabel: string): (s: string)
    ensures |s| == 12 + |tagLabel| && s[4] == '-' && s[7] == '-' && s[10..12] == ": "
    ensures DescribedDate(s) == d && DescribedLabel(s) == tagLabel
  {
    var s := IsoDate(d) + ": " + tagLabel;
    assert s[..4] == d[..4] && s[5..7] == d[4..6] && s[8..10] == d[6..];
    assert d == d[..4] + d[4..6] + d[6..];
    assert s[12..] == tagLabel;
    s
  }

  /** The date key read back from a description. */
  function DescribedDate(s: string): DateKey
    requires |s| >= 12
  {
    s[..4] + s[5..7] + s[8..10]
  }

  /** The tag label read back from a description. */
  function DescribedLabel(s: string): string
    requires |s| >= 12
  {
    s[12..]
  }

  /** Distinct groups get distinct descriptions. */
  lemma DescriptionInjective(d1: DateKey, l1: string, d2: DateKey, l2: string)
    requires Description(d1, l1) == Description(d2, l2)
    ensures d1 == d2 && l1 == l2
  {
  }

  // ---------------------------------------------------------------------
  // The groups of a log, in iteration order

  /** The groups of date `d` with the given labels, in label order. */
  function Pairs(d: DateKey, labels: seq<string>): (gs: seq<Group>)
    ensures |gs| == |labels| && forall j :: 0 <= j < |labels| ==> gs[j] == (d, labels[j])
  {
    seq(|labels|, j requires 0 <= j < |labels| => (d, labels[j]))
  }

  /** The groups of the dates `ds` of `log`, date by date, each date's labels in order. */
  function GroupsIn(log: Log, ds: seq<DateKey>): seq<Group>
    requires forall d :: d in ds ==> d in log.items
  {
    if ds == [] then []
    else
      var d := ds[|ds| - 1];
      GroupsIn(log, ds[..|ds| - 1]) + Pairs(d, log.items[d].keys)
  }

  /** The order in which `for date, tags in work_log.items(): for tag in tags` visits the groups. */
  function Groups(log: Log): seq<Group>
    requires log.Valid()
  {
    GroupsIn(log, log.keys)
  }

  /** The line item of one group. */
  function LineItem(d: DateKey, tagLabel: string, seconds: int, price: string): (item: Item)
    ensures item.kind == "Item" && item.tax == None && item.price == price && item.seconds == seconds
    ensures |item.description| >= 12
    ensures DescribedDate(item.description) == d && DescribedLabel(item.description) == tagLabel
  {
    Item("Item", Description(d, tagLabel), price, seconds, None)
  }

  /** `item` is the line of group `g` of `log`. */
  ghost predicate ItemOf(log: Log, g: Group, price: string, item: Item)
  {
    g.0 in log.items && g.1 in log.items[g.0].items && item == LineItem(g.0, g.1, log.items[g.0].items[g.1], price)
  }

  /** The invoice wrapper: fixed metadata, client and contact references, draft status. */
  ghost predicate IsWrapper(doc: Document, clientId: string, contactId: string)
  {
    && doc.context == "/api/contexts/Invoice"
    && doc.kind == "Invoice"
    && doc.client == "/api/clients/" + clientId
    && doc.users == ["/api/contacts/" + contactId]
    && doc.status == "draft"
    && doc.terms == None
    && doc.notes == None
  }

  /** Every key of every level of the log is listed and mapped. */
  ghost predicate WellFormed(log: Log)
  {
    log.Valid() && forall d :: d in log.items ==> log.items[d].Valid()
  }

  // ---------------------------------------------------------------------
  // Building the document

  /**
   * main.py lines 105-129: the wrapper, then one item per group, appended in
   * the order the nested loops over the log visit the groups.
   */
  method BuildInvoice(log: Log, clientId: string, contactId: string, price: string) returns (doc: Document)
    requires WellFormed(log)
    ensures IsWrapper(doc, clientId, contactId)
    ensures |doc.items| == |Groups(log)|
    ensures forall k :: 0 <= k < |doc.items| ==> ItemOf(log, Groups(log)[k], price, doc.items[k])
  {
    doc := Document("/api/contexts/Invoice", "Invoice", "/api/clients/" + clientId, [],
                    ["/api/contacts/" + contactId], "draft", None, None);
    for i := 0 to |log.keys|
      invariant IsWrapper(doc, clientId, contactId)
      invariant ItemsOf(log, GroupsIn(log, log.keys[..i]), price, doc.items)
    {
      var date := log.keys[i];
      ghost var before := doc.items;
      doc := AddDateItems(log, date, price, doc);
      GroupsInStep(log, i);
      DateItemsAppended(log, GroupsIn(log, log.keys[..i]), date, price, before, doc.items);
    }
    assert log.keys[..|log.keys|] == log.keys;
  }

  /** `items` holds the items of the groups `gs`, one each, in order. */
  ghost predicate ItemsOf(log: Log, gs: seq<Group>, price: string, items: seq<Item>)
  {
    |items| == |gs| && forall k :: 0 <= k < |items| ==> ItemOf(log, gs[k], price, items[k])
  }

  /** The inner loop of main.py lines 117-129: one item per label of `date`, in label order. */
  method AddDateItems(log: Log, date: DateKey, price: string, doc: Document) returns (doc': Document)
    requires date in log.items && log.items[date].Valid()
    ensures doc' == doc.(items := doc'.items)
    ensures |doc'.items| == |doc.items| + |log.items[date].keys|
    ensures forall k :: 0 <= k < |doc.items| ==> doc'.items[k] == doc.items[k]
    ensures forall j :: 0 <= j < |log.items[date].keys| ==>
              ItemOf(log, (date, log.items[date].keys[j]), price, doc'.items[|doc.items| + j])
  {
    var tags := log.items[date];
    doc' := doc;
    for j := 0 to |tags.keys|
      invariant doc' == doc.(items := doc'.items)
      invariant |doc'.items| == |doc.items| + j
      invariant forall k :: 0 <= k < |doc.items| ==> doc'.items[k] == doc.items[k]
      invariant forall j' :: 0 <= j' < j ==> ItemOf(log, (date, tags.keys[j']), price, doc'.items[|doc.items| + j'])
    {
      var tag := tags.keys[j];
      var totalSeconds := tags.items[tag];
      var description := Description(date, tag);
      var item := Item("Item", description, price, totalSeconds, None);
      doc' := doc'.(items := doc'.items + [item]);
    }
  }

  /** The items of one more date extend the items of the dates before it. */
  lemma DateItemsAppended(log: Log, done: seq<Group>, date: DateKey, price: string, items: seq<Item>, items': seq<Item>)
    requires date in log.items && ItemsOf(log, done, price, items)
    requires |items'| == |items| + |log.items[date].keys|
    requires forall k :: 0 <= k < |items| ==> items'[k] == items[k]
    requires forall j :: 0 <= j < |log.items[date].keys| ==>
               ItemOf(log, (date, log.items[date].keys[j]), price, items'[|items| + j])
    ensures ItemsOf(log, done + Pairs(date, log.items[date].keys), price, items')
  {
    var gs := done + Pairs(date, log.items[date].keys);
    forall k | 0 <= k < |items'|
      ensures ItemOf(log, gs[k], price, items'[k])
    {
      if k >= |items| {
        var j := k - |items|;
        assert gs[k] == (date, log.items[date].keys[j]);
      }
    }
  }

  /** One more date of the log adds that date's groups, in label order. */
  lemma GroupsInStep(log: Log, i: nat)
    requires WellFormed(log) && i < |log.keys|
    ensures GroupsIn(log, log.keys[..i + 1]) == GroupsIn(log, log.keys[..i]) + Pairs(log.keys[i], log.items[log.keys[i]].keys)
  {
    assert log.keys[..i + 1][..i] == log.keys[..i];
  }

  // ---------------------------------------------------------------------
  // The groups the rows call for

  /** For each date of `ds`, its labels in first-seen order. */
  function GroupsFor(rows: seq<Row>, ds: seq<DateKey>): seq<Group>
  {
    if ds == [] then []
    else
      var d := ds[|ds| - 1];
      GroupsFor(rows, ds[..|ds| - 1]) + Pairs(d, FirstSeen(LabelsOn(rows, d)))
  }

  /** The groups of `rows`: dates in first-seen order, then labels of a date in first-seen order. */
  function ExpectedGroups(rows: seq<Row>): seq<Group>
  {
    GroupsFor(rows, FirstSeen(Dates(rows)))
  }

  /** A log that describes the rows is walked in the order the rows call for. */
  lemma {:induction false} GroupsInMatch(log: Log, rows: seq<Row>, ds: seq<DateKey>)
    requires Describes(log, rows)
    requires forall d :: d in ds ==> d in log.items
    ensures GroupsIn(log, ds) == GroupsFor(rows, ds)
  {
    if ds != [] {
      GroupsInMatch(log, rows, ds[..|ds| - 1]);
      assert DescribesDay(log.items[ds[|ds| - 1]], rows, ds[|ds| - 1]);
    }
  }

  lemma GroupsMatch(log: Log, rows: seq<Row>)
    requires Describes(log, rows)
    ensures Groups(log) == ExpectedGroups(rows)
  {
    GroupsInMatch(log, rows, log.keys);
  }

  /** A group is listed exactly when some row carries its date and label. */
  lemma {:induction false} GroupsForMembership(rows: seq<Row>, ds: seq<DateKey>, g: Group)
    ensures g in GroupsFor(rows, ds) <==> g.0 in ds && g.1 in LabelsOn(rows, g.0)
  {
    if ds != [] {
      var d := ds[|ds| - 1];
      var init := ds[..|ds| - 1];
      GroupsForMembership(rows, init, g);
      assert ds == init + [d];
      var ps := Pairs(d, FirstSeen(LabelsOn(rows, d)));
      if g in ps {
        var j :| 0 <= j < |ps| && ps[j] == g;
      }
      if g.0 == d && g.1 in LabelsOn(rows, d) {
        var j :| 0 <= j < |FirstSeen(LabelsOn(rows, d))| && FirstSeen(LabelsOn(rows, d))[j] == g.1;
        assert ps[j] == g;
      }
    }
  }

  /** Each group is listed once: one item per group. */
  lemma {:induction false} GroupsForDistinct(rows: seq<Row>, ds: seq<DateKey>)
    requires Distinct(ds)
    ensures Distinct(GroupsFor(rows, ds))
  {
    if ds != [] {
      var d := ds[|ds| - 1];
      var init := ds[..|ds| - 1];
      GroupsForDistinct(rows, init);
      var front, ps := GroupsFor(rows, init), Pairs(d, FirstSeen(LabelsOn(rows, d)));
      var all := front + ps;
      forall i, j | 0 <= i < j < |all| ensures all[i] != all[j] {
        if i < |front| && j >= |front| {
          assert all[j] == ps[j - |front|];
          assert all[i] == front[i];
          GroupsForMembership(rows, init, all[i]);
          assert forall p :: 0 <= p < |init| ==> init[p] == ds[p] != d;
          assert all[i].0 != d;
        } else if i >= |front| {
          assert all[i] == ps[i - |front|] && all[j] == ps[j - |front|];
        } else {
          assert all[i] == front[i] && all[j] == front[j];
        }
      }
    }
  }

  /** The expected groups are exactly the (date, label) pairs of the rows, each once. */
  lemma ExpectedGroupsExact(rows: seq<Row>, g: Group)
    ensures Distinct(ExpectedGroups(rows))
    ensures g in ExpectedGroups(rows) <==> exists i :: 0 <= i < |rows| && rows[i].date == g.0 && rows[i].tagLabel == g.1
  {
    GroupsForDistinct(rows, FirstSeen(Dates(rows)));
    GroupsForMembership(rows, FirstSeen(Dates(rows)), g);
    LabelsOnMembership(rows, g.0, g.1);
    if g.1 in LabelsOn(rows, g.0) {
      var i :| 0 <= i < |rows| && rows[i].date == g.0 && rows[i].tagLabel == g.1;
      assert Dates(rows)[i] == g.0;
    }
  }

  // ---------------------------------------------------------------------
  // The whole pipeline

  /**
   * Export in, invoice out: aggregate the entries, then build the document.
   * A timestamp that does not parse aborts with no document.
   */
  method Run(entries: seq<Entry>, localDate: DateTime -> DateKey, clientId: string, contactId: string, price: string)
    returns (r: Result<Document, ParseError>)
    ensures r.Failure? <==> Rows(entries, localDate).Failure?
    ensures r.Failure? ==> r.error == Rows(entries, localDate).error
    ensures r.Success? ==>
      var rows := Rows(entries, localDate).value;
      var gs := ExpectedGroups(rows);
      && IsWrapper(r.value, clientId, contactId)
      && |r.value.items| == |gs|
      && forall k :: 0 <= k < |gs| ==> r.value.items[k] == LineItem(gs[k].0, gs[k].1, Total(rows, gs[k].0, gs[k].1), price)
  {
    var aggregated := Aggregate(entries, localDate);
    if aggregated.Failure? {
      return Failure(aggregated.error);
    }
    var log := aggregated.value;
    ghost var rows := Rows(entries, localDate).value;
    var doc := BuildInvoice(log, clientId, contactId, price);
    GroupsMatch(log, rows);
    forall k | 0 <= k < |doc.items|
      ensures doc.items[k] == LineItem(Groups(log)[k].0, Groups(log)[k].1, Total(rows, Groups(log)[k].0, Groups(log)[k].1), price)
    {
      var g := Groups(log)[k];
      assert ItemOf(log, g, price, doc.items[k]);
      assert DescribesDay(log.items[g.0], rows, g.0);
    }
    return Success(doc);
  }
}
