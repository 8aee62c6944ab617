/**
 * `src/lib/audit-log.ts`: the generator that walks the on-chain ledger in batches, and the CSV export
 * made from it.
 */
module AuditLog {
  import opened Text
  import opened Numerals
  import opened Csv

  datatype Entry = Entry(
    id: nat,
    timestamp: nat,
    action: string,
    actor: string,
    targetId: nat,
    details: string)

  datatype Order = Asc | Desc

  /** An empty actor or action filters nothing, like an absent one. */
  datatype Filters = Filters(
    actor: string,
    action: string,
    resource: Option<nat>,
    since: Option<nat>,
    until: Option<nat>,
    order: Order)

  /** `matchesAuditFilters` */
  predicate Matches(e: Entry, f: Filters) {
    if f.actor != "" && e.actor != f.actor then false
    else if f.action != "" && e.action != f.action then false
    else if f.resource.Some? && e.targetId != f.resource.value then false
    else if f.since.Some? && e.timestamp < f.since.value then false
    else if f.until.Some? && e.timestamp > f.until.value then false
    else true
  }

  /** The reads of one walk: `None` for an entry that cannot be read. */
  datatype Ledger = Ledger(count: nat, read: int -> Option<Entry>)

  const BATCH := 10

  // ---------------------------------------------------------------- the simple specification

  function Ids(count: nat, order: Order): (ids: seq<int>)
    ensures |ids| == count
  {
    seq(count, k => if order.Desc? then count - k else k + 1)
  }

  function Selected(l: Ledger, f: Filters): int -> seq<Entry> {
    id => var e := l.read(id); if e.Some? && Matches(e.value, f) then [e.value] else []
  }

  function Walk(l: Ledger, f: Filters): seq<Entry> { FlatMap(Selected(l, f), Ids(l.count, f.order)) }

  // ---------------------------------------------------------------- the generator

  /** The inner loop: the next ids, as far as the ledger goes. */
  method IdBatch(first: int, step: int, last: int, descending: bool, offset: nat) returns (batch: seq<int>)
    requires step == if descending then -1 else 1
    requires if descending then first - offset >= last else first + offset <= last
    ensures forall k :: 0 <= k < |batch| ==> batch[k] == if descending then first - offset - k else first + offset + k
    ensures var left := if descending then first - offset - last + 1 else last - first - offset + 1;
            |batch| == if left < 10 then left else 10
  {
    batch := [];
    for i := 0 to BATCH
      invariant |batch| == i
      invariant forall k :: 0 <= k < i ==> batch[k] == if descending then first - offset - k else first + offset + k
      invariant if descending then first - offset - i >= last - 1 else first + offset + i <= last + 1
    {
      var id := first + step * (offset + i);
      assert id == if descending then first - offset - i else first + offset + i;
      if (if descending then id < last else id > last) { break; }
      batch := batch + [id];
    }
  }

  /** Reads a batch and yields what passes the filters. */
  method YieldBatch(l: Ledger, f: Filters, batch: seq<int>) returns (yielded: seq<Entry>)
    ensures yielded == FlatMap(Selected(l, f), batch)
  {
    yielded := [];
    for i := 0 to |batch|
      invariant yielded == FlatMap(Selected(l, f), batch[..i])
    {
      FlatMapSnoc(Selected(l, f), batch, i);
      var entry := l.read(batch[i]);
      if entry.Some? && Matches(entry.value, f) {
        yielded := yielded + [entry.value];
      } else {
        assert yielded + [] == yielded;
      }
    }
    assert batch[..|batch|] == batch;
  }

  lemma NextIds(count: nat, order: Order, visited: seq<int>, batch: seq<int>)
    requires |visited| + |batch| <= count && visited == Ids(count, order)[..|visited|]
    requires forall k :: 0 <= k < |batch| ==>
               batch[k] == if order.Desc? then count - |visited| - k else 1 + |visited| + k
    ensures visited + batch == Ids(count, order)[..|visited| + |batch|]
  {}

  /** `iterateAuditLogEntries`: what it yields, and the ids it reads in the order it reads them. */
  method IterateAuditLogEntries(l: Ledger, f: Filters) returns (yielded: seq<Entry>, visited: seq<int>)
    ensures yielded == Walk(l, f)
    ensures visited == Ids(l.count, f.order)
  {
    yielded, visited := [], [];
    if l.count == 0 { return; }
    var descending := f.order != Asc;
    var step := if descending then -1 else 1;
    var first := if descending then l.count else 1;
    var last := if descending then 1 else l.count;
    ghost var ids := Ids(l.count, f.order);
    var offset := 0;
    while offset < l.count
      invariant 0 <= offset
      invariant |visited| == if offset <= l.count then offset else l.count
      invariant visited == ids[..|visited|]
      invariant yielded == FlatMap(Selected(l, f), visited)
    {
      var batch := IdBatch(first, step, last, descending, offset);
      NextIds(l.count, f.order, visited, batch);
      var found := YieldBatch(l, f, batch);
      FlatMapConcat(Selected(l, f), visited, batch);
      yielded, visited := yielded + found, visited + batch;
      offset := offset + BATCH;
    }
    assert ids[..|ids|] == ids;
  }

  // ---------------------------------------------------------------- what the walk is

  /** Every id of the ledger is read, and none twice. */
  lemma EachIdOnce(count: nat, order: Order)
    ensures forall id :: id in Ids(count, order) <==> 1 <= id <= count
    ensures forall i, j :: 0 <= i < j < count ==> Ids(count, order)[i] != Ids(count, order)[j]
  {
    forall id | 1 <= id <= count ensures id in Ids(count, order) {
      assert Ids(count, order)[if order.Desc? then count - id else id - 1] == id;
    }
  }

  /** Over a fixed ledger, ascending order is descending order backwards. */
  lemma AscendingIsReverse(l: Ledger, f: Filters)
    ensures Walk(l, f.(order := Asc)) == Reversed(Walk(l, f.(order := Desc)))
  {
    var asc, desc := f.(order := Asc), f.(order := Desc);
    assert Ids(l.count, Asc) == Reversed(Ids(l.count, Desc));
    FlatMapReversed(Selected(l, desc), Ids(l.count, Desc));
    SameSelection(l, asc, desc, Ids(l.count, Asc));
  }

  lemma {:induction false} SameSelection(l: Ledger, f: Filters, g: Filters, ids: seq<int>)
    requires f == g.(order := f.order)
    ensures FlatMap(Selected(l, f), ids) == FlatMap(Selected(l, g), ids)
  {
    if ids != [] {
      var e := l.read(ids[0]);
      assert e.Some? ==> (Matches(e.value, f) <==> Matches(e.value, g));
      assert Selected(l, f)(ids[0]) == Selected(l, g)(ids[0]);
      SameSelection(l, f, g, ids[1..]);
    }
  }

  /** An entry is yielded exactly when it can be read under some id of the ledger and matches. */
  lemma {:induction false} YieldedIff(l: Ledger, f: Filters, ids: seq<int>, e: Entry)
    ensures e in FlatMap(Selected(l, f), ids) <==>
            Matches(e, f) && exists i :: 0 <= i < |ids| && l.read(ids[i]) == Some(e)
  {
    if ids != [] {
      var rest := ids[1..];
      YieldedIff(l, f, rest, e);
      assert forall i :: 1 <= i < |ids| ==> ids[i] == rest[i - 1];
      if i :| 0 <= i < |rest| && l.read(rest[i]) == Some(e) {
        assert ids[i + 1] == rest[i];
      }
      assert e in FlatMap(Selected(l, f), ids) <==> e in Selected(l, f)(ids[0]) || e in FlatMap(Selected(l, f), rest);
    }
  }

  lemma WalkFinds(l: Ledger, f: Filters, e: Entry)
    ensures e in Walk(l, f) <==>
            && (f.actor == "" || e.actor == f.actor)
            && (f.action == "" || e.action == f.action)
            && (f.resource.Some? ==> e.targetId == f.resource.value)
            && (f.since.Some? ==> f.since.value <= e.timestamp)
            && (f.until.Some? ==> e.timestamp <= f.until.value)
            && exists id :: 1 <= id <= l.count && l.read(id) == Some(e)
  {
    var ids := Ids(l.count, f.order);
    YieldedIff(l, f, ids, e);
    EachIdOnce(l.count, f.order);
    if Matches(e, f) && exists id :: 1 <= id <= l.count && l.read(id) == Some(e) {
      var id :| 1 <= id <= l.count && l.read(id) == Some(e);
      assert id in ids;
    }
  }

  // ---------------------------------------------------------------- the export

  function Cells(e: Entry): Row {
    [Decimal(e.id), Decimal(e.timestamp), e.action, e.actor, Decimal(e.targetId), e.details]
  }

  /** `auditEntryToCsvRow` */
  function AuditEntryToCsvRow(e: Entry): string { PrintRow(Cells(e)) }

  /** Which cell stands under which header. */
  lemma CellsUnderHeaders(e: Entry)
    ensures |Cells(e)| == |HEADER| == 6
    ensures HEADER == ["ID", "Timestamp (Unix)", "Action", "Actor", "Target ID", "Details"]
    ensures DecimalValue(Cells(e)[0]) == e.id && DecimalValue(Cells(e)[1]) == e.timestamp
    ensures Cells(e)[2] == e.action && Cells(e)[3] == e.actor
    ensures DecimalValue(Cells(e)[4]) == e.targetId && Cells(e)[5] == e.details
  {
    DecimalRoundTrip(e.id);
    DecimalRoundTrip(e.timestamp);
    DecimalRoundTrip(e.targetId);
  }

  const HEADER: Row := ["ID", "Timestamp (Unix)", "Action", "Actor", "Target ID", "Details"]

  /** `AUDIT_EXPORT_HEADER` */
  const HEADER_LINE := "ID,Timestamp (Unix),Action," + "Actor,Target ID,Details" + "\r\n"

  function ExportLine(e: Entry): string { AuditEntryToCsvRow(e) + "\r\n" }

  function ExportText(entries: seq<Entry>): string { HEADER_LINE + FlatMap(ExportLine, entries) }

  /** The loop of the export route, for a client that stays connected. */
  method Export(l: Ledger, f: Filters) returns (file: string)
    ensures file == ExportText(Walk(l, f))
  {
    file := HEADER_LINE;
    var entries, _ := IterateAuditLogEntries(l, f);
    for i := 0 to |entries|
      invariant file == ExportText(entries[..i])
    {
      FlatMapSnoc(ExportLine, entries, i);
      Regroup(HEADER_LINE, FlatMap(ExportLine, entries[..i]), ExportLine(entries[i]));
      file := file + (AuditEntryToCsvRow(entries[i]) + "\r\n");
    }
    assert entries[..|entries|] == entries;
  }

  lemma CellsInjective(a: Entry, b: Entry)
    requires Cells(a) == Cells(b)
    ensures a == b
  {
    var p, q := Cells(a), Cells(b);
    assert p[0] == q[0] && p[1] == q[1] && p[2] == q[2] && p[3] == q[3] && p[4] == q[4] && p[5] == q[5];
    DecimalRoundTrip(a.id);
    DecimalRoundTrip(b.id);
    DecimalRoundTrip(a.timestamp);
    DecimalRoundTrip(b.timestamp);
    DecimalRoundTrip(a.targetId);
    DecimalRoundTrip(b.targetId);
  }

  lemma HeaderPrinted()
    ensures PrintLine(HEADER) == HEADER_LINE
  {
    HeaderFields();
    HeaderJoined();
  }

  lemma HeaderFields()
    ensures Map(EscapeField, HEADER) == HEADER
  {
    assert AllTextData("ID") && AllTextData("Timestamp (Unix)") && AllTextData("Action");
    assert AllTextData("Actor") && AllTextData("Target ID") && AllTextData("Details");
  }

  lemma JoinNext(p: string, more: seq<string>, text: string)
    requires more != [] && Join(more, ',') == text
    ensures Join([p] + more, ',') == p + [','] + text
  {}

  lemma HeaderTail()
    ensures Join(["Actor"] + (["Target ID"] + ["Details"]), ',') == "Actor,Target ID,Details"
  {
    JoinNext("Target ID", ["Details"], "Details");
    assert "Target ID" + [','] + "Details" == "Target ID,Details";
    JoinNext("Actor", ["Target ID"] + ["Details"], "Target ID,Details");
  }

  lemma HeaderFront(tail: seq<string>, text: string)
    requires tail != [] && Join(tail, ',') == text
    ensures Join(["ID"] + (["Timestamp (Unix)"] + (["Action"] + tail)), ',') == "ID,Timestamp (Unix),Action," + text
  {
    JoinNext("Action", tail, text);
    JoinNext("Timestamp (Unix)", ["Action"] + tail, "Action" + [','] + text);
    JoinNext("ID", ["Timestamp (Unix)"] + (["Action"] + tail), "Timestamp (Unix)" + [','] + ("Action" + [','] + text));
  }

  lemma HeaderJoined()
    ensures Join(HEADER, ',') + "\r\n" == HEADER_LINE
  {
    HeaderTail();
    HeaderFront(["Actor"] + (["Target ID"] + ["Details"]), "Actor,Target ID,Details");
    HeaderShape();
  }

  lemma HeaderShape()
    ensures HEADER == ["ID"] + (["Timestamp (Unix)"] + (["Action"] + (["Actor"] + (["Target ID"] + ["Details"]))))
  {}

  lemma {:induction false} ExportLinesPrinted(entries: seq<Entry>)
    ensures FlatMap(ExportLine, entries) == FlatMap(PrintLine, Map(Cells, entries))
  {
    if entries != [] {
      ExportLinesPrinted(entries[1..]);
      assert Map(Cells, entries)[1..] == Map(Cells, entries[1..]);
    }
  }

  lemma ExportPrinted(entries: seq<Entry>)
    ensures ExportText(entries) == FlatMap(PrintLine, [HEADER] + Map(Cells, entries))
  {
    HeaderPrinted();
    ExportLinesPrinted(entries);
    FlatMapCons(PrintLine, HEADER, Map(Cells, entries));
  }

  lemma {:induction false} NoneBlank(rows: seq<Row>)
    requires forall i :: 0 <= i < |rows| ==> !IsBlank(rows[i])
    ensures NonBlank(rows) == rows
  {
    if rows != [] {
      NoneBlank(rows[1..]);
      assert rows == [rows[0]] + rows[1..];
    }
  }

  /** The exported file, read with `parseCsvText`, is the header and one row of cells for each entry. */
  lemma ExportReadsBack(entries: seq<Entry>)
    ensures Parsed(ExportText(entries)) == [HEADER] + Map(Cells, entries)
  {
    var rows := [HEADER] + Map(Cells, entries);
    ExportPrinted(entries);
    assert !StartsWithBom(HEADER[0]) && HEADER[0] != "";
    ReadsBackIff(rows);
    forall i | 0 <= i < |rows| ensures !IsBlank(rows[i]) {
      assert rows[i][0] != "";
    }
    NoneBlank(rows);
  }

  /** The file determines the entries. */
  lemma ExportInjective(a: seq<Entry>, b: seq<Entry>)
    requires ExportText(a) == ExportText(b)
    ensures a == b
  {
    ExportReadsBack(a);
    ExportReadsBack(b);
    var p, q := [HEADER] + Map(Cells, a), [HEADER] + Map(Cells, b);
    assert p == q;
    assert |a| == |b|;
    forall i | 0 <= i < |a| ensures a[i] == b[i] {
      assert p[i + 1] == Cells(a[i]) && q[i + 1] == Cells(b[i]);
      CellsInjective(a[i], b[i]);
    }
  }
}
