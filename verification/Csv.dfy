/**
 * Comma-separated values: the printer of `src/lib/audit-log.ts`, the reader `parseCsvText` of
 * `src/lib/csv-import.ts`, and the grammar of section 2 of RFC 4180 between them.
 */
module Csv {
  import opened Text

  type Row = seq<string>

  // ---------------------------------------------------------------- the grammar

  /** Characters that may stand outside quotes. */
  predicate IsTextData(c: char) { c != '"' && c != ',' && c != '\r' && c != '\n' }

  predicate AllTextData(s: string) { forall i :: 0 <= i < |s| ==> IsTextData(s[i]) }

  /** One way of writing a field. */
  datatype Spelling = Bare(text: string) | Quoted(text: string)

  type Spelled = s: Spelling | s.Bare? ==> AllTextData(s.text) witness Bare("")

  /** Every quote written twice. */
  function Doubled(s: string): string {
    if s == "" then "" else (if s[0] == '"' then "\"\"" else [s[0]]) + Doubled(s[1..])
  }

  function FieldText(s: Spelled): string {
    match s
    case Bare(text) => text
    case Quoted(text) => "\"" + Doubled(text) + "\""
  }

  function RecordText(record: seq<Spelled>): string { Join(Map(FieldText, record), ',') }

  function Line(record: seq<Spelled>): string { RecordText(record) + "\r\n" }

  /** Records separated by line breaks, with or without one after the last. */
  function FileText(records: seq<seq<Spelled>>, finalBreak: bool): string {
    if finalBreak || records == [] then FlatMap(Line, records)
    else FlatMap(Line, records[..|records| - 1]) + RecordText(records[|records| - 1])
  }

  function ValueOf(s: Spelled): string { s.text }

  function Values(record: seq<Spelled>): Row { Map(ValueOf, record) }

  // ---------------------------------------------------------------- the reader

  datatype State = State(rows: seq<Row>, row: Row, field: string, inQuotes: bool)

  function EndField(st: State): State { st.(row := st.row + [st.field], field := "") }

  function EndRow(st: State): State { st.(rows := st.rows + [st.row + [st.field]], row := [], field := "") }

  function Add(st: State, c: char): State { st.(field := st.field + [c]) }

  /** The rows read from `s` in state `st`, the last one included. */
  function Scan(s: string, st: State): seq<Row>
    decreases |s|
  {
    if s == "" then EndRow(st).rows
    else if st.inQuotes then
      if s[0] != '"' then Scan(s[1..], Add(st, s[0]))
      else if |s| > 1 && s[1] == '"' then Scan(s[2..], Add(st, '"'))
      else Scan(s[1..], st.(inQuotes := false))
    else if s[0] == '"' then Scan(s[1..], st.(inQuotes := true))
    else if s[0] == ',' then Scan(s[1..], EndField(st))
    else if s[0] == '\n' then Scan(s[1..], EndRow(st))
    else if s[0] == '\r' then Scan(s[if |s| > 1 && s[1] == '\n' then 2 else 1..], EndRow(st))
    else Scan(s[1..], Add(st, s[0]))
  }

  const START := State([], [], "", false)

  predicate IsBlank(row: Row) { forall i :: 0 <= i < |row| ==> row[i] == "" }

  function KeepNonBlank(row: Row): seq<Row> { if IsBlank(row) then [] else [row] }

  function NonBlank(rows: seq<Row>): seq<Row> { FlatMap(KeepNonBlank, rows) }

  predicate StartsWithBom(s: string) { s != "" && s[0] == '\U{FEFF}' }

  function WithoutBom(s: string): string { if StartsWithBom(s) then s[1..] else s }

  function Parsed(text: string): seq<Row> { NonBlank(Scan(WithoutBom(text), START)) }

  /** `parseCsvText` */
  method ParseCsvText(text: string) returns (rows: seq<Row>)
    ensures rows == Parsed(text)
  {
    var all: seq<Row>, row: Row, field, inQuotes := [], [], "", false;
    var clean := WithoutBom(text);
    var i := 0;
    while i < |clean|
      invariant 0 <= i <= |clean|
      invariant Scan(clean[i..], State(all, row, field, inQuotes)) == Scan(clean, START)
    {
      var ch := clean[i];
      ghost var s := clean[i..];
      assert s[0] == ch && s[1..] == clean[i + 1..];
      assert i + 1 < |clean| ==> s[1] == clean[i + 1] && s[2..] == clean[i + 2..];
      if inQuotes {
        if ch == '"' {
          if i + 1 < |clean| && clean[i + 1] == '"' {
            field := field + ['"'];
            i := i + 2;
            continue;
          }
          inQuotes := false;
          i := i + 1;
          continue;
        }
        field := field + [ch];
        i := i + 1;
        continue;
      }
      if ch == '"' {
        inQuotes := true;
        i := i + 1;
        continue;
      }
      if ch == ',' {
        row := row + [field];
        field := "";
        i := i + 1;
        continue;
      }
      if ch == '\n' {
        all, row, field := all + [row + [field]], [], "";
        i := i + 1;
        continue;
      }
      if ch == '\r' {
        if i + 1 < |clean| && clean[i + 1] == '\n' { i := i + 1; }
        all, row, field := all + [row + [field]], [], "";
        i := i + 1;
        continue;
      }
      field := field + [ch];
      i := i + 1;
    }
    all := all + [row + [field]];
    rows := Kept(all);
  }

  /** The final `filter`. */
  function Kept(rows: seq<Row>): (kept: seq<Row>)
    ensures kept == NonBlank(rows)
  {
    NonBlank(rows)
  }

  // ---------------------------------------------------------------- reading one character

  lemma ScanBareChar(c: char, rest: string, st: State)
    requires !st.inQuotes && IsTextData(c)
    ensures Scan([c] + rest, st) == Scan(rest, Add(st, c))
  {}

  lemma ScanComma(rest: string, st: State)
    requires !st.inQuotes
    ensures Scan([','] + rest, st) == Scan(rest, EndField(st))
  {}

  lemma ScanBreak(rest: string, st: State)
    requires !st.inQuotes
    ensures Scan("\r\n" + rest, st) == Scan(rest, EndRow(st))
  {}

  lemma ScanOpen(rest: string, st: State)
    requires !st.inQuotes
    ensures Scan("\"" + rest, st) == Scan(rest, st.(inQuotes := true))
  {}

  lemma ScanClose(rest: string, st: State)
    requires st.inQuotes && (rest == "" || rest[0] != '"')
    ensures Scan("\"" + rest, st) == Scan(rest, st.(inQuotes := false))
  {}

  lemma ScanInQuotes(c: char, rest: string, st: State)
    requires st.inQuotes
    ensures Scan((if c == '"' then "\"\"" else [c]) + rest, st) == Scan(rest, Add(st, c))
  {}

  // ---------------------------------------------------------------- reading one field

  function AddAll(st: State, t: string): State { st.(field := st.field + t) }

  lemma AddFirst(st: State, t: string)
    requires t != ""
    ensures AddAll(Add(st, t[0]), t[1..]) == AddAll(st, t)
  {}

  lemma AddNothing(st: State)
    ensures AddAll(st, "") == st
  {}

  lemma {:induction false} ScanBare(t: string, rest: string, st: State)
    requires !st.inQuotes && AllTextData(t)
    ensures Scan(t + rest, st) == Scan(rest, AddAll(st, t))
    decreases |t|
  {
    if t == "" {
      assert t + rest == rest;
      AddNothing(st);
    } else {
      assert t + rest == [t[0]] + (t[1..] + rest);
      ScanBareChar(t[0], t[1..] + rest, st);
      ScanBare(t[1..], rest, Add(st, t[0]));
      AddFirst(st, t);
    }
  }

  lemma {:induction false} ScanDoubled(t: string, rest: string, st: State)
    requires st.inQuotes
    ensures Scan(Doubled(t) + rest, st) == Scan(rest, AddAll(st, t))
    decreases |t|
  {
    if t == "" {
      assert Doubled(t) + rest == rest;
      AddNothing(st);
    } else {
      Regroup(if t[0] == '"' then "\"\"" else [t[0]], Doubled(t[1..]), rest);
      ScanInQuotes(t[0], Doubled(t[1..]) + rest, st);
      ScanDoubled(t[1..], rest, Add(st, t[0]));
      AddFirst(st, t);
    }
  }

  lemma ScanField(s: Spelled, rest: string, st: State)
    requires !st.inQuotes && (rest == "" || rest[0] != '"')
    ensures Scan(FieldText(s) + rest, st) == Scan(rest, AddAll(st, s.text))
  {
    match s
    case Bare(text) => ScanBare(text, rest, st);
    case Quoted(text) =>
      var open := st.(inQuotes := true);
      Regroup("\"" + Doubled(text), "\"", rest);
      Regroup("\"", Doubled(text), "\"" + rest);
      ScanOpen(Doubled(text) + ("\"" + rest), st);
      ScanDoubled(text, "\"" + rest, open);
      ScanClose(rest, AddAll(open, text));
  }

  // ---------------------------------------------------------------- reading one record

  lemma RecordTextCons(s: Spelled, more: seq<Spelled>)
    requires more != []
    ensures RecordText([s] + more) == FieldText(s) + [','] + RecordText(more)
  {
    assert Map(FieldText, [s] + more) == [FieldText(s)] + Map(FieldText, more);
    JoinOne(FieldText(s), ',', Map(FieldText, more));
  }

  lemma ValuesCons(s: Spelled, more: seq<Spelled>)
    ensures Values([s] + more) == [s.text] + Values(more)
  {}

  lemma ScanOneField(s: Spelled, rest: string, rows: seq<Row>, row: Row)
    requires rest == "" || rest[0] != '"'
    ensures Scan(FieldText(s) + rest, State(rows, row, "", false)) == Scan(rest, State(rows, row, s.text, false))
  {
    ScanField(s, rest, State(rows, row, "", false));
    assert "" + s.text == s.text;
  }

  lemma ScanFieldAndComma(s: Spelled, rest: string, rows: seq<Row>, row: Row)
    ensures Scan((FieldText(s) + [',']) + rest, State(rows, row, "", false)) ==
            Scan(rest, State(rows, row + [s.text], "", false))
  {
    Regroup(FieldText(s), [','], rest);
    ScanOneField(s, [','] + rest, rows, row);
    ScanComma(rest, State(rows, row, s.text, false));
  }

  /** Everything read so far and the last field, as the row that would be pushed now. */
  lemma {:induction false} ScanRecord(record: seq<Spelled>, rest: string, rows: seq<Row>, row: Row)
    requires record != [] && (rest == "" || rest[0] != '"')
    ensures exists front: Row, last: string ::
              && front + [last] == row + Values(record)
              && Scan(RecordText(record) + rest, State(rows, row, "", false)) ==
                 Scan(rest, State(rows, front, last, false))
    decreases |record|
  {
    var s, more := record[0], record[1..];
    if more == [] {
      assert RecordText(record) == FieldText(s);
      ScanOneField(s, rest, rows, row);
      assert row + [s.text] == row + Values(record);
    } else {
      assert record == [s] + more;
      RecordTextCons(s, more);
      Regroup(FieldText(s) + [','], RecordText(more), rest);
      ScanFieldAndComma(s, RecordText(more) + rest, rows, row);
      ScanRecord(more, rest, rows, row + [s.text]);
      ValuesCons(s, more);
      Regroup(row, [s.text], Values(more));
    }
  }

  lemma ScanLine(record: seq<Spelled>, rest: string, rows: seq<Row>)
    requires record != []
    ensures Scan(Line(record) + rest, State(rows, [], "", false)) ==
            Scan(rest, State(rows + [Values(record)], [], "", false))
  {
    Regroup(RecordText(record), "\r\n", rest);
    ScanRecord(record, "\r\n" + rest, rows, []);
    var front: Row, last: string :|
      && front + [last] == [] + Values(record)
      && Scan(RecordText(record) + ("\r\n" + rest), State(rows, [], "", false)) ==
         Scan("\r\n" + rest, State(rows, front, last, false));
    ScanBreak(rest, State(rows, front, last, false));
    assert [] + Values(record) == Values(record);
  }

  lemma ScanLastRecord(record: seq<Spelled>, rows: seq<Row>)
    requires record != []
    ensures Scan(RecordText(record), State(rows, [], "", false)) == rows + [Values(record)]
  {
    ScanRecord(record, "", rows, []);
    assert RecordText(record) + "" == RecordText(record);
    assert [] + Values(record) == Values(record);
  }

  // ---------------------------------------------------------------- reading a file

  predicate NoEmptyRecord(records: seq<seq<Spelled>>) { forall i :: 0 <= i < |records| ==> records[i] != [] }

  lemma {:induction false} ScanLines(records: seq<seq<Spelled>>, rest: string, rows: seq<Row>)
    requires NoEmptyRecord(records)
    ensures Scan(FlatMap(Line, records) + rest, State(rows, [], "", false)) ==
            Scan(rest, State(rows + Map(Values, records), [], "", false))
    decreases |records|
  {
    if records == [] {
      assert FlatMap(Line, records) + rest == rest;
      assert rows + Map(Values, records) == rows;
    } else {
      var record, more := records[0], records[1..];
      Regroup(Line(record), FlatMap(Line, more), rest);
      ScanLine(record, FlatMap(Line, more) + rest, rows);
      ScanLines(more, rest, rows + [Values(record)]);
      assert Map(Values, records) == [Values(record)] + Map(Values, more);
      Regroup(rows, [Values(record)], Map(Values, more));
    }
  }

  /** A final line break reads as one more, blank, row. */
  lemma ScanFile(records: seq<seq<Spelled>>, finalBreak: bool)
    requires NoEmptyRecord(records)
    ensures Scan(FileText(records, finalBreak), START) ==
            Map(Values, records) + if finalBreak || records == [] then [[""]] else []
  {
    if finalBreak || records == [] {
      ScanLines(records, "", []);
      assert FlatMap(Line, records) + "" == FlatMap(Line, records);
      assert [] + Map(Values, records) == Map(Values, records);
      assert [] + [""] == [""];
    } else {
      var front, last := records[..|records| - 1], records[|records| - 1];
      ScanLines(front, RecordText(last), []);
      ScanLastRecord(last, [] + Map(Values, front));
      assert [] + Map(Values, front) == Map(Values, front);
      assert Map(Values, records) == Map(Values, front) + [Values(last)];
    }
  }

  lemma BlankDropped(rows: seq<Row>)
    ensures NonBlank(rows + [[""]]) == NonBlank(rows)
  {
    FlatMapConcat(KeepNonBlank, rows, [[""]]);
    FlatMapOne(KeepNonBlank, [""]);
  }

  /** Without a byte order mark to strip, the reader recovers the field values, blank rows left out. */
  lemma FileScanned(records: seq<seq<Spelled>>, finalBreak: bool)
    requires NoEmptyRecord(records)
    ensures NonBlank(Scan(FileText(records, finalBreak), START)) == NonBlank(Map(Values, records))
  {
    ScanFile(records, finalBreak);
    if finalBreak || records == [] {
      BlankDropped(Map(Values, records));
    } else {
      assert Map(Values, records) + [] == Map(Values, records);
    }
  }

  // ---------------------------------------------------------------- other line breaks

  predicate IsBreak(newline: string) { newline == "\r\n" || newline == "\n" || newline == "\r" }

  /** The records with the same line break between any two; a final break is one more, empty, record. */
  function BrokenText(records: seq<seq<Spelled>>, newline: string): string {
    if records == [] then ""
    else if |records| == 1 then RecordText(records[0])
    else RecordText(records[0]) + (newline + BrokenText(records[1..], newline))
  }

  lemma FirstCharacter(record: seq<Spelled>)
    ensures RecordText(record) == "" || RecordText(record)[0] != '\n'
  {
    if |record| == 1 { assert RecordText(record) == FieldText(record[0]); }
    if |record| > 1 {
      RecordTextCons(record[0], record[1..]);
      assert record == [record[0]] + record[1..];
    }
  }

  lemma NoBareLineFeed(records: seq<seq<Spelled>>)
    ensures BrokenText(records, "\r") == "" || BrokenText(records, "\r")[0] != '\n'
  {
    if records != [] { FirstCharacter(records[0]); }
  }

  lemma ScanAnyBreak(newline: string, rest: string, st: State)
    requires !st.inQuotes && IsBreak(newline) && (newline == "\r" ==> rest == "" || rest[0] != '\n')
    ensures Scan(newline + rest, st) == Scan(rest, EndRow(st))
  {
    assert (newline + rest)[|newline|..] == rest;
  }

  lemma ScanAnyLine(record: seq<Spelled>, newline: string, rest: string, rows: seq<Row>)
    requires record != [] && IsBreak(newline) && (newline == "\r" ==> rest == "" || rest[0] != '\n')
    ensures Scan(RecordText(record) + (newline + rest), State(rows, [], "", false)) ==
            Scan(rest, State(rows + [Values(record)], [], "", false))
  {
    ScanRecord(record, newline + rest, rows, []);
    var front: Row, last: string :|
      && front + [last] == [] + Values(record)
      && Scan(RecordText(record) + (newline + rest), State(rows, [], "", false)) ==
         Scan(newline + rest, State(rows, front, last, false));
    ScanAnyBreak(newline, rest, State(rows, front, last, false));
    assert [] + Values(record) == Values(record);
  }

  lemma {:induction false} ScanBroken(records: seq<seq<Spelled>>, newline: string, rows: seq<Row>)
    requires records != [] && NoEmptyRecord(records) && IsBreak(newline)
    ensures Scan(BrokenText(records, newline), State(rows, [], "", false)) == rows + Map(Values, records)
    decreases |records|
  {
    var record, more := records[0], records[1..];
    if more == [] {
      ScanLastRecord(record, rows);
      assert Map(Values, records) == [Values(record)];
    } else {
      var rest := BrokenText(more, newline);
      NoBareLineFeed(more);
      ScanAnyLine(record, newline, rest, rows);
      ScanBroken(more, newline, rows + [Values(record)]);
      assert Map(Values, records) == [Values(record)] + Map(Values, more);
      Regroup(rows, [Values(record)], Map(Values, more));
    }
  }

  /** A line feed or a carriage return alone separates records as the two together do. */
  lemma AnyBreakReadsAlike(records: seq<seq<Spelled>>, newline: string)
    requires records != [] && NoEmptyRecord(records) && IsBreak(newline)
    requires !StartsWithBom(BrokenText(records, newline))
    ensures Parsed(BrokenText(records, newline)) == NonBlank(Map(Values, records))
  {
    ScanBroken(records, newline, []);
    assert [] + Map(Values, records) == Map(Values, records);
  }

  // ---------------------------------------------------------------- how ambiguous the grammar is

  /** A final line break can be read as the end of the last record or as one more, empty, record. */
  function LastRow(records: seq<seq<Spelled>>, finalBreak: bool): seq<Row> {
    if finalBreak || records == [] then [[""]] else []
  }

  lemma BreakIsEmptyRecord(records: seq<seq<Spelled>>)
    ensures FileText(records, true) == FileText(records + [[Bare("")]], false)
  {
    var all := records + [[Bare("")]];
    assert all[..|all| - 1] == records && all[|all| - 1] == [Bare("")];
    assert RecordText([Bare("")]) == "";
    assert FlatMap(Line, records) + "" == FlatMap(Line, records);
  }

  lemma LastRowCases(p: seq<Row>, e: seq<Row>, q: seq<Row>, f: seq<Row>)
    requires e in {[], [[""]]} && f in {[], [[""]]} && p + e == q + f
    ensures if e == f then p == q else if e == [] then p == q + [[""]] else q == p + [[""]]
  {
    if e == f {
      assert (p + e)[..|p|] == p && (q + f)[..|q|] == q;
    } else if e == [] {
      assert p + e == p;
    } else {
      assert q + f == q;
    }
  }

  /**
   * One text, one list of records, up to the reading of a final line break: files with the same text
   * have the same values, or one has an empty record where the other has the break.
   */
  lemma GrammarAmbiguity(r: seq<seq<Spelled>>, f: bool, q: seq<seq<Spelled>>, g: bool)
    requires NoEmptyRecord(r) && NoEmptyRecord(q) && FileText(r, f) == FileText(q, g)
    ensures Map(Values, r) + LastRow(r, f) == Map(Values, q) + LastRow(q, g)
    ensures if LastRow(r, f) == LastRow(q, g) then Map(Values, r) == Map(Values, q)
            else if LastRow(r, f) == [] then Map(Values, r) == Map(Values, q) + [[""]]
            else Map(Values, q) == Map(Values, r) + [[""]]
  {
    ScanFile(r, f);
    ScanFile(q, g);
    LastRowCases(Map(Values, r), LastRow(r, f), Map(Values, q), LastRow(q, g));
  }

  // ---------------------------------------------------------------- the byte order mark

  /** The first field of the file starts with a byte order mark and stands without quotes. */
  predicate LosesMark(records: seq<seq<Spelled>>)
    requires NoEmptyRecord(records)
  {
    records != [] && records[0][0].Bare? && StartsWithBom(records[0][0].text)
  }

  /** What follows the first field. */
  function AfterFirst(more: seq<Spelled>, others: seq<seq<Spelled>>, finalBreak: bool): string {
    (if more == [] then "" else [','] + RecordText(more))
    + (if others == [] && !finalBreak then "" else "\r\n" + FileText(others, finalBreak))
  }

  lemma RecordFromFirst(s: Spelled, more: seq<Spelled>)
    ensures RecordText([s] + more) == FieldText(s) + (if more == [] then "" else [','] + RecordText(more))
  {
    if more == [] {
      assert Map(FieldText, [s] + more) == [FieldText(s)];
    } else {
      RecordTextCons(s, more);
      Regroup(FieldText(s), [','], RecordText(more));
    }
  }

  lemma FileFromRecord(record: seq<Spelled>, others: seq<seq<Spelled>>, finalBreak: bool)
    ensures FileText([record] + others, finalBreak) ==
            RecordText(record) + (if others == [] && !finalBreak then "" else "\r\n" + FileText(others, finalBreak))
  {
    var all := [record] + others;
    Regroup(RecordText(record), "\r\n", FileText(others, finalBreak));
    if finalBreak {
      FlatMapCons(Line, record, others);
    } else if others == [] {
      assert all[..|all| - 1] == [];
    } else {
      assert all[..|all| - 1] == [record] + others[..|others| - 1];
      FlatMapCons(Line, record, others[..|others| - 1]);
      Regroup(Line(record), FlatMap(Line, others[..|others| - 1]), RecordText(others[|others| - 1]));
    }
  }

  lemma FileFromFirst(s: Spelled, more: seq<Spelled>, others: seq<seq<Spelled>>, finalBreak: bool)
    ensures FileText([[s] + more] + others, finalBreak) == FieldText(s) + AfterFirst(more, others, finalBreak)
  {
    FileFromRecord([s] + more, others, finalBreak);
    RecordFromFirst(s, more);
    Regroup(FieldText(s), if more == [] then "" else [','] + RecordText(more),
            if others == [] && !finalBreak then "" else "\r\n" + FileText(others, finalBreak));
  }

  lemma FirstOf(a: string, b: string)
    requires !StartsWithBom(b)
    ensures StartsWithBom(a + b) <==> StartsWithBom(a)
    ensures StartsWithBom(a) ==> (a + b)[1..] == a[1..] + b
  {
    if a == "" { assert a + b == b; }
  }

  lemma NothingToLose(s: Spelled, more: seq<Spelled>, others: seq<seq<Spelled>>, finalBreak: bool)
    requires !(s.Bare? && StartsWithBom(s.text))
    ensures !StartsWithBom(FileText([[s] + more] + others, finalBreak))
  {
    FileFromFirst(s, more, others, finalBreak);
    FirstOf(FieldText(s), AfterFirst(more, others, finalBreak));
  }

  lemma MarkIsLost(s: Spelled, more: seq<Spelled>, others: seq<seq<Spelled>>, finalBreak: bool)
    requires s.Bare? && StartsWithBom(s.text)
    ensures var text := FileText([[s] + more] + others, finalBreak);
            AllTextData(s.text[1..]) && WithoutBom(text) == FileText([[Bare(s.text[1..])] + more] + others, finalBreak)
  {
    FileFromFirst(s, more, others, finalBreak);
    FirstOf(s.text, AfterFirst(more, others, finalBreak));
    assert AllTextData(s.text[1..]);
    FileFromFirst(Bare(s.text[1..]), more, others, finalBreak);
  }

  lemma FirstRowDiffers(a: Row, b: Row, others: seq<Row>)
    requires !IsBlank(a) && a != b
    ensures NonBlank([a] + others) != NonBlank([b] + others)
  {
    FlatMapCons(KeepNonBlank, a, others);
    FlatMapCons(KeepNonBlank, b, others);
    assert ([a] + NonBlank(others))[0] == a;
    assert |NonBlank([a] + others)| == 1 + |NonBlank(others)|;
    if !IsBlank(b) { assert ([b] + NonBlank(others))[0] == b; }
  }

  lemma MarkMatters(s: Spelled, more: seq<Spelled>, others: seq<seq<Spelled>>, finalBreak: bool)
    requires s.Bare? && StartsWithBom(s.text) && NoEmptyRecord(others)
    ensures Parsed(FileText([[s] + more] + others, finalBreak)) != NonBlank(Map(Values, [[s] + more] + others))
  {
    MarkIsLost(s, more, others, finalBreak);
    var less: Spelled := Bare(s.text[1..]);
    assert NoEmptyRecord([[less] + more] + others);
    FileScanned([[less] + more] + others, finalBreak);
    ValuesFromFirst(s, more, others);
    ValuesFromFirst(less, more, others);
    FirstFieldDiffers(s.text, less.text, Values(more));
    FirstRowDiffers([s.text] + Values(more), [less.text] + Values(more), Map(Values, others));
  }

  lemma ValuesFromFirst(s: Spelled, more: seq<Spelled>, others: seq<seq<Spelled>>)
    ensures Map(Values, [[s] + more] + others) == [[s.text] + Values(more)] + Map(Values, others)
  {
    ValuesCons(s, more);
  }

  lemma FirstFieldDiffers(a: string, b: string, more: Row)
    requires |a| > |b|
    ensures [a] + more != [b] + more && !IsBlank([a] + more)
  {
    assert ([a] + more)[0] == a && ([b] + more)[0] == b;
  }

  /**
   * `parseCsvText` recovers from a text of the grammar exactly the field values of its records, the
   * blank ones left out, if and only if there is no byte order mark to lose.
   */
  lemma ReaderAgreesIff(records: seq<seq<Spelled>>, finalBreak: bool)
    requires NoEmptyRecord(records)
    ensures Parsed(FileText(records, finalBreak)) == NonBlank(Map(Values, records)) <==> !LosesMark(records)
  {
    FileScanned(records, finalBreak);
    if records != [] {
      var s, more, others := records[0][0], records[0][1..], records[1..];
      assert records[0] == [s] + more && records == [[s] + more] + others;
      if LosesMark(records) {
        MarkMatters(s, more, others, finalBreak);
      } else {
        NothingToLose(s, more, others, finalBreak);
      }
    }
  }

  // ---------------------------------------------------------------- the printer

  predicate NeedsQuotes(s: string) { !AllTextData(s) }

  /** `escapeCsvField` */
  function EscapeField(s: string): string {
    if NeedsQuotes(s) then "\"" + Doubled(s) + "\"" else s
  }

  function PrintRow(fields: Row): string { Join(Map(EscapeField, fields), ',') }

  function PrintLine(fields: Row): string { PrintRow(fields) + "\r\n" }

  /** The spelling the printer chooses: quotes only where they are needed. */
  function Spell(s: string): Spelled { if NeedsQuotes(s) then Quoted(s) else Bare(s) }

  function SpellRow(fields: Row): seq<Spelled> { Map(Spell, fields) }

  lemma PrintsGrammar(fields: Row)
    ensures PrintRow(fields) == RecordText(SpellRow(fields)) && Values(SpellRow(fields)) == fields
  {
    assert Map(EscapeField, fields) == Map(FieldText, Map(Spell, fields));
  }

  lemma {:induction false} PrintsFile(rows: seq<Row>)
    ensures FlatMap(PrintLine, rows) == FileText(Map(SpellRow, rows), true)
  {
    if rows != [] {
      PrintsFile(rows[1..]);
      PrintsGrammar(rows[0]);
      assert Map(SpellRow, rows)[1..] == Map(SpellRow, rows[1..]);
    }
  }

  predicate NoEmptyRow(rows: seq<Row>) { forall i :: 0 <= i < |rows| ==> rows[i] != [] }

  lemma PrintedValues(rows: seq<Row>)
    ensures Map(Values, Map(SpellRow, rows)) == rows
  {
    forall i | 0 <= i < |rows| ensures Values(SpellRow(rows[i])) == rows[i] { PrintsGrammar(rows[i]); }
  }

  /** Different rows print differently. */
  lemma PrintRowInjective(a: Row, b: Row)
    requires a != [] && b != [] && PrintRow(a) == PrintRow(b)
    ensures a == b
  {
    PrintsGrammar(a);
    PrintsGrammar(b);
    ScanLastRecord(SpellRow(a), []);
    ScanLastRecord(SpellRow(b), []);
    assert ([] + [a])[0] == a && ([] + [b])[0] == b;
  }

  /** What is printed is read back, blank rows apart, exactly when there is no mark to lose. */
  lemma ReadsBackIff(rows: seq<Row>)
    requires NoEmptyRow(rows)
    ensures Parsed(FlatMap(PrintLine, rows)) == NonBlank(rows) <==>
            !(rows != [] && StartsWithBom(rows[0][0]) && !NeedsQuotes(rows[0][0]))
  {
    PrintsFile(rows);
    PrintedValues(rows);
    ReaderAgreesIff(Map(SpellRow, rows), true);
  }
}
