/** The CSV export (utils/exportUtils.ts): one header record and one six-cell record per
    item, records separated by line feeds, and a cell holding a comma, a double quote or a
    line feed quoted as in section 2 of RFC 4180. The reader in this module parses such text
    back. It takes a quoted cell as RFC 4180 does, but an unquoted cell runs up to the next
    comma or line feed, so it accepts a bare carriage return inside a cell, which RFC 4180
    does not allow and which the export writes unquoted. The round-trip lemmas show that the
    export loses nothing when read by this reader. */
module CsvExport {
  import opened Wrappers
  import opened Text
  import opened FiboTypes

  /** A cell with a comma, a double quote or a line feed must be quoted. A carriage return
      alone does not count. */
  predicate NeedsQuotes(s: string) {
    ',' in s || '"' in s || '\n' in s
  }

  /** `s.replace(/"/g, '""')`: every double quote doubled. */
  function DoubleQuotes(s: string): (r: string)
    ensures '"' !in s ==> r == s
  {
    if s == [] then ""
    else (if s[0] == '"' then "\"\"" else [s[0]]) + DoubleQuotes(s[1..])
  }

  /** `escapeCsvCell`: a missing cell (`null` or `undefined`) becomes the empty cell; a cell
      that needs quotes is wrapped in double quotes with its own quotes doubled; any other
      cell is written as it is. */
  function EscapeCsvCell(cell: Option<string>): (r: string)
    ensures cell.None? ==> r == ""
    ensures cell.Some? && !NeedsQuotes(cell.value) ==> r == cell.value
    ensures cell.Some? && NeedsQuotes(cell.value)
            ==> |r| >= 2 && r[0] == '"' && r[|r| - 1] == '"'
  {
    match cell
    case None => ""
    case Some(str) =>
      if NeedsQuotes(str) then "\"" + DoubleQuotes(str) + "\"" else str
  }

  /** A cell holding a bare carriage return is written as it is, and this module's reader
      takes it back whole; a reader that ends a record at a carriage return would not. */
  lemma BareCarriageReturnUnquoted()
    ensures EscapeCsvCell(Some("a\rb")) == "a\rb"
    ensures ParseCell("a\rb") == Some(("a\rb", ""))
  {
    var s := "a\rb";
    assert UnquotedLength(s[2..]) == 1 by { assert s[2..][1..] == []; }
    assert s[1..][1..] == s[2..];
    assert UnquotedLength(s) == 3;
    assert s[..3] == s && s[3..] == [];
  }

  // ---------------------------------------------------------------------------------
  // Reading CSV text back.

  /** Reads a quoted cell after its opening quote: a doubled quote stands for one quote and a
      lone quote closes the cell. Gives the cell and the text after the closing quote, or
      `None` when the closing quote is missing. */
  function ParseQuoted(s: string): (r: Option<(string, string)>)
    ensures r.Some? ==> |r.value.1| < |s|
    decreases |s|
  {
    if s == [] then None
    else if s[0] == '"' then
      if |s| >= 2 && s[1] == '"' then
        match ParseQuoted(s[2..])
        case None => None
        case Some((f, rest)) => Some(("\"" + f, rest))
      else Some(("", s[1..]))
    else
      match ParseQuoted(s[1..])
      case None => None
      case Some((f, rest)) => Some(([s[0]] + f, rest))
  }

  /** The length of the unquoted cell at the start of `s`: everything up to the first comma
      or line feed. */
  function UnquotedLength(s: string): (n: nat)
    ensures n <= |s|
    ensures forall i :: 0 <= i < n ==> s[i] != ',' && s[i] != '\n'
    ensures n < |s| ==> s[n] == ',' || s[n] == '\n'
  {
    if s == [] || s[0] == ',' || s[0] == '\n' then 0 else 1 + UnquotedLength(s[1..])
  }

  /** Reads one cell: a quoted one when `s` starts with a double quote, an unquoted one
      otherwise. */
  function ParseCell(s: string): (r: Option<(string, string)>)
    ensures r.Some? ==> |r.value.1| <= |s|
  {
    if |s| > 0 && s[0] == '"' then ParseQuoted(s[1..])
    else
      var n := UnquotedLength(s);
      Some((s[..n], s[n..]))
  }

  /** Reads the cells of one record, separated by commas. */
  function ParseRecord(s: string): (r: Option<(seq<string>, string)>)
    ensures r.Some? ==> |r.value.1| <= |s|
    decreases |s|
  {
    match ParseCell(s)
    case None => None
    case Some((f, rest)) =>
      if |rest| > 0 && rest[0] == ',' then
        match ParseRecord(rest[1..])
        case None => None
        case Some((fs, rest')) => Some(([f] + fs, rest'))
      else Some(([f], rest))
  }

  /** Reads the records of a whole text, separated by line feeds. */
  function ParseRecords(s: string): Option<seq<seq<string>>>
    decreases |s|
  {
    match ParseRecord(s)
    case None => None
    case Some((record, rest)) =>
      if rest == [] then Some([record])
      else if rest[0] == '\n' then
        match ParseRecords(rest[1..])
        case None => None
        case Some(records) => Some([record] + records)
      else None
  }

  /** Reading a quoted cell undoes the doubling of its quotes. */
  lemma {:induction false} QuotedRoundTrip(c: string, t: string)
    requires t == [] || t[0] != '"'
    ensures ParseQuoted(DoubleQuotes(c) + "\"" + t) == Some((c, t))
    decreases |c|
  {
    if c == [] {
      assert DoubleQuotes(c) + "\"" + t == "\"" + t;
    } else {
      var tail := DoubleQuotes(c[1..]) + "\"" + t;
      var head := if c[0] == '"' then "\"\"" else [c[0]];
      QuotedRoundTrip(c[1..], t);
      assert DoubleQuotes(c) == head + DoubleQuotes(c[1..]);
      Regroup(head, DoubleQuotes(c[1..]), "\"", t);
      if c[0] == '"' {
        ParseQuotedDoubled(tail, c[1..], t);
        assert "\"" + c[1..] == c;
      } else {
        ParseQuotedChar(c[0], tail, c[1..], t);
        assert [c[0]] + c[1..] == c;
      }
    }
  }

  /** `(a + b) + q + t` and `a + (b + q + t)` are the same string. */
  lemma Regroup(a: string, b: string, q: string, t: string)
    ensures (a + b) + q + t == a + (b + q + t)
  {
  }

  /** A doubled quote inside a quoted cell is read as one quote. */
  lemma ParseQuotedDoubled(tail: string, f: string, rest: string)
    requires ParseQuoted(tail) == Some((f, rest))
    ensures ParseQuoted("\"\"" + tail) == Some(("\"" + f, rest))
  {
    assert ("\"\"" + tail)[2..] == tail;
  }

  /** Any other character inside a quoted cell is read as it is. */
  lemma ParseQuotedChar(x: char, tail: string, f: string, rest: string)
    requires x != '"' && ParseQuoted(tail) == Some((f, rest))
    ensures ParseQuoted([x] + tail) == Some(([x] + f, rest))
  {
    assert ([x] + tail)[1..] == tail;
  }

  /** Reading an escaped cell gives the cell back, whatever record or line follows it. */
  lemma CellRoundTrip(c: string, t: string)
    requires t == [] || t[0] == ',' || t[0] == '\n'
    ensures ParseCell(EscapeCsvCell(Some(c)) + t) == Some((c, t))
  {
    if NeedsQuotes(c) {
      QuotedCellRoundTrip(c, t);
    } else {
      PlainCellRoundTrip(c, t);
    }
  }

  /** A quoted cell is read back through its quotes. */
  lemma QuotedCellRoundTrip(c: string, t: string)
    requires NeedsQuotes(c)
    requires t == [] || t[0] == ',' || t[0] == '\n'
    ensures ParseCell(EscapeCsvCell(Some(c)) + t) == Some((c, t))
  {
    var s := "\"" + DoubleQuotes(c) + "\"" + t;
    assert EscapeCsvCell(Some(c)) + t == s;
    QuotedRoundTrip(c, t);
    assert s[1..] == DoubleQuotes(c) + "\"" + t;
  }

  /** A cell written as it is is read back up to the next comma or line feed. */
  lemma PlainCellRoundTrip(c: string, t: string)
    requires !NeedsQuotes(c)
    requires t == [] || t[0] == ',' || t[0] == '\n'
    ensures ParseCell(EscapeCsvCell(Some(c)) + t) == Some((c, t))
  {
    var s := c + t;
    assert EscapeCsvCell(Some(c)) + t == s;
    if c != [] {
      assert s[0] == c[0];
      assert c[0] in c;
    }
    UnquotedPrefix(c, t);
    assert s[..|c|] == c && s[|c|..] == t;
  }

  /** An unquoted cell ends where its text does. */
  lemma {:induction false} UnquotedPrefix(c: string, t: string)
    requires ',' !in c && '\n' !in c
    requires t == [] || t[0] == ',' || t[0] == '\n'
    ensures UnquotedLength(c + t) == |c|
    decreases |c|
  {
    if c != [] {
      assert c[0] in c;
      assert (c + t)[1..] == c[1..] + t;
      assert forall x :: x in c[1..] ==> x in c;
      UnquotedPrefix(c[1..], t);
    } else {
      assert c + t == t;
    }
  }

  /** Every cell escaped. */
  function EscapeAll(cells: seq<string>): (r: seq<string>)
    ensures |r| == |cells|
  {
    seq(|cells|, i requires 0 <= i < |cells| => EscapeCsvCell(Some(cells[i])))
  }

  /** `row.join(',')`: the cells in order with a comma between neighbours. */
  function Line(row: seq<string>): (r: string)
    ensures |row| == 0 ==> r == ""
    ensures |row| > 0 ==> row[0] <= r
  {
    Join(row, ",")
  }

  /** `es` holds the cells `cells`, each escaped. */
  predicate EscapedCells(cells: seq<string>, es: seq<string>) {
    |es| == |cells| && forall i :: 0 <= i < |cells| ==> es[i] == EscapeCsvCell(Some(cells[i]))
  }

  /** Reading the line of escaped cells gives the cells back. */
  lemma {:induction false} RecordRoundTrip(cells: seq<string>, es: seq<string>, t: string)
    requires |cells| >= 1 && EscapedCells(cells, es)
    requires t == [] || t[0] == '\n'
    ensures ParseRecord(Line(es) + t) == Some((cells, t))
    decreases |cells|
  {
    if |cells| == 1 {
      assert Line(es) == es[0];
      CellRoundTrip(cells[0], t);
      assert [cells[0]] == cells;
    } else {
      assert EscapedCells(cells[1..], es[1..]);
      RecordRoundTrip(cells[1..], es[1..], t);
      RecordStep(cells, es, t);
    }
  }

  /** A record of two or more cells is read as its first cell, a comma, and the others. */
  lemma RecordStep(cells: seq<string>, es: seq<string>, t: string)
    requires |cells| >= 2 && EscapedCells(cells, es)
    requires t == [] || t[0] == '\n'
    requires ParseRecord(Line(es[1..]) + t) == Some((cells[1..], t))
    ensures ParseRecord(Line(es) + t) == Some((cells, t))
  {
    var more := Line(es[1..]) + t;
    JoinCons(es, ",", t);
    CellRoundTrip(cells[0], "," + more);
    ParseRecordCons(es[0] + ("," + more), cells[0], more, cells[1..], t);
    assert [cells[0]] + cells[1..] == cells;
  }

  /** A cell followed by a comma and the rest of a record. */
  lemma ParseRecordCons(s: string, f: string, more: string, fs: seq<string>, t: string)
    requires ParseCell(s) == Some((f, "," + more))
    requires ParseRecord(more) == Some((fs, t))
    ensures ParseRecord(s) == Some(([f] + fs, t))
  {
    assert ("," + more)[1..] == more;
  }

  /** The lines of a sequence of records, each cell escaped. */
  function Lines(records: seq<seq<string>>): (r: seq<string>)
    ensures |r| == |records|
  {
    seq(|records|, i requires 0 <= i < |records| => Line(EscapeAll(records[i])))
  }

  /** Reading the lines of records joined by line feeds gives the records back. */
  lemma {:induction false} RecordsRoundTrip(records: seq<seq<string>>)
    requires |records| >= 1
    requires forall i :: 0 <= i < |records| ==> |records[i]| >= 1
    ensures ParseRecords(Join(Lines(records), "\n")) == Some(records)
    decreases |records|
  {
    var ls := Lines(records);
    if |records| == 1 {
      assert Join(ls, "\n") == ls[0];
      RecordRoundTrip(records[0], EscapeAll(records[0]), "");
      assert ls[0] + "" == ls[0];
      assert [records[0]] == records;
    } else {
      var tail := records[1..];
      assert Lines(tail) == ls[1..];
      var more := Join(ls[1..], "\n");
      JoinCons(ls, "\n", "");
      assert more + "" == more && Join(ls, "\n") + "" == Join(ls, "\n");
      RecordRoundTrip(records[0], EscapeAll(records[0]), "\n" + more);
      assert ("\n" + more)[1..] == more;
      RecordsRoundTrip(tail);
      assert [records[0]] + tail == records;
    }
  }

  // ---------------------------------------------------------------------------------
  // The export.

  /** The header record. */
  const Header: seq<string> := ["type", "name", "value", "ontology_class", "description", "context"]

  /** The six cells of a financial data point, escaped. */
  function FinancialDataRow(item: FinancialDataItem): seq<string> {
    [ EscapeCsvCell(Some("Financial Data")), EscapeCsvCell(Some(item.name)),
      EscapeCsvCell(Some(item.value)), EscapeCsvCell(Some(item.ontologyClass)),
      EscapeCsvCell(Some(item.description)), EscapeCsvCell(Some(item.context)) ]
  }

  /** The six cells of a concept, entity or relationship, escaped: no value, and the FIBO
      class in the `ontology_class` column. */
  function FiboRow(item: FiboItem, kind: string): seq<string> {
    [ EscapeCsvCell(Some(kind)), EscapeCsvCell(Some(item.name)), "",
      EscapeCsvCell(Some(item.fiboClass)), EscapeCsvCell(Some(item.description)),
      EscapeCsvCell(Some(item.context)) ]
  }

  /** The record a financial data point stands for, before escaping. */
  function FinancialDataRecord(item: FinancialDataItem): seq<string> {
    ["Financial Data", item.name, item.value, item.ontologyClass, item.description, item.context]
  }

  /** The record a concept, entity or relationship stands for, before escaping. */
  function FiboRecord(item: FiboItem, kind: string): seq<string> {
    [kind, item.name, "", item.fiboClass, item.description, item.context]
  }

  /** The row of a financial data point is its record with every cell escaped. */
  lemma FinancialDataRowEscaped(item: FinancialDataItem)
    ensures FinancialDataRow(item) == EscapeAll(FinancialDataRecord(item))
  {
    assert EscapeCsvCell(Some("Financial Data")) == "Financial Data" by {
      assert !NeedsQuotes("Financial Data");
    }
  }

  /** The row of a concept, entity or relationship is its record with every cell escaped:
      the empty value cell needs no escaping. */
  lemma FiboRowEscaped(item: FiboItem, kind: string)
    ensures FiboRow(item, kind) == EscapeAll(FiboRecord(item, kind))
  {
    assert EscapeCsvCell(Some("")) == "";
  }

  /** The records of a list of financial data points, in list order. */
  function FinancialDataRecords(items: seq<FinancialDataItem>): seq<seq<string>> {
    seq(|items|, i requires 0 <= i < |items| => FinancialDataRecord(items[i]))
  }

  /** The records of a list of concepts, entities or relationships, in list order. */
  function FiboRecords(items: seq<FiboItem>, kind: string): seq<seq<string>> {
    seq(|items|, i requires 0 <= i < |items| => FiboRecord(items[i], kind))
  }

  /** The records of all items: financial data first, then concepts, entities and
      relationships, each group in list order; a missing list has no records. */
  function Records(d: LooseFiboData): seq<seq<string>> {
    FinancialDataRecords(OrEmpty(d.financialData))
    + FiboRecords(OrEmpty(d.concepts), "Concept")
    + FiboRecords(OrEmpty(d.entities), "Entity")
    + FiboRecords(OrEmpty(d.relationships), "Relationship")
  }

  /** Every record with each of its cells escaped: the rows the export builds. */
  function Escaped(records: seq<seq<string>>): (r: seq<seq<string>>)
    ensures |r| == |records|
  {
    seq(|records|, i requires 0 <= i < |records| => EscapeAll(records[i]))
  }

  /** `rows.map(row => row.join(','))`. */
  function JoinRows(rows: seq<seq<string>>): (r: seq<string>)
    ensures |r| == |rows|
    ensures forall i :: 0 <= i < |rows| ==> r[i] == Line(rows[i])
  {
    seq(|rows|, i requires 0 <= i < |rows| => Line(rows[i]))
  }

  /** The lines of records are their escaped rows, joined. */
  lemma LinesOfRows(records: seq<seq<string>>)
    ensures JoinRows(Escaped(records)) == Lines(records)
  {
  }

  /** Escaping rows one by one distributes over concatenation. */
  lemma EscapedAppend(a: seq<seq<string>>, b: seq<seq<string>>)
    ensures Escaped(a + b) == Escaped(a) + Escaped(b)
  {
    forall i | 0 <= i < |a| + |b|
      ensures Escaped(a + b)[i] == (Escaped(a) + Escaped(b))[i]
    {
      if i < |a| {
        assert (a + b)[i] == a[i];
      } else {
        assert (a + b)[i] == b[i - |a|];
      }
    }
  }

  /** The text `convertToCsv` returns: `''` for missing data, otherwise the header line and
      one line per record, joined by line feeds. */
  function Csv(data: Option<LooseFiboData>): string {
    match data
    case None => ""
    case Some(d) => Join([Line(Header)] + Lines(Records(d)), "\n")
  }

  /** `createFinancialDataRows`: pushes the row of every item of a list that may be missing. */
  method PushFinancialDataRows(allRows: seq<seq<string>>, items: Option<seq<FinancialDataItem>>)
    returns (rows: seq<seq<string>>)
    ensures rows == allRows + Escaped(FinancialDataRecords(OrEmpty(items)))
  {
    rows := allRows;
    if items.None? {
      return;
    }
    var list := items.value;
    for k := 0 to |list|
      invariant rows == allRows + Escaped(FinancialDataRecords(list[..k]))
    {
      var row := FinancialDataRow(list[k]);
      FinancialDataRowEscaped(list[k]);
      FinancialDataRecordsSnoc(list, k);
      rows := rows + [row];
    }
    assert list[..|list|] == list;
  }

  /** One more financial data point adds its row at the end. */
  lemma FinancialDataRecordsSnoc(list: seq<FinancialDataItem>, k: nat)
    requires k < |list|
    ensures Escaped(FinancialDataRecords(list[..k + 1]))
            == Escaped(FinancialDataRecords(list[..k])) + [EscapeAll(FinancialDataRecord(list[k]))]
  {
    var before := FinancialDataRecords(list[..k]);
    assert FinancialDataRecords(list[..k + 1]) == before + [FinancialDataRecord(list[k])];
    EscapedAppend(before, [FinancialDataRecord(list[k])]);
  }

  /** `createFiboRows`: pushes the row of every item of a list that may be missing, under
      the type kind `kind`. */
  method PushFiboRows(allRows: seq<seq<string>>, items: Option<seq<FiboItem>>, kind: string)
    returns (rows: seq<seq<string>>)
    ensures rows == allRows + Escaped(FiboRecords(OrEmpty(items), kind))
  {
    rows := allRows;
    if items.None? {
      return;
    }
    var list := items.value;
    for k := 0 to |list|
      invariant rows == allRows + Escaped(FiboRecords(list[..k], kind))
    {
      var row := FiboRow(list[k], kind);
      FiboRowEscaped(list[k], kind);
      FiboRecordsSnoc(list, k, kind);
      rows := rows + [row];
    }
    assert list[..|list|] == list;
  }

  /** One more concept, entity or relationship adds its row at the end. */
  lemma FiboRecordsSnoc(list: seq<FiboItem>, k: nat, kind: string)
    requires k < |list|
    ensures Escaped(FiboRecords(list[..k + 1], kind))
            == Escaped(FiboRecords(list[..k], kind)) + [EscapeAll(FiboRecord(list[k], kind))]
  {
    var before := FiboRecords(list[..k], kind);
    assert FiboRecords(list[..k + 1], kind) == before + [FiboRecord(list[k], kind)];
    EscapedAppend(before, [FiboRecord(list[k], kind)]);
  }

  /** `convertToCsv`. */
  method ConvertToCsv(data: Option<LooseFiboData>) returns (csv: string)
    ensures csv == Csv(data)
    ensures csv == "" <==> data.None?
  {
    if data.None? {
      return "";
    }
    var d := data.value;
    var allRows: seq<seq<string>> := [];
    allRows := PushFinancialDataRows(allRows, d.financialData);
    assert allRows == Escaped(FinancialDataRecords(OrEmpty(d.financialData)));
    allRows := PushFiboRows(allRows, d.concepts, "Concept");
    allRows := PushFiboRows(allRows, d.entities, "Entity");
    allRows := PushFiboRows(allRows, d.relationships, "Relationship");
    RowsOfRecords(d);
    assert allRows == Escaped(Records(d));
    var lines := JoinRows(allRows);
    LinesOfRows(Records(d));
    csv := Join([Line(Header)] + lines, "\n");
    CsvEndsCleanly(d);
  }

  /** The rows of the four groups, one group after the other, are the rows of all records. */
  lemma RowsOfRecords(d: LooseFiboData)
    ensures Escaped(FinancialDataRecords(OrEmpty(d.financialData)))
            + Escaped(FiboRecords(OrEmpty(d.concepts), "Concept"))
            + Escaped(FiboRecords(OrEmpty(d.entities), "Entity"))
            + Escaped(FiboRecords(OrEmpty(d.relationships), "Relationship"))
            == Escaped(Records(d))
  {
    var a := FinancialDataRecords(OrEmpty(d.financialData));
    var b := FiboRecords(OrEmpty(d.concepts), "Concept");
    var c := FiboRecords(OrEmpty(d.entities), "Entity");
    var e := FiboRecords(OrEmpty(d.relationships), "Relationship");
    EscapedAppend(a, b);
    EscapedAppend(a + b, c);
    EscapedAppend(a + b + c, e);
  }

  /** The header cells need no quotes, so the header line reads back as the header. */
  lemma HeaderPlain()
    ensures EscapeAll(Header) == Header
  {
    var e := EscapeAll(Header);
    forall i | 0 <= i < 6 ensures e[i] == Header[i] {
      HeaderCellPlain(i);
    }
  }

  /** The `i`-th header cell has no comma, double quote or line feed. */
  lemma HeaderCellPlain(i: nat)
    requires i < 6
    ensures EscapeCsvCell(Some(Header[i])) == Header[i]
  {
    var c := Header[i];
    if i == 0 {
      assert c == "type" && !NeedsQuotes("type");
    } else if i == 1 {
      assert c == "name" && !NeedsQuotes("name");
    } else if i == 2 {
      assert c == "value" && !NeedsQuotes("value");
    } else if i == 3 {
      assert c == "ontology_class" && !NeedsQuotes("ontology_class");
    } else if i == 4 {
      assert c == "description" && !NeedsQuotes("description");
    } else {
      assert c == "context" && !NeedsQuotes("context");
    }
  }

  /** The record at position `i`: the financial data points come first, then the concepts,
      the entities and the relationships, each group in list order. */
  lemma RecordsAt(d: LooseFiboData, i: nat)
    requires i < |Records(d)|
    ensures var fd, cs := OrEmpty(d.financialData), OrEmpty(d.concepts);
            var es, rs := OrEmpty(d.entities), OrEmpty(d.relationships);
            var a, b, c := |fd|, |fd| + |cs|, |fd| + |cs| + |es|;
            && |Records(d)| == |fd| + |cs| + |es| + |rs|
            && Records(d)[i] == (if i < a then FinancialDataRecord(fd[i])
                                 else if i < b then FiboRecord(cs[i - a], "Concept")
                                 else if i < c then FiboRecord(es[i - b], "Entity")
                                 else FiboRecord(rs[i - c], "Relationship"))
  {
    var w := FinancialDataRecords(OrEmpty(d.financialData));
    var x := FiboRecords(OrEmpty(d.concepts), "Concept");
    var y := FiboRecords(OrEmpty(d.entities), "Entity");
    var z := FiboRecords(OrEmpty(d.relationships), "Relationship");
    assert Records(d) == w + x + y + z;
    if i < |w| + |x| + |y| {
      assert Records(d)[i] == (w + x + y)[i];
      if i < |w| + |x| {
        assert Records(d)[i] == (w + x)[i];
      }
    }
  }

  /** One record per item. */
  lemma RecordsCount(d: LooseFiboData)
    ensures |Records(d)| == |OrEmpty(d.financialData)| + |OrEmpty(d.concepts)|
                            + |OrEmpty(d.entities)| + |OrEmpty(d.relationships)|
  {
  }

  /** Every record has six cells. */
  lemma RecordsWidth(d: LooseFiboData)
    ensures forall i :: 0 <= i < |Records(d)| ==> |Records(d)[i]| == 6
  {
    forall i | 0 <= i < |Records(d)| ensures |Records(d)[i]| == 6 {
      RecordsAt(d, i);
    }
  }

  /** Reading the exported text with this module's reader gives back the header and then, in
      order, the record of every financial data point, concept, entity and relationship, with
      each cell as it was before escaping: the export loses nothing and adds nothing. */
  lemma CsvRoundTrip(d: LooseFiboData)
    ensures ParseRecords(Csv(Some(d))) == Some([Header] + Records(d))
  {
    var recs := [Header] + Records(d);
    assert forall i :: 0 <= i < |recs| ==> |recs[i]| >= 1 by {
      RecordsWidth(d);
    }
    HeaderPlain();
    LinesCons(Header, Records(d));
    RecordsRoundTrip(recs);
  }

  /** The lines of a record followed by more records. */
  lemma LinesCons(r: seq<string>, records: seq<seq<string>>)
    ensures Lines([r] + records) == [Line(EscapeAll(r))] + Lines(records)
  {
    var recs := [r] + records;
    forall i | 0 <= i < |records| ensures Lines(recs)[i + 1] == Lines(records)[i] {
      assert recs[i + 1] == records[i];
    }
  }

  /** What the exported text reads back as: the header, then the record of every financial
      data point, concept, entity and relationship, group after group, each in list order. */
  lemma CsvReadsBack(d: LooseFiboData)
    ensures var fd, cs := OrEmpty(d.financialData), OrEmpty(d.concepts);
            var es, rs := OrEmpty(d.entities), OrEmpty(d.relationships);
            var parsed := ParseRecords(Csv(Some(d)));
            && parsed.Some? && |parsed.value| >= 1
            && parsed.value[0] == ["type", "name", "value", "ontology_class", "description", "context"]
            && var recs := parsed.value[1..];
               && |recs| == |fd| + |cs| + |es| + |rs|
               && (forall i :: 0 <= i < |fd| ==> recs[i] == FinancialDataRecord(fd[i]))
               && (forall i :: 0 <= i < |cs| ==> recs[|fd| + i] == FiboRecord(cs[i], "Concept"))
               && (forall i :: 0 <= i < |es| ==> recs[|fd| + |cs| + i] == FiboRecord(es[i], "Entity"))
               && (forall i :: 0 <= i < |rs| ==>
                     recs[|fd| + |cs| + |es| + i] == FiboRecord(rs[i], "Relationship"))
  {
    CsvRoundTrip(d);
    assert ([Header] + Records(d))[1..] == Records(d);
    RecordsCount(d);
    GroupsAt(d, 0);
    GroupsAt(d, 1);
    GroupsAt(d, 2);
    GroupsAt(d, 3);
  }

  /** The records of group `g` (0 financial data, 1 concepts, 2 entities, 3 relationships)
      follow those of the groups before it, in list order. */
  lemma GroupsAt(d: LooseFiboData, g: nat)
    requires g < 4
    ensures var fd, cs := OrEmpty(d.financialData), OrEmpty(d.concepts);
            var es, rs := OrEmpty(d.entities), OrEmpty(d.relationships);
            var recs := Records(d);
            && (g == 0 ==> forall i :: 0 <= i < |fd| ==> recs[i] == FinancialDataRecord(fd[i]))
            && (g == 1 ==> forall i :: 0 <= i < |cs| ==> recs[|fd| + i] == FiboRecord(cs[i], "Concept"))
            && (g == 2 ==> forall i :: 0 <= i < |es| ==> recs[|fd| + |cs| + i] == FiboRecord(es[i], "Entity"))
            && (g == 3 ==> forall i :: 0 <= i < |rs| ==>
                             recs[|fd| + |cs| + |es| + i] == FiboRecord(rs[i], "Relationship"))
  {
    var fd, cs := OrEmpty(d.financialData), OrEmpty(d.concepts);
    var es, rs := OrEmpty(d.entities), OrEmpty(d.relationships);
    if g == 0 {
      forall i | 0 <= i < |fd| ensures Records(d)[i] == FinancialDataRecord(fd[i]) {
        RecordsAt(d, i);
      }
    } else if g == 1 {
      forall i | 0 <= i < |cs| ensures Records(d)[|fd| + i] == FiboRecord(cs[i], "Concept") {
        RecordsAt(d, |fd| + i);
      }
    } else if g == 2 {
      forall i | 0 <= i < |es| ensures Records(d)[|fd| + |cs| + i] == FiboRecord(es[i], "Entity") {
        RecordsAt(d, |fd| + |cs| + i);
      }
    } else {
      forall i | 0 <= i < |rs|
        ensures Records(d)[|fd| + |cs| + |es| + i] == FiboRecord(rs[i], "Relationship")
      {
        RecordsAt(d, |fd| + |cs| + |es| + i);
      }
    }
  }

  /** An escaped cell never ends with a line feed. */
  lemma EscapedEnd(c: string)
    ensures var e := EscapeCsvCell(Some(c)); |e| > 0 ==> e[|e| - 1] != '\n'
  {
    var e := EscapeCsvCell(Some(c));
    if |e| > 0 && !NeedsQuotes(c) {
      assert e[|e| - 1] in c;
    }
  }

  /** The last character of a join: that of the last part, or of the separator when the
      last part is empty. */
  lemma JoinLast(parts: seq<string>, sep: string)
    requires |parts| >= 2 && |sep| > 0
    ensures var j, p := Join(parts, sep), parts[|parts| - 1];
            |j| > 0 && j[|j| - 1] == (if |p| > 0 then p[|p| - 1] else sep[|sep| - 1])
  {
    var n := |parts| - 1;
    JoinSnoc(parts[..n], parts[n], sep);
    assert parts[..n] + [parts[n]] == parts;
  }

  /** The line of two or more escaped cells is not empty and does not end with a line feed. */
  lemma LineEnd(cells: seq<string>)
    requires |cells| >= 2
    ensures var l := Line(EscapeAll(cells)); |l| > 0 && l[|l| - 1] != '\n'
  {
    JoinLast(EscapeAll(cells), ",");
    EscapedEnd(cells[|cells| - 1]);
  }

  /** The text is empty only for missing data, and never ends with a line feed: there is no
      trailing newline. */
  lemma CsvEndsCleanly(d: LooseFiboData)
    ensures var csv := Csv(Some(d)); |csv| > 0 && csv[|csv| - 1] != '\n'
  {
    var recs := Records(d);
    var ls := [Line(Header)] + Lines(recs);
    var csv := Join(ls, "\n");
    assert Csv(Some(d)) == csv;
    if |ls| == 1 {
      assert csv == Line(Header);
      JoinLast(Header, ",");
      assert "context"[6] == 't';
    } else {
      var n := |ls| - 1;
      assert |recs[n - 1]| == 6 by {
        RecordsAt(d, n - 1);
      }
      assert ls[n] == Line(EscapeAll(recs[n - 1]));
      LineEnd(recs[n - 1]);
      JoinLast(ls, "\n");
    }
  }
}
