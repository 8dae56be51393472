/**
 * The tabular encoders behind `exportToCSV` and `exportToExcel`: the header and one row per
 * employee, in input order, written into the servlet response. The service writes four columns;
 * `ExportUtils` writes the first three.
 */
module Export {
  import opened Wrappers
  import opened Decimal
  import opened Dates
  import opened Employees
  import opened Csv
  import opened Sequences
  import opened Http
  import opened Handlers

  /** The columns an encoder writes. */
  datatype Layout = WithDate | WithoutDate

  function Header(l: Layout): (h: seq<string>)
    ensures |h| == if l == WithDate then 4 else 3
  {
    ["ID", "Name", "Department"] + (if l == WithDate then ["YearOfEmployment"] else [])
  }

  const ContentDisposition: string := "Content-Disposition"
  const CsvContentType: string := "text/csv"
  const CsvDisposition: string := "attachment; filename=employees.csv"
  const XlsxContentType: string := "application/vnd.openxmlformats-officedocument.spreadsheetml.sheet"
  const XlsxDisposition: string := "attachment; filename=employees.xlsx"
  const SheetName: string := "Employees"
  const CsvFailureMessage: string := "Failed to export to CSV"
  const ExcelFailureMessage: string := "Failed to export to Excel"
  /** What the `NullPointerException` of unboxing a null id reports. */
  const NullIdMessage: string := "Cannot unbox a null employee id"

  /** `String.valueOf` of a nullable Long. */
  function IdText(id: Option<int>): string {
    match id
    case None => "null"
    case Some(i) => IntToString(i)
  }

  /** `String.valueOf` of a nullable LocalDate. */
  function DateText(d: Option<LocalDate>): string {
    match d
    case None => "null"
    case Some(date) => IsoText(date)
  }

  // ---------------------------------------------------------------- CSV

  function HeaderFields(l: Layout): (fs: seq<Field>)
    ensures |fs| == |Header(l)| && forall i :: 0 <= i < |fs| ==> fs[i] == Some(Header(l)[i])
  {
    seq(|Header(l)|, i requires 0 <= i < |Header(l)| => Some(Header(l)[i]))
  }

  /** The header row: the column titles, each quoted. */
  lemma HeaderFieldsAre(l: Layout)
    ensures l == WithoutDate ==> HeaderFields(l) == [Some("ID"), Some("Name"), Some("Department")]
    ensures l == WithDate ==> HeaderFields(l) == [Some("ID"), Some("Name"), Some("Department"), Some("YearOfEmployment")]
  {
    var h := HeaderFields(l);
    assert h[0] == Some("ID") && h[1] == Some("Name") && h[2] == Some("Department");
    if l == WithDate {
      assert h[3] == Some("YearOfEmployment");
    }
  }

  /** The array handed to `writeNext` for one employee: id and date through `String.valueOf`, name and department as they are. */
  function CsvFields(e: Employee, l: Layout): (fs: seq<Field>)
    ensures |fs| == |Header(l)|
  {
    [Some(IdText(e.id)), e.name, e.department] + (if l == WithDate then [Some(DateText(e.yearOfEmployment))] else [])
  }

  function CsvRows(emps: seq<Employee>, l: Layout): (rows: seq<seq<Field>>)
    ensures |rows| == |emps| + 1 && rows[0] == HeaderFields(l)
    ensures forall i :: 0 <= i < |emps| ==> rows[i + 1] == CsvFields(emps[i], l)
  {
    [HeaderFields(l)] + seq(|emps|, i requires 0 <= i < |emps| => CsvFields(emps[i], l))
  }

  /** The whole text a CSV export writes. */
  function CsvText(emps: seq<Employee>, l: Layout): string {
    RenderDocument(CsvRows(emps, l))
  }

  /** Reading the CSV text back gives exactly the rows written: the header, then one row per employee in input order. */
  lemma CsvExportReadsBack(emps: seq<Employee>, l: Layout)
    ensures ParseDocument(CsvText(emps, l)) == Some(CsvRows(emps, l))
  {
    DocumentRoundTrip(CsvRows(emps, l));
  }

  /** The four-column line of employee 1, John Doe of Engineering, hired on 2020-01-01. */
  lemma CsvLineExample()
    ensures RenderLine(CsvFields(Employee(Some(1), Some("John Doe"), Some("Engineering"), Some(Date(2020, 1, 1))), WithDate))
         == "\"1\",\"John Doe\",\"Engineering\",\"2020-01-01\"\n"
  {
    IsoTextExample();
    assert IntToString(1) == "1";
    var fs := CsvFields(Employee(Some(1), Some("John Doe"), Some("Engineering"), Some(Date(2020, 1, 1))), WithDate);
    assert fs == [Some("1"), Some("John Doe"), Some("Engineering"), Some("2020-01-01")];
    RenderQuoteFreeLine("1", "John Doe", "Engineering", "2020-01-01");
    JoinLineExample("1", "John Doe", "Engineering", "2020-01-01");
  }

  /** Four fields with no quote in them: each is wrapped in quotes, with commas between. */
  lemma RenderQuoteFreeLine(a: string, b: string, c: string, d: string)
    requires '"' !in a && '"' !in b && '"' !in c && '"' !in d
    ensures RenderLine([Some(a), Some(b), Some(c), Some(d)])
         == ("\"" + a + "\"") + "," + (("\"" + b + "\"") + "," + (("\"" + c + "\"") + "," + ("\"" + d + "\""))) + "\n"
  {
    EscapeWithoutQuotes(a);
    EscapeWithoutQuotes(b);
    EscapeWithoutQuotes(c);
    EscapeWithoutQuotes(d);
    var fs := [Some(a), Some(b), Some(c), Some(d)];
    assert fs[1..][1..] == fs[2..] && fs[2..][1..] == fs[3..];
    assert RenderFields(fs[3..]) == "\"" + d + "\"";
    assert RenderFields(fs[2..]) == ("\"" + c + "\"") + "," + RenderFields(fs[3..]);
    assert RenderFields(fs[1..]) == ("\"" + b + "\"") + "," + RenderFields(fs[2..]);
  }

  /** The integration test's expected line, assembled from its four field texts. */
  lemma JoinLineExample(a: string, b: string, c: string, d: string)
    requires a == "1" && b == "John Doe" && c == "Engineering" && d == "2020-01-01"
    ensures ("\"" + a + "\"") + "," + (("\"" + b + "\"") + "," + (("\"" + c + "\"") + "," + ("\"" + d + "\""))) + "\n"
         == "\"1\",\"John Doe\",\"Engineering\",\"2020-01-01\"\n"
  {
  }

  /**
   * Each field of an employee's row reads back as the value it was written from: the id as a
   * number, name and department unchanged, the date as the same ISO date.
   */
  lemma CsvFieldsReadBack(e: Employee, l: Layout)
    ensures var fs := CsvFields(e, l);
      && fs[1] == e.name && fs[2] == e.department
      && (e.id.Some? ==> fs[0].Some? && ParseInt(fs[0].value) == e.id)
      && (l == WithDate && e.yearOfEmployment.Some? ==>
            fs[3].Some? && ParseIso(fs[3].value) == e.yearOfEmployment)
  {
    if e.id.Some? {
      IntToStringRoundTrip(e.id.value);
    }
    if l == WithDate && e.yearOfEmployment.Some? {
      IsoTextRoundTrip(e.yearOfEmployment.value);
    }
  }

  /** One `writeNext` per row, in order: the header row first, then one row per employee. */
  method PrintRows(rows: seq<seq<Field>>, response: ServletResponse)
    requires !response.failsOnWrite
    modifies response`text
    ensures response.text == old(response.text) + RenderDocument(rows)
  {
    var i := 0;
    while i < |rows|
      invariant 0 <= i <= |rows|
      invariant response.text == old(response.text) + RenderDocument(rows[..i])
    {
      var line := RenderLine(rows[i]);
      response.Print(line);
      RenderDocumentStep(rows, i);
      AppendAssociates(old(response.text), RenderDocument(rows[..i]), line);
      i := i + 1;
    }
    assert rows[..i] == rows;
  }

  /**
   * `exportToCSV`: content type and disposition first; then, unless the writer cannot be obtained,
   * the header and one line per employee. A writer that cannot be obtained becomes `ExportException`.
   */
  method WriteCsv(emps: seq<Employee>, l: Layout, response: ServletResponse) returns (out: Outcome<AppError>)
    modifies response
    ensures response.contentType == Some(CsvContentType)
    ensures response.headers == old(response.headers)[ContentDisposition := CsvDisposition]
    ensures response.content == old(response.content)
    ensures response.failsOnWrite ==>
      out == Fail(ExportFailure(CsvFailureMessage)) && response.text == old(response.text)
    ensures !response.failsOnWrite ==>
      out == Pass && response.text == old(response.text) + CsvText(emps, l)
  {
    response.SetContentType(CsvContentType);
    response.SetHeader(ContentDisposition, CsvDisposition);
    if response.failsOnWrite {
      return Fail(ExportFailure(CsvFailureMessage));
    }
    PrintRows(CsvRows(emps, l), response);
    out := Pass;
  }

  // ---------------------------------------------------------------- Excel

  function HeaderCells(l: Layout): (cs: seq<Cell>)
    ensures |cs| == |Header(l)| && forall i :: 0 <= i < |cs| ==> cs[i] == TextCell(Header(l)[i])
  {
    seq(|Header(l)|, i requires 0 <= i < |Header(l)| => TextCell(Header(l)[i]))
  }

  /** `setCellValue(String)`: a null string leaves the cell blank. */
  function TextOrBlank(s: Option<string>): Cell {
    match s
    case None => BlankCell
    case Some(text) => TextCell(text)
  }

  /** `setCellValue(LocalDate)`: a null date leaves the cell blank. */
  function DateOrBlank(d: Option<LocalDate>): Cell {
    match d
    case None => BlankCell
    case Some(date) => DateCell(date)
  }

  predicate AllHaveIds(emps: seq<Employee>) {
    forall i :: 0 <= i < |emps| ==> emps[i].id.Some?
  }

  /** The cells of one employee's row: a numeric id, then text cells, then the date. */
  function SheetCells(e: Employee, l: Layout): (cs: seq<Cell>)
    requires e.id.Some?
    ensures |cs| == |Header(l)|
  {
    [NumericCell(e.id.value), TextOrBlank(e.name), TextOrBlank(e.department)]
      + (if l == WithDate then [DateOrBlank(e.yearOfEmployment)] else [])
  }

  /** The rows of the sheet: the header in row 0, employee i in row i + 1, and no other row. */
  function SheetRows(emps: seq<Employee>, l: Layout): (rows: map<int, seq<Cell>>)
    requires AllHaveIds(emps)
    ensures |rows| == |emps| + 1
    ensures forall k :: k in rows <==> 0 <= k <= |emps|
    ensures rows[0] == HeaderCells(l)
    ensures forall i :: 0 <= i < |emps| ==> rows[i + 1] == SheetCells(emps[i], l)
  {
    if |emps| == 0 then map[0 := HeaderCells(l)]
    else SheetRows(emps[..|emps| - 1], l)[|emps| := SheetCells(emps[|emps| - 1], l)]
  }

  function WorkbookOf(emps: seq<Employee>, l: Layout): Workbook
    requires AllHaveIds(emps)
  {
    Workbook([Sheet(SheetName, SheetRows(emps, l))])
  }

  /** Filling the row of employee i extends the rows of the first i employees by row i + 1. */
  lemma SheetRowsStep(emps: seq<Employee>, i: nat, l: Layout)
    requires i < |emps| && AllHaveIds(emps[..i]) && emps[i].id.Some?
    ensures AllHaveIds(emps[..i + 1])
    ensures SheetRows(emps[..i + 1], l) == SheetRows(emps[..i], l)[i + 1 := SheetCells(emps[i], l)]
  {
    assert emps[..i + 1][..i] == emps[..i];
  }

  /**
   * The rows `exportToExcel` creates before writing: the header in row 0, then employee i in row
   * `rowNum` = i + 1. Unboxing a null id throws, so the rows are complete exactly when every
   * employee has an id.
   */
  method FillRows(emps: seq<Employee>, l: Layout) returns (rows: map<int, seq<Cell>>, complete: bool)
    ensures complete <==> AllHaveIds(emps)
    ensures complete ==> rows == SheetRows(emps, l)
  {
    rows := map[0 := HeaderCells(l)];
    assert emps[..0] == [];
    var rowNum := 1;
    var i := 0;
    while i < |emps|
      invariant 0 <= i <= |emps| && rowNum == i + 1
      invariant AllHaveIds(emps[..i])
      invariant rows == SheetRows(emps[..i], l)
    {
      if emps[i].id.None? {
        return rows, false;
      }
      SheetRowsStep(emps, i, l);
      rows := rows[rowNum := SheetCells(emps[i], l)];
      rowNum := rowNum + 1;
      i := i + 1;
    }
    assert emps[..i] == emps;
    complete := true;
  }

  /**
   * `exportToExcel`: content type and disposition first; then one sheet "Employees" with the
   * header in row 0 and employee i in row `rowNum` = i + 1, written to the output stream. An
   * employee without an id throws a `NullPointerException` while its row is filled; an output
   * stream that cannot be obtained becomes `ExportException`.
   */
  method WriteExcel(emps: seq<Employee>, l: Layout, response: ServletResponse) returns (out: Outcome<AppError>)
    modifies response
    ensures response.contentType == Some(XlsxContentType)
    ensures response.headers == old(response.headers)[ContentDisposition := XlsxDisposition]
    ensures response.text == old(response.text)
    ensures !AllHaveIds(emps) ==>
      out == Fail(Unexpected(NullIdMessage)) && response.content == old(response.content)
    ensures AllHaveIds(emps) && response.failsOnWrite ==>
      out == Fail(ExportFailure(ExcelFailureMessage)) && response.content == old(response.content)
    ensures AllHaveIds(emps) && !response.failsOnWrite ==>
      out == Pass && response.content == Some(WorkbookOf(emps, l))
  {
    response.SetContentType(XlsxContentType);
    response.SetHeader(ContentDisposition, XlsxDisposition);
    var rows, complete := FillRows(emps, l);
    if !complete {
      return Fail(Unexpected(NullIdMessage));
    }
    if response.failsOnWrite {
      return Fail(ExportFailure(ExcelFailureMessage));
    }
    response.WriteWorkbook(Workbook([Sheet(SheetName, rows)]));
    out := Pass;
  }
}
