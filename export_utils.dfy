/**
 * `ExportUtils`: the static three-column encoders (ID, Name, Department), with the same sink
 * handling as the service's four-column ones.
 */
module ExportUtils {
  import opened Wrappers
  import opened Employees
  import opened Csv
  import opened Http
  import opened Handlers
  import opened Export

  /** `exportToCSV`: the header and one line per employee, three quoted fields each. */
  method ExportToCsv(employees: seq<Employee>, response: ServletResponse) returns (out: Outcome<AppError>)
    modifies response
    ensures response.contentType == Some(CsvContentType)
    ensures response.headers == old(response.headers)[ContentDisposition := CsvDisposition]
    ensures response.content == old(response.content)
    ensures response.failsOnWrite ==>
      out == Fail(ExportFailure(CsvFailureMessage)) && response.text == old(response.text)
    ensures !response.failsOnWrite ==>
      out == Pass && response.text == old(response.text) + CsvText(employees, WithoutDate)
  {
    out := WriteCsv(employees, WithoutDate, response);
  }

  /** `exportToExcel`: sheet "Employees", header in row 0, employee i in row i + 1, three cells each. */
  method ExportToExcel(employees: seq<Employee>, response: ServletResponse) returns (out: Outcome<AppError>)
    modifies response
    ensures response.contentType == Some(XlsxContentType)
    ensures response.headers == old(response.headers)[ContentDisposition := XlsxDisposition]
    ensures response.text == old(response.text)
    ensures !AllHaveIds(employees) ==>
      out == Fail(Unexpected(NullIdMessage)) && response.content == old(response.content)
    ensures AllHaveIds(employees) && response.failsOnWrite ==>
      out == Fail(ExportFailure(ExcelFailureMessage)) && response.content == old(response.content)
    ensures AllHaveIds(employees) && !response.failsOnWrite ==>
      out == Pass && response.content == Some(WorkbookOf(employees, WithoutDate))
  {
    out := WriteExcel(employees, WithoutDate, response);
  }

  /** The three-column CSV is the header ID, Name, Department, then exactly id, name and department per employee. */
  lemma CsvHasThreeColumns(employees: seq<Employee>)
    ensures ParseDocument(CsvText(employees, WithoutDate)) == Some(CsvRows(employees, WithoutDate))
    ensures CsvRows(employees, WithoutDate)[0] == [Some("ID"), Some("Name"), Some("Department")]
    ensures forall i :: 0 <= i < |employees| ==>
      CsvRows(employees, WithoutDate)[i + 1] == [Some(IdText(employees[i].id)), employees[i].name, employees[i].department]
  {
    CsvExportReadsBack(employees, WithoutDate);
    HeaderFieldsAre(WithoutDate);
    forall i | 0 <= i < |employees|
      ensures CsvRows(employees, WithoutDate)[i + 1]
           == [Some(IdText(employees[i].id)), employees[i].name, employees[i].department]
    {
      var fs := [Some(IdText(employees[i].id)), employees[i].name, employees[i].department];
      assert CsvFields(employees[i], WithoutDate) == fs + [];
      assert fs + [] == fs;
    }
  }
}
