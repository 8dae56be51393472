/**
 * `EmployeeServiceImpl`: lookups and the four-way filter over the repository, store changes
 * passed through to it, and the four-column export encoders.
 */
module Service {
  import opened Wrappers
  import opened Dates
  import opened Employees
  import opened Repository
  import opened Http
  import opened Handlers
  import opened Export

  const NotFoundMessage: string := "Employee is not found or has left the organization."

  /**
   * Which stored rows `getEmployees` answers with: department equal and hired strictly after the
   * date when both are given, department equal when only it is given, hired on the date when only
   * the date is given, and every row when neither is.
   */
  predicate Admits(department: Option<string>, year: Option<LocalDate>, r: EmployeeRecord) {
    match (department, year)
    case (Some(d), Some(t)) => InDepartment(r, d) && HiredAfter(r, t)
    case (Some(d), None) => InDepartment(r, d)
    case (None, Some(t)) => HiredOn(r, t)
    case (None, None) => true
  }

  class EmployeeServiceImpl {
    const repository: EmployeeRepository

    constructor (repository: EmployeeRepository)
      ensures this.repository == repository
    {
      this.repository := repository;
    }

    /** `getEmployeeById`: the stored row as an `Employee`, or `EmployeeNotFoundException`. */
    function GetEmployeeById(id: int): (r: Result<Employee, AppError>)
      requires repository.Valid()
      reads repository
      ensures r.Failure? <==> !repository.ExistsById(id)
      ensures r.Failure? ==> r.error == NotFound(NotFoundMessage)
      ensures forall k :: 0 <= k < |repository.rows| && repository.rows[k].id == Some(id) ==>
        r == Success(ToEmployee(repository.rows[k]))
    {
      match repository.FindById(id)
      case Some(row) => Success(ToEmployee(row))
      case None => Failure(NotFound(NotFoundMessage))
    }

    /**
     * `getEmployees`: one of four repository queries, chosen by which filters are present, each
     * row mapped to an `Employee`; the stored rows that `Admits` accepts, in stored order.
     */
    function GetEmployees(department: Option<string>, year: Option<LocalDate>): (r: seq<Employee>)
      reads repository
      ensures r == ToEmployees(Select(repository.rows, x => Admits(department, year, x)))
    {
      var rows := repository.rows;
      if department.Some? && year.Some? then
        SelectSame(rows, x => InDepartment(x, department.value) && HiredAfter(x, year.value),
                         x => Admits(department, year, x));
        ToEmployees(repository.FindByDepartmentAndYearOfEmploymentAfter(department.value, year.value))
      else if department.Some? then
        SelectSame(rows, x => InDepartment(x, department.value), x => Admits(department, year, x));
        ToEmployees(repository.FindByDepartment(department.value))
      else if year.Some? then
        SelectSame(rows, x => HiredOn(x, year.value), x => Admits(department, year, x));
        ToEmployees(repository.FindByYearOfEmployment(year.value))
      else
        SelectAll(rows, x => Admits(department, year, x));
        ToEmployees(repository.FindAll())
    }

    /** `existsById`. */
    function ExistsById(id: int): (b: bool)
      reads repository
      ensures b <==> exists k :: 0 <= k < |repository.rows| && repository.rows[k].id == Some(id)
    {
      repository.ExistsById(id)
    }

    /**
     * `addEmployee`: saved through the mapper; the answer is the stored row, carrying its id and
     * the employee's other fields unchanged.
     */
    method AddEmployee(employee: Employee) returns (saved: Employee)
      requires repository.Valid()
      modifies repository
      ensures repository.Valid()
      ensures saved.id.Some? && saved == employee.(id := saved.id)
      ensures repository.FindById(saved.id.value) == Some(ToRecord(saved))
      ensures GetEmployeeById(saved.id.value) == Success(saved)
      ensures employee.id.Some? && old(repository.ExistsById(employee.id.value)) ==>
        && saved.id == employee.id && repository.rows == Replace(old(repository.rows), ToRecord(saved))
        && repository.nextId == old(repository.nextId)
      ensures !(employee.id.Some? && old(repository.ExistsById(employee.id.value))) ==>
        && saved.id == Some(old(repository.nextId)) && repository.rows == old(repository.rows) + [ToRecord(saved)]
        && repository.nextId == old(repository.nextId) + 1
    {
      var row := repository.Save(ToRecord(employee));
      saved := ToEmployee(row);
    }

    /** `deleteEmployee`: afterwards nothing is stored under `id`, and every other row is kept in order. */
    method DeleteEmployee(id: int)
      requires repository.Valid()
      modifies repository
      ensures repository.Valid() && repository.nextId == old(repository.nextId)
      ensures !ExistsById(id) && GetEmployeeById(id) == Failure(NotFound(NotFoundMessage))
      ensures repository.rows == Select(old(repository.rows), x => !HasId(x, id))
      ensures forall x :: x in old(repository.rows) && !HasId(x, id) ==> x in repository.rows
      ensures !old(ExistsById(id)) ==> repository.rows == old(repository.rows)
    {
      repository.DeleteById(id);
    }

    /** `exportToCSV`: the four-column encoder. */
    method ExportToCsv(employees: seq<Employee>, response: ServletResponse) returns (out: Outcome<AppError>)
      modifies response
      ensures response.contentType == Some(CsvContentType)
      ensures response.headers == old(response.headers)[ContentDisposition := CsvDisposition]
      ensures response.content == old(response.content)
      ensures response.failsOnWrite ==>
        out == Fail(ExportFailure(CsvFailureMessage)) && response.text == old(response.text)
      ensures !response.failsOnWrite ==>
        out == Pass && response.text == old(response.text) + CsvText(employees, WithDate)
    {
      out := WriteCsv(employees, WithDate, response);
    }

    /** `exportToExcel`: the four-column encoder. */
    method ExportToExcel(employees: seq<Employee>, response: ServletResponse) returns (out: Outcome<AppError>)
      modifies response
      ensures response.contentType == Some(XlsxContentType)
      ensures response.headers == old(response.headers)[ContentDisposition := XlsxDisposition]
      ensures response.text == old(response.text)
      ensures !AllHaveIds(employees) ==>
        out == Fail(Unexpected(NullIdMessage)) && response.content == old(response.content)
      ensures AllHaveIds(employees) && response.failsOnWrite ==>
        out == Fail(ExportFailure(ExcelFailureMessage)) && response.content == old(response.content)
      ensures AllHaveIds(employees) && !response.failsOnWrite ==>
        out == Pass && response.content == Some(WorkbookOf(employees, WithDate))
    {
      out := WriteExcel(employees, WithDate, response);
    }
  }

  // ---------------------------------------------------------------- filter properties

  /** With both filters, a row is answered exactly when its department matches and it was hired strictly after the date. */
  lemma BothFiltersMeanDepartmentAndStrictlyAfter(s: seq<EmployeeRecord>, d: string, t: LocalDate)
    ensures forall x :: x in Select(s, x => Admits(Some(d), Some(t), x)) <==>
      x in s && x.department == Some(d) && x.yearOfEmployment.Some? && IsAfter(x.yearOfEmployment.value, t)
  {
  }

  /** With the department alone, the date plays no part: rows differing only in their dates are answered alike. */
  lemma DepartmentAloneIgnoresDates(d: string, x: EmployeeRecord, date: Option<LocalDate>)
    ensures Admits(Some(d), None, x) <==> Admits(Some(d), None, x.(yearOfEmployment := date))
    ensures Admits(Some(d), None, x) <==> x.department == Some(d)
  {
  }

  /** Without filters every stored row is answered, in stored order. */
  lemma NoFiltersAnswerEverything(s: seq<EmployeeRecord>)
    ensures Select(s, x => Admits(None, None, x)) == s
  {
    SelectAll(s, x => Admits(None, None, x));
  }

  /**
   * The stored rows of the combined-filter example: Engineering 2020-01-01, HR 2021-01-01 and
   * Engineering 2021-01-01.
   */
  function ExampleRows(): seq<EmployeeRecord> {
    [ EmployeeRecord(Some(1), Some("John Doe"), Some("Engineering"), Some(Date(2020, 1, 1))),
      EmployeeRecord(Some(2), Some("Jane Doe"), Some("HR"), Some(Date(2021, 1, 1))),
      EmployeeRecord(Some(3), Some("Jack Doe"), Some("Engineering"), Some(Date(2021, 1, 1))) ]
  }

  /** Engineering after 2020-01-01 finds only the third row: the first is on the date, not after it. */
  lemma CombinedFilterExample()
    ensures Select(ExampleRows(), x => Admits(Some("Engineering"), Some(Date(2020, 1, 1)), x)) == [ExampleRows()[2]]
  {
    var s := ExampleRows();
    var p := x => Admits(Some("Engineering"), Some(Date(2020, 1, 1)), x);
    assert !p(s[0]) && !p(s[1]) && p(s[2]);
    assert s == [s[0]] + [s[1]] + [s[2]];
    SelectConcat([s[0]] + [s[1]], [s[2]], p);
    SelectConcat([s[0]], [s[1]], p);
  }

  /** The two rows of the year-only integration test: John Doe hired 2020-01-01, Jane Doe hired 2021-01-01. */
  function YearTestRows(): seq<EmployeeRecord> {
    [ EmployeeRecord(Some(1), Some("John Doe"), Some("Engineering"), Some(Date(2020, 1, 1))),
      EmployeeRecord(Some(2), Some("Jane Doe"), Some("HR"), Some(Date(2021, 1, 1))) ]
  }

  /**
   * The year alone is an equality test: 2021-01-01 finds only Jane Doe, hired on that day, where the
   * declared `findByYearOfEmploymentAfter` would find nobody.
   */
  lemma YearAloneExample()
    ensures var r := Select(YearTestRows(), x => Admits(None, Some(Date(2021, 1, 1)), x));
      |r| == 1 && r[0].name == Some("Jane Doe")
    ensures Select(YearTestRows(), x => HiredAfter(x, Date(2021, 1, 1))) == []
  {
    var s := YearTestRows();
    var p := x => Admits(None, Some(Date(2021, 1, 1)), x);
    var q := x => HiredAfter(x, Date(2021, 1, 1));
    assert !p(s[0]) && p(s[1]);
    assert !q(s[0]) && !q(s[1]);
    assert s == [s[0]] + [s[1]];
    SelectConcat([s[0]], [s[1]], p);
    SelectConcat([s[0]], [s[1]], q);
  }
}
