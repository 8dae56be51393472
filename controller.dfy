/**
 * `EmployeeController`: the request decisions of the four endpoints. Exceptions that reach the
 * framework are answered by `GlobalExceptionHandler`, which is `Handlers.Handle` here.
 */
module Controller {
  import opened Wrappers
  import opened Decimal
  import opened Dates
  import opened Employees
  import opened Validation
  import opened Repository
  import opened Http
  import opened Handlers
  import opened Export
  import opened Service

  const IdIncludedMessage: string := "ID must not be included in the request for a new entity"
  const PositiveIdPrefix: string := "ID must be a positive number, provide ID is: "
  const InvalidFormatMessage: string := "Invalid format. Please specify 'csv' or 'xlsx'."
  const NoEmployeesMessage: string := "No employees found for the given criteria."
  const DefaultFormat: string := "csv"

  /** The body of a rejected creation: "field: message" for each field error, in order. */
  function ErrorLines(errs: seq<FieldError>): (lines: seq<string>)
    ensures |lines| == |errs|
    ensures forall i :: 0 <= i < |errs| ==> lines[i] == errs[i].field + ": " + errs[i].message
  {
    seq(|errs|, i requires 0 <= i < |errs| => errs[i].field + ": " + errs[i].message)
  }

  /** The body of a rejected deletion: the fixed text followed by the id's `Long.toString` text, which reads back as the id. */
  function PositiveIdMessage(id: int): (m: string)
    ensures |m| > |PositiveIdPrefix| && m[..|PositiveIdPrefix|] == PositiveIdPrefix
    ensures m[|PositiveIdPrefix|..] == IntToString(id)
    ensures ParseInt(m[|PositiveIdPrefix|..]) == Some(id)
  {
    IntToStringRoundTrip(id);
    var m := PositiveIdPrefix + IntToString(id);
    assert m[|PositiveIdPrefix|..] == IntToString(id);
    m
  }

  /** `Character.toLowerCase` on the characters that can spell a known format. */
  function LowerAscii(c: char): char {
    if 'A' <= c <= 'Z' then (c as int + 32) as char else c
  }

  /** `String.toLowerCase`, character by character. */
  function ToLowerCase(s: string): (r: string)
    ensures |r| == |s|
  {
    seq(|s|, i requires 0 <= i < |s| => LowerAscii(s[i]))
  }

  /** `@RequestParam(defaultValue = "csv")`: a missing or empty parameter reads as "csv". */
  function RequestedFormat(format: Option<string>): (f: string)
    ensures f != []
    ensures format.Some? && format.value != [] ==> f == format.value
    ensures format.None? || format.value == [] ==> f == DefaultFormat
  {
    match format
    case Some(text) => if text == [] then DefaultFormat else text
    case None => DefaultFormat
  }

  predicate IsKnownFormat(f: string) {
    f == "csv" || f == "xlsx"
  }

  /**
   * A format is matched without regard to case: the lower-cased text equals a lower-case word
   * exactly when each character is that word's letter or its capital.
   */
  lemma {:induction false} LowerCaseMatches(s: string, word: string)
    requires forall i :: 0 <= i < |word| ==> 'a' <= word[i] <= 'z'
    ensures ToLowerCase(s) == word <==>
      |s| == |word| && forall i :: 0 <= i < |s| ==> s[i] == word[i] || s[i] as int == word[i] as int - 32
  {
    if ToLowerCase(s) == word {
      forall i | 0 <= i < |s|
        ensures s[i] == word[i] || s[i] as int == word[i] as int - 32
      {
        assert LowerAscii(s[i]) == word[i];
      }
    }
    if |s| == |word| && forall i :: 0 <= i < |s| ==> s[i] == word[i] || s[i] as int == word[i] as int - 32 {
      forall i | 0 <= i < |s|
        ensures ToLowerCase(s)[i] == word[i]
      {
        assert LowerAscii(s[i]) == word[i];
      }
    }
  }


  class EmployeeController {
    const service: EmployeeServiceImpl

    constructor (service: EmployeeServiceImpl)
      ensures this.service == service
    {
      this.service := service;
    }

    /** `GET /employees`: always 200, with the stored rows the filters admit, filters passed on unchanged. */
    function GetEmployees(department: Option<string>, year: Option<LocalDate>): (r: Reply)
      reads service.repository
      ensures r.status == Ok
      ensures r.body == Listing(ToEmployees(Select(service.repository.rows, x => Admits(department, year, x))))
    {
      Reply(Ok, Listing(service.GetEmployees(department, year)))
    }

    /**
     * `POST /employees`: binding errors answer 400 with their lines; a caller-supplied id answers
     * 400; otherwise the employee is saved and comes back with 201. Only the last case touches the store.
     */
    method CreateEmployee(employee: Employee, today: LocalDate) returns (r: Reply)
      requires service.repository.Valid()
      modifies service.repository
      ensures service.repository.Valid()
      ensures r.status == Created <==> IsValidEmployee(employee, today) && employee.id.None?
      ensures !IsValidEmployee(employee, today) ==>
        && r == Reply(BadRequest, Messages(ErrorLines(FieldErrors(employee, today))))
        && unchanged(service.repository)
      ensures IsValidEmployee(employee, today) && employee.id.Some? ==>
        && r == Reply(BadRequest, Message(IdIncludedMessage))
        && unchanged(service.repository)
      ensures IsValidEmployee(employee, today) && employee.id.None? ==>
        && r.body == Single(employee.(id := Some(old(service.repository.nextId))))
        && service.repository.rows == old(service.repository.rows) + [ToRecord(r.body.employee)]
        && service.repository.nextId == old(service.repository.nextId) + 1
    {
      var errs := FieldErrors(employee, today);
      if errs != [] {
        return Reply(BadRequest, Messages(ErrorLines(errs)));
      }
      if employee.id.Some? {
        return Reply(BadRequest, Message(IdIncludedMessage));
      }
      var saved := service.AddEmployee(employee);
      r := Reply(Created, Single(saved));
    }

    /**
     * `DELETE /employees/{id}`: an id of 0 or less answers 400 naming it; an id nothing is stored
     * under answers 404; otherwise that row is deleted and the answer is 204.
     */
    method DeleteEmployee(id: int) returns (r: Reply)
      requires service.repository.Valid()
      modifies service.repository
      ensures service.repository.Valid()
      ensures id <= 0 ==>
        && r == Reply(BadRequest, Message(PositiveIdMessage(id)))
        && unchanged(service.repository)
      ensures id > 0 && !old(service.ExistsById(id)) ==>
        r == Reply(NotFoundStatus, NoBody) && unchanged(service.repository)
      ensures id > 0 && old(service.ExistsById(id)) ==>
        && r == Reply(NoContent, NoBody)
        && service.repository.rows == Select(old(service.repository.rows), x => !HasId(x, id))
        && service.repository.nextId == old(service.repository.nextId)
        && !service.ExistsById(id)
    {
      if id <= 0 {
        return Reply(BadRequest, Message(PositiveIdMessage(id)));
      }
      if !service.ExistsById(id) {
        return Reply(NotFoundStatus, NoBody);
      }
      service.DeleteEmployee(id);
      r := Reply(NoContent, NoBody);
    }

    /**
     * `GET /employees/export`: an unknown format answers 400 before any query; an empty selection
     * answers 204; otherwise exactly the encoder the format names runs, and the answer is 200, or
     * the handler's answer to the exception the encoder raised.
     */
    method ExportEmployees(department: Option<string>, yearAfter: Option<LocalDate>, format: Option<string>,
                           response: ServletResponse) returns (r: Reply)
      modifies response
      ensures var f := ToLowerCase(RequestedFormat(format));
        !IsKnownFormat(f) ==>
          && r == Reply(BadRequest, Message(InvalidFormatMessage))
          && unchanged(response)
      ensures var f := ToLowerCase(RequestedFormat(format));
        var employees := ToEmployees(Select(service.repository.rows, x => Admits(department, yearAfter, x)));
        IsKnownFormat(f) && employees == [] ==>
          && r == Reply(NoContent, Message(NoEmployeesMessage))
          && unchanged(response)
      ensures var f := ToLowerCase(RequestedFormat(format));
        var employees := ToEmployees(Select(service.repository.rows, x => Admits(department, yearAfter, x)));
        f == "csv" && employees != [] ==>
          && response.contentType == Some(CsvContentType)
          && response.headers == old(response.headers)[ContentDisposition := CsvDisposition]
          && response.content == old(response.content)
          && (response.failsOnWrite ==>
                r == Handle(ExportFailure(CsvFailureMessage)) && response.text == old(response.text))
          && (!response.failsOnWrite ==>
                r == Reply(Ok, NoBody) && response.text == old(response.text) + CsvText(employees, WithDate))
      ensures var f := ToLowerCase(RequestedFormat(format));
        var employees := ToEmployees(Select(service.repository.rows, x => Admits(department, yearAfter, x)));
        f == "xlsx" && employees != [] ==>
          && response.contentType == Some(XlsxContentType)
          && response.headers == old(response.headers)[ContentDisposition := XlsxDisposition]
          && response.text == old(response.text)
          && (!AllHaveIds(employees) ==>
                r == Handle(Unexpected(NullIdMessage)) && response.content == old(response.content))
          && (AllHaveIds(employees) && response.failsOnWrite ==>
                r == Handle(ExportFailure(ExcelFailureMessage)) && response.content == old(response.content))
          && (AllHaveIds(employees) && !response.failsOnWrite ==>
                r == Reply(Ok, NoBody) && response.content == Some(WorkbookOf(employees, WithDate)))
    {
      var f := ToLowerCase(RequestedFormat(format));
      if !IsKnownFormat(f) {
        return Reply(BadRequest, Message(InvalidFormatMessage));
      }
      var employees := service.GetEmployees(department, yearAfter);
      if employees == [] {
        return Reply(NoContent, Message(NoEmployeesMessage));
      }
      var out: Outcome<AppError> := Pass;
      if f == "csv" {
        out := service.ExportToCsv(employees, response);
      } else if f == "xlsx" {
        out := service.ExportToExcel(employees, response);
      }
      match out
      case Fail(error) => r := Handle(error);
      case Pass => r := Reply(Ok, NoBody);
    }
  }

  /** A non-positive id is named in the answer: -1 gives the text ending in "-1". */
  lemma NegativeIdMessageExample()
    ensures PositiveIdMessage(-1) == "ID must be a positive number, provide ID is: -1"
  {
    assert IntToString(-1) == "-1";
  }
}
