/**
 * What crosses the web boundary: the status and body of a `ResponseEntity`, and the servlet
 * response an export writes into (its headers, its character writer and its byte stream).
 */
module Http {
  import opened Wrappers
  import opened Dates
  import opened Employees

  const Ok: int := 200
  const Created: int := 201
  const NoContent: int := 204
  const BadRequest: int := 400
  const NotFoundStatus: int := 404
  const InternalServerError: int := 500

  /** The body of a `ResponseEntity`. */
  datatype Body =
    | NoBody
    | Message(text: string)
    | Messages(lines: seq<string>)
    | Single(employee: Employee)
    | Listing(employees: seq<Employee>)

  datatype Reply = Reply(status: int, body: Body)

  /** A spreadsheet cell as Apache POI stores it after `setCellValue`. */
  datatype Cell = TextCell(text: string) | NumericCell(number: int) | DateCell(date: LocalDate) | BlankCell

  /** A sheet: its name and the rows created in it, by row number. */
  datatype Sheet = Sheet(name: string, rows: map<int, seq<Cell>>)

  datatype Workbook = Workbook(sheets: seq<Sheet>)

  /**
   * `HttpServletResponse` as the export uses it. `failsOnWrite` says whether asking it for its
   * writer or its output stream throws `IOException`.
   */
  class ServletResponse {
    var contentType: Option<string>
    var headers: map<string, string>
    /** The characters written through `getWriter()`. */
    var text: string
    /** The workbook written through `getOutputStream()`. */
    var content: Option<Workbook>
    const failsOnWrite: bool

    constructor (failsOnWrite: bool)
      ensures this.failsOnWrite == failsOnWrite
      ensures contentType == None && headers == map[] && text == "" && content == None
    {
      this.failsOnWrite := failsOnWrite;
      contentType := None;
      headers := map[];
      text := "";
      content := None;
    }

    method SetContentType(value: string)
      modifies this`contentType
      ensures contentType == Some(value)
    {
      contentType := Some(value);
    }

    method SetHeader(name: string, value: string)
      modifies this`headers
      ensures headers == old(headers)[name := value]
    {
      headers := headers[name := value];
    }

    /** Appends to what the writer has received. */
    method Print(s: string)
      requires !failsOnWrite
      modifies this`text
      ensures text == old(text) + s
    {
      text := text + s;
    }

    /** `workbook.write(getOutputStream())`. */
    method WriteWorkbook(w: Workbook)
      requires !failsOnWrite
      modifies this`content
      ensures content == Some(w)
    {
      content := Some(w);
    }
  }
}
