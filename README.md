# Employee records service — a Dafny model

This project models the decision logic of a small Spring Boot service that keeps employee records
(id, name, department, date of employment) and proves properties of it. It covers these parts:

- **The repository** (`Repository.EmployeeRepository`). This is an in-memory class standing in for
  the JPA repository. It holds a sequence of stored rows and the next id to hand out. It has the
  derived queries (department equality, date strictly after a threshold, date equality) and the
  inherited `findById`, `existsById`, `save`, `deleteById` and `findAll`. Its invariant `Valid()`
  says that every stored row has a positive id below the counter and that no two rows share an id.
- **The service** (`Service.EmployeeServiceImpl`). `getEmployeeById` turns a missing row into
  `EmployeeNotFoundException`. `getEmployees` dispatches four ways on which filters are present.
  `addEmployee`, `deleteEmployee` and `existsById` pass through to the store. The two
  four-column export encoders are here too. `Service.Admits` is an independent statement of which
  rows each filter combination answers with, and `GetEmployees` is proved equal to it.
- **The encoders** (`Export`, used by the service and by `ExportUtils`). The CSV text follows
  OpenCSV's default writer: every non-null field is quoted, an embedded quote is doubled, a null
  field is empty, and each line ends in "\n". A reader for that text is included, and the whole
  document is proved to read back as the rows written. Ids are written as `String.valueOf(Object)`
  gives them: "null" for a null id, otherwise the digits of the `Long`. Dates are written as
  `LocalDate.toString()` gives them. Both are proved to read back. The Excel workbook is one
  sheet, "Employees", whose rows map row numbers to typed cells. The servlet response is a class
  (`Http.ServletResponse`) with content type, headers, written text and written workbook. A flag
  says whether obtaining its writer or output stream fails.
- **The controller** (`Controller.EmployeeController`). It covers the status and body decisions of
  `GET /employees`, `POST /employees`, `DELETE /employees/{id}` and `GET /employees/export`.
- **Validation** (`Validation`). The constraints on `Employee` are predicates, and `FieldErrors`
  gives the errors a binding collects. "Today" is a parameter instead of the clock.
- **Error handling** (`Handlers.Handle`). This is `GlobalExceptionHandler` as a total function from
  the exception to the status and message.

Java's nullable fields are `Option` values. Dates are `(year, month, day)` triples restricted to
valid `LocalDate` values and ordered lexicographically. Exceptions that reach the framework are
values of `Handlers.AppError`. An encoder returns them as `Fail(error)`, and the controller answers
them with `Handle(error)`.

Two places in the code take care to read:

- With only a year given, the service calls `findByYearOfEmployment`
  (`EmployeeServiceImpl.java:51`). The repository interface declares only
  `findByYearOfEmploymentAfter` (`EmployeeRepository.java:15`). As a Spring Data derived query,
  `findByYearOfEmployment` is an equality test on the date, and the integration test
  (`EmployeeServiceImplIntegrationTest.java:128-136`) expects exactly that: 2021-01-01 finds the
  record hired on 2021-01-01. The model has both queries. `Service.Admits` uses equality for this
  case, and `Service.YearAloneExample` shows the strict "after" query giving a different answer.
- The service interface and `EmployeeServiceImpl.getEmployees` take an `Integer` year. The
  controller and the repository pass and take a `LocalDate`. The model uses `LocalDate` throughout.

## Model

| member | source | states |
|---|---|---|
| Decimal.IntToString | src/main/java/com/example/emp/business/service/impl/EmployeeServiceImpl.java:90 | An id's text is its decimal digits with no leading zero ("0" for zero), preceded by '-' exactly when the id is negative. |
| Decimal.IntToStringRoundTrip | src/main/java/com/example/emp/business/service/impl/EmployeeServiceImpl.java:90 | The decimal text `String.valueOf` gives a non-null id reads back as the same number, negative ids included. |
| Dates.YearText | src/main/java/com/example/emp/business/service/impl/EmployeeServiceImpl.java:93 | The year part of a date's text: exactly four unsigned, zero-padded digits for years 0 to 9999; a leading '+' exactly when the year is above 9999, followed by at least five digits; a leading '-' exactly when it is negative, followed by at least four digits; after a sign, no leading zero beyond the four-digit padding. |
| Dates.IsoText | src/main/java/com/example/emp/business/service/impl/EmployeeServiceImpl.java:93 | A date's text is the year text, then '-', two month digits, '-', two day digits; ten characters for years 0 to 9999. |
| Dates.IsoTextExample | src/test/java/com/example/emp/business/service/impl/EmployeeServiceImplIntegrationTest.java:187 | The date 2020-01-01 is written as exactly "2020-01-01", with no sign. |
| Dates.IsoTextRoundTrip | src/main/java/com/example/emp/business/service/impl/EmployeeServiceImpl.java:93 | Every valid date's `yyyy-MM-dd` text reads back as that same date, so the export loses no date. |
| Dates.IsoTextInjective | src/main/java/com/example/emp/business/service/impl/EmployeeServiceImpl.java:93 | Different dates never export as the same text. |
| Employees.MapperRoundTrip | src/main/java/com/example/emp/business/mappers/EmployeeMapStructMapper.java:10-12 | Mapping `Employee` to `EmployeeDAO` and back (or the other way) gives back the original. |
| Employees.ToEmployees | src/main/java/com/example/emp/business/service/impl/EmployeeServiceImpl.java:58-60 | The mapped list has the same length and maps each row in place, preserving order. |
| Validation.FieldErrors | src/main/java/com/example/emp/model/Employee.java:24-40 | No field error exactly when every constraint holds. For each of the six constraints, its error (field and default message) is reported exactly when that constraint fails. The list holds nothing else and no error twice, so it has at most six entries. |
| Validation.FieldErrorTexts | src/main/java/com/example/emp/model/Employee.java:24-40 | Spelled out: "id"/"Id must be bigger than 0" exactly when the id is below 1; "name"/"Field must contain only letters" exactly when the name breaks the pattern; "name"/"must not be blank" and "department"/"must not be blank" exactly when that field is null or blank; "yearOfEmployment"/the past-or-present message exactly for a future date; "yearOfEmployment"/"Date cannot be null or empty" exactly for a null date. |
| Validation.ErrorOfInjective | src/main/java/com/example/emp/model/Employee.java:24-40 | No two constraints report the same field and message, so each error names its constraint. |
| Validation.ValidNameCharacterization | src/main/java/com/example/emp/model/Employee.java:25-33 | A name passes both name constraints exactly when it has only letters, `\s` whitespace and '-', and at least one letter or '-'. So the empty name and an all-space name fail. |
| Validation.IsNotEmptyLocalDate | src/main/java/com/example/emp/business/validation/NotEmptyLocalDateValidator.java:10-15 | `isValid` accepts a date exactly when it is not null; the context argument plays no part. |
| Validation.NotEmptyIgnoresValue | src/main/java/com/example/emp/business/validation/NotEmptyLocalDateValidator.java:10-15 | Every non-null date passes `@NotEmptyLocalDate`. A future date is rejected only by `@PastOrPresent`. |
| Csv.DocumentRoundTrip | src/main/java/com/example/emp/business/service/impl/EmployeeServiceImpl.java:86-95 | Every document of non-empty lines, whatever its fields contain (quotes, commas, line ends, nulls), reads back as exactly those lines. |
| Handlers.Handle | src/main/java/com/example/emp/business/handlers/GlobalExceptionHandler.java:18-59 | 400 exactly for unreadable bodies and type mismatches. 404 exactly for not-found, with the exception's own message. 500 exactly for export failures ("An error occurred during export: " + message) and any other exception ("An unexpected error occurred"). A body with a badly formatted value gets "Invalid format for parameter: " + the first field of the path ("null" when absent) + ". Expected format is yyyy-MM-dd. Please provide a valid value."; a type mismatch gets the same prefix + the parameter name + ". Please provide a valid value."; any other unreadable body gets the generic request-format message. |
| Handlers.HandleNamesTheParameter | src/main/java/com/example/emp/business/handlers/GlobalExceptionHandler.java:25-35 | The 400 messages name the offending parameter or field, so different names give different replies. |
| Repository.EmployeeRepository.FindAll | src/main/java/com/example/emp/business/service/impl/EmployeeServiceImpl.java:54 | Every stored row, in stored order. |
| Repository.EmployeeRepository.FindById | src/main/java/com/example/emp/business/repository/EmployeeRepository.java:9 | Empty exactly when no row has the id. Otherwise it returns the row stored under it. |
| Repository.EmployeeRepository.ExistsById | src/main/java/com/example/emp/business/repository/EmployeeRepository.java:9 | True exactly when some stored row has the id. |
| Repository.EmployeeRepository.FindByDepartmentAndYearOfEmploymentAfter | src/main/java/com/example/emp/business/repository/EmployeeRepository.java:11 | A stored row is in the result exactly when its department is equal and its date is strictly after the threshold. |
| Repository.EmployeeRepository.FindByDepartment | src/main/java/com/example/emp/business/repository/EmployeeRepository.java:13 | A stored row is in the result exactly when its department is equal. Dates play no part. |
| Repository.EmployeeRepository.FindByYearOfEmploymentAfter | src/main/java/com/example/emp/business/repository/EmployeeRepository.java:15 | A stored row is in the result exactly when its date is strictly after the threshold. A row dated on the threshold is never returned. |
| Repository.EmployeeRepository.FindByYearOfEmployment | src/main/java/com/example/emp/business/service/impl/EmployeeServiceImpl.java:51 | A stored row is in the result exactly when its date equals the given date. |
| Repository.EmployeeRepository.CombinedQueryNarrowsDepartment | src/main/java/com/example/emp/business/repository/EmployeeRepository.java:11-13 | The combined query is the department query filtered by the strict date test. |
| Repository.EmployeeRepository.NeverIssuedIdIsAbsent | src/main/java/com/example/emp/business/repository/EmployeeRepository.java:9 | An id never handed out is neither found nor reported as existing. |
| Repository.EmployeeRepository.Save | src/main/java/com/example/emp/business/repository/EmployeeRepository.java:9 | Keeps `Valid()`. The saved row carries an id and otherwise equals the input, and `findById` of that id returns it. A known id replaces its row in place. A null or unknown id appends a row under the next fresh id. |
| Repository.EmployeeRepository.DeleteById | src/main/java/com/example/emp/business/repository/EmployeeRepository.java:9 | Keeps `Valid()`. Afterwards the id is neither found nor existing. Exactly the rows without that id remain, in order. Deleting an absent id changes nothing. |
| Service.EmployeeServiceImpl.GetEmployeeById | src/main/java/com/example/emp/business/service/impl/EmployeeServiceImpl.java:34-37 | A stored id gives that row's fields unchanged. An absent id gives `NotFound("Employee is not found or has left the organization.")`. |
| Service.EmployeeServiceImpl.GetEmployees | src/main/java/com/example/emp/business/service/impl/EmployeeServiceImpl.java:41-61 | The four-way dispatch answers exactly the stored rows `Admits` accepts, in stored order and mapped to `Employee`. An empty answer is an empty list. |
| Service.EmployeeServiceImpl.ExistsById | src/main/java/com/example/emp/business/service/impl/EmployeeServiceImpl.java:77-79 | True exactly when some stored row has the id. |
| Service.EmployeeServiceImpl.AddEmployee | src/main/java/com/example/emp/business/service/impl/EmployeeServiceImpl.java:64-68 | The saved employee has an id and otherwise the input's fields, and `getEmployeeById` of that id returns it. An id already stored has its row replaced, keeping every other row, and the id counter stays the same. A null or unknown id is appended under the next fresh id, after every existing row, and the counter moves past it. |
| Service.EmployeeServiceImpl.DeleteEmployee | src/main/java/com/example/emp/business/service/impl/EmployeeServiceImpl.java:71-74 | Afterwards `existsById` is false and lookup fails with `NotFound`. Every other row is kept, and the id counter stays the same, so a deleted id is never issued again. Deleting an absent id leaves the rows as they were and does not fail. |
| Service.EmployeeServiceImpl.ExportToCsv | src/main/java/com/example/emp/business/service/impl/EmployeeServiceImpl.java:82-99 | Sets `text/csv` and the `employees.csv` disposition. It then writes the four-column document, or fails with `ExportFailure("Failed to export to CSV")` having written nothing. |
| Service.EmployeeServiceImpl.ExportToExcel | src/main/java/com/example/emp/business/service/impl/EmployeeServiceImpl.java:101-128 | Sets the spreadsheet type and the `employees.xlsx` disposition. It then writes the one-sheet workbook, or fails: a null id gives an unexpected error, and an unobtainable stream gives `ExportFailure("Failed to export to Excel")`. |
| Service.BothFiltersMeanDepartmentAndStrictlyAfter | src/main/java/com/example/emp/business/service/impl/EmployeeServiceImpl.java:44-46 | With both filters, a row is answered exactly when its department is equal and its date is strictly after the given one. |
| Service.DepartmentAloneIgnoresDates | src/main/java/com/example/emp/business/service/impl/EmployeeServiceImpl.java:47-49 | With only a department, admission depends on the department alone, never on the date. |
| Service.NoFiltersAnswerEverything | src/main/java/com/example/emp/business/service/impl/EmployeeServiceImpl.java:53-56 | With no filters, every stored row is answered, in order. |
| Service.CombinedFilterExample | src/test/java/com/example/emp/business/service/impl/EmployeeServiceImplIntegrationTest.java:105-114 | Store {Engineering 2020-01-01, HR 2021-01-01, Engineering 2021-01-01}, filtered by Engineering after 2020-01-01, gives only the third. |
| Service.YearAloneExample | src/test/java/com/example/emp/business/service/impl/EmployeeServiceImplIntegrationTest.java:128-136 | Store {John Doe 2020-01-01, Jane Doe 2021-01-01}: the year-only filter 2021-01-01 finds only Jane Doe, hired on that day. The declared "after" query would find nobody. |
| Export.HeaderFieldsAre | src/main/java/com/example/emp/business/service/impl/EmployeeServiceImpl.java:87 | The header row is ID, Name, Department, plus YearOfEmployment in the four-column layout. |
| Export.CsvExportReadsBack | src/main/java/com/example/emp/business/service/impl/EmployeeServiceImpl.java:86-95 | The exported text reads back as the header row followed by one row per employee, in input order. An empty list gives the header alone. |
| Export.CsvFieldsReadBack | src/main/java/com/example/emp/business/service/impl/EmployeeServiceImpl.java:89-94 | Each exported row reads back as the employee's id (as a number), name, department and date (as a date). |
| Export.CsvLineExample | src/test/java/com/example/emp/business/service/impl/EmployeeServiceImplIntegrationTest.java:187-188 | Employee 1, John Doe of Engineering, hired 2020-01-01, is written as the line `"1","John Doe","Engineering","2020-01-01"` and a line end. |
| Export.PrintRows | src/main/java/com/example/emp/business/service/impl/EmployeeServiceImpl.java:86-95 | One `writeNext` per row, in order. The writer receives exactly the rendered document after what it already had. |
| Export.WriteCsv | src/main/java/com/example/emp/business/service/impl/EmployeeServiceImpl.java:83-98 | The content type and disposition are set first. Then either the whole CSV document is written, or nothing is written and the outcome is `ExportFailure("Failed to export to CSV")`. |
| Export.SheetRows | src/main/java/com/example/emp/business/service/impl/EmployeeServiceImpl.java:109-122 | The sheet has 1 + n rows: the header in row 0 and employee i in row i + 1, with a numeric id cell. There is no other row. |
| Export.SheetRowsStep | src/main/java/com/example/emp/business/service/impl/EmployeeServiceImpl.java:116-121 | Creating employee i's row extends the first i employees' rows by row i + 1 and changes no earlier row. |
| Export.FillRows | src/main/java/com/example/emp/business/service/impl/EmployeeServiceImpl.java:109-122 | The `rowNum` loop finishes exactly when every employee has an id, and then it has built exactly `SheetRows`. |
| Export.WriteExcel | src/main/java/com/example/emp/business/service/impl/EmployeeServiceImpl.java:103-127 | The content type and disposition are set first. A null id fails before anything is written. An unobtainable stream gives `ExportFailure("Failed to export to Excel")`. Otherwise the workbook with the one sheet "Employees" is written. |
| ExportUtils.ExportToCsv | src/main/java/com/example/emp/utils/ExportUtils.java:16-32 | Like the service's CSV export, with the three columns ID, Name, Department. |
| ExportUtils.ExportToExcel | src/main/java/com/example/emp/utils/ExportUtils.java:34-58 | Like the service's Excel export, with three cells per row. |
| ExportUtils.CsvHasThreeColumns | src/main/java/com/example/emp/utils/ExportUtils.java:21-28 | The three-column text reads back as the header ID, Name, Department, then id, name and department of each employee and nothing else. |
| Controller.ErrorLines | src/main/java/com/example/emp/web/controller/EmployeeController.java:75-77 | One "field: message" line per field error, in order. |
| Controller.PositiveIdMessage | src/main/java/com/example/emp/web/controller/EmployeeController.java:106 | The rejection text is the fixed prefix followed by the id's `Long.toString` text (sign only when negative, no leading zero), and the id reads back from it. |
| Controller.RequestedFormat | src/main/java/com/example/emp/web/controller/EmployeeController.java:131 | A missing or empty format reads as "csv". Any other value is passed on unchanged. |
| Controller.LowerCaseMatches | src/main/java/com/example/emp/web/controller/EmployeeController.java:135-136 | The lower-cased format equals "csv" or "xlsx" exactly when each of its characters is that word's letter or the capital of it. |
| Controller.EmployeeController.GetEmployees | src/main/java/com/example/emp/web/controller/EmployeeController.java:50-60 | Always 200. The body lists exactly the rows the service's filter admits for the filters as given, possibly none. |
| Controller.EmployeeController.CreateEmployee | src/main/java/com/example/emp/web/controller/EmployeeController.java:70-89 | 201 exactly when the employee is valid and has no id. The body is then the employee under the next fresh id, appended to the store. Binding errors give 400 with their lines, and a supplied id gives 400 with the fixed text. In both 400 cases the store, id counter included, is untouched. On 201 the counter moves past the new id. |
| Controller.EmployeeController.DeleteEmployee | src/main/java/com/example/emp/web/controller/EmployeeController.java:100-117 | An id of 0 or less gives 400 naming it, and the store, id counter included, is untouched. An absent id gives 404, and the store is untouched. Otherwise the reply is 204, exactly that row is gone, the id no longer exists, and the id counter stays the same. |
| Controller.EmployeeController.ExportEmployees | src/main/java/com/example/emp/web/controller/EmployeeController.java:128-153 | A format other than csv/xlsx (any case) gives 400 and leaves the response untouched. An empty selection gives 204 "No employees found for the given criteria." and leaves the response untouched. Otherwise only the named encoder runs, and the reply is 200 or the handler's reply to its failure. |
| Controller.NegativeIdMessageExample | src/main/java/com/example/emp/web/controller/EmployeeController.java:104-107 | Deleting id -1 is answered "ID must be a positive number, provide ID is: -1". |

## Left out

- Spring wiring, Swagger metadata and logging are left out. They are configuration and observability, not decisions.
- JPA persistence, transactions and concurrent requests are left out. The store is one in-memory sequence changed by one caller at a time.
- Repository.EmployeeRepository.Save: a counter stands in for the id generation strategy, which is not in the source. Saving an unknown non-null id is modelled as an insert under a fresh id.
- Repository.EmployeeRepository.Save: ids are unbounded integers. Overflow of `Long` ids is not modelled.
- The MapStruct mapper's generated code is not in the source. It is modelled as a field-for-field copy.
- OpenCSV and Apache POI internals are left out, including the XLSX bytes, cell styles and how POI stores a `LocalDate` cell. A date cell is kept as the date itself.
- Export.SheetRows: the sheet has no size limits. POI rejects a row number above 1,048,575 and a text cell longer than 32,767 characters with `IllegalArgumentException`, which the handler answers with 500 "An unexpected error occurred". The model builds the sheet for any number of employees and any text length.
- Export.SheetRows: the id cell holds the exact integer. POI's `double` cell value, which loses precision above 2^53, is not modelled.
- Export.WriteCsv: the header `writeNext` and the per-employee `writeNext` calls are one loop over the rows, with the header as row 0.
- Export.WriteCsv: a sink fails only when its writer or stream is obtained. Partial writes, and errors that `PrintWriter` swallows, are not modelled.
- Export.WriteExcel: a null id is reported as an unexpected error with a fixed message. The JVM's exact `NullPointerException` text is not modelled, since the handler never shows it.
- The `ExportException` class is not part of this model. Its message is taken to be the one it is constructed with.
- Jackson's JSON parsing and the binding of request parameters are left out. Malformed input reaches the model only as a `Handlers.AppError` value.
- Handlers.Handle: an `InvalidFormatException` with an empty path throws inside the handler. That case is not modelled, and a null field name prints as "null".
- Validation.FieldErrors: the errors are listed in field declaration order. Spring does not fix the order of field errors.
- Validation.FieldErrors: `DescriptionVariables` has no `MODEL_DATE_PAST_OR_PRESENT` constant. The `@PastOrPresent` message used is Bean Validation's default, "must be a date in the past or in the present".
- "Today" for `@PastOrPresent` is a parameter. The clock is not read.
- Controller.ToLowerCase: only ASCII capitals are lowered. No other character lowers to a letter of "csv" or "xlsx", so accepting or rejecting a format is unaffected.
- `EmployeeService.getAllEmployees` is declared but never implemented, so it is not modelled.
- Controller.EmployeeController.ExportEmployees: the 200 reply after the encoder has written the file is modelled as an empty body. Whether the framework can still send it on a committed response is not modelled.
