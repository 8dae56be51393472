/**
 * The two shapes of an employee: the public `Employee` and the stored `EmployeeDAO`, and the
 * generated mapper between them. Every field is a nullable Java reference.
 */
module Employees {
  import opened Wrappers
  import opened Dates

  /** `com.example.emp.model.Employee`: id (Long), name, department, yearOfEmployment (a LocalDate). */
  datatype Employee = Employee(
    id: Option<int>,
    name: Option<string>,
    department: Option<string>,
    yearOfEmployment: Option<LocalDate>)

  /** `EmployeeDAO`, the persistent shape: the same four fields. */
  datatype EmployeeRecord = EmployeeRecord(
    id: Option<int>,
    name: Option<string>,
    department: Option<string>,
    yearOfEmployment: Option<LocalDate>)

  /** `employeeToEmployeeDAO`: a field-for-field copy. */
  function ToRecord(e: Employee): (r: EmployeeRecord)
    ensures r.id == e.id && r.name == e.name && r.department == e.department
    ensures r.yearOfEmployment == e.yearOfEmployment
  {
    EmployeeRecord(e.id, e.name, e.department, e.yearOfEmployment)
  }

  /** `employeeDAOToEmployee`: a field-for-field copy. */
  function ToEmployee(r: EmployeeRecord): (e: Employee)
    ensures e.id == r.id && e.name == r.name && e.department == r.department
    ensures e.yearOfEmployment == r.yearOfEmployment
  {
    Employee(r.id, r.name, r.department, r.yearOfEmployment)
  }

  /** The stream `map(employeeDAOToEmployee)` over a list, in order. */
  function ToEmployees(rs: seq<EmployeeRecord>): (es: seq<Employee>)
    ensures |es| == |rs|
    ensures forall i :: 0 <= i < |rs| ==> es[i] == ToEmployee(rs[i])
  {
    seq(|rs|, i requires 0 <= i < |rs| => ToEmployee(rs[i]))
  }

  /** The mapping loses nothing in either direction. */
  lemma MapperRoundTrip(e: Employee, r: EmployeeRecord)
    ensures ToEmployee(ToRecord(e)) == e
    ensures ToRecord(ToEmployee(r)) == r
  {
  }
}
