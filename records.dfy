/** The employee record, the table that holds the records, the JSON request body
    of the write handlers and the handlers' replies (EmployeeCrud/app.py). */
module Records {

  datatype Option<+T> = None | Some(value: T) {
    /** The wrapped value, or `default` when there is none. */
    function GetOr(default: T): T {
      match this
      case Some(v) => v
      case None => default
    }
  }

  /** One row of the `employee` table without its primary key. Salary and hire date
      are integers: a salary in the smallest currency unit, a hire date as a count of
      seconds, so that both keep the total order the queries sort by. */
  datatype Employee = Employee(name: string, department: string, salary: int, hireDate: int)

  /** The table: primary key (`id`) to record. The key is the record's id, so an id
      cannot change while its record exists. */
  type Table = map<int, Employee>

  /** A record together with its id, as the handlers serialise it. */
  datatype Row = Row(id: int, employee: Employee)

  /** True when `r` is the record stored under `r.id`. */
  predicate InTable(t: Table, r: Row) {
    r.id in t && t[r.id] == r.employee
  }

  /** The JSON object a client posts or puts: each recognised key is present or not,
      and `otherKeys` counts the keys the handlers do not look at. `hire_date` may be
      present but neither write handler reads it. */
  datatype Body = Body(
    name: Option<string>,
    department: Option<string>,
    salary: Option<int>,
    hireDate: Option<int>,
    otherKeys: nat)
  {
    /** Python's `not data` for a dictionary: it has no keys at all. */
    predicate IsEmpty() {
      name.None? && department.None? && salary.None? && hireDate.None? && otherKeys == 0
    }

    /** Every one of `name`, `department` and `salary` is a key of the body. */
    predicate HasRequired() {
      name.Some? && department.Some? && salary.Some?
    }
  }

  /** What a handler answers: a 200 with a JSON payload, a 204 with an empty body,
      or an error status with a one-entry JSON object `{key: message}`. */
  datatype Reply<+T> =
    | Ok(value: T)
    | NoContent
    | Fail(code: int, key: string, message: string)

  /** The error replies of the handlers, with their status, key and text. */
  function EmployeeNotFound<T>(): Reply<T> { Fail(404, "error", "Employee not found") }
  function MissingData<T>(): Reply<T> { Fail(400, "error", "Missing data") }
  function NoDataProvided<T>(): Reply<T> { Fail(400, "error", "No data provided") }
  function NoEmployeesInDepartment<T>(): Reply<T> {
    Fail(404, "message", "No employees found in this department")
  }

  /** `Employee.__init__`: the given name, department and salary; the given hire date
      when there is one, otherwise the column default, the time `now` at insertion. */
  function NewEmployee(name: string, department: string, salary: int,
                       hireDate: Option<int>, now: int): (e: Employee)
    ensures e.name == name && e.department == department && e.salary == salary
    ensures hireDate.Some? ==> e.hireDate == hireDate.value
    ensures hireDate.None? ==> e.hireDate == now
  {
    Employee(name, department, salary, hireDate.GetOr(now))
  }

  /** The assignments of the update handler: each of `name`, `department` and `salary`
      that is a key of the body replaces the stored value; nothing else changes. */
  function Patched(e: Employee, data: Body): (p: Employee)
    ensures data.name.Some? ==> p.name == data.name.value
    ensures data.name.None? ==> p.name == e.name
    ensures data.department.Some? ==> p.department == data.department.value
    ensures data.department.None? ==> p.department == e.department
    ensures data.salary.Some? ==> p.salary == data.salary.value
    ensures data.salary.None? ==> p.salary == e.salary
    ensures p.hireDate == e.hireDate
  {
    var e1 := if data.name.Some? then e.(name := data.name.value) else e;
    var e2 := if data.department.Some? then e1.(department := data.department.value) else e1;
    if data.salary.Some? then e2.(salary := data.salary.value) else e2
  }
}
