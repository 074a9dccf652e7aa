/** The three write handlers of EmployeeCrud/app.py (POST, PUT and DELETE on
    /employees) as functions from the table before the request to the reply and
    the table after it, and what follows when they are combined with each other and
    with the queries. */
module Handlers {
  import opened Records
  import opened Keys
  import opened Queries

  /** A write handler's reply together with the table it leaves behind. */
  datatype Step<+T> = Step(reply: Reply<T>, table: Table)

  /** POST /employees. A body that is absent, empty or lacks any of `name`,
      `department` and `salary` is refused with 400 "Missing data" and the table is
      left alone. Otherwise one record is added under a fresh id, holding the posted
      name, department and salary and the hire date `now` (a posted `hire_date` is
      never handed to the constructor), and that id is returned with 200. */
  ghost function Create(t: Table, body: Option<Body>, now: int): (s: Step<int>)
    ensures s.reply.Ok? <==> body.Some? && body.value.HasRequired()
    ensures !s.reply.Ok? ==> s == Step(MissingData(), t)
    ensures s.reply.Ok? ==>
      (var id, data := s.reply.value, body.value;
       && id !in t
       && s.table.Keys == t.Keys + {id}
       && s.table[id] == Employee(data.name.value, data.department.value, data.salary.value, now)
       && forall k :: k in t ==> s.table[k] == t[k])
  {
    if body.None? || body.value.IsEmpty() || !body.value.HasRequired() then
      Step(MissingData(), t)
    else
      var data := body.value;
      var e := NewEmployee(data.name.value, data.department.value, data.salary.value, None, now);
      var id := NextId(t.Keys);
      Step(Ok(id), t[id := e])
  }

  /** PUT /employees/<id>. An absent id is 404 "Employee not found" whatever the body;
      a present id with an absent or empty body is 400 "No data provided"; in both the
      table is left alone. Otherwise each of `name`, `department` and `salary` that the
      body holds replaces the stored value, everything else (the id, the hire date, the
      other fields, the other records) stays, and the updated record comes back. */
  function Update(t: Table, id: int, body: Option<Body>): (s: Step<Row>)
    ensures id !in t ==> s == Step(EmployeeNotFound(), t)
    ensures id in t && (body.None? || body.value.IsEmpty()) ==> s == Step(NoDataProvided(), t)
    ensures s.reply.Ok? <==> id in t && body.Some? && !body.value.IsEmpty()
    ensures s.reply.Ok? ==> s.table.Keys == t.Keys
    ensures s.reply.Ok? ==> forall k :: k in t && k != id ==> s.table[k] == t[k]
    ensures s.reply.Ok? ==>
      (var before, after, data := t[id], s.table[id], body.value;
       && s.reply.value == Row(id, after)
       && after.name == (if data.name.Some? then data.name.value else before.name)
       && after.department == (if data.department.Some? then data.department.value else before.department)
       && after.salary == (if data.salary.Some? then data.salary.value else before.salary)
       && after.hireDate == before.hireDate)
  {
    if id !in t then Step(EmployeeNotFound(), t)
    else if body.None? || body.value.IsEmpty() then Step(NoDataProvided(), t)
    else
      var e := Patched(t[id], body.value);
      Step(Ok(Row(id, e)), t[id := e])
  }

  /** DELETE /employees/<id>. A present id loses its record, every other record stays,
      and the reply is 204 with an empty body; an absent id is 404 "Employee not found"
      and the table is left alone. */
  function Delete(t: Table, id: int): (s: Step<()>)
    ensures s.reply.NoContent? <==> id in t
    ensures id in t ==> s.table.Keys == t.Keys - {id} && forall k :: k in s.table ==> s.table[k] == t[k]
    ensures id !in t ==> s == Step(EmployeeNotFound(), t)
  {
    if id !in t then Step(EmployeeNotFound(), t)
    else Step(NoContent, t - {id})
  }

  // ---------------------------------------------------------------------------
  // Properties across handlers

  /** What is created can be read back: the posted fields with hire date `now`. */
  lemma CreateThenGet(t: Table, data: Body, now: int)
    requires data.HasRequired()
    ensures
      var s := Create(t, Some(data), now);
      s.reply.Ok? &&
      GetEmployee(s.table, s.reply.value)
        == Ok(Row(s.reply.value, Employee(data.name.value, data.department.value, data.salary.value, now)))
  {
  }

  /** A posted `hire_date` makes no difference to what is stored. */
  lemma CreateIgnoresHireDate(t: Table, data: Body, hireDate: Option<int>, now: int)
    ensures Create(t, Some(data), now) == Create(t, Some(data.(hireDate := hireDate)), now)
  {
  }

  /** A successful create adds exactly one record, a successful delete removes one. */
  lemma SizeChanges(t: Table, body: Option<Body>, now: int, id: int)
    ensures Create(t, body, now).reply.Ok? ==> |Create(t, body, now).table| == |t| + 1
    ensures id in t ==> |Delete(t, id).table| == |t| - 1
    ensures !Create(t, body, now).reply.Ok? ==> |Create(t, body, now).table| == |t|
  {
  }

  /** After a delete, get, update and delete of the same id are all 404. */
  lemma DeleteThenGone(t: Table, id: int, body: Option<Body>)
    ensures
      var after := Delete(t, id).table;
      && GetEmployee(after, id) == EmployeeNotFound()
      && Update(after, id, body) == Step(EmployeeNotFound(), after)
      && Delete(after, id) == Step(EmployeeNotFound(), after)
  {
  }

  /** Repeating an update changes nothing more. */
  lemma UpdateIdempotent(t: Table, id: int, body: Option<Body>)
    ensures
      var once := Update(t, id, body);
      Update(once.table, id, body) == once
  {
  }

  /** An update that supplies only `salary` leaves name, department and hire date as
      they were. */
  lemma SalaryOnlyUpdate(t: Table, id: int, salary: int)
    requires id in t
    ensures
      var s := Update(t, id, Some(Body(None, None, Some(salary), None, 0)));
      s.reply.Ok? && s.table[id] == t[id].(salary := salary)
  {
  }

  /** A created record is listed by GET /employees, its department by GET /departments,
      and it is among the records GET /departments/<its department> returns. */
  lemma CreatedIsListed(t: Table, data: Body, now: int)
    requires data.HasRequired()
    ensures
      var s := Create(t, Some(data), now);
      var row := Row(s.reply.value, s.table[s.reply.value]);
      && s.reply.Ok?
      && row in GetEmployees(s.table).value
      && data.department.value in GetDepartments(s.table).value
      && GetDepartmentEmployees(s.table, data.department.value).Ok?
      && row in GetDepartmentEmployees(s.table, data.department.value).value
  {
  }

  /** The exchange POST {"name": "Ada", "department": "Eng", "salary": 150000},
      GET /employees/1, DELETE /employees/1, GET /employees/1 on an empty table:
      id 1, the record, 204, then 404. A POST of {"department": "Eng"} alone is 400
      and adds nothing. */
  lemma AdaExchange(now: int)
    ensures
      var ada := Employee("Ada", "Eng", 150000, now);
      var created := Create(map[], Some(Body(Some("Ada"), Some("Eng"), Some(150000), None, 0)), now);
      && created == Step(Ok(1), map[1 := ada])
      && GetEmployee(created.table, 1) == Ok(Row(1, ada))
      && Delete(created.table, 1) == Step(NoContent, map[])
      && GetEmployee(Delete(created.table, 1).table, 1) == EmployeeNotFound()
    ensures Create(map[], Some(Body(None, Some("Eng"), None, None, 0)), now) == Step(MissingData(), map[])
  {
  }
}
