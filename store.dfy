/** The shared `employee` table that the write handlers of EmployeeCrud/app.py
    change in place (`db.session.add`, attribute assignments, `db.session.delete`,
    each followed by `commit`). Each method is proved to do exactly what the
    corresponding function of module Handlers says; the read-only handlers are the
    functions of module Queries applied to `table`. */
module Store {
  import opened Records
  import opened Keys
  import opened Handlers

  class EmployeeStore {
    /** The committed rows, by id. */
    var table: Table

    /** The table `db.create_all()` makes in a fresh database: no rows. */
    constructor ()
      ensures table == map[]
    {
      table := map[];
    }

    /** POST /employees. */
    method CreateEmployee(body: Option<Body>, now: int) returns (reply: Reply<int>)
      modifies this
      ensures Step(reply, table) == Create(old(table), body, now)
    {
      if body.None? || body.value.IsEmpty() || !body.value.HasRequired() {
        return MissingData();
      }
      var data := body.value;
      var employee := NewEmployee(data.name.value, data.department.value, data.salary.value, None, now);
      // the id the insert is given: one past the largest id in use
      var id := 1;
      if table != map[] {
        MaxExists(table.Keys);
        var last :| last in table && forall k :: k in table ==> k <= last;
        id := last + 1;
      }
      assert id == NextId(table.Keys);
      table := table[id := employee];
      reply := Ok(id);
    }

    /** PUT /employees/<id>. */
    method UpdateEmployee(id: int, body: Option<Body>) returns (reply: Reply<Row>)
      modifies this
      ensures Step(reply, table) == Update(old(table), id, body)
    {
      if id !in table {
        return EmployeeNotFound();
      }
      if body.None? || body.value.IsEmpty() {
        return NoDataProvided();
      }
      var data := body.value;
      var employee := table[id];
      if data.name.Some? {
        employee := employee.(name := data.name.value);
      }
      if data.department.Some? {
        employee := employee.(department := data.department.value);
      }
      if data.salary.Some? {
        employee := employee.(salary := data.salary.value);
      }
      table := table[id := employee];
      reply := Ok(Row(id, employee));
    }

    /** DELETE /employees/<id>. */
    method DeleteEmployee(id: int) returns (reply: Reply<()>)
      modifies this
      ensures Step(reply, table) == Delete(old(table), id)
    {
      if id !in table {
        return EmployeeNotFound();
      }
      table := table - {id};
      reply := NoContent;
    }
  }
}
