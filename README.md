# Employee record store (EmployeeCrud) in Dafny

This project models the employee CRUD service in `EmployeeCrud/app.py`. The service
is a Flask application that keeps `Employee` rows (`id`, `name`, `department`,
`salary`, `hire_date`) in an SQLite table and answers one HTTP route per operation.

The model keeps that table as a map from id to record. Each handler answers with a
`Reply`:

- `Ok(value)`: a 200 with a JSON payload.
- `NoContent`: a 204 with an empty body.
- `Fail(code, key, message)`: an error status with the one-entry JSON object the
  handler builds, such as `{"error": "Employee not found"}` with 404.

The files:

- `records.dfy` (module `Records`): the record and `Employee.__init__`, and the
  request body: which recognised keys it holds, and how many others.
- `keys.dfy` (module `Keys`): the keys of the table, and the id a new row gets.
- `queries.dfy` (module `Queries`): the read-only handlers, as functions of the
  table. These are list all, get by id, distinct departments, filter by department,
  top earners and most recent hires. Each function's contract states what the query
  returns.
- `handlers.dfy` (module `Handlers`): the create, update and delete handlers, as
  functions from the table before a request to the reply and the table after it.
  The lemmas relate these handlers to each other and to the queries.
- `store.dfy` (module `Store`): the class `EmployeeStore`. Its `table` field is the
  shared table. Its three methods change that field in place, step by step like the
  handlers. Each method is proved equal to the matching function of `Handlers`.

Modelling choices:

- `salary` and `hire_date` are integers, because the queries only need their order.
- The current time is a parameter, `now`, of create.
- The store gives a new row one more than the largest id in use, or 1 when the table
  is empty. This is SQLite's rule for an `INTEGER PRIMARY KEY` column without
  `AUTOINCREMENT`, which is what `id` at `EmployeeCrud/app.py:30` becomes.
- Full scans return rows in ascending id order, which is SQLite's rowid order.
  The department listing keeps each department at its first occurrence in that scan.
- The two top-ten queries sort descending and stably. Their contract (`IsTop`) does
  not fix the order of rows with equal keys, because the queries give no second sort
  key.

Where the documented behaviour of the service and the code differ, the model follows
the code:

- A successful create answers 200, not 201.
- Create never stores a posted `hire_date`. The constructor is called without it
  (`EmployeeCrud/app.py:95`), so the hire date is always the insert time.
- Create does not check the type or sign of `salary`.
- Update accepts any body that is not empty, even one with no recognised key. Such a
  body changes nothing and is not refused with 400.
- Rows with equal keys in the top-ten lists come in no promised order.

In one place the model gives the evidently intended reply instead of what the code
does. On success, get-by-id and update pass `employee.__dict__` to `jsonify`
(`EmployeeCrud/app.py:86`, `:115`). That dictionary always holds SQLAlchemy's
`_sa_instance_state`, which Flask's JSON encoder cannot serialise. So the code answers
500 on both success paths, and for update only after the commit at
`EmployeeCrud/app.py:114`, so the change is kept. The model answers 200 with the
record there (`Queries.GetEmployee`, `Handlers.Update`), and its table after an update
is the committed one.

## Model

| member | source | states |
|---|---|---|
| `Records.NewEmployee` | EmployeeCrud/app.py:34-41 | the record holds the given name, department and salary; its hire date is the given one, or `now` when none is given |
| `Records.Patched` | EmployeeCrud/app.py:108-113 | each of name, department and salary that the body holds replaces the stored value; the others and the hire date are kept |
| `Keys.NextId` | EmployeeCrud/app.py:30 | the id of an inserted row is not in use and exceeds every id in use; it is 1 for an empty table and otherwise one past an id in use |
| `Keys.SortedKeys` | EmployeeCrud/app.py:77 | the ids of the table, each once, in ascending order |
| `Queries.Rows` | EmployeeCrud/app.py:77 | the full scan holds every stored record once and nothing else, in ascending id order |
| `Queries.GetEmployees` | EmployeeCrud/app.py:75-79 | GET /employees is always 200 and lists each stored record exactly once |
| `Queries.GetEmployee` | EmployeeCrud/app.py:82-88 | 200 with the stored record exactly when the id is present; otherwise 404 "Employee not found" |
| `Queries.Distinct` | EmployeeCrud/app.py:128 | `distinct()` keeps every value and repeats none |
| `Queries.GetDepartments` | EmployeeCrud/app.py:126-129 | always 200; each department some record has appears exactly once, and no other value appears |
| `Queries.WithDepartment` | EmployeeCrud/app.py:133 | `filter_by(department=d)` keeps exactly the rows of department d, in scan order |
| `Queries.GetDepartmentEmployees` | EmployeeCrud/app.py:131-138 | 404 "No employees found in this department" exactly when no record has that department; otherwise 200 with exactly that department's records, each once |
| `Queries.Insert` | EmployeeCrud/app.py:150-156 | inserting into a descending list keeps it descending and adds exactly the one row |
| `Queries.SortDesc` | EmployeeCrud/app.py:150-156 | `order_by(... .desc())` gives a descending permutation of its input |
| `Queries.PermutationNoDup` | EmployeeCrud/app.py:150-156 | reordering rows cannot make a row appear twice |
| `Queries.TopByIsTop` | EmployeeCrud/app.py:150-156 | the first ten rows of a descending permutation of the table are min(10, size) distinct stored records, non-increasing, and no left-out record ranks above the last one |
| `Queries.LeftOutRanksLower` | EmployeeCrud/app.py:150-156 | a row cut off by `limit(10)` ranks no higher than the tenth row |
| `Queries.TopBy` | EmployeeCrud/app.py:150-156 | `order_by(column.desc()).limit(10)` satisfies `IsTop` |
| `Queries.GetTopEarners` | EmployeeCrud/app.py:148-152 | 200 with min(10, size) distinct stored records; salaries are non-increasing, and no omitted record earns more than the last one listed |
| `Queries.GetMostRecentHires` | EmployeeCrud/app.py:154-158 | the same for hire date: 200, at most ten records, latest first, none omitted hired later than the last one listed |
| `Handlers.Create` | EmployeeCrud/app.py:90-98 | 400 "Missing data" with the table unchanged exactly when the body is absent or lacks name, department or salary; otherwise exactly one record is added, under a new id that is returned, holding the posted fields and hire date `now`; every other record is unchanged |
| `Handlers.Update` | EmployeeCrud/app.py:100-115 | an absent id is 404 whatever the body; a present id with an absent or empty body is 400; neither changes the table; otherwise only the supplied fields among name, department and salary change, and the id, the hire date and every other record stay |
| `Handlers.Delete` | EmployeeCrud/app.py:117-124 | a present id is removed with 204 and the other records are unchanged; an absent id is 404 with the table unchanged |
| `Handlers.CreateThenGet` | EmployeeCrud/app.py:84-98 | reading back the returned id gives the posted name, department and salary, with hire date `now` |
| `Handlers.CreateIgnoresHireDate` | EmployeeCrud/app.py:95 | a posted `hire_date` changes neither the reply nor the table |
| `Handlers.SizeChanges` | EmployeeCrud/app.py:92-124 | a successful create adds one row, a refused create adds none, and a successful delete removes one |
| `Handlers.DeleteThenGone` | EmployeeCrud/app.py:84-124 | after a delete, get, update and delete of that id are all 404 and change nothing |
| `Handlers.UpdateIdempotent` | EmployeeCrud/app.py:100-115 | repeating an update gives the same reply and the same table |
| `Handlers.SalaryOnlyUpdate` | EmployeeCrud/app.py:108-113 | an update supplying only salary leaves name, department and hire date as they were |
| `Handlers.CreatedIsListed` | EmployeeCrud/app.py:75-138 | a created record is listed by GET /employees, its department by GET /departments, and the record by the department filter |
| `Handlers.AdaExchange` | EmployeeCrud/app.py:82-124 | on an empty table, posting Ada gives id 1; reading it back gives the record; deleting it gives 204; reading it again gives 404. A post without name and salary gives 400 and adds nothing |
| `Store.EmployeeStore.constructor` | EmployeeCrud/app.py:179-183 | a fresh store has an empty table |
| `Store.EmployeeStore.CreateEmployee` | EmployeeCrud/app.py:90-98 | the reply and the new table are those of `Handlers.Create` |
| `Store.EmployeeStore.UpdateEmployee` | EmployeeCrud/app.py:100-115 | the reply and the new table are those of `Handlers.Update` |
| `Store.EmployeeStore.DeleteEmployee` | EmployeeCrud/app.py:117-124 | the reply and the new table are those of `Handlers.Delete` |

## Left out

- HTTP plumbing is not modelled: Flask routing, `request.get_json` and `jsonify`. Handlers take the parsed body and return a `Reply`.
- The routes `/departments/string:name` and `/average_salary/string:department` (`EmployeeCrud/app.py:131`, `:140`) lack `<...>`, so Flask never matches them to a department name. The model covers the department filter's query logic, not whether the route can be reached.
- Queries.GetEmployee: on success the source answers 500, not 200. Serialising `employee.__dict__` (`EmployeeCrud/app.py:86`) fails on SQLAlchemy's `_sa_instance_state`. The model answers 200 with the `Row`, the id and the record.
- Handlers.Update: on success the source answers 500 after it has committed the change, for the same reason (`EmployeeCrud/app.py:114-115`). The model answers 200 with the updated `Row`. The table it leaves is the committed one in both.
- Marshmallow serialisation and the textual form of `hire_date` are not modelled.
- Sessions, `commit`, SQLite persistence and storage failures are not modelled. A `null` value for a `nullable=False` column fails at commit, and so does any other constraint violation. The model has a single in-memory map, and each handler takes effect atomically.
- Body values are typed: names and departments are strings and salaries are integers. A JSON `null`, a value of the wrong type and a body that is not a JSON object are not modelled. Neither is `get_json` refusing a non-JSON request.
- The `String(50)` length bound is not modelled. SQLite does not enforce it.
- Salaries and hire dates are not floats or datetimes. They are integers, so `round` and float comparison are not modelled.
- Ids are unbounded integers. SQLite's fallback once the largest rowid is reached is not modelled.
- The seeding loop at import time (`EmployeeCrud/app.py:58-65`) is not modelled: it generates random data with Faker and inserts it in bulk.
- Salary prediction is not modelled: the pandas and scikit-learn training and the `/predict_salary` endpoint (`EmployeeCrud/app.py:67-73`, `:161-175`). These are foreign library calls with floating-point numerics.
- `get_average_salary` (`EmployeeCrud/app.py:140-146`) is not modelled. It averages and rounds floats, `func` is never imported, and its `not average_salary` test treats 0.0 as no data.
- Application start-up (`db.create_all`, `app.run`) appears only as the constructor's empty table.
- Concurrent requests are not modelled.
