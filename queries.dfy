/** The read-only handlers of EmployeeCrud/app.py as functions of the table:
    list all, get by id, distinct departments, filter by department, and the two
    "top ten" orderings. None of them can change the table. */
module Queries {
  import opened Records
  import opened Keys

  /** No element occurs twice. */
  predicate NoDup<T(==)>(s: seq<T>) {
    forall i, j :: 0 <= i < j < |s| ==> s[i] != s[j]
  }

  /** Rows in strictly ascending id order, hence no row twice. */
  predicate IdsAscending(rows: seq<Row>) {
    forall i, j :: 0 <= i < j < |rows| ==> rows[i].id < rows[j].id
  }

  function Min(a: int, b: int): int {
    if a <= b then a else b
  }

  // ---------------------------------------------------------------------------
  // Full scan

  /** The rows stored under `ks`, in the order of `ks`. */
  ghost function RowsAt(t: Table, ks: seq<int>): (r: seq<Row>)
    requires forall i :: 0 <= i < |ks| ==> ks[i] in t
    ensures |r| == |ks|
    ensures forall i :: 0 <= i < |r| ==> r[i] == Row(ks[i], t[ks[i]])
  {
    seq(|ks|, i requires 0 <= i < |ks| => Row(ks[i], t[ks[i]]))
  }

  /** `Employee.query.all()`: every record of the table once, in ascending id order
      (the order in which SQLite scans a rowid table). */
  ghost function Rows(t: Table): (r: seq<Row>)
    ensures |r| == |t|
    ensures forall x :: x in r <==> InTable(t, x)
    ensures IdsAscending(r)
  {
    var ks := SortedKeys(t.Keys);
    var r := RowsAt(t, ks);
    assert forall x :: x in r <==> InTable(t, x) by {
      forall x | InTable(t, x) ensures x in r {
        var i :| 0 <= i < |ks| && ks[i] == x.id;
        assert r[i] == x;
      }
    }
    r
  }

  /** GET /employees: always 200, with each stored record exactly once. */
  ghost function GetEmployees(t: Table): (r: Reply<seq<Row>>)
    ensures r.Ok?
    ensures |r.value| == |t|
    ensures forall x :: x in r.value <==> InTable(t, x)
    ensures NoDup(r.value)
  {
    Ok(Rows(t))
  }

  /** GET /employees/<id>: the stored record when the id is a key of the table,
      otherwise 404 "Employee not found". */
  function GetEmployee(t: Table, id: int): (r: Reply<Row>)
    ensures r.Ok? <==> id in t
    ensures r.Ok? ==> r.value.id == id && InTable(t, r.value)
    ensures !r.Ok? ==> r == EmployeeNotFound()
  {
    if id in t then Ok(Row(id, t[id])) else EmployeeNotFound()
  }

  // ---------------------------------------------------------------------------
  // Departments

  /** The elements of `s`, each once, in the order of their first occurrence. */
  function Distinct(s: seq<string>): (r: seq<string>)
    ensures forall x :: x in r <==> x in s
    ensures NoDup(r)
  {
    if s == [] then []
    else
      var init := Distinct(s[..|s| - 1]);
      var last := s[|s| - 1];
      assert forall x :: x in s <==> x in s[..|s| - 1] || x == last by {
        assert s == s[..|s| - 1] + [last];
      }
      if last in init then init else init + [last]
  }

  /** The department column of `rows`. */
  function DepartmentsOf(rows: seq<Row>): (ds: seq<string>)
    ensures |ds| == |rows|
    ensures forall i :: 0 <= i < |rows| ==> ds[i] == rows[i].employee.department
  {
    seq(|rows|, i requires 0 <= i < |rows| => rows[i].employee.department)
  }

  /** True when some record of the table belongs to department `d`. */
  ghost predicate HasDepartment(t: Table, d: string) {
    exists id :: id in t && t[id].department == d
  }

  /** GET /departments: always 200, with each department that some record has,
      exactly once, and nothing else. */
  ghost function GetDepartments(t: Table): (r: Reply<seq<string>>)
    ensures r.Ok?
    ensures NoDup(r.value)
    ensures forall d :: d in r.value <==> HasDepartment(t, d)
  {
    var rows := Rows(t);
    var ds := DepartmentsOf(rows);
    assert forall d :: d in ds <==> HasDepartment(t, d) by {
      forall d | d in ds ensures HasDepartment(t, d) {
        var i :| 0 <= i < |ds| && ds[i] == d;
        assert InTable(t, rows[i]);
      }
      forall d | HasDepartment(t, d) ensures d in ds {
        var id :| id in t && t[id].department == d;
        assert Row(id, t[id]) in rows;
        var i :| 0 <= i < |rows| && rows[i] == Row(id, t[id]);
        assert ds[i] == d;
      }
    }
    Ok(Distinct(ds))
  }

  /** `filter_by(department=d)`: the rows of `rows` whose department is `d`, in order. */
  function WithDepartment(rows: seq<Row>, d: string): (r: seq<Row>)
    ensures forall x :: x in r <==> x in rows && x.employee.department == d
    ensures IdsAscending(rows) ==> IdsAscending(r)
  {
    if rows == [] then []
    else
      var rest := WithDepartment(rows[1..], d);
      assert forall x :: x in rows <==> x == rows[0] || x in rows[1..] by {
        assert rows == [rows[0]] + rows[1..];
      }
      if rows[0].employee.department == d then [rows[0]] + rest else rest
  }

  /** GET /departments/<name>: the records of department `d`, each once; 404 with
      "No employees found in this department" exactly when there are none. */
  ghost function GetDepartmentEmployees(t: Table, d: string): (r: Reply<seq<Row>>)
    ensures r.Ok? <==> HasDepartment(t, d)
    ensures r.Ok? ==> forall x :: x in r.value <==> InTable(t, x) && x.employee.department == d
    ensures r.Ok? ==> NoDup(r.value)
    ensures !r.Ok? ==> r == NoEmployeesInDepartment()
  {
    var rs := WithDepartment(Rows(t), d);
    if rs == [] then
      assert !HasDepartment(t, d) by {
        if id :| id in t && t[id].department == d {
          assert Row(id, t[id]) in rs;
        }
      }
      NoEmployeesInDepartment()
    else
      assert rs[0] in rs;
      Ok(rs)
  }

  // ---------------------------------------------------------------------------
  // Top ten

  /** The column an ORDER BY ... DESC query sorts on. */
  datatype Ranking = BySalary | ByHireDate

  function Key(e: Employee, col: Ranking): int {
    match col
    case BySalary => e.salary
    case ByHireDate => e.hireDate
  }

  /** The `limit(10)` of both top-ten queries. */
  const TopLimit := 10

  /** Non-increasing in the ranking column; rows with equal keys may come in any order. */
  predicate Descending(s: seq<Row>, col: Ranking) {
    forall i, j :: 0 <= i < j < |s| ==> Key(s[i].employee, col) >= Key(s[j].employee, col)
  }

  /** `x` inserted into descending `s` in front of the first row whose key it reaches. */
  function Insert(x: Row, s: seq<Row>, col: Ranking): (r: seq<Row>)
    requires Descending(s, col)
    ensures Descending(r, col)
    ensures multiset(r) == multiset(s) + multiset{x}
  {
    if s == [] || Key(x.employee, col) >= Key(s[0].employee, col) then
      [x] + s
    else
      var rest := Insert(x, s[1..], col);
      InsertBehind(x, s, rest, col);
      [s[0]] + rest
  }

  /** The step of Insert that keeps the head of `s` in front. */
  lemma InsertBehind(x: Row, s: seq<Row>, rest: seq<Row>, col: Ranking)
    requires s != [] && Key(x.employee, col) < Key(s[0].employee, col)
    requires Descending(s, col)
    requires Descending(rest, col) && multiset(rest) == multiset(s[1..]) + multiset{x}
    ensures Descending([s[0]] + rest, col)
    ensures multiset([s[0]] + rest) == multiset(s) + multiset{x}
  {
    assert s == [s[0]] + s[1..];
    forall k | 0 <= k < |rest| ensures Key(rest[k].employee, col) <= Key(s[0].employee, col) {
      assert rest[k] in multiset(rest);
      if rest[k] != x {
        assert rest[k] in multiset(s[1..]);
        var m :| 1 <= m < |s| && s[m] == rest[k];
      }
    }
  }

  /** The rows of `s` in descending order of the ranking column: a permutation of `s`. */
  function SortDesc(s: seq<Row>, col: Ranking): (r: seq<Row>)
    ensures Descending(r, col)
    ensures multiset(r) == multiset(s)
  {
    if s == [] then []
    else
      var rest := SortDesc(s[1..], col);
      assert s == [s[0]] + s[1..];
      Insert(s[0], rest, col)
  }

  /** A sequence without repetitions holds each element at most once. */
  lemma {:induction false} NoDupCounts(s: seq<Row>)
    requires NoDup(s)
    ensures forall x :: multiset(s)[x] <= 1
  {
    if s != [] {
      assert s == [s[0]] + s[1..];
      NoDupCounts(s[1..]);
      assert s[0] !in s[1..];
    }
  }

  /** A sequence that holds each element at most once has no repetitions. */
  lemma CountsNoDup(s: seq<Row>)
    requires forall x :: multiset(s)[x] <= 1
    ensures NoDup(s)
  {
    forall i, j | 0 <= i < j < |s| ensures s[i] != s[j] {
      RepeatCounts(s, i, j);
    }
  }

  /** An element found at two positions occurs at least twice. */
  lemma RepeatCounts(s: seq<Row>, i: nat, j: nat)
    requires i < j < |s|
    ensures s[i] == s[j] ==> multiset(s)[s[i]] >= 2
  {
    assert s == s[..j] + s[j..];
    assert s[i] in s[..j];
    assert s[j] in s[j..];
    assert multiset(s)[s[i]] == multiset(s[..j])[s[i]] + multiset(s[j..])[s[i]];
  }

  /** A permutation of a sequence without repetitions has none either. */
  lemma PermutationNoDup(a: seq<Row>, b: seq<Row>)
    requires multiset(a) == multiset(b) && NoDup(a)
    ensures NoDup(b)
  {
    NoDupCounts(a);
    CountsNoDup(b);
  }

  /** What `order_by(column.desc()).limit(10)` promises of its answer `r` over `t`:
      min(10, |t|) distinct stored records, non-increasing in the column, and no
      record left out ranks above the last one returned. Ties are in no fixed order. */
  ghost predicate IsTop(t: Table, r: seq<Row>, col: Ranking) {
    && |r| == Min(TopLimit, |t|)
    && (forall x :: x in r ==> InTable(t, x))
    && NoDup(r)
    && Descending(r, col)
    && (forall id :: id in t && Row(id, t[id]) !in r ==>
          0 < |r| && Key(t[id], col) <= Key(r[|r| - 1].employee, col))
  }

  /** The first ten rows of the table sorted on the column, descending. */
  ghost function TopBy(t: Table, col: Ranking): (r: seq<Row>)
    ensures IsTop(t, r, col)
  {
    var rows := Rows(t);
    var sorted := SortDesc(rows, col);
    var n := Min(TopLimit, |sorted|);
    assert NoDup(rows);
    TopByIsTop(t, rows, sorted, col);
    sorted[..n]
  }

  /** The first ten rows of a descending permutation of the table's rows are a
      top-ten answer. */
  lemma TopByIsTop(t: Table, rows: seq<Row>, sorted: seq<Row>, col: Ranking)
    requires |rows| == |t| && NoDup(rows)
    requires forall x :: x in rows <==> InTable(t, x)
    requires Descending(sorted, col) && multiset(sorted) == multiset(rows)
    ensures IsTop(t, sorted[..Min(TopLimit, |sorted|)], col)
  {
    var n := Min(TopLimit, |sorted|);
    var r := sorted[..n];
    assert |sorted| == |rows| by {
      assert |multiset(sorted)| == |multiset(rows)|;
    }
    assert NoDup(r) by {
      PermutationNoDup(rows, sorted);
    }
    assert forall x :: x in r ==> InTable(t, x) by {
      forall x | x in r ensures InTable(t, x) {
        assert x in multiset(rows);
      }
    }
    forall id | id in t && Row(id, t[id]) !in r
      ensures 0 < |r| && Key(t[id], col) <= Key(r[|r| - 1].employee, col)
    {
      LeftOutRanksLower(rows, sorted, n, Row(id, t[id]), col);
    }
  }

  /** A row of a descending permutation that is not among its first ten rows
      ranks no higher than the tenth. */
  lemma LeftOutRanksLower(rows: seq<Row>, sorted: seq<Row>, n: nat, x: Row, col: Ranking)
    requires Descending(sorted, col) && multiset(sorted) == multiset(rows)
    requires n == Min(TopLimit, |sorted|) && x in rows && x !in sorted[..n]
    ensures 0 < n < |sorted|
    ensures Key(x.employee, col) <= Key(sorted[n - 1].employee, col)
  {
    assert x in multiset(sorted);
    var k :| 0 <= k < |sorted| && sorted[k] == x;
  }

  /** GET /top_earners: 200 with the ten highest salaries, highest first. */
  ghost function GetTopEarners(t: Table): (r: Reply<seq<Row>>)
    ensures r.Ok? && IsTop(t, r.value, BySalary)
  {
    Ok(TopBy(t, BySalary))
  }

  /** GET /most_recent_hires: 200 with the ten latest hire dates, latest first. */
  ghost function GetMostRecentHires(t: Table): (r: Reply<seq<Row>>)
    ensures r.Ok? && IsTop(t, r.value, ByHireDate)
  {
    Ok(TopBy(t, ByHireDate))
  }
}
