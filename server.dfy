/**
 * The request handlers of the HR API over one store holding the `employees`
 * and `attendance` collections. The store's generated `id`, the timestamps
 * and "today" are parameters of the handlers.
 */
module Server {
  import opened Results
  import opened Validation
  import opened Records
  import opened Seqs
  import opened Tables
  import opened Dashboard

  const EmployeeIdExists := "Employee ID already exists"
  const EmailExists := "Email already exists"
  const EmployeeNotFound := "Employee not found"
  const EmployeeDeleted := "Employee deleted"

  class Hrms {
    var employees: seq<Employee>
    var attendance: seq<AttendanceRecord>

    /** Unique business keys and emails, and no record naming a missing employee. */
    ghost predicate Valid()
      reads this
    {
      Consistent(employees, attendance)
    }

    /** An empty store. */
    constructor ()
      ensures employees == [] && attendance == []
      ensures Valid()
    {
      employees := [];
      attendance := [];
    }

    /**
     * `POST /employees`: 422 when the body is invalid, then 409 when the
     * business key is taken, then 409 when the email is taken; otherwise the
     * new document is appended and returned.
     */
    method CreateEmployee(body: EmployeeCreate, id: string, createdAt: string) returns (r: Result<Employee, ApiError>)
      modifies this
      ensures attendance == old(attendance)
      ensures ValidateEmployee(body).Err? ==>
        r == Err(Unprocessable(ValidateEmployee(body).error)) && employees == old(employees)
      ensures ValidateEmployee(body).Ok? ==>
        var v := ValidateEmployee(body).value;
        (HasEmployeeId(old(employees), v.employeeId) ==>
          r == Err(Conflict(EmployeeIdExists)) && employees == old(employees)) &&
        (!HasEmployeeId(old(employees), v.employeeId) && HasEmail(old(employees), v.email) ==>
          r == Err(Conflict(EmailExists)) && employees == old(employees)) &&
        (!HasEmployeeId(old(employees), v.employeeId) && !HasEmail(old(employees), v.email) ==>
          r == Ok(Employee(id, v.employeeId, v.fullName, v.email, v.department, createdAt)) &&
          employees == old(employees) + [r.value])
      ensures old(Valid()) ==> Valid()
    {
      var valid := ValidateEmployee(body);
      if valid.Err? {
        r := Err(Unprocessable(valid.error));
      } else if HasEmployeeId(employees, valid.value.employeeId) {
        r := Err(Conflict(EmployeeIdExists));
      } else if HasEmail(employees, valid.value.email) {
        r := Err(Conflict(EmailExists));
      } else {
        var v := valid.value;
        var employee := Employee(id, v.employeeId, v.fullName, v.email, v.department, createdAt);
        AppendEmployee(employee);
        r := Ok(employee);
      }
    }

    /** `insert_one` on the directory, for a document whose keys are both new. */
    method AppendEmployee(employee: Employee)
      requires !HasEmployeeId(employees, employee.employeeId) && !HasEmail(employees, employee.email)
      modifies this
      ensures employees == old(employees) + [employee] && attendance == old(attendance)
      ensures old(Valid()) ==> Valid()
    {
      if Valid() {
        InsertKeepsUnique(employees, employee);
        InsertKeepsReferences(employees, attendance, employee);
      }
      employees := employees + [employee];
    }

    /** `GET /employees`: the department and search filters, capped at 1000. */
    method GetEmployees(department: Option<string>, search: Option<string>, regex: (string, string) -> bool)
      returns (r: seq<Employee>)
      ensures r == ListEmployees(employees, department, search, regex)
      ensures |r| <= EmployeeListCap
      ensures forall e :: e in r ==> e in employees && EmployeeMatches(e, department, search, regex)
    {
      r := ListEmployees(employees, department, search, regex);
    }

    /**
     * `DELETE /employees/{employee_id}`: `delete_one` on the directory, 404 when
     * it removed nothing, otherwise `delete_many` on the ledger.
     */
    method DeleteEmployee(eid: string) returns (r: Result<string, ApiError>)
      modifies this
      ensures !HasEmployeeId(old(employees), eid) ==>
        r == Err(NotFound(EmployeeNotFound)) &&
        employees == old(employees) && attendance == old(attendance)
      ensures HasEmployeeId(old(employees), eid) ==>
        r == Ok(EmployeeDeleted) &&
        employees == DeleteOne(old(employees), eid) &&
        attendance == DeleteRecordsOf(old(attendance), eid)
      ensures old(Valid()) ==> Valid() && employees == Filter(old(employees), NotKey(eid))
    {
      var before := |employees|;
      ghost var wasValid := Valid();
      if wasValid {
        DeleteOneKeepsUnique(employees, eid);
        DeleteKeepsReferences(employees, attendance, eid);
        DeleteOneRemovesExactly(employees, eid);
      }
      employees := DeleteOne(employees, eid);
      if |employees| == before {
        return Err(NotFound(EmployeeNotFound));
      }
      attendance := DeleteRecordsOf(attendance, eid);
      r := Ok(EmployeeDeleted);
    }

    /**
     * `POST /attendance`: 422 when the body is invalid, 404 when no employee
     * has the business key; otherwise a new record is appended, even when the
     * employee already has one for that date.
     */
    method MarkAttendance(body: AttendanceCreate, id: string, markedAt: string) returns (r: Result<AttendanceRecord, ApiError>)
      modifies this
      ensures employees == old(employees)
      ensures ValidateAttendance(body).Err? ==>
        r == Err(Unprocessable(ValidateAttendance(body).error)) && attendance == old(attendance)
      ensures ValidateAttendance(body).Ok? ==>
        var v := ValidateAttendance(body).value;
        (!HasEmployeeId(employees, v.employeeId) ==>
          r == Err(NotFound(EmployeeNotFound)) && attendance == old(attendance)) &&
        (HasEmployeeId(employees, v.employeeId) ==>
          r == Ok(AttendanceRecord(id, v.employeeId, v.date, v.status, markedAt)) &&
          attendance == old(attendance) + [r.value])
      ensures old(Valid()) ==> Valid()
    {
      var valid := ValidateAttendance(body);
      if valid.Err? {
        r := Err(Unprocessable(valid.error));
      } else if !HasEmployeeId(employees, valid.value.employeeId) {
        r := Err(NotFound(EmployeeNotFound));
      } else {
        var v := valid.value;
        var record := AttendanceRecord(id, v.employeeId, v.date, v.status, markedAt);
        AppendRecord(record);
        r := Ok(record);
      }
    }

    /** `insert_one` on the ledger, for a record naming an existing employee. */
    method AppendRecord(record: AttendanceRecord)
      requires HasEmployeeId(employees, record.employeeId)
      modifies this
      ensures attendance == old(attendance) + [record] && employees == old(employees)
      ensures old(Valid()) ==> Valid()
    {
      if Valid() {
        AppendKeepsReferences(employees, attendance, record);
      }
      attendance := attendance + [record];
    }

    /** `GET /attendance`: optionally one employee's records, capped at 5000. */
    method GetAttendance(employeeId: Option<string>) returns (r: seq<AttendanceRecord>)
      ensures r == ListAttendance(attendance, employeeId)
      ensures |r| <= AttendanceListCap
      ensures employeeId.Some? && employeeId.value != [] ==>
        forall k :: 0 <= k < |r| ==> r[k].employeeId == employeeId.value
      ensures employeeId.Some? && employeeId.value != [] &&
              |Filter(attendance, OfEmployee(employeeId.value))| <= AttendanceListCap ==>
                forall x :: x in attendance && x.employeeId == employeeId.value ==> x in r
    {
      r := ListAttendance(attendance, employeeId);
    }

    /** `GET /dashboard` for the given UTC date. */
    method GetDashboard(today: string) returns (d: DashboardCounts)
      ensures d == Summarize(employees, attendance, today)
      ensures d.totalEmployees == |employees| && d.unmarkedToday >= 0
      ensures d.presentToday + d.absentToday <= TodayCap
    {
      d := Summarize(employees, attendance, today);
    }
  }

  /** A new store with one employee, created from a body that needs no cleaning. */
  method StoreWithOneEmployee(body: EmployeeCreate) returns (store: Hrms)
    requires Clean(body.employeeId) && Clean(body.fullName) && Clean(body.department)
    requires ValidateEmail(body.email) == Ok(body.email)
    ensures fresh(store)
    ensures store.employees == [Employee("u1", body.employeeId, body.fullName, body.email, body.department, "t0")]
    ensures store.attendance == []
  {
    CleanEmployeeAccepted(body);
    store := new Hrms();
    var created := store.CreateEmployee(body, "u1", "t0");
  }

  /** Marks `eid` Present and then Absent for `day`. */
  method MarkTwice(store: Hrms, eid: string, day: string)
    requires Clean(eid) && Clean(day) && HasEmployeeId(store.employees, eid)
    modifies store
    ensures store.employees == old(store.employees)
    ensures store.attendance == old(store.attendance) +
      [AttendanceRecord("a1", eid, day, Present, "t1"), AttendanceRecord("a2", eid, day, Absent, "t2")]
  {
    CleanAttendanceAccepted(AttendanceCreate(eid, day, Present));
    CleanAttendanceAccepted(AttendanceCreate(eid, day, Absent));
    var first := store.MarkAttendance(AttendanceCreate(eid, day, Present), "a1", "t1");
    var second := store.MarkAttendance(AttendanceCreate(eid, day, Absent), "a2", "t2");
  }

  /**
   * On a new store, an employee is created and then marked Present and Absent
   * for the same day: the ledger keeps both marks and the dashboard counts
   * both, leaving no one unmarked.
   */
  method RepeatedMarkScenario(body: EmployeeCreate, day: string) returns (records: int, d: DashboardCounts)
    requires Clean(body.employeeId) && Clean(body.fullName) && Clean(body.department)
    requires ValidateEmail(body.email) == Ok(body.email)
    requires Clean(day)
    ensures records == 2
    ensures d == DashboardCounts(1, 1, 1, 0)
  {
    var store := StoreWithOneEmployee(body);
    var eid := body.employeeId;
    assert HasEmployeeId(store.employees, eid) by {
      assert store.employees[0].employeeId == eid;
    }
    MarkTwice(store, eid, day);
    records := |store.attendance|;
    TwoMarksSameDay(store.employees, store.attendance[0], store.attendance[1], day);
    assert store.attendance == [store.attendance[0], store.attendance[1]];
    d := store.GetDashboard(day);
  }
}
