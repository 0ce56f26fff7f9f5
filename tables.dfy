/**
 * The two collections, `employees` and `attendance`, as sequences of documents
 * in their natural (insertion) order, with the queries the handlers run on
 * them and the invariants the write operations keep.
 */
module Tables {
  import opened Results
  import opened Records
  import opened Seqs

  const EmployeeListCap := 1000
  const AttendanceListCap := 5000

  /** `find_one({"employee_id": eid})` finds a document. */
  predicate HasEmployeeId(emps: seq<Employee>, eid: string) {
    exists i :: 0 <= i < |emps| && emps[i].employeeId == eid
  }

  /** `find_one({"email": email})` finds a document. */
  predicate HasEmail(emps: seq<Employee>, email: string) {
    exists i :: 0 <= i < |emps| && emps[i].email == email
  }

  ghost predicate UniqueEmployeeIds(emps: seq<Employee>) {
    forall i, j :: 0 <= i < j < |emps| ==> emps[i].employeeId != emps[j].employeeId
  }

  ghost predicate UniqueEmails(emps: seq<Employee>) {
    forall i, j :: 0 <= i < j < |emps| ==> emps[i].email != emps[j].email
  }

  /** Every attendance record names an employee of the directory. */
  ghost predicate Referenced(emps: seq<Employee>, att: seq<AttendanceRecord>) {
    forall k :: 0 <= k < |att| ==> HasEmployeeId(emps, att[k].employeeId)
  }

  /** What the create, delete and mark operations keep true of the store. */
  ghost predicate Consistent(emps: seq<Employee>, att: seq<AttendanceRecord>) {
    UniqueEmployeeIds(emps) && UniqueEmails(emps) && Referenced(emps, att)
  }

  // ---------------------------------------------------------------------------
  // Writes

  /** Position of the first employee with business key `eid`, or `|emps|`. */
  function FirstIndexOf(emps: seq<Employee>, eid: string): (i: nat)
    ensures i <= |emps|
    ensures i < |emps| ==> emps[i].employeeId == eid
    ensures forall k :: 0 <= k < i ==> emps[k].employeeId != eid
    ensures i == |emps| <==> !HasEmployeeId(emps, eid)
  {
    if emps == [] then 0
    else if emps[0].employeeId == eid then 0
    else
      var i := 1 + FirstIndexOf(emps[1..], eid);
      assert HasEmployeeId(emps, eid) ==> HasEmployeeId(emps[1..], eid) by {
        if HasEmployeeId(emps, eid) {
          var k :| 0 <= k < |emps| && emps[k].employeeId == eid;
          assert emps[1..][k - 1].employeeId == eid;
        }
      }
      i
  }

  /** `delete_one({"employee_id": eid})`: the first matching document goes. */
  function DeleteOne(emps: seq<Employee>, eid: string): (r: seq<Employee>)
    ensures HasEmployeeId(emps, eid) ==>
      var i := FirstIndexOf(emps, eid);
      |r| == |emps| - 1 && r == emps[..i] + emps[i + 1..] && emps[i].employeeId == eid
    ensures !HasEmployeeId(emps, eid) ==> r == emps
  {
    var i := FirstIndexOf(emps, eid);
    if i == |emps| then emps else emps[..i] + emps[i + 1..]
  }

  /** The predicate of `delete_many({"employee_id": eid})`'s survivors. */
  function NotOf(eid: string): AttendanceRecord -> bool {
    (r: AttendanceRecord) => r.employeeId != eid
  }

  /** `delete_many({"employee_id": eid})`: every record of `eid` goes, the rest stay in order. */
  function DeleteRecordsOf(att: seq<AttendanceRecord>, eid: string): (r: seq<AttendanceRecord>)
    ensures forall k :: 0 <= k < |r| ==> r[k].employeeId != eid
    ensures forall x: AttendanceRecord :: x.employeeId != eid ==> multiset(r)[x] == multiset(att)[x]
  {
    FilterCounts(att, NotOf(eid));
    Filter(att, NotOf(eid))
  }

  /** The employees `delete_one` would leave if it removed every match. */
  function NotKey(eid: string): Employee -> bool {
    (e: Employee) => e.employeeId != eid
  }

  /** With unique business keys, `delete_one` removes exactly the employees with that key. */
  lemma DeleteOneRemovesExactly(emps: seq<Employee>, eid: string)
    requires UniqueEmployeeIds(emps)
    ensures DeleteOne(emps, eid) == Filter(emps, NotKey(eid))
  {
    var p := NotKey(eid);
    var i := FirstIndexOf(emps, eid);
    if i == |emps| {
      FilterAll(emps, p);
    } else {
      var tail := emps[i + 1..];
      forall k | 0 <= k < |tail|
        ensures p(tail[k])
      {
        assert tail[k] == emps[i + 1 + k];
      }
      assert emps == emps[..i] + [emps[i]] + tail;
      FilterDropsOne(emps[..i], emps[i], tail, p);
    }
  }

  /** Appending a document with fresh keys keeps both keys unique. */
  lemma InsertKeepsUnique(emps: seq<Employee>, e: Employee)
    requires UniqueEmployeeIds(emps) && UniqueEmails(emps)
    requires !HasEmployeeId(emps, e.employeeId) && !HasEmail(emps, e.email)
    ensures UniqueEmployeeIds(emps + [e]) && UniqueEmails(emps + [e])
  {
    var s := emps + [e];
    forall i, j | 0 <= i < j < |s|
      ensures s[i].employeeId != s[j].employeeId && s[i].email != s[j].email
    {
      if j == |emps| {
        assert s[i] == emps[i];
      }
    }
  }

  /** Removing one document keeps both keys unique. */
  lemma DeleteOneKeepsUnique(emps: seq<Employee>, eid: string)
    requires UniqueEmployeeIds(emps) && UniqueEmails(emps)
    ensures UniqueEmployeeIds(DeleteOne(emps, eid)) && UniqueEmails(DeleteOne(emps, eid))
  {
    if HasEmployeeId(emps, eid) {
      var n := FirstIndexOf(emps, eid);
      var r := DeleteOne(emps, eid);
      assert forall k :: 0 <= k < |r| ==> r[k] == emps[if k < n then k else k + 1];
    }
  }

  /** A new employee leaves every existing record's reference intact. */
  lemma InsertKeepsReferences(emps: seq<Employee>, att: seq<AttendanceRecord>, e: Employee)
    requires Referenced(emps, att)
    ensures Referenced(emps + [e], att)
  {
    forall k | 0 <= k < |att|
      ensures HasEmployeeId(emps + [e], att[k].employeeId)
    {
      assert HasEmployeeId(emps, att[k].employeeId);
      var i :| 0 <= i < |emps| && emps[i].employeeId == att[k].employeeId;
      assert (emps + [e])[i] == emps[i];
    }
  }

  /** Deleting an employee together with its records leaves no dangling reference. */
  lemma DeleteKeepsReferences(emps: seq<Employee>, att: seq<AttendanceRecord>, eid: string)
    requires Referenced(emps, att)
    ensures Referenced(DeleteOne(emps, eid), DeleteRecordsOf(att, eid))
  {
    var r := DeleteOne(emps, eid);
    var kept := DeleteRecordsOf(att, eid);
    forall k | 0 <= k < |kept|
      ensures HasEmployeeId(r, kept[k].employeeId)
    {
      var x := kept[k];
      assert x in att;
      var m :| 0 <= m < |att| && att[m] == x;
      var i :| 0 <= i < |emps| && emps[i].employeeId == x.employeeId;
      if HasEmployeeId(emps, eid) {
        var n := FirstIndexOf(emps, eid);
        assert i != n;
        if i < n {
          assert r[i] == emps[i];
        } else {
          assert r[i - 1] == emps[i];
        }
      }
    }
  }

  /** A record for an existing employee keeps the ledger's references intact. */
  lemma AppendKeepsReferences(emps: seq<Employee>, att: seq<AttendanceRecord>, rec: AttendanceRecord)
    requires Referenced(emps, att) && HasEmployeeId(emps, rec.employeeId)
    ensures Referenced(emps, att + [rec])
  {
    forall k | 0 <= k < |att| + 1
      ensures HasEmployeeId(emps, (att + [rec])[k].employeeId)
    {
      if k < |att| {
        assert (att + [rec])[k] == att[k];
      }
    }
  }

  // ---------------------------------------------------------------------------
  // Reads

  /** Python's `str.lower()` on one ASCII character. */
  function LowerChar(c: char): char {
    if 'A' <= c <= 'Z' then (c as int + 32) as char else c
  }

  /** Python's `str.lower()` on the ASCII letters. */
  function LowerAscii(s: string): (r: string)
    ensures |r| == |s|
    ensures forall k :: 0 <= k < |s| ==> r[k] == LowerChar(s[k])
  {
    if s == [] then [] else [LowerChar(s[0])] + LowerAscii(s[1..])
  }

  /** `if department and department.lower() != "all"`: the department filter applies. */
  predicate DepartmentFilterOn(department: Option<string>) {
    department.Some? && department.value != [] && LowerAscii(department.value) != "all"
  }

  /** `if search`: the search filter applies. */
  predicate SearchOn(search: Option<string>) {
    search.Some? && search.value != []
  }

  /**
   * The query of `get_employees`. `regex(pattern, text)` stands for the store's
   * case-insensitive regular-expression match, which is not modelled.
   */
  predicate EmployeeMatches(e: Employee, department: Option<string>, search: Option<string>,
                            regex: (string, string) -> bool)
  {
    (DepartmentFilterOn(department) ==> e.department == department.value) &&
    (SearchOn(search) ==>
      regex(search.value, e.fullName) || regex(search.value, e.email) || regex(search.value, e.employeeId))
  }

  /** The query of `get_employees` as a filter. */
  function EmployeeQuery(department: Option<string>, search: Option<string>,
                         regex: (string, string) -> bool): Employee -> bool
  {
    (e: Employee) => EmployeeMatches(e, department, search, regex)
  }

  /** `GET /employees`: the matching employees, at most 1000, in store order. */
  function ListEmployees(emps: seq<Employee>, department: Option<string>, search: Option<string>,
                         regex: (string, string) -> bool): (r: seq<Employee>)
    ensures |r| <= EmployeeListCap
    ensures forall e :: e in r ==> e in emps && EmployeeMatches(e, department, search, regex)
  {
    var p := EmployeeQuery(department, search, regex);
    FilterMembers(emps, p);
    Take(Filter(emps, p), EmployeeListCap)
  }

  /** `department.lower() == "all"` holds for exactly the eight spellings of "all". */
  lemma AllSentinel(d: string)
    ensures LowerAscii(d) == "all" <==>
      |d| == 3 && (d[0] == 'a' || d[0] == 'A') && (d[1] == 'l' || d[1] == 'L') && (d[2] == 'l' || d[2] == 'L')
  {
    var low := LowerAscii(d);
    if |d| == 3 {
      LowerCharIs(d[0], 'a');
      LowerCharIs(d[1], 'l');
      LowerCharIs(d[2], 'l');
      assert low == "all" <==> low[0] == 'a' && low[1] == 'l' && low[2] == 'l';
    }
  }

  /** Only the letter itself and its upper-case form lower to a lower-case ASCII letter. */
  lemma LowerCharIs(c: char, lc: char)
    requires 'a' <= lc <= 'z'
    ensures LowerChar(c) == lc <==> c == lc || c as int == lc as int - 32
  {
  }

  /**
   * When at most 1000 employees match, however large the directory, every
   * matching employee is listed.
   */
  lemma ListEmployeesComplete(emps: seq<Employee>, department: Option<string>, search: Option<string>,
                              regex: (string, string) -> bool)
    requires |Filter(emps, EmployeeQuery(department, search, regex))| <= EmployeeListCap
    ensures forall e :: e in emps && EmployeeMatches(e, department, search, regex) ==>
      e in ListEmployees(emps, department, search, regex)
  {
    FilterMembers(emps, EmployeeQuery(department, search, regex));
  }

  /**
   * With no department filter (absent, empty or any casing of "all") and no
   * search, a directory of at most 1000 employees is listed whole, in order.
   */
  lemma ListEmployeesUnfiltered(emps: seq<Employee>, department: Option<string>, search: Option<string>,
                                regex: (string, string) -> bool)
    requires |emps| <= EmployeeListCap
    requires !DepartmentFilterOn(department) && !SearchOn(search)
    ensures ListEmployees(emps, department, search, regex) == emps
  {
    FilterAll(emps, EmployeeQuery(department, search, regex));
  }

  /** The records of one employee, the query of `get_attendance` with an `employee_id`. */
  function OfEmployee(eid: string): AttendanceRecord -> bool {
    (x: AttendanceRecord) => x.employeeId == eid
  }

  /** `GET /attendance`: one employee's records when `employee_id` is given and non-empty. */
  function ListAttendance(att: seq<AttendanceRecord>, employeeId: Option<string>): (r: seq<AttendanceRecord>)
    ensures |r| <= AttendanceListCap
    ensures forall x :: x in r ==> x in att
    ensures employeeId.Some? && employeeId.value != [] ==>
      forall k :: 0 <= k < |r| ==> r[k].employeeId == employeeId.value
    ensures employeeId.Some? && employeeId.value != [] &&
            |Filter(att, OfEmployee(employeeId.value))| <= AttendanceListCap ==>
              forall x :: x in att && x.employeeId == employeeId.value ==> x in r
    ensures (employeeId.None? || employeeId.value == []) ==> r == Take(att, AttendanceListCap)
  {
    if employeeId.Some? && employeeId.value != [] then
      var p := OfEmployee(employeeId.value);
      FilterMembers(att, p);
      Take(Filter(att, p), AttendanceListCap)
    else
      Take(att, AttendanceListCap)
  }

  /** After the cascade, listing the deleted employee's attendance gives nothing. */
  lemma DeletedEmployeeHasNoAttendance(att: seq<AttendanceRecord>, eid: string)
    requires eid != []
    ensures ListAttendance(DeleteRecordsOf(att, eid), Some(eid)) == []
  {
    var kept := DeleteRecordsOf(att, eid);
    var p := OfEmployee(eid);
    FilterMembers(kept, p);
    assert Filter(kept, p) == [] by {
      if Filter(kept, p) != [] {
        assert Filter(kept, p)[0] in Filter(kept, p);
      }
    }
  }

  /** A newly created employee is listed by an unfiltered `GET /employees` below the cap. */
  lemma CreatedEmployeeListed(emps: seq<Employee>, e: Employee, regex: (string, string) -> bool)
    requires |emps| < EmployeeListCap
    ensures ListEmployees(emps + [e], None, None, regex) == emps + [e]
  {
    ListEmployeesUnfiltered(emps + [e], None, None, regex);
  }
}
