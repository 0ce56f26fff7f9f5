/**
 * `GET /dashboard`: today's Present and Absent counts and a saturating count
 * of the employees left unmarked, recomputed from the two collections.
 */
module Dashboard {
  import opened Records
  import opened Validation
  import opened Seqs
  import opened Tables

  /** `find({"date": today}).to_list(5000)` */
  const TodayCap := 5000

  datatype DashboardCounts = DashboardCounts(
    totalEmployees: int,
    presentToday: int,
    absentToday: int,
    unmarkedToday: int)

  function OnDate(today: string): AttendanceRecord -> bool {
    (r: AttendanceRecord) => r.date == today
  }

  /** The records the dashboard reads: those dated `today`, at most 5000, in store order. */
  function TodayRecords(att: seq<AttendanceRecord>, today: string): (r: seq<AttendanceRecord>)
    ensures |r| <= TodayCap
    ensures forall k :: 0 <= k < |r| ==> r[k].date == today && r[k] in att
    ensures |Filter(att, OnDate(today))| <= TodayCap ==>
      forall x :: x in att && x.date == today ==> x in r
  {
    FilterMembers(att, OnDate(today));
    Take(Filter(att, OnDate(today)), TodayCap)
  }

  /** `sum(1 for r in recs if r.get("status") == status)` */
  function CountStatus(recs: seq<AttendanceRecord>, status: string): (n: nat)
    ensures n <= |recs|
  {
    if recs == [] then 0
    else (if recs[0].status == status then 1 else 0) + CountStatus(recs[1..], status)
  }

  /** A record is counted under at most one status, so the two counts share the records. */
  lemma {:induction false} PresentAbsentBound(recs: seq<AttendanceRecord>)
    ensures CountStatus(recs, Present) + CountStatus(recs, Absent) <= |recs|
  {
    if recs != [] {
      PresentAbsentBound(recs[1..]);
    }
  }

  function Max(a: int, b: int): int {
    if a >= b then a else b
  }

  /** The four fields of the dashboard answer. */
  function Summarize(emps: seq<Employee>, att: seq<AttendanceRecord>, today: string): (d: DashboardCounts)
    ensures d.totalEmployees == |emps|
    ensures 0 <= d.presentToday && 0 <= d.absentToday
    ensures d.presentToday + d.absentToday <= |TodayRecords(att, today)| <= TodayCap
    ensures d.unmarkedToday >= 0
    ensures d.presentToday + d.absentToday <= d.totalEmployees ==>
      d.presentToday + d.absentToday + d.unmarkedToday == d.totalEmployees
    ensures d.presentToday + d.absentToday >= d.totalEmployees ==> d.unmarkedToday == 0
  {
    var records := TodayRecords(att, today);
    var present := CountStatus(records, Present);
    var absent := CountStatus(records, Absent);
    PresentAbsentBound(records);
    DashboardCounts(|emps|, present, absent, Max(|emps| - present - absent, 0))
  }

  /** No two of `recs` belong to the same employee. */
  ghost predicate OneRecordPerEmployee(recs: seq<AttendanceRecord>) {
    forall i, j :: 0 <= i < j < |recs| ==> recs[i].employeeId != recs[j].employeeId
  }

  /** Records of distinct employees, all in the directory, are no more than the directory. */
  lemma {:induction false} DistinctRecordsBound(recs: seq<AttendanceRecord>, emps: seq<Employee>)
    requires OneRecordPerEmployee(recs)
    requires forall k :: 0 <= k < |recs| ==> HasEmployeeId(emps, recs[k].employeeId)
    ensures |recs| <= |emps|
  {
    if recs != [] {
      var last := recs[|recs| - 1];
      var m :| 0 <= m < |emps| && emps[m].employeeId == last.employeeId;
      var rest := emps[..m] + emps[m + 1..];
      var front := recs[..|recs| - 1];
      forall k | 0 <= k < |front|
        ensures HasEmployeeId(rest, front[k].employeeId)
      {
        var i :| 0 <= i < |emps| && emps[i].employeeId == front[k].employeeId;
        assert front[k] == recs[k];
        if i < m {
          assert rest[i] == emps[i];
        } else {
          assert rest[i - 1] == emps[i];
        }
      }
      DistinctRecordsBound(front, rest);
    }
  }

  /**
   * When the ledger holds at most one record per employee for `today` and every
   * record names an employee of the directory, the saturation never applies:
   * the unmarked count is exactly the employees without a record.
   */
  lemma UnmarkedExact(emps: seq<Employee>, att: seq<AttendanceRecord>, today: string)
    requires Referenced(emps, att)
    requires OneRecordPerEmployee(Filter(att, OnDate(today)))
    ensures var d := Summarize(emps, att, today);
      d.presentToday + d.absentToday <= d.totalEmployees &&
      d.unmarkedToday == d.totalEmployees - d.presentToday - d.absentToday
  {
    var records := TodayRecords(att, today);
    forall k | 0 <= k < |records|
      ensures HasEmployeeId(emps, records[k].employeeId)
    {
      var m :| 0 <= m < |att| && att[m] == records[k];
    }
    DistinctRecordsBound(records, emps);
    PresentAbsentBound(records);
  }

  /** Counting over an appended record adds one exactly when its status is the one counted. */
  lemma {:induction false} CountStatusAppend(recs: seq<AttendanceRecord>, rec: AttendanceRecord, status: string)
    ensures CountStatus(recs + [rec], status) == CountStatus(recs, status) + (if rec.status == status then 1 else 0)
  {
    if recs == [] {
      assert recs + [rec] == [rec];
    } else {
      assert (recs + [rec])[1..] == recs[1..] + [rec];
      CountStatusAppend(recs[1..], rec, status);
    }
  }

  /**
   * Marking adds a record rather than replacing one: a second mark for the same
   * employee and day is counted again (while today's records are under the cap).
   */
  lemma MarkIsCountedAgain(emps: seq<Employee>, att: seq<AttendanceRecord>, rec: AttendanceRecord, today: string)
    requires rec.date == today
    requires |Filter(att, OnDate(today))| < TodayCap
    ensures var before := Summarize(emps, att, today);
      var after := Summarize(emps, att + [rec], today);
      after.presentToday == before.presentToday + (if rec.status == Present then 1 else 0) &&
      after.absentToday == before.absentToday + (if rec.status == Absent then 1 else 0)
  {
    var p := OnDate(today);
    FilterAppend(att, [rec], p);
    assert Filter([rec], p) == [rec] by {
      assert [rec][1..] == [];
    }
    assert TodayRecords(att + [rec], today) == TodayRecords(att, today) + [rec];
    CountStatusAppend(TodayRecords(att, today), rec, Present);
    CountStatusAppend(TodayRecords(att, today), rec, Absent);
  }

  /** One employee, marked Present and then Absent today: both marks are counted. */
  lemma TwoMarksSameDay(emps: seq<Employee>, first: AttendanceRecord, second: AttendanceRecord, today: string)
    requires |emps| == 1
    requires first.date == today && first.status == Present
    requires second.date == today && second.status == Absent
    ensures Summarize(emps, [first, second], today) == DashboardCounts(1, 1, 1, 0)
  {
    MarkIsCountedAgain(emps, [], first, today);
    assert [] + [first] == [first];
    MarkIsCountedAgain(emps, [first], second, today);
    assert [first] + [second] == [first, second];
  }
}
