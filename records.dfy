/**
 * The request and storage models (`EmployeeCreate`, `Employee`,
 * `AttendanceCreate`, `AttendanceRecord`) and the HTTP errors the handlers raise.
 */
module Records {
  import opened Results
  import opened Validation

  /** A stored employee document. */
  datatype Employee = Employee(
    id: string,
    employeeId: string,
    fullName: string,
    email: string,
    department: string,
    createdAt: string)

  /** A stored attendance document. */
  datatype AttendanceRecord = AttendanceRecord(
    id: string,
    employeeId: string,
    date: string,
    status: string,
    markedAt: string)

  /** The body of `POST /employees`, before or after validation. */
  datatype EmployeeCreate = EmployeeCreate(
    employeeId: string,
    fullName: string,
    email: string,
    department: string)

  /** The body of `POST /attendance`, before or after validation. */
  datatype AttendanceCreate = AttendanceCreate(
    employeeId: string,
    date: string,
    status: string)

  /** The request fields a validator can reject. */
  datatype Field = EmployeeIdField | FullNameField | EmailField | DepartmentField | DateField | StatusField

  /** The errors the endpoints answer with. */
  datatype ApiError =
    | Unprocessable(fields: set<Field>)   // request validation failed
    | Conflict(detail: string)
    | NotFound(detail: string)

  /** The HTTP status each error answers with: 422 for validation, 409 for a duplicate key, 404 for a missing employee. */
  function StatusCode(e: ApiError): (code: int)
    ensures code == 422 <==> e.Unprocessable?
    ensures code == 409 <==> e.Conflict?
    ensures code == 404 <==> e.NotFound?
  {
    match e
    case Unprocessable(_) => 422
    case Conflict(_) => 409
    case NotFound(_) => 404
  }

  /** The fields reported in a 422 answer, given which validators failed. */
  function Rejected(id: bool, name: bool, email: bool, dept: bool, date: bool, status: bool): (fs: set<Field>)
    ensures EmployeeIdField in fs <==> id
    ensures FullNameField in fs <==> name
    ensures EmailField in fs <==> email
    ensures DepartmentField in fs <==> dept
    ensures DateField in fs <==> date
    ensures StatusField in fs <==> status
    ensures fs == {} <==> !(id || name || email || dept || date || status)
  {
    (if id then {EmployeeIdField} else {}) + (if name then {FullNameField} else {}) +
    (if email then {EmailField} else {}) + (if dept then {DepartmentField} else {}) +
    (if date then {DateField} else {}) + (if status then {StatusField} else {})
  }

  /**
   * Validation of an `EmployeeCreate` body: `not_empty` on the id, the name and
   * the department, `validate_email` on the email. Every failing field is
   * reported.
   */
  function ValidateEmployee(body: EmployeeCreate): (r: Result<EmployeeCreate, set<Field>>)
    ensures r.Ok? <==>
      NotEmpty(body.employeeId).Ok? && NotEmpty(body.fullName).Ok? &&
      ValidateEmail(body.email).Ok? && NotEmpty(body.department).Ok?
    ensures r.Ok? ==> (
      r.value.employeeId == Strip(body.employeeId) && r.value.employeeId != [] &&
      r.value.fullName == Strip(body.fullName) && r.value.fullName != [] &&
      r.value.department == Strip(body.department) && r.value.department != [] &&
      EmailShape(r.value.email) &&
      (body.email == r.value.email || body.email == r.value.email + "\n"))
    ensures r.Err? ==> (r.error != {} &&
      (EmployeeIdField in r.error <==> NotEmpty(body.employeeId).Err?) &&
      (FullNameField in r.error <==> NotEmpty(body.fullName).Err?) &&
      (EmailField in r.error <==> ValidateEmail(body.email).Err?) &&
      (DepartmentField in r.error <==> NotEmpty(body.department).Err?) &&
      DateField !in r.error && StatusField !in r.error)
  {
    var id := NotEmpty(body.employeeId);
    var name := NotEmpty(body.fullName);
    var email := ValidateEmail(body.email);
    var dept := NotEmpty(body.department);
    if id.Ok? && name.Ok? && email.Ok? && dept.Ok? then
      Ok(EmployeeCreate(id.value, name.value, email.value, dept.value))
    else
      Err(Rejected(id.Err?, name.Err?, email.Err?, dept.Err?, false, false))
  }

  /**
   * Validation of an `AttendanceCreate` body: `not_empty` on the three fields,
   * then `validate_status` on the stripped status.
   */
  function ValidateAttendance(body: AttendanceCreate): (r: Result<AttendanceCreate, set<Field>>)
    ensures r.Ok? <==>
      NotEmpty(body.employeeId).Ok? && NotEmpty(body.date).Ok? &&
      Strip(body.status) in {Present, Absent}
    ensures r.Ok? ==> (
      r.value.employeeId == Strip(body.employeeId) && r.value.employeeId != [] &&
      r.value.date == Strip(body.date) && r.value.date != [] &&
      r.value.status in {Present, Absent} && r.value.status == Strip(body.status))
    ensures r.Err? ==> (r.error != {} &&
      (EmployeeIdField in r.error <==> NotEmpty(body.employeeId).Err?) &&
      (DateField in r.error <==> NotEmpty(body.date).Err?) &&
      (StatusField in r.error <==> Strip(body.status) !in {Present, Absent}) &&
      FullNameField !in r.error && EmailField !in r.error && DepartmentField !in r.error)
  {
    var id := NotEmpty(body.employeeId);
    var date := NotEmpty(body.date);
    var status := ValidateStatusField(body.status);
    if id.Ok? && date.Ok? && status.Ok? then
      Ok(AttendanceCreate(id.value, date.value, status.value))
    else
      Err(Rejected(id.Err?, false, false, false, date.Err?, status.Err?))
  }

  /** A body whose fields are already clean passes validation unchanged. */
  lemma CleanEmployeeAccepted(body: EmployeeCreate)
    requires Clean(body.employeeId) && Clean(body.fullName) && Clean(body.department)
    requires ValidateEmail(body.email) == Ok(body.email)
    ensures ValidateEmployee(body) == Ok(body)
  {
    NotEmptyKeeps(body.employeeId);
    NotEmptyKeeps(body.fullName);
    NotEmptyKeeps(body.department);
  }

  /** A body with clean fields and an exact status word passes validation unchanged. */
  lemma CleanAttendanceAccepted(body: AttendanceCreate)
    requires Clean(body.employeeId) && Clean(body.date) && body.status in {Present, Absent}
    ensures ValidateAttendance(body) == Ok(body)
  {
    NotEmptyKeeps(body.employeeId);
    NotEmptyKeeps(body.date);
    NotEmptyKeeps(body.status);
    assert ValidateStatusField(body.status) == Ok(body.status);
  }
}
