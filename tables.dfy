/** The two tables of the database (server.js:31-57) as values, the
    request body of `POST /log-hours`, the handlers' responses, and the
    lookups the handlers run against the tables. */
module Tables {
  import opened Wrappers
  import opened TimeArithmetic

  /** A row of `employees`. The five default weekly-hour columns are
      never read by the handlers and are not part of this model. */
  datatype Employee = Employee(id: nat, name: string)

  /** A row of `work_hours`. `breakTime` is the raw submitted break text
      (NULL when absent), `netHours` the computed value (`None` is NaN). */
  datatype WorkEntry = WorkEntry(
    id: nat,
    employeeId: nat,
    date: string,
    startTime: string,
    endTime: string,
    breakTime: Option<string>,
    netHours: Option<real>,
    comment: Option<string>)

  /** The JSON body of `POST /log-hours`; `None` is an absent field. */
  datatype LogRequest = LogRequest(
    employeeName: Option<string>,
    date: Option<string>,
    startTime: Option<string>,
    endTime: Option<string>,
    breakTime: Option<string>,
    comment: Option<string>)

  /** The outcome of a handler: its HTTP status code and JSON message. */
  datatype Status = HoursLogged | AdminLoggedIn | MissingFields | EmployeeNotFound | WrongPassword
  {
    function Code(): nat
    {
      match this
      case HoursLogged => 200
      case AdminLoggedIn => 200
      case MissingFields => 400
      case EmployeeNotFound => 400
      case WrongPassword => 401
    }

    function Message(): string
    {
      match this
      case HoursLogged => "Arbeitszeit erfolgreich erfasst."
      case AdminLoggedIn => "Admin angemeldet."
      case MissingFields => "Fehlende erforderliche Felder."
      case EmployeeNotFound => "Mitarbeiter nicht gefunden."
      case WrongPassword => "Falsches Passwort."
    }
  }

  /** A text field passes the `!field` test when it is present and not
      the empty string. */
  predicate Truthy(field: Option<string>)
  {
    field.Some? && field.value != ""
  }

  /** The four required fields of a log-hours request are all truthy. */
  predicate HasRequiredFields(req: LogRequest)
  {
    Truthy(req.employeeName) && Truthy(req.date) && Truthy(req.startTime) && Truthy(req.endTime)
  }

  ghost predicate UniqueNames(employees: seq<Employee>)
  {
    forall i, j :: 0 <= i < j < |employees| ==> employees[i].name != employees[j].name
  }

  ghost predicate UniqueIds(employees: seq<Employee>)
  {
    forall i, j :: 0 <= i < j < |employees| ==> employees[i].id != employees[j].id
  }

  ghost predicate HasEmployee(employees: seq<Employee>, id: nat)
  {
    exists k :: 0 <= k < |employees| && employees[k].id == id
  }

  /** The constraints the schema puts on the tables: the employee id is the
      primary key and the name is UNIQUE; every work entry references an
      existing employee; work-entry ids come from a SERIAL sequence, so
      they increase in insertion order and stay below the next value. */
  ghost predicate TablesValid(employees: seq<Employee>, entries: seq<WorkEntry>, nextEntryId: nat)
  {
    && UniqueIds(employees)
    && UniqueNames(employees)
    && (forall i :: 0 <= i < |entries| ==> HasEmployee(employees, entries[i].employeeId))
    && (forall i :: 0 <= i < |entries| ==> entries[i].id < nextEntryId)
    && (forall i, j :: 0 <= i < j < |entries| ==> entries[i].id < entries[j].id)
  }

  /** `SELECT id FROM employees WHERE name = $1`, first row: the id of an
      employee with exactly that name, or `None` when there is none. */
  function FindEmployee(employees: seq<Employee>, name: string): (r: Option<nat>)
    ensures r.None? <==> forall k :: 0 <= k < |employees| ==> employees[k].name != name
    ensures r.Some? ==> exists k :: 0 <= k < |employees| && employees[k].name == name && employees[k].id == r.value
  {
    if employees == [] then None
    else if employees[0].name == name then Some(employees[0].id)
    else
      var r := FindEmployee(employees[1..], name);
      assert forall k :: 1 <= k < |employees| ==> employees[k] == employees[1..][k - 1];
      r
  }

  /** With unique names the lookup returns THE employee of that name. */
  lemma FindEmployeeUnique(employees: seq<Employee>, name: string, k: nat)
    requires UniqueNames(employees)
    requires k < |employees| && employees[k].name == name
    ensures FindEmployee(employees, name) == Some(employees[k].id)
  {
    var r := FindEmployee(employees, name);
    var k' :| 0 <= k' < |employees| && employees[k'].name == name && employees[k'].id == r.value;
    assert k' == k;
  }

  /** The join key `wh.employee_id = e.id`: the name of the employee with
      that id, or `None` when no employee has it. */
  function NameOf(employees: seq<Employee>, id: nat): (r: Option<string>)
    ensures r.None? <==> !HasEmployee(employees, id)
    ensures r.Some? ==> exists k :: 0 <= k < |employees| && employees[k].id == id && employees[k].name == r.value
  {
    if employees == [] then None
    else if employees[0].id == id then Some(employees[0].name)
    else
      var r := NameOf(employees[1..], id);
      assert forall k :: 1 <= k < |employees| ==> employees[k] == employees[1..][k - 1];
      r
  }

  /** With unique ids the join finds THE employee with that id. */
  lemma NameOfUnique(employees: seq<Employee>, k: nat)
    requires UniqueIds(employees)
    requires k < |employees|
    ensures NameOf(employees, employees[k].id) == Some(employees[k].name)
  {
    var id := employees[k].id;
    var r := NameOf(employees, id);
    var k' :| 0 <= k' < |employees| && employees[k'].id == id && employees[k'].name == r.value;
    assert k' == k;
  }

  /** The row `INSERT INTO work_hours` writes for a log-hours request:
      the submitted date, times, raw break and comment, the employee id
      and the net hours computed from the times and the break. */
  function NewEntry(id: nat, employeeId: nat, req: LogRequest): WorkEntry
    requires HasRequiredFields(req)
  {
    WorkEntry(id, employeeId, req.date.value, req.startTime.value, req.endTime.value,
              req.breakTime, NetHours(req.startTime.value, req.endTime.value, req.breakTime),
              req.comment)
  }

  /** Appending a fresh entry for an existing employee keeps the tables
      consistent. */
  lemma AppendKeepsTablesValid(employees: seq<Employee>, entries: seq<WorkEntry>, nextEntryId: nat, k: nat, req: LogRequest)
    requires TablesValid(employees, entries, nextEntryId)
    requires k < |employees| && HasRequiredFields(req)
    ensures TablesValid(employees, entries + [NewEntry(nextEntryId, employees[k].id, req)], nextEntryId + 1)
  {
    var e := NewEntry(nextEntryId, employees[k].id, req);
    var entries' := entries + [e];
    assert HasEmployee(employees, e.employeeId);
    forall i | 0 <= i < |entries'|
      ensures HasEmployee(employees, entries'[i].employeeId)
    {
      if i < |entries| { assert entries'[i] == entries[i]; }
    }
  }
}
