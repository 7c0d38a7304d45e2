/** The request handlers of the service (server.js:67-136) over in-memory
    tables and one session's `isAdmin` flag. */
module Server {
  import opened Wrappers
  import opened TimeArithmetic
  import opened Tables
  import opened Listing

  class WorkHoursServer {
    var employees: seq<Employee>
    var entries: seq<WorkEntry>
    /** The next value of the SERIAL sequence behind `work_hours.id`. */
    var nextEntryId: nat
    /** `req.session.isAdmin`: false is the anonymous session. */
    var isAdmin: bool
    /** `process.env.ADMIN_PASSWORD`; `None` when the variable is unset. */
    const adminPassword: Option<string>

    ghost predicate Valid()
      reads this
    {
      TablesValid(employees, entries, nextEntryId)
    }

    /** A fresh session over existing tables: it starts anonymous. */
    constructor (employees0: seq<Employee>, entries0: seq<WorkEntry>, nextEntryId0: nat, adminPassword0: Option<string>)
      requires TablesValid(employees0, entries0, nextEntryId0)
      ensures Valid()
      ensures employees == employees0 && entries == entries0 && nextEntryId == nextEntryId0
      ensures adminPassword == adminPassword0 && !isAdmin
    {
      employees := employees0;
      entries := entries0;
      nextEntryId := nextEntryId0;
      adminPassword := adminPassword0;
      isAdmin := false;
    }

    /** `POST /log-hours`. A missing or empty required field is a 400 that
        touches nothing; a name no employee has is a 400 that writes
        nothing; otherwise exactly one entry is appended, for the employee
        of that name, carrying the computed net hours. */
    method LogHours(req: LogRequest) returns (status: Status)
      requires Valid()
      modifies this`entries, this`nextEntryId
      ensures Valid()
      ensures employees == old(employees) && isAdmin == old(isAdmin)
      ensures status == HoursLogged || status == MissingFields || status == EmployeeNotFound
      ensures status == MissingFields <==> !HasRequiredFields(req)
      ensures status == EmployeeNotFound <==>
                HasRequiredFields(req) &&
                forall k :: 0 <= k < |employees| ==> employees[k].name != req.employeeName.value
      ensures status != HoursLogged ==> entries == old(entries) && nextEntryId == old(nextEntryId)
      ensures status == HoursLogged ==>
                && nextEntryId == old(nextEntryId) + 1
                && exists k :: 0 <= k < |employees| && employees[k].name == req.employeeName.value
                     && entries == old(entries) + [NewEntry(old(nextEntryId), employees[k].id, req)]
    {
      if !HasRequiredFields(req) {
        return MissingFields;
      }
      var found := FindEmployee(employees, req.employeeName.value);
      if found.None? {
        return EmployeeNotFound;
      }
      var employeeId := found.value;
      ghost var k :| 0 <= k < |employees| && employees[k].name == req.employeeName.value && employees[k].id == employeeId;
      AppendKeepsTablesValid(employees, entries, nextEntryId, k, req);
      entries := entries + [NewEntry(nextEntryId, employeeId, req)];
      nextEntryId := nextEntryId + 1;
      status := HoursLogged;
    }

    /** `POST /admin-login`. Only the configured password (compared with
        `===`, so an absent password matches an unset variable) makes the
        session an admin session; a wrong one is a 401 that leaves the flag
        as it was. Nothing ever clears the flag. */
    method AdminLogin(password: Option<string>) returns (status: Status)
      requires Valid()
      modifies this`isAdmin
      ensures Valid()
      ensures status == (if password == adminPassword then AdminLoggedIn else WrongPassword)
      ensures isAdmin == (old(isAdmin) || password == adminPassword)
      ensures employees == old(employees) && entries == old(entries) && nextEntryId == old(nextEntryId)
    {
      if password == adminPassword {
        isAdmin := true;
        status := AdminLoggedIn;
      } else {
        status := WrongPassword;
      }
    }

    /** `GET /admin-work-hours`. A 403 for an anonymous session; otherwise
        every stored entry once, with its employee's name, newest date
        first. */
    method AdminWorkHours() returns (r: ListResponse)
      requires Valid()
      ensures r.Denied? <==> !isAdmin
      ensures r.Rows? ==> NewestFirst(r.rows) && |r.rows| == |entries|
      ensures r.Rows? ==> multiset(r.rows) == multiset(JoinEmployees(entries, employees))
    {
      r := ListWorkHours(isAdmin, employees, entries);
      if r.Rows? {
        assert |multiset(r.rows)| == |multiset(JoinEmployees(entries, employees))|;
      }
    }
  }
}
