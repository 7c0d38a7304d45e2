/** Client sessions written against the handlers' contracts alone: the
    concrete cases the service is expected to handle. */
module Scenarios {
  import opened Wrappers
  import opened TimeArithmetic
  import opened Tables
  import opened Listing
  import opened Server

  /** 09:00 to 17:00 with a 30 minute break, for an existing employee:
      one entry of 7.5 hours for that employee. */
  method LogDayScenario()
  {
    var alice := Employee(1, "Alice");
    var s := new WorkHoursServer([alice], [], 1, Some("secret"));
    var req := LogRequest(Some("Alice"), Some("2024-01-01"), Some("09:00"), Some("17:00"), Some("30"), None);
    assert HasRequiredFields(req);
    var st := s.LogHours(req);
    assert s.employees[0].name == req.employeeName.value;
    assert st == HoursLogged;
    var e := s.entries[0];
    assert e == NewEntry(1, 1, req);
    NetHoursFullDay();
    assert e.netHours == Some(7.5) && e.employeeId == 1 && e.date == "2024-01-01";
  }

  /** A request without a date and one for an unknown employee are both
      rejected with 400 and write nothing. */
  method RejectedRequestsScenario()
  {
    var alice := Employee(1, "Alice");
    var s := new WorkHoursServer([alice], [], 1, Some("secret"));
    var missingDate := LogRequest(Some("Alice"), None, Some("09:00"), Some("17:00"), None, None);
    var st := s.LogHours(missingDate);
    assert st.Code() == 400 && s.entries == [];

    var unknown := LogRequest(Some("Bob"), Some("2024-01-02"), Some("09:00"), Some("17:00"), None, None);
    assert HasRequiredFields(unknown);
    assert alice.name != "Bob";
    st := s.LogHours(unknown);
    assert st == EmployeeNotFound && s.entries == [];
  }

  /** The listing is refused before the admin login and after a wrong
      password, and granted after the right one. */
  method AdminScenario(entries: seq<WorkEntry>, nextEntryId: nat)
    requires TablesValid([Employee(1, "Alice")], entries, nextEntryId)
  {
    var s := new WorkHoursServer([Employee(1, "Alice")], entries, nextEntryId, Some("secret"));
    var listing := s.AdminWorkHours();
    assert listing.Code() == 403 && listing.Message() == "Zugriff verweigert.";
    var st := s.AdminLogin(Some("wrong"));
    assert st.Code() == 401 && !s.isAdmin;
    listing := s.AdminWorkHours();
    assert listing.Code() == 403;
    st := s.AdminLogin(Some("secret"));
    listing := s.AdminWorkHours();
    assert listing.Code() == 200 && |listing.rows| == |entries|;
  }

  /** With ADMIN_PASSWORD unset, a login request without a password field
      compares `undefined === undefined` and succeeds. */
  method UnsetPasswordScenario()
  {
    var s := new WorkHoursServer([], [], 1, None);
    var st := s.AdminLogin(None);
    assert st == AdminLoggedIn && s.isAdmin;
  }
}
