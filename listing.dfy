/** The query behind `GET /admin-work-hours` (server.js:125-130): every
    work entry joined with its employee's name, ordered by date, most
    recent first. The SQL engine is not part of this model; the join and
    the ordering are written out as functions, and what the query
    promises (every entry exactly once, dates non-increasing) is proved
    about them. */
module Listing {
  import opened Wrappers
  import opened Tables

  /** A row of the listing's result. */
  datatype ListedEntry = ListedEntry(
    id: nat,
    employee: string,
    date: string,
    startTime: string,
    endTime: string,
    breakTime: Option<string>,
    netHours: Option<real>,
    comment: Option<string>)

  /** The answer of the listing endpoint: 403 or 200 with the rows. */
  datatype ListResponse = Denied | Rows(rows: seq<ListedEntry>)
  {
    function Code(): nat
    {
      if Denied? then 403 else 200
    }

    /** The JSON `error` text of a refused listing; a granted one sends
        only the rows. */
    function Message(): string
      requires Denied?
    {
      AccessDeniedMessage
    }
  }

  const AccessDeniedMessage := "Zugriff verweigert."

  // ---------------------------------------------------------------------
  // Date order
  // ---------------------------------------------------------------------

  /** Lexicographic order on the stored date text ("YYYY-MM-DD" text
      sorts in calendar order). A proper prefix sorts first. */
  predicate Earlier(a: string, b: string)
  {
    if b == [] then false
    else if a == [] then true
    else if a[0] == b[0] then Earlier(a[1..], b[1..])
    else a[0] < b[0]
  }

  lemma {:induction false} EarlierIrreflexive(a: string)
    ensures !Earlier(a, a)
  {
    if a != [] { EarlierIrreflexive(a[1..]); }
  }

  /** Any two dates are equal or one is earlier than the other. */
  lemma {:induction false} EarlierTotal(a: string, b: string)
    ensures a == b || Earlier(a, b) || Earlier(b, a)
  {
    if a != [] && b != [] && a[0] == b[0] {
      EarlierTotal(a[1..], b[1..]);
      assert a == [a[0]] + a[1..] && b == [b[0]] + b[1..];
    }
  }

  lemma {:induction false} EarlierTransitive(a: string, b: string, c: string)
    requires Earlier(a, b) && Earlier(b, c)
    ensures Earlier(a, c)
  {
    if a != [] && a[0] == b[0] && b[0] == c[0] {
      EarlierTransitive(a[1..], b[1..], c[1..]);
    }
  }

  /** "Not earlier" is transitive: the order the listing sorts by. */
  lemma NotEarlierTransitive(a: string, b: string, c: string)
    requires !Earlier(a, b) && !Earlier(b, c)
    ensures !Earlier(a, c)
  {
    EarlierTotal(a, b);
    EarlierTotal(b, c);
    if Earlier(a, c) {
      if a == b {
      } else if b == c {
      } else {
        EarlierTransitive(c, b, a);
        EarlierTransitive(a, c, a);
        EarlierIrreflexive(a);
      }
    }
  }

  /** `ORDER BY wh.date DESC`: no row has an earlier date than a row
      after it. */
  ghost predicate NewestFirst(rows: seq<ListedEntry>)
  {
    forall i, j :: 0 <= i < j < |rows| ==> !Earlier(rows[i].date, rows[j].date)
  }

  // ---------------------------------------------------------------------
  // Join and ordering
  // ---------------------------------------------------------------------

  function Listed(e: WorkEntry, name: string): ListedEntry
  {
    ListedEntry(e.id, name, e.date, e.startTime, e.endTime, e.breakTime, e.netHours, e.comment)
  }

  /** `FROM work_hours wh JOIN employees e ON wh.employee_id = e.id`:
      each entry whose employee exists, paired with that employee's name,
      in storage order. */
  function JoinEmployees(entries: seq<WorkEntry>, employees: seq<Employee>): (rows: seq<ListedEntry>)
    ensures |rows| <= |entries|
    ensures (forall i :: 0 <= i < |entries| ==> HasEmployee(employees, entries[i].employeeId)) ==>
              |rows| == |entries| &&
              forall i :: 0 <= i < |entries| ==>
                rows[i] == Listed(entries[i], NameOf(employees, entries[i].employeeId).value)
  {
    if entries == [] then []
    else
      var rest := JoinEmployees(entries[1..], employees);
      assert forall i :: 1 <= i < |entries| ==> entries[i] == entries[1..][i - 1];
      match NameOf(employees, entries[0].employeeId)
      case None => rest
      case Some(name) => [Listed(entries[0], name)] + rest
  }

  /** Places `x` before the first row that is not later than it. */
  function InsertNewest(x: ListedEntry, rows: seq<ListedEntry>): (r: seq<ListedEntry>)
    ensures |r| == |rows| + 1
  {
    if rows == [] then [x]
    else if !Earlier(x.date, rows[0].date) then [x] + rows
    else [rows[0]] + InsertNewest(x, rows[1..])
  }

  /** Insertion sort, newest date first; rows with equal dates keep their
      storage order (one of the orders the query allows). */
  function SortNewestFirst(rows: seq<ListedEntry>): (r: seq<ListedEntry>)
    ensures |r| == |rows|
  {
    if rows == [] then [] else InsertNewest(rows[0], SortNewestFirst(rows[1..]))
  }

  lemma {:induction false} InsertNewestPermutes(x: ListedEntry, rows: seq<ListedEntry>)
    ensures multiset(InsertNewest(x, rows)) == multiset(rows) + multiset{x}
  {
    if rows != [] && Earlier(x.date, rows[0].date) {
      InsertNewestPermutes(x, rows[1..]);
      assert rows == [rows[0]] + rows[1..];
    }
  }

  /** A row not earlier than the first of a newest-first sequence can go
      in front of it. */
  lemma PrependNewest(x: ListedEntry, rows: seq<ListedEntry>)
    requires NewestFirst(rows)
    requires rows == [] || !Earlier(x.date, rows[0].date)
    ensures NewestFirst([x] + rows)
  {
    var r := [x] + rows;
    forall i, j | 0 <= i < j < |r| ensures !Earlier(r[i].date, r[j].date) {
      if i == 0 {
        assert r[j] == rows[j - 1];
        if j > 1 {
          NotEarlierTransitive(x.date, rows[0].date, rows[j - 1].date);
        }
      } else {
        assert r[i] == rows[i - 1] && r[j] == rows[j - 1];
      }
    }
  }

  /** A row later than `x` and than every row of `rows` is not earlier
      than any row of their insertion. */
  lemma FirstBeforeInsertion(y: ListedEntry, x: ListedEntry, rows: seq<ListedEntry>, j: nat)
    requires Earlier(x.date, y.date)
    requires forall k :: 0 <= k < |rows| ==> !Earlier(y.date, rows[k].date)
    requires j < |InsertNewest(x, rows)|
    ensures !Earlier(y.date, InsertNewest(x, rows)[j].date)
  {
    var tail := InsertNewest(x, rows);
    InsertNewestPermutes(x, rows);
    assert tail[j] in multiset(rows) + multiset{x};
    if tail[j] == x {
      EarlierTotal(y.date, x.date);
      EarlierIrreflexive(x.date);
      if Earlier(y.date, x.date) {
        EarlierTransitive(x.date, y.date, x.date);
      }
    } else {
      assert tail[j] in rows;
      var k :| 0 <= k < |rows| && rows[k] == tail[j];
    }
  }

  lemma {:induction false} InsertNewestSorted(x: ListedEntry, rows: seq<ListedEntry>)
    requires NewestFirst(rows)
    ensures NewestFirst(InsertNewest(x, rows))
  {
    if rows == [] || !Earlier(x.date, rows[0].date) {
      PrependNewest(x, rows);
    } else {
      var y := rows[0];
      var tail := InsertNewest(x, rows[1..]);
      assert NewestFirst(rows[1..]) by {
        forall i, j | 0 <= i < j < |rows[1..]| ensures !Earlier(rows[1..][i].date, rows[1..][j].date) {
          assert rows[1..][i] == rows[i + 1] && rows[1..][j] == rows[j + 1];
        }
      }
      InsertNewestSorted(x, rows[1..]);
      assert forall k :: 0 <= k < |rows[1..]| ==> !Earlier(y.date, rows[1..][k].date) by {
        forall k | 0 <= k < |rows[1..]| ensures !Earlier(y.date, rows[1..][k].date) {
          assert rows[1..][k] == rows[k + 1];
        }
      }
      forall j | 0 <= j < |tail| ensures !Earlier(y.date, tail[j].date) {
        FirstBeforeInsertion(y, x, rows[1..], j);
      }
      PrependNewest(y, tail);
    }
  }

  /** The sort orders newest first and is a permutation of its input. */
  lemma {:induction false} SortNewestFirstCorrect(rows: seq<ListedEntry>)
    ensures NewestFirst(SortNewestFirst(rows))
    ensures multiset(SortNewestFirst(rows)) == multiset(rows)
  {
    if rows != [] {
      SortNewestFirstCorrect(rows[1..]);
      InsertNewestSorted(rows[0], SortNewestFirst(rows[1..]));
      InsertNewestPermutes(rows[0], SortNewestFirst(rows[1..]));
      assert rows == [rows[0]] + rows[1..];
    }
  }

  /** The listing handler: 403 unless the session is an admin session;
      otherwise every joined entry exactly once, newest date first. */
  function ListWorkHours(isAdmin: bool, employees: seq<Employee>, entries: seq<WorkEntry>): (r: ListResponse)
    ensures r.Denied? <==> !isAdmin
    ensures r.Rows? ==> NewestFirst(r.rows)
    ensures r.Rows? ==> multiset(r.rows) == multiset(JoinEmployees(entries, employees))
  {
    if !isAdmin then Denied
    else
      var joined := JoinEmployees(entries, employees);
      SortNewestFirstCorrect(joined);
      Rows(SortNewestFirst(joined))
  }

  /** With consistent tables the listing has one row per stored entry, and
      each stored entry appears in it labelled with its employee's name. */
  lemma ListingCoversEveryEntry(employees: seq<Employee>, entries: seq<WorkEntry>, nextEntryId: nat, i: nat)
    requires TablesValid(employees, entries, nextEntryId)
    requires i < |entries|
    ensures var r := ListWorkHours(true, employees, entries);
            && |r.rows| == |entries|
            && exists j, k :: 0 <= j < |r.rows| && 0 <= k < |employees|
                 && employees[k].id == entries[i].employeeId
                 && r.rows[j] == Listed(entries[i], employees[k].name)
  {
    var joined := JoinEmployees(entries, employees);
    var r := ListWorkHours(true, employees, entries);
    assert |multiset(r.rows)| == |multiset(joined)|;
    var k :| 0 <= k < |employees| && employees[k].id == entries[i].employeeId;
    NameOfUnique(employees, k);
    assert joined[i] in multiset(joined);
    assert joined[i] in r.rows;
    var j :| 0 <= j < |r.rows| && r.rows[j] == joined[i];
  }
}
