/** The employee table (src/pages/admin/ManageEmployees.tsx): block / unblock,
    delete, the search / department / status filter, the performance score and
    the avatar initials. The page keeps its own copy of the list and mirrors
    changes into the `admin` slice of the store. */
module ManageEmployees {
  import opened Common
  import opened Types
  import AdminSlice
  import Pagination

  datatype Employee = Employee(
    id: string,
    name: string,
    email: string,
    department: string,
    createdAt: string,
    isBlocked: Option<bool>,
    articlesCount: nat,
    approvedCount: nat,
    pendingCount: nat,
    rejectedCount: nat)

  /** `employee.isBlocked` read as a condition: a missing flag means active. */
  predicate Blocked(e: Employee) {
    e.isBlocked == Some(true)
  }

  /** The record the store receives for an employee. */
  function AsUser(e: Employee): (u: User)
    ensures u.id == e.id && u.isBlocked == e.isBlocked && u.role == Types.Employee
  {
    User(e.id, e.email, e.name, Types.Employee, e.createdAt, e.isBlocked)
  }

  function AsUsers(es: seq<Employee>): (us: seq<User>)
    ensures |us| == |es|
    ensures forall k :: 0 <= k < |es| ==> us[k] == AsUser(es[k])
  {
    seq(|es|, k requires 0 <= k < |es| => AsUser(es[k]))
  }

  /** `{ ...emp, isBlocked: !emp.isBlocked }`. */
  function Toggle(e: Employee): (r: Employee)
    ensures Blocked(r) <==> !Blocked(e)
    ensures r.(isBlocked := e.isBlocked) == e
  {
    e.(isBlocked := Some(!Blocked(e)))
  }

  /** The page's list after a Block / Unblock click: every employee with the id
      is toggled, everyone else is left alone. */
  function ToggleBlocked(es: seq<Employee>, id: string): (r: seq<Employee>)
    ensures |r| == |es|
    ensures forall k :: 0 <= k < |es| ==> r[k] == (if es[k].id == id then Toggle(es[k]) else es[k])
  {
    seq(|es|, k requires 0 <= k < |es| => if es[k].id == id then Toggle(es[k]) else es[k])
  }

  /** Clicking twice gives every employee back its blocked / active reading
      (the flag itself may go from missing to `false`). */
  lemma ToggleTwiceRestoresStatus(es: seq<Employee>, id: string)
    ensures var r := ToggleBlocked(ToggleBlocked(es, id), id);
      |r| == |es| && forall k :: 0 <= k < |es| ==> (Blocked(r[k]) <==> Blocked(es[k])) && r[k].id == es[k].id
  {
  }

  datatype Page = Page(
    searchTerm: string,
    departmentFilter: string,
    statusFilter: string,
    employees: seq<Employee>)

  /** `handleBlockEmployee`, as written: the page toggles its copy, but the
      store is sent `blockEmployee`, which can only ever block. */
  function HandleBlockEmployee(p: Page, s: AdminSlice.AdminState, id: string): (r: (Page, AdminSlice.AdminState))
    ensures r.0.employees == ToggleBlocked(p.employees, id)
    ensures r.1 == AdminSlice.BlockEmployee(s, id)
    ensures r.0.(employees := p.employees) == p
  {
    (p.(employees := ToggleBlocked(p.employees, id)), AdminSlice.BlockEmployee(s, id))
  }

  /** The page and the store agree on an employee's status. */
  predicate StatusInSync(p: Page, s: AdminSlice.AdminState, id: string) {
    forall k, m ::
      (0 <= k < |p.employees| && 0 <= m < |s.employees| && p.employees[k].id == id && s.employees[m].id == id) ==>
        (Blocked(p.employees[k]) <==> s.employees[m].isBlocked == Some(true))
  }

  /** As written, unblocking a blocked employee leaves the store saying
      "blocked" while the page shows "active". */
  lemma UnblockLeavesStoreBlocked(e: Employee)
    requires Blocked(e)
    ensures var p := Page("", "all", "all", [e]);
      var s := AdminSlice.InitialState.(employees := [AsUser(e)]);
      var r := HandleBlockEmployee(p, s, e.id);
      StatusInSync(p, s, e.id) && !Blocked(r.0.employees[0]) && r.1.employees[0].isBlocked == Some(true)
  {
  }

  /** The store's copy after the intended update: every employee with the id
      takes the page's new value. */
  function MirrorBlocked(us: seq<User>, id: string, blocked: bool): (r: seq<User>)
    ensures |r| == |us|
    ensures forall k :: 0 <= k < |us| ==> r[k] == (if us[k].id == id then us[k].(isBlocked := Some(blocked)) else us[k])
  {
    seq(|us|, k requires 0 <= k < |us| => if us[k].id == id then us[k].(isBlocked := Some(blocked)) else us[k])
  }

  /** `handleBlockEmployee` as evidently intended (the notice says the employee
      "can now access the system"): the store takes the toggled status too. */
  function HandleBlockEmployeeCorrected(p: Page, s: AdminSlice.AdminState, id: string): (r: (Page, AdminSlice.AdminState))
    ensures r.0.employees == ToggleBlocked(p.employees, id)
    ensures r.0.(employees := p.employees) == p
    ensures r.1.(employees := s.employees) == s
    ensures var i := IndexOfEmployee(p.employees, id);
      i >= 0 ==> r.1.employees == MirrorBlocked(s.employees, id, Blocked(r.0.employees[i]))
    ensures IndexOfEmployee(p.employees, id) == -1 ==> r.1.employees == MirrorBlocked(s.employees, id, true)
  {
    var i := IndexOfEmployee(p.employees, id);
    var blocked := if i >= 0 then !Blocked(p.employees[i]) else true;
    (p.(employees := ToggleBlocked(p.employees, id)), s.(employees := MirrorBlocked(s.employees, id, blocked)))
  }

  /** `employees.find(emp => emp.id === id)` as a position: the first employee
      with the id, or -1. */
  function IndexOfEmployee(es: seq<Employee>, id: string): (r: int)
    ensures -1 <= r < |es|
    ensures r >= 0 ==> es[r].id == id
    ensures forall k :: 0 <= k < |es| && (r == -1 || k < r) ==> es[k].id != id
  {
    IndexOfEmployeeFrom(es, id, 0)
  }

  function IndexOfEmployeeFrom(es: seq<Employee>, id: string, from: nat): (r: int)
    requires from <= |es|
    ensures r == -1 || from <= r < |es|
    ensures r >= 0 ==> es[r].id == id
    ensures forall k :: from <= k < |es| && (r == -1 || k < r) ==> es[k].id != id
    decreases |es| - from
  {
    if from == |es| then -1
    else if es[from].id == id then from
    else IndexOfEmployeeFrom(es, id, from + 1)
  }

  /** With the correction, a page and store that agreed still agree after a
      click, as long as the page lists the id once. */
  lemma CorrectedKeepsStoreInSync(p: Page, s: AdminSlice.AdminState, id: string)
    requires StatusInSync(p, s, id)
    requires forall k, m :: 0 <= k < m < |p.employees| ==> p.employees[k].id != id || p.employees[m].id != id
    ensures var r := HandleBlockEmployeeCorrected(p, s, id); StatusInSync(r.0, r.1, id)
  {
    var r := HandleBlockEmployeeCorrected(p, s, id);
    var i := IndexOfEmployee(p.employees, id);
    forall k, m | 0 <= k < |r.0.employees| && 0 <= m < |r.1.employees| &&
      r.0.employees[k].id == id && r.1.employees[m].id == id
      ensures Blocked(r.0.employees[k]) <==> r.1.employees[m].isBlocked == Some(true)
    {
      assert p.employees[k].id == id;
      assert i == k;
    }
  }

  /** A confirmed delete: the page and the store both drop the id. */
  function HandleDeleteEmployee(p: Page, s: AdminSlice.AdminState, id: string, confirmed: bool)
    : (r: (Page, AdminSlice.AdminState))
    ensures !confirmed ==> r == (p, s)
    ensures confirmed ==>
      && (forall k :: 0 <= k < |r.0.employees| ==> r.0.employees[k] in p.employees && r.0.employees[k].id != id)
      && (forall k :: 0 <= k < |p.employees| && p.employees[k].id != id ==> p.employees[k] in r.0.employees)
      && r.1 == AdminSlice.RemoveEmployee(s, id)
    ensures r.0.(employees := p.employees) == p
  {
    if confirmed then
      (p.(employees := Filter(p.employees, (e: Employee) => e.id != id)), AdminSlice.RemoveEmployee(s, id))
    else (p, s)
  }

  /** The status filter: "all" keeps everyone, "active" the unblocked and
      "blocked" the blocked; any other value keeps no one. */
  predicate MatchesStatus(e: Employee, statusFilter: string) {
    || statusFilter == "all"
    || (statusFilter == "active" && !Blocked(e))
    || (statusFilter == "blocked" && Blocked(e))
  }

  predicate Matches(e: Employee, p: Page) {
    && (MatchesSearch(e.name, p.searchTerm) || MatchesSearch(e.email, p.searchTerm))
    && (p.departmentFilter == "all" || e.department == p.departmentFilter)
    && MatchesStatus(e, p.statusFilter)
  }

  function FilteredEmployees(p: Page): (r: seq<Employee>)
    ensures forall k :: 0 <= k < |r| ==> r[k] in p.employees && Matches(r[k], p)
    ensures forall k :: 0 <= k < |p.employees| && Matches(p.employees[k], p) ==> p.employees[k] in r
  {
    Filter(p.employees, (e: Employee) => Matches(e, p))
  }

  /** Every employee is either active or blocked, never both: the two status
      filters split the list. */
  lemma StatusFiltersPartition(e: Employee)
    ensures MatchesStatus(e, "active") != MatchesStatus(e, "blocked")
    ensures MatchesStatus(e, "all")
  {
  }

  const EmployeesPerPage: Pagination.PageSize := 8

  /** The rows of the current page of the filtered table. */
  function CurrentEmployees(p: Page, currentPage: Pagination.PageNumber): (r: seq<Employee>)
    ensures |r| <= EmployeesPerPage
    ensures var filtered := FilteredEmployees(p);
      r == Pagination.CurrentItems(filtered, Pagination.Pager(currentPage, |filtered|, EmployeesPerPage))
    ensures var start := (currentPage - 1) * EmployeesPerPage;
      |r| == if |FilteredEmployees(p)| <= start then 0 else Min(start + EmployeesPerPage, |FilteredEmployees(p)|) - start
    ensures forall k :: 0 <= k < |r| ==> r[k] == FilteredEmployees(p)[(currentPage - 1) * EmployeesPerPage + k]
  {
    var filtered := FilteredEmployees(p);
    Pagination.CurrentItems(filtered, Pagination.Pager(currentPage, |filtered|, EmployeesPerPage))
  }

  /** `calculatePerformanceScore`: the share of approved articles as a whole
      percentage, rounded half up; 0 for someone without articles. */
  function PerformanceScore(e: Employee): (r: int)
    ensures e.articlesCount == 0 ==> r == 0
    ensures e.articlesCount > 0 ==>
      2 * r * e.articlesCount - e.articlesCount <= 200 * e.approvedCount < 2 * r * e.articlesCount + e.articlesCount
  {
    var total := e.articlesCount;
    if total == 0 then 0 else (200 * e.approvedCount + total) / (2 * total)
  }

  /** The score of a real record, whose approved count is part of its total,
      is a percentage. */
  lemma PerformanceScoreIsPercentage(e: Employee)
    requires e.approvedCount <= e.articlesCount
    ensures 0 <= PerformanceScore(e) <= 100
  {
    var t := e.articlesCount;
    if t > 0 {
      var n := 200 * e.approvedCount + t;
      assert n < 2 * t * 101;
      QuotientBelow(n, 2 * t, 101);
    }
  }

  /** A quotient of a number below `d * m` is below `m`. */
  lemma QuotientBelow(n: nat, d: nat, m: nat)
    requires 0 < d && n < d * m
    ensures n / d < m
  {
    var q := n / d;
    assert d * q <= n;
    assert d * (m - q) > 0;
  }

  lemma PerformanceScoreExamples(e: Employee)
    ensures PerformanceScore(e.(articlesCount := 22, approvedCount := 18)) == 82
    ensures PerformanceScore(e.(articlesCount := 8, approvedCount := 5)) == 63
    ensures PerformanceScore(e.(articlesCount := 0, approvedCount := 0)) == 0
  {
  }

  /** The non-empty pieces of `name.split(" ")`, in order: the words. */
  function Words(pieces: seq<string>): (ws: seq<string>)
    ensures |ws| <= |pieces|
    ensures forall k :: 0 <= k < |ws| ==> |ws[k]| > 0 && ws[k] in pieces
  {
    if |pieces| == 0 then []
    else (if |pieces[0]| > 0 then [pieces[0]] else []) + Words(pieces[1..])
  }

  /** `Words` drops exactly the empty pieces: with as many words as there are
      non-empty pieces, taken in their order, it is the library `Filter` by
      `IsWord`. */
  predicate IsWord(piece: string) {
    |piece| > 0
  }

  lemma {:induction false} WordsAreFiltered(pieces: seq<string>)
    ensures Words(pieces) == Filter(pieces, IsWord)
  {
    if |pieces| > 0 {
      WordsAreFiltered(pieces[1..]);
    }
  }

  /** `pieces.map(n => n[0]).join("")`: the first character of each word, in
      order; an empty piece (two spaces in a row, or one at either end) maps to
      `undefined`, which `join` writes as nothing. */
  function FirstLetters(pieces: seq<string>): (r: string)
    ensures var words := Words(pieces);
      |r| == |words| && forall k :: 0 <= k < |r| ==> r[k] == words[k][0]
  {
    if |pieces| == 0 then []
    else
      var rest := FirstLetters(pieces[1..]);
      if |pieces[0]| > 0 then
        FirstLettersCons(pieces, rest);
        [pieces[0][0]] + rest
      else rest
  }

  /** The step of `FirstLetters` for a leading word. */
  lemma FirstLettersCons(pieces: seq<string>, rest: string)
    requires |pieces| > 0 && |pieces[0]| > 0
    requires var later := Words(pieces[1..]);
      |rest| == |later| && forall k :: 0 <= k < |rest| ==> rest[k] == later[k][0]
    ensures var words := Words(pieces); var r := [pieces[0][0]] + rest;
      |r| == |words| && forall k :: 0 <= k < |r| ==> r[k] == words[k][0]
  {
    var words := Words(pieces);
    var later := Words(pieces[1..]);
    assert words == [pieces[0]] + later;
  }

  /** `getInitials`: the first letter of every space-separated word, upper-cased,
      in the order of the words. */
  function GetInitials(name: string): (r: string)
    ensures var words := Words(Split(name, ' '));
      |r| == |words| && forall k :: 0 <= k < |r| ==> r[k] == UpperChar(words[k][0])
    ensures |r| <= Count(name, ' ') + 1
    ensures forall k :: 0 <= k < |r| ==> !IsLowerAscii(r[k]) && r[k] != ' '
  {
    var pieces := Split(name, ' ');
    var letters := FirstLetters(pieces);
    assert forall k :: 0 <= k < |letters| ==> letters[k] != ' ' by {
      forall k | 0 <= k < |letters| ensures letters[k] != ' ' {
        var words := Words(pieces);
        assert words[k] in pieces;
        assert letters[k] == words[k][0] && words[k][0] in words[k];
      }
    }
    Upper(letters)
  }

  /** A string without the separator splits into itself alone. */
  lemma {:induction false} SplitWithoutSeparator(s: string, sep: char)
    requires sep !in s
    ensures Split(s, sep) == [s]
  {
    if |s| > 0 {
      assert sep !in s[1..] by {
        forall k | 0 <= k < |s[1..]| ensures s[1..][k] != sep {
          assert s[1..][k] == s[k + 1];
        }
      }
      SplitWithoutSeparator(s[1..], sep);
      assert [s[0]] + s[1..] == s;
    }
  }

  /** A non-empty name without a space gives exactly one initial, its own first
      letter upper-cased; an empty name gives none. */
  lemma {:induction false} OneWordOneInitial(name: string)
    requires ' ' !in name
    ensures |name| > 0 ==> GetInitials(name) == [UpperChar(name[0])]
    ensures |name| == 0 ==> GetInitials(name) == []
  {
    SplitWithoutSeparator(name, ' ');
    assert Words([name]) == (if |name| > 0 then [name] else []) by {
      assert [name][1..] == [];
    }
  }
}
