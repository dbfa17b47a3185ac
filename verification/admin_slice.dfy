/** The `admin` slice of the store (src/store/slices/adminSlice.ts): the
    employee list, the articles awaiting review and the dashboard counters. */
module AdminSlice {
  import opened Common
  import opened Types

  datatype Statistics = Statistics(
    totalArticles: int,
    totalEmployees: int,
    pendingApprovals: int,
    publishedToday: int)

  datatype AdminState = AdminState(
    employees: seq<User>,
    pendingArticles: seq<Article>,
    statistics: Statistics,
    isLoading: bool,
    error: Option<string>)

  const InitialState: AdminState :=
    AdminState([], [], Statistics(0, 0, 0, 0), false, None)

  /** `employees.find(emp => emp.id === id)` as a position: the first employee
      with the id, or -1. */
  function IndexOfUser(xs: seq<User>, id: string): (r: int)
    ensures -1 <= r < |xs|
    ensures r >= 0 ==> xs[r].id == id
    ensures forall k :: 0 <= k < |xs| && (r == -1 || k < r) ==> xs[k].id != id
  {
    IndexOfUserFrom(xs, id, 0)
  }

  function IndexOfUserFrom(xs: seq<User>, id: string, from: nat): (r: int)
    requires from <= |xs|
    ensures r == -1 || from <= r < |xs|
    ensures r >= 0 ==> xs[r].id == id
    ensures forall k :: from <= k < |xs| && (r == -1 || k < r) ==> xs[k].id != id
    decreases |xs| - from
  {
    if from == |xs| then -1
    else if xs[from].id == id then from
    else IndexOfUserFrom(xs, id, from + 1)
  }

  function SetLoading(s: AdminState, loading: bool): (r: AdminState)
    ensures r.isLoading == loading
    ensures r.(isLoading := s.isLoading) == s
  {
    s.(isLoading := loading)
  }

  function SetEmployees(s: AdminState, employees: seq<User>): (r: AdminState)
    ensures r.employees == employees
    ensures r.(employees := s.employees) == s
  {
    s.(employees := employees)
  }

  /** `addEmployee`: `push`, so the new employee goes to the end. */
  function AddEmployee(s: AdminState, u: User): (r: AdminState)
    ensures |r.employees| == |s.employees| + 1
    ensures r.employees[..|s.employees|] == s.employees && r.employees[|s.employees|] == u
    ensures r.(employees := s.employees) == s
  {
    s.(employees := s.employees + [u])
  }

  /** `removeEmployee`: every employee with the id goes, the rest stay in order. */
  function RemoveEmployee(s: AdminState, id: string): (r: AdminState)
    ensures forall k :: 0 <= k < |r.employees| ==> r.employees[k] in s.employees && r.employees[k].id != id
    ensures forall k :: 0 <= k < |s.employees| && s.employees[k].id != id ==> s.employees[k] in r.employees
    ensures r.(employees := s.employees) == s
  {
    s.(employees := WithoutUser(s.employees, id))
  }

  /** `blockEmployee`: the first employee with the id is marked blocked; the
      others (including later ones with the same id) are untouched. */
  function BlockEmployee(s: AdminState, id: string): (r: AdminState)
    ensures |r.employees| == |s.employees|
    ensures IndexOfUser(s.employees, id) == -1 ==> r == s
    ensures var i := IndexOfUser(s.employees, id);
      i >= 0 ==> (r.employees[i] == s.employees[i].(isBlocked := Some(true))
        && forall k :: 0 <= k < |s.employees| && k != i ==> r.employees[k] == s.employees[k])
    ensures r.(employees := s.employees) == s
  {
    var i := IndexOfUser(s.employees, id);
    if i == -1 then s
    else s.(employees := s.employees[i := s.employees[i].(isBlocked := Some(true))])
  }

  /** Blocking the same employee twice is blocking once. */
  lemma BlockIdempotent(s: AdminState, id: string)
    ensures BlockEmployee(BlockEmployee(s, id), id) == BlockEmployee(s, id)
  {
    var i := IndexOfUser(s.employees, id);
    if i >= 0 {
      var r := BlockEmployee(s, id);
      assert IndexOfUser(r.employees, id) == i by {
        assert r.employees[i].id == id;
        assert forall k :: 0 <= k < i ==> r.employees[k] == s.employees[k];
      }
    }
  }

  /** The slice offers no way back: once blocked, an employee stays blocked
      under a further `blockEmployee` of any id. */
  lemma BlockNeverUnblocks(s: AdminState, id: string, other: string)
    requires IndexOfUser(s.employees, id) >= 0
    ensures var r := BlockEmployee(BlockEmployee(s, id), other);
      r.employees[IndexOfUser(s.employees, id)].isBlocked == Some(true)
  {
  }

  function SetPendingArticles(s: AdminState, articles: seq<Article>): (r: AdminState)
    ensures r.pendingArticles == articles
    ensures r.(pendingArticles := s.pendingArticles) == s
  {
    s.(pendingArticles := articles)
  }

  /** `approveArticle`: the article leaves the review queue; nothing else changes. */
  function ApproveArticle(s: AdminState, id: string): (r: AdminState)
    ensures IndexOfId(r.pendingArticles, id) == -1
    ensures forall k :: 0 <= k < |r.pendingArticles| ==> r.pendingArticles[k] in s.pendingArticles
    ensures forall k :: 0 <= k < |s.pendingArticles| && s.pendingArticles[k].id != id ==>
      s.pendingArticles[k] in r.pendingArticles
    ensures r.(pendingArticles := s.pendingArticles) == s
  {
    s.(pendingArticles := WithoutArticle(s.pendingArticles, id))
  }

  /** `rejectArticle`: the same removal; the reason in the payload is dropped. */
  function RejectArticle(s: AdminState, id: string, reason: string): (r: AdminState)
    ensures IndexOfId(r.pendingArticles, id) == -1
    ensures forall k :: 0 <= k < |r.pendingArticles| ==> r.pendingArticles[k] in s.pendingArticles
    ensures forall k :: 0 <= k < |s.pendingArticles| && s.pendingArticles[k].id != id ==>
      s.pendingArticles[k] in r.pendingArticles
    ensures r.(pendingArticles := s.pendingArticles) == s
  {
    s.(pendingArticles := WithoutArticle(s.pendingArticles, id))
  }

  /** The rejection reason is stored nowhere: rejecting with any reason has the
      same effect as approving. */
  lemma RejectIgnoresReason(s: AdminState, id: string, reason1: string, reason2: string)
    ensures RejectArticle(s, id, reason1) == RejectArticle(s, id, reason2) == ApproveArticle(s, id)
  {
  }

  /** A reviewed article that was not in the queue leaves the queue unchanged. */
  lemma ApproveAbsentIsNoOp(s: AdminState, id: string)
    requires IndexOfId(s.pendingArticles, id) == -1
    ensures ApproveArticle(s, id) == s
  {
    WithoutAbsentArticle(s.pendingArticles, id);
  }

  /** `setStatistics`: the whole record is replaced. */
  function SetStatistics(s: AdminState, stats: Statistics): (r: AdminState)
    ensures r.statistics == stats
    ensures r.(statistics := s.statistics) == s
  {
    s.(statistics := stats)
  }

  /** `setError`: records the error (or clears it) and ends loading. */
  function SetError(s: AdminState, e: Option<string>): (r: AdminState)
    ensures r.error == e && !r.isLoading
    ensures r.(error := s.error, isLoading := s.isLoading) == s
  {
    s.(error := e, isLoading := false)
  }
}
