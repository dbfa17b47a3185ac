/** The review queue page (src/pages/admin/PendingApprovals.tsx): search and
    category filters, a checkbox selection, single and bulk approve / reject,
    and the dialog that carries out the action on the page's own list and on
    the `admin` slice of the store. The date and name sorts of the list are
    left out: the filtered list is taken in its stored order. */
module PendingApprovals {
  import opened Common
  import opened Types
  import AdminSlice

  datatype ReviewAction = Approve | Reject

  datatype Page = Page(
    searchTerm: string,
    categoryFilter: string,
    selectedArticles: seq<string>,
    articles: seq<Article>,
    selectedArticle: Option<Article>,
    viewDialogOpen: bool,
    actionDialogOpen: bool,
    actionType: ReviewAction,
    feedback: string)

  /** The page after its effect has loaded the queue. */
  function Loaded(queue: seq<Article>): (p: Page)
    ensures p.articles == queue && p.selectedArticles == [] && p.selectedArticle.None?
  {
    Page("", "all", [], queue, None, false, false, Approve, "")
  }

  /** The search matches the title or the author's name, ignoring case, and
      the category is "all" or, lower-cased, the chosen one. */
  predicate Matches(a: Article, searchTerm: string, categoryFilter: string) {
    (MatchesSearch(a.title, searchTerm) || MatchesSearch(a.author.name, searchTerm))
    && (categoryFilter == "all" || Lower(a.category) == categoryFilter)
  }

  function FilteredArticles(p: Page): (r: seq<Article>)
    ensures forall k :: 0 <= k < |r| ==> r[k] in p.articles && Matches(r[k], p.searchTerm, p.categoryFilter)
    ensures forall k :: 0 <= k < |p.articles| && Matches(p.articles[k], p.searchTerm, p.categoryFilter) ==>
      p.articles[k] in r
  {
    Filter(p.articles, (a: Article) => Matches(a, p.searchTerm, p.categoryFilter))
  }

  /** An empty search and the "all" category show the whole queue. */
  lemma NoFilterShowsAll(p: Page)
    requires p.searchTerm == [] && p.categoryFilter == "all"
    ensures FilteredArticles(p) == p.articles
  {
    forall k | 0 <= k < |p.articles| ensures Matches(p.articles[k], p.searchTerm, p.categoryFilter) {
      assert [] <= Lower(p.articles[k].title)[0..];
    }
    FilterKeepsAll(p.articles, (a: Article) => Matches(a, p.searchTerm, p.categoryFilter));
  }

  /** `prev.filter(id => id !== articleId)`. */
  function WithoutId(ids: seq<string>, id: string): (r: seq<string>)
    ensures id !in r
    ensures forall k :: 0 <= k < |r| ==> r[k] in ids
    ensures forall k :: 0 <= k < |ids| && ids[k] != id ==> ids[k] in r
  {
    Filter(ids, (x: string) => x != id)
  }

  /** `handleSelectArticle`: checking appends the id (even if already there),
      unchecking removes every copy of it. */
  function SelectArticle(p: Page, id: string, checked: bool): (r: Page)
    ensures checked ==> r.selectedArticles == p.selectedArticles + [id]
    ensures !checked ==> (id !in r.selectedArticles
      && forall x :: x in p.selectedArticles && x != id ==> x in r.selectedArticles)
    ensures r.(selectedArticles := p.selectedArticles) == p
  {
    if checked then p.(selectedArticles := p.selectedArticles + [id])
    else p.(selectedArticles := WithoutId(p.selectedArticles, id))
  }

  /** Checking then unchecking an article leaves it unselected, whatever the
      selection held before. */
  lemma CheckThenUncheck(p: Page, id: string)
    ensures id !in SelectArticle(SelectArticle(p, id, true), id, false).selectedArticles
  {
  }

  /** `handleSelectAll`: the ids of the filtered list, or nothing. */
  function SelectAll(p: Page, checked: bool): (r: Page)
    ensures checked ==> r.selectedArticles == Ids(FilteredArticles(p))
    ensures !checked ==> r.selectedArticles == []
    ensures r.(selectedArticles := p.selectedArticles) == p
  {
    p.(selectedArticles := if checked then Ids(FilteredArticles(p)) else [])
  }

  /** The header checkbox: as many selected ids as listed articles, and at
      least one listed. */
  predicate HeaderChecked(p: Page) {
    |p.selectedArticles| == |FilteredArticles(p)| && |FilteredArticles(p)| > 0
  }

  /** Select-all ticks the header box exactly when some article is listed, and
      deselect-all always clears it. */
  lemma SelectAllChecksHeader(p: Page)
    ensures HeaderChecked(SelectAll(p, true)) <==> |FilteredArticles(p)| > 0
    ensures !HeaderChecked(SelectAll(p, false))
  {
  }

  /** Opening an article in the view dialog remembers it as `selectedArticle`. */
  function ViewArticle(p: Page, a: Article): (r: Page)
    ensures r.selectedArticle == Some(a) && r.viewDialogOpen
    ensures r.(selectedArticle := p.selectedArticle, viewDialogOpen := p.viewDialogOpen) == p
  {
    p.(selectedArticle := Some(a), viewDialogOpen := true)
  }

  /** Closing the view dialog (`onOpenChange(false)`) keeps `selectedArticle`. */
  function CloseView(p: Page): (r: Page)
    ensures !r.viewDialogOpen && r.selectedArticle == p.selectedArticle
    ensures r.(viewDialogOpen := p.viewDialogOpen) == p
  {
    p.(viewDialogOpen := false)
  }

  /** `handleSingleAction`: the article's own approve / reject button. */
  function SingleAction(p: Page, a: Article, action: ReviewAction): (r: Page)
    ensures r.selectedArticle == Some(a) && r.actionType == action && r.actionDialogOpen
    ensures r.(selectedArticle := p.selectedArticle, actionType := p.actionType,
      actionDialogOpen := p.actionDialogOpen) == p
  {
    p.(selectedArticle := Some(a), actionType := action, actionDialogOpen := true)
  }

  /** `handleBulkAction`, as written: refused with nothing selected; otherwise
      it opens the dialog but leaves `selectedArticle` as it was. */
  function BulkAction(p: Page, action: ReviewAction): (r: Page)
    ensures |p.selectedArticles| == 0 ==> r == p
    ensures |p.selectedArticles| > 0 ==> r.actionDialogOpen && r.actionType == action
    ensures r.selectedArticle == p.selectedArticle && r.selectedArticles == p.selectedArticles
  {
    if |p.selectedArticles| == 0 then p
    else p.(actionType := action, actionDialogOpen := true)
  }

  /** `handleBulkAction` as evidently intended: a bulk action is about the
      checked articles, so any article remembered from an earlier view or
      single action is dropped. */
  function BulkActionCorrected(p: Page, action: ReviewAction): (r: Page)
    ensures |p.selectedArticles| == 0 ==> r == p
    ensures |p.selectedArticles| > 0 ==> r.actionDialogOpen && r.actionType == action && r.selectedArticle.None?
    ensures r.selectedArticles == p.selectedArticles
  {
    if |p.selectedArticles| == 0 then p
    else p.(actionType := action, actionDialogOpen := true, selectedArticle := None)
  }

  /** The dialog's Cancel button. */
  function CancelAction(p: Page): (r: Page)
    ensures !r.actionDialogOpen && r.(actionDialogOpen := p.actionDialogOpen) == p
  {
    p.(actionDialogOpen := false)
  }

  /** `articlesToProcess`: the remembered article alone when there is one, and
      the checked ids otherwise. */
  function ToProcess(p: Page): (ids: seq<string>)
    ensures p.selectedArticle.Some? ==> ids == [p.selectedArticle.value.id]
    ensures p.selectedArticle.None? ==> ids == p.selectedArticles
  {
    match p.selectedArticle
    case Some(a) => [a.id]
    case None => p.selectedArticles
  }

  /** The `approveArticle` / `rejectArticle` dispatches of the `forEach`, one
      per id, in order. */
  function DispatchAll(s: AdminSlice.AdminState, ids: seq<string>, action: ReviewAction, reason: string)
    : (r: AdminSlice.AdminState)
    ensures r.(pendingArticles := s.pendingArticles) == s
    decreases |ids|
  {
    if |ids| == 0 then s
    else
      var s' := match action
        case Approve => AdminSlice.ApproveArticle(s, ids[0])
        case Reject => AdminSlice.RejectArticle(s, ids[0], reason);
      DispatchAll(s', ids[1..], action, reason)
  }

  /** The store's queue ends up filtered exactly as the page's list is. */
  lemma {:induction false} DispatchAllRemovesIds(s: AdminSlice.AdminState, ids: seq<string>, action: ReviewAction, reason: string)
    ensures DispatchAll(s, ids, action, reason).pendingArticles == WithoutArticles(s.pendingArticles, ids)
    decreases |ids|
  {
    if |ids| > 0 {
      var s' := match action
        case Approve => AdminSlice.ApproveArticle(s, ids[0])
        case Reject => AdminSlice.RejectArticle(s, ids[0], reason);
      assert s'.pendingArticles == WithoutArticle(s.pendingArticles, ids[0]);
      DispatchAllRemovesIds(s', ids[1..], action, reason);
    }
  }

  /** `executeAction`: every id to process leaves the page's list and the
      store's queue, then the selection, the remembered article, the dialog and
      the feedback are cleared. The feedback goes with a rejection and is then
      dropped by the store. */
  function ExecuteAction(p: Page, s: AdminSlice.AdminState): (r: (Page, AdminSlice.AdminState))
    ensures var ids := ToProcess(p);
      && (forall k :: 0 <= k < |r.0.articles| ==> r.0.articles[k] in p.articles && r.0.articles[k].id !in ids)
      && (forall k :: 0 <= k < |p.articles| && p.articles[k].id !in ids ==> p.articles[k] in r.0.articles)
    ensures r.0.selectedArticles == [] && r.0.selectedArticle.None? && !r.0.actionDialogOpen && r.0.feedback == []
    ensures r.0.searchTerm == p.searchTerm && r.0.categoryFilter == p.categoryFilter
    ensures r.1.pendingArticles == WithoutArticles(s.pendingArticles, ToProcess(p))
    ensures r.1.(pendingArticles := s.pendingArticles) == s
  {
    var ids := ToProcess(p);
    DispatchAllRemovesIds(s, ids, p.actionType, p.feedback);
    (p.(articles := WithoutArticles(p.articles, ids), selectedArticles := [], selectedArticle := None,
        actionDialogOpen := false, feedback := ""),
     DispatchAll(s, ids, p.actionType, p.feedback))
  }

  /** As written, a bulk action after viewing an article processes only the
      viewed article: view article A, close the view, check B, approve the
      selection -- B stays in the queue and A is approved instead. */
  lemma StaleViewHijacksBulkAction(a: Article, b: Article, s: AdminSlice.AdminState)
    requires a.id != b.id
    ensures var p := BulkAction(SelectArticle(CloseView(ViewArticle(Loaded([a, b]), a)), b.id, true), Approve);
      var r := ExecuteAction(p, s).0;
      ToProcess(p) == [a.id] && b in r.articles && a !in r.articles
  {
    var p := BulkAction(SelectArticle(CloseView(ViewArticle(Loaded([a, b]), a)), b.id, true), Approve);
    assert p.articles == [a, b];
    assert p.articles[1].id !in ToProcess(p);
  }

  /** With the correction, the confirmed bulk action processes exactly the
      checked ids, whatever was viewed before. */
  lemma CorrectedBulkProcessesSelection(p: Page, action: ReviewAction)
    requires |p.selectedArticles| > 0
    ensures ToProcess(BulkActionCorrected(p, action)) == p.selectedArticles
  {
  }

  /** The same scenario as above, corrected: B is approved and A stays. */
  lemma CorrectedScenario(a: Article, b: Article, s: AdminSlice.AdminState)
    requires a.id != b.id
    ensures var p := BulkActionCorrected(SelectArticle(CloseView(ViewArticle(Loaded([a, b]), a)), b.id, true), Approve);
      var r := ExecuteAction(p, s).0;
      ToProcess(p) == [b.id] && a in r.articles && b !in r.articles
  {
    var p := BulkActionCorrected(SelectArticle(CloseView(ViewArticle(Loaded([a, b]), a)), b.id, true), Approve);
    assert p.articles == [a, b];
    assert p.articles[0].id !in ToProcess(p);
  }
}
