/** The admin's table of every article (src/pages/admin/AllArticles.tsx):
    search / category / status filtering, the edit dialog, confirmed deletion,
    and ten rows per page. The date, title, author and category sorts are left
    out: the filtered list is taken in its stored order. */
module AllArticles {
  import opened Common
  import opened Types
  import NewsSlice
  import Pagination

  datatype EditForm = EditForm(title: string, excerpt: string, content: string, category: string)

  datatype Page = Page(
    searchTerm: string,
    categoryFilter: string,
    statusFilter: string,
    articles: seq<Article>,
    selectedArticle: Option<Article>,
    editDialogOpen: bool,
    editForm: EditForm)

  const ArticlesPerPage: Pagination.PageSize := 10

  /** The search matches title, author name or content, ignoring case; the
      category is "all" or, lower-cased, the chosen one; the status is "all" or
      the chosen one. */
  predicate Matches(a: Article, p: Page) {
    && (MatchesSearch(a.title, p.searchTerm) || MatchesSearch(a.author.name, p.searchTerm)
        || MatchesSearch(a.content, p.searchTerm))
    && (p.categoryFilter == "all" || Lower(a.category) == p.categoryFilter)
    && (p.statusFilter == "all" || StatusName(a.status) == p.statusFilter)
  }

  function FilteredArticles(p: Page): (r: seq<Article>)
    ensures forall k :: 0 <= k < |r| ==> r[k] in p.articles && Matches(r[k], p)
    ensures forall k :: 0 <= k < |p.articles| && Matches(p.articles[k], p) ==> p.articles[k] in r
  {
    Filter(p.articles, (a: Article) => Matches(a, p))
  }

  /** The values the category select can send: "all" and six lower-case names. */
  const CategoryOptions: seq<string> :=
    ["all", "technology", "sports", "politics", "business", "entertainment", "health"]

  /** Text without capitals is its own lower-case form. */
  lemma LowerOfLowerCase(s: string)
    requires forall k :: 0 <= k < |s| ==> !IsUpperAscii(s[k])
    ensures Lower(s) == s
  {
  }

  /** With any value the select sends, the category test keeps an article
      exactly when its category, ignoring case, is the chosen one (or the choice
      is "all"): the lower-casing on one side only is harmless for these values. */
  lemma CategoryOptionsIgnoreCase(a: Article, p: Page)
    requires p.categoryFilter in CategoryOptions
    ensures (p.categoryFilter == "all" || Lower(a.category) == p.categoryFilter) <==>
      (p.categoryFilter == "all" || Lower(a.category) == Lower(p.categoryFilter))
  {
    var v := p.categoryFilter;
    assert forall k :: 0 <= k < |v| ==> 'a' <= v[k] <= 'z';
    LowerOfLowerCase(v);
  }

  /** `handleEditArticle`: remember the article and copy its four editable
      fields into the form. */
  function EditArticle(p: Page, a: Article): (r: Page)
    ensures r.selectedArticle == Some(a) && r.editDialogOpen
    ensures r.editForm == EditForm(a.title, a.excerpt, a.content, a.category)
    ensures r.articles == p.articles
  {
    p.(selectedArticle := Some(a), editForm := EditForm(a.title, a.excerpt, a.content, a.category),
       editDialogOpen := true)
  }

  /** `{ ...selectedArticle, ...editForm, updatedAt: now }`. */
  function Edited(a: Article, f: EditForm, now: string): (r: Article)
    ensures r.title == f.title && r.excerpt == f.excerpt && r.content == f.content && r.category == f.category
    ensures r.updatedAt == now
    ensures r.(title := a.title, excerpt := a.excerpt, content := a.content, category := a.category,
      updatedAt := a.updatedAt) == a
  {
    a.(title := f.title, excerpt := f.excerpt, content := f.content, category := f.category, updatedAt := now)
  }

  /** `handleSaveEdit`: nothing without a remembered article; otherwise every
      article with its id becomes the edited copy, the dialog closes and the
      article is forgotten. Only the page's own list changes. */
  function SaveEdit(p: Page, now: string): (r: Page)
    ensures p.selectedArticle.None? ==> r == p
    ensures |r.articles| == |p.articles|
    ensures p.selectedArticle.Some? ==>
      var sel := p.selectedArticle.value;
      && r.selectedArticle.None? && !r.editDialogOpen
      && forall k :: 0 <= k < |p.articles| ==>
        r.articles[k] == (if p.articles[k].id == sel.id then Edited(sel, p.editForm, now) else p.articles[k])
  {
    match p.selectedArticle
    case None => p
    case Some(sel) =>
      var updated := Edited(sel, p.editForm, now);
      p.(articles := seq(|p.articles|, k requires 0 <= k < |p.articles| =>
            if p.articles[k].id == sel.id then updated else p.articles[k]),
         editDialogOpen := false, selectedArticle := None)
  }

  /** Opening an article and saving without touching the form changes only its
      `updatedAt` (for a list with one article of that id). */
  lemma SaveUnchangedOnlyTouchesTimestamp(p: Page, a: Article, now: string, k: nat)
    requires k < |p.articles| && p.articles[k] == a
    ensures SaveEdit(EditArticle(p, a), now).articles[k] == a.(updatedAt := now)
  {
  }

  /** Saving twice with the same form and time is saving once. */
  lemma SaveEditSecondTimeIsNoOp(p: Page, now: string)
    ensures SaveEdit(SaveEdit(p, now), now) == SaveEdit(p, now)
  {
  }

  /** A confirmed delete drops every article with the id from the page and
      from the `news` slice of the store. */
  function DeleteArticle(p: Page, s: NewsSlice.NewsState, id: string, confirmed: bool)
    : (r: (Page, NewsSlice.NewsState))
    ensures !confirmed ==> r == (p, s)
    ensures confirmed ==> r.0.articles == WithoutArticle(p.articles, id) && r.1 == NewsSlice.DeleteArticle(s, id)
    ensures confirmed ==> IndexOfId(r.0.articles, id) == -1
    ensures confirmed ==> forall k :: 0 <= k < |p.articles| && p.articles[k].id != id ==> p.articles[k] in r.0.articles
    ensures r.0.(articles := p.articles) == p
  {
    if confirmed then (p.(articles := WithoutArticle(p.articles, id)), NewsSlice.DeleteArticle(s, id))
    else (p, s)
  }

  /** The rows of the current page of the filtered table. */
  function CurrentArticles(p: Page, currentPage: Pagination.PageNumber): (r: seq<Article>)
    ensures |r| <= ArticlesPerPage
    ensures var filtered := FilteredArticles(p);
      r == Pagination.CurrentItems(filtered, Pagination.Pager(currentPage, |filtered|, ArticlesPerPage))
    ensures var start := (currentPage - 1) * ArticlesPerPage;
      |r| == if |FilteredArticles(p)| <= start then 0 else Min(start + ArticlesPerPage, |FilteredArticles(p)|) - start
    ensures var start := (currentPage - 1) * ArticlesPerPage;
      forall k :: 0 <= k < |r| ==> start + k < |FilteredArticles(p)| && r[k] == FilteredArticles(p)[start + k]
  {
    var filtered := FilteredArticles(p);
    Pagination.CurrentItems(filtered, Pagination.Pager(currentPage, |filtered|, ArticlesPerPage))
  }

  /** "Showing X to Y of N articles". */
  function ShowingLabel(p: Page, currentPage: Pagination.PageNumber): (r: (int, int, nat))
    ensures r.0 == (currentPage - 1) * ArticlesPerPage + 1
    ensures r.1 == Min(currentPage * ArticlesPerPage, |FilteredArticles(p)|)
    ensures r.2 == |FilteredArticles(p)|
  {
    var n := |FilteredArticles(p)|;
    var range := Pagination.ShowingRange(Pagination.Pager(currentPage, n, ArticlesPerPage), n);
    (range.0, range.1, n)
  }
}
