/** The public front page (src/pages/public/HomePage.tsx): the approved /
    category / search filter over the store's articles, the split into four
    slider articles and the list below, Back / Next paging of the server's
    pages, and the loader that tries a page up to three times. The date sort of
    the filtered list is left out: it is taken in its stored order. */
module HomePage {
  import opened Common
  import opened Types
  import NewsSlice
  import ApiNews

  const FeaturedCount: nat := 4
  const MaxRetries: nat := 2
  const FailureMessage := "Failed to load articles"

  /** Only approved articles; an empty category or search means no filter of
      that kind; both compare ignoring case. */
  predicate Shown(a: Article, f: NewsSlice.Filters) {
    && a.status == Approved
    && (f.category == [] || Lower(a.category) == Lower(f.category))
    && (f.search == [] || MatchesSearch(a.title, f.search) || MatchesSearch(a.excerpt, f.search)
        || MatchesSearch(a.content, f.search))
  }

  function FilteredArticles(articles: seq<Article>, f: NewsSlice.Filters): (r: seq<Article>)
    ensures forall k :: 0 <= k < |r| ==> r[k] in articles && Shown(r[k], f) && r[k].status == Approved
    ensures forall k :: 0 <= k < |articles| && Shown(articles[k], f) ==> articles[k] in r
  {
    Filter(articles, (a: Article) => Shown(a, f))
  }

  /** With neither a category nor a search, the page shows exactly the approved articles. */
  lemma NoFiltersShowApproved(articles: seq<Article>, f: NewsSlice.Filters)
    requires f.category == [] && f.search == []
    ensures forall k :: 0 <= k < |articles| ==> (articles[k] in FilteredArticles(articles, f) <==> articles[k].status == Approved)
  {
  }

  /** `filtered.slice(0, 4)` for the slider and `filtered.slice(4)` for the list. */
  function Featured(filtered: seq<Article>): (r: seq<Article>)
    ensures |r| == Min(FeaturedCount, |filtered|)
    ensures r == filtered[..|r|]
  {
    Slice(filtered, 0, FeaturedCount)
  }

  function Regular(filtered: seq<Article>): (r: seq<Article>)
    ensures |r| == |filtered| - Min(FeaturedCount, |filtered|)
    ensures forall k :: 0 <= k < |r| ==> r[k] == filtered[FeaturedCount + k]
  {
    Slice(filtered, FeaturedCount, |filtered|)
  }

  /** Nothing is lost or shown twice: slider then list is the filtered list. */
  lemma FeaturedThenRegular(filtered: seq<Article>)
    ensures Featured(filtered) + Regular(filtered) == filtered
  {
    var f, g := Featured(filtered), Regular(filtered);
    assert |f + g| == |filtered|;
    forall k | 0 <= k < |filtered| ensures (f + g)[k] == filtered[k] {
      if k >= |f| {
        assert (f + g)[k] == g[k - |f|];
      }
    }
  }

  // ---------------------------------------------------------------------------
  // Paging through the server's pages
  // ---------------------------------------------------------------------------

  datatype Paging = Paging(page: int, totalPages: int, hasMore: bool)

  const InitialPaging := Paging(1, 1, true)

  /** The page controls: shown for more than one page; Back on pages after the
      first, Next before the last. */
  datatype PageControls = NoControls | PageControls(showBack: bool, showNext: bool)

  function Controls(p: Paging): (r: PageControls)
    ensures r.PageControls? <==> p.totalPages > 1
    ensures r.PageControls? ==> (r.showBack <==> p.page > 1) && (r.showNext <==> p.page < p.totalPages)
  {
    if p.totalPages > 1 then PageControls(p.page > 1, p.page < p.totalPages) else NoControls
  }

  /** Back: `Math.max(1, p - 1)`. */
  function Back(p: Paging): (r: Paging)
    ensures r.page >= 1 && r.page >= p.page - 1
    ensures p.page > 1 ==> r.page == p.page - 1
    ensures r.(page := p.page) == p
  {
    p.(page := Max(1, p.page - 1))
  }

  /** Next: `p + 1`; the button exists only when `page < totalPages`. */
  function Next(p: Paging): (r: Paging)
    ensures r.page == p.page + 1
    ensures r.(page := p.page) == p
  {
    p.(page := p.page + 1)
  }

  /** Using only the buttons that are shown keeps the page within
      `1 .. totalPages` once it is there. */
  lemma ButtonsKeepPageInRange(p: Paging)
    requires 1 <= p.page <= p.totalPages
    ensures var c := Controls(p);
      && (c.PageControls? && c.showBack ==> 1 <= Back(p).page <= p.totalPages)
      && (c.PageControls? && c.showNext ==> 1 <= Next(p).page <= p.totalPages)
  {
  }

  /** `res.data?.totalPages || 1`: a missing or zero count is read as one page. */
  function TotalPagesOrOne(tp: Option<int>): (r: int)
    ensures tp.Some? && tp.value != 0 ==> r == tp.value
    ensures tp.None? || tp.value == 0 ==> r == 1
  {
    if tp.Some? && tp.value != 0 then tp.value else 1
  }

  /** What one request to `/news` produced. */
  datatype Response =
    | Failed
    | Succeeded(news: Option<seq<ApiNews.NewsRecord>>, totalPages: Option<int>)

  /** The result of a successful attempt on page and store. */
  function Accept(p: Paging, s: NewsSlice.NewsState, news: Option<seq<ApiNews.NewsRecord>>,
                  totalPages: Option<int>, now: string): (r: (Paging, NewsSlice.NewsState))
    ensures var fetched := ApiNews.ToArticles(news.GetOr([]), now);
      var tp := TotalPagesOrOne(totalPages);
      && r.0 == p.(totalPages := tp, hasMore := p.page < tp && |fetched| > 0)
      && r.1 == NewsSlice.SetArticles(s, fetched)
  {
    var fetched := ApiNews.ToArticles(news.GetOr([]), now);
    var tp := TotalPagesOrOne(totalPages);
    (p.(totalPages := tp, hasMore := p.page < tp && |fetched| > 0), NewsSlice.SetArticles(s, fetched))
  }

  /** The position of the first successful response, if any. */
  function FirstSuccess(responses: seq<Response>): (r: Option<nat>)
    ensures r.Some? ==> (r.value < |responses| && responses[r.value].Succeeded?
      && forall k :: 0 <= k < r.value ==> responses[k].Failed?)
    ensures r.None? ==> forall k :: 0 <= k < |responses| ==> responses[k].Failed?
  {
    if |responses| == 0 then None
    else if responses[0].Succeeded? then Some(0)
    else
      match FirstSuccess(responses[1..])
      case None => None
      case Some(i) => Some(i + 1)
  }

  /** The outcome of `loadPage` stated without the loop: the first success is
      taken; when all three attempts fail, the error is recorded instead. */
  function LoadOutcome(p: Paging, s: NewsSlice.NewsState, responses: seq<Response>, now: string)
    : (r: (Paging, NewsSlice.NewsState, nat))
    requires |responses| == MaxRetries + 1
  {
    var loading := NewsSlice.SetLoading(s, true);
    match FirstSuccess(responses)
    case Some(i) =>
      var (p', s') := Accept(p, loading, responses[i].news, responses[i].totalPages, now);
      (p', s', i + 1)
    case None => (p, NewsSlice.SetError(loading, Some(FailureMessage)), MaxRetries + 1)
  }

  /** `loadPage`: set loading, then try up to `MaxRetries + 1` times. The
      response to each attempt is the `responses` entry at that position (the
      600 ms pause between attempts is left out). */
  method LoadPage(p: Paging, s: NewsSlice.NewsState, responses: seq<Response>, now: string)
    returns (p': Paging, s': NewsSlice.NewsState, attempts: nat)
    requires |responses| == MaxRetries + 1
    ensures (p', s', attempts) == LoadOutcome(p, s, responses, now)
    ensures 1 <= attempts <= MaxRetries + 1
    ensures !s'.isLoading
    ensures s'.error != s.error ==> attempts == MaxRetries + 1 && s'.error == Some(FailureMessage)
    ensures p'.page == p.page
  {
    var loading := NewsSlice.SetLoading(s, true);
    p', s' := p, loading;
    attempts := 0;
    var done := false;
    while attempts <= MaxRetries && !done
      invariant 0 <= attempts <= MaxRetries + 1
      invariant forall k :: 0 <= k < attempts - (if done then 1 else 0) ==> responses[k].Failed?
      invariant done ==> (attempts >= 1 && responses[attempts - 1].Succeeded?
        && (p', s') == Accept(p, loading, responses[attempts - 1].news, responses[attempts - 1].totalPages, now))
      invariant !done && attempts <= MaxRetries ==> (p', s') == (p, loading)
      invariant !done && attempts == MaxRetries + 1 ==> (p', s') == (p, NewsSlice.SetError(loading, Some(FailureMessage)))
      decreases MaxRetries + 1 - attempts, if done then 0 else 1
    {
      var response := responses[attempts];
      if response.Succeeded? {
        var accepted := Accept(p, loading, response.news, response.totalPages, now);
        p', s' := accepted.0, accepted.1;
        done := true;
      } else if attempts == MaxRetries {
        s' := NewsSlice.SetError(loading, Some(FailureMessage));
      }
      attempts := attempts + 1;
    }
    FirstSuccessMatches(responses, attempts, done);
  }

  /** Ties the loop's exit to `FirstSuccess`. */
  lemma FirstSuccessMatches(responses: seq<Response>, attempts: nat, done: bool)
    requires 0 <= attempts <= |responses|
    requires forall k :: 0 <= k < attempts - (if done then 1 else 0) ==> responses[k].Failed?
    requires done ==> attempts >= 1 && responses[attempts - 1].Succeeded?
    requires !done ==> attempts == |responses|
    ensures done ==> FirstSuccess(responses) == Some(attempts - 1)
    ensures !done ==> FirstSuccess(responses).None?
  {
  }

  /** A first attempt that succeeds ends the loader after one request, and a
      page that comes back empty stops the "more" flag. */
  lemma FirstAttemptSucceeds(p: Paging, s: NewsSlice.NewsState, tp: Option<int>, now: string, rest: seq<Response>)
    requires |rest| == MaxRetries
    ensures var r := LoadOutcome(p, s, [Succeeded(Some([]), tp)] + rest, now);
      r.2 == 1 && r.1.articles == [] && !r.0.hasMore
  {
  }

  /** Three failures record the error and keep the articles already shown. */
  lemma ThreeFailures(p: Paging, s: NewsSlice.NewsState, now: string)
    ensures var r := LoadOutcome(p, s, [Failed, Failed, Failed], now);
      r.2 == 3 && r.1.error == Some(FailureMessage) && r.1.articles == s.articles && r.0 == p
  {
  }

  /** A success does not clear an error left by an earlier page load. */
  lemma SuccessKeepsOldError(p: Paging, s: NewsSlice.NewsState, news: Option<seq<ApiNews.NewsRecord>>,
                             tp: Option<int>, now: string)
    ensures LoadOutcome(p, s, [Succeeded(news, tp), Failed, Failed], now).1.error == s.error
  {
  }
}
