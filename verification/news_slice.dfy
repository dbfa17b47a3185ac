/** The `news` slice of the store (src/store/slices/newsSlice.ts): each reducer
    is a pure function from the old state and the action's payload to the new
    state. */
module NewsSlice {
  import opened Common
  import opened Types

  /** `filters.status` is optional in the state type. */
  datatype Filters = Filters(category: string, search: string, status: Option<string>)

  datatype NewsState = NewsState(
    articles: seq<Article>,
    categories: seq<Category>,
    isLoading: bool,
    error: Option<string>,
    filters: Filters)

  /** `Partial<filters>`: a key the payload leaves out is `None`. */
  datatype FiltersPatch = FiltersPatch(category: Option<string>, search: Option<string>, status: Option<Option<string>>)

  const InitialCategories: seq<Category> := [
    Category("1", "Politics", "politics", "bg-red-500"),
    Category("2", "Technology", "technology", "bg-blue-500"),
    Category("3", "Sports", "sports", "bg-green-500"),
    Category("4", "Business", "business", "bg-yellow-500"),
    Category("5", "Entertainment", "entertainment", "bg-purple-500"),
    Category("6", "Health", "health", "bg-pink-500")
  ]

  const InitialState: NewsState :=
    NewsState([], InitialCategories, false, None, Filters("", "", None))

  function SetLoading(s: NewsState, loading: bool): (r: NewsState)
    ensures r.isLoading == loading
    ensures r.(isLoading := s.isLoading) == s
  {
    s.(isLoading := loading)
  }

  /** `setArticles`: replaces the list and ends loading. */
  function SetArticles(s: NewsState, payload: seq<Article>): (r: NewsState)
    ensures r.articles == payload && !r.isLoading
    ensures r.(articles := s.articles, isLoading := s.isLoading) == s
  {
    s.(articles := payload, isLoading := false)
  }

  /** `combined.filter((a, i, self) => self.findIndex(x => x.id === a.id) === i)`
      from position `i` on. */
  function KeepFirstOccurrences(self: seq<Article>, i: nat): (r: seq<Article>)
    requires i <= |self|
    ensures |r| <= |self| - i
    decreases |self| - i
  {
    if i == |self| then []
    else if IndexOfId(self, self[i].id) == i then [self[i]] + KeepFirstOccurrences(self, i + 1)
    else KeepFirstOccurrences(self, i + 1)
  }

  /** Everything the filter keeps is the first element of `self` with its id,
      found at or after `i`; hence no id is kept twice. */
  lemma {:induction false} KeptAreFirstOccurrences(self: seq<Article>, i: nat)
    requires i <= |self|
    ensures forall k :: 0 <= k < |KeepFirstOccurrences(self, i)| ==>
      IsFirstOccurrenceFrom(self, i, KeepFirstOccurrences(self, i)[k])
    ensures DistinctIds(KeepFirstOccurrences(self, i))
    decreases |self| - i
  {
    if i < |self| {
      KeptAreFirstOccurrences(self, i + 1);
      var tail := KeepFirstOccurrences(self, i + 1);
      if IndexOfId(self, self[i].id) == i {
        var r := [self[i]] + tail;
        assert KeepFirstOccurrences(self, i) == r;
        forall k | 0 <= k < |r| ensures IsFirstOccurrenceFrom(self, i, r[k]) {
          if k > 0 {
            assert r[k] == tail[k - 1];
            assert IsFirstOccurrenceFrom(self, i + 1, tail[k - 1]);
          }
        }
        forall p, q | 0 <= p < q < |r| ensures r[p].id != r[q].id {
          assert r[q] == tail[q - 1];
          assert IsFirstOccurrenceFrom(self, i + 1, tail[q - 1]);
          if p > 0 { assert r[p] == tail[p - 1]; }
        }
      } else {
        assert KeepFirstOccurrences(self, i) == tail;
        forall k | 0 <= k < |tail| ensures IsFirstOccurrenceFrom(self, i, tail[k]) {
          assert IsFirstOccurrenceFrom(self, i + 1, tail[k]);
        }
      }
    }
  }

  /** `a` is the first element of `self` with its id, at position `i` or later. */
  predicate IsFirstOccurrenceFrom(self: seq<Article>, i: nat, a: Article) {
    var j := IndexOfId(self, a.id);
    i <= j && self[j] == a
  }

  /** Every first occurrence from position `i` on survives the filter. */
  lemma {:induction false} FirstOccurrenceKept(self: seq<Article>, i: nat, j: nat)
    requires i <= j < |self| && IndexOfId(self, self[j].id) == j
    ensures self[j] in KeepFirstOccurrences(self, i)
    decreases j - i
  {
    if i < j {
      FirstOccurrenceKept(self, i + 1, j);
    }
  }

  /** When every position of `self[i..n]` is the first occurrence of its id,
      the filter keeps that whole stretch in front of what it keeps from `n` on. */
  lemma {:induction false} FirstsKept(self: seq<Article>, n: nat, i: nat)
    requires i <= n <= |self|
    requires forall j {:trigger IndexOfId(self, self[j].id)} :: i <= j < n ==> IndexOfId(self, self[j].id) == j
    ensures KeepFirstOccurrences(self, i) == self[i..n] + KeepFirstOccurrences(self, n)
    decreases n - i
  {
    if i < n {
      FirstsKept(self, n, i + 1);
      FirstOccurrenceStep(self, i);
      ConsSlice(self, i, n, KeepFirstOccurrences(self, n));
    }
  }

  /** The filter keeps a first occurrence in front of what it keeps after it. */
  lemma FirstOccurrenceStep(self: seq<Article>, i: nat)
    requires i < |self| && IndexOfId(self, self[i].id) == i
    ensures KeepFirstOccurrences(self, i) == [self[i]] + KeepFirstOccurrences(self, i + 1)
  {
  }

  lemma ConsSlice<T>(s: seq<T>, i: nat, n: nat, rest: seq<T>)
    requires i < n <= |s|
    ensures [s[i]] + (s[i + 1..n] + rest) == s[i..n] + rest
  {
    assert [s[i]] + s[i + 1..n] == s[i..n];
  }

  /** In a list that starts with a duplicate-free prefix, each position of the
      prefix is the first occurrence of its id. */
  lemma DistinctPrefixIsFirst(old_: seq<Article>, incoming: seq<Article>, i: nat)
    requires DistinctIds(old_) && i < |old_|
    ensures IndexOfId(old_ + incoming, (old_ + incoming)[i].id) == i
  {
    var self := old_ + incoming;
    forall k | 0 <= k < i ensures self[k].id != self[i].id {
      assert self[k] == old_[k] && self[i] == old_[i];
    }
    IndexOfIdAt(self, i);
  }

  /** With the old list free of duplicates, each of its positions is a first
      occurrence, so the filter keeps the old list as a prefix. */
  lemma OldPrefixKept(old_: seq<Article>, incoming: seq<Article>)
    requires DistinctIds(old_)
    ensures KeepFirstOccurrences(old_ + incoming, 0)
      == old_ + KeepFirstOccurrences(old_ + incoming, |old_|)
  {
    var self := old_ + incoming;
    forall j | 0 <= j < |old_| ensures IndexOfId(self, self[j].id) == j {
      DistinctPrefixIsFirst(old_, incoming, j);
    }
    FirstsKept(self, |old_|, 0);
    assert self[0..|old_|] == old_;
  }

  /** `appendArticles`: old ++ new, keeping only the first article of each id. */
  function AppendArticles(s: NewsState, payload: seq<Article>): (r: NewsState)
    ensures DistinctIds(r.articles)
    ensures forall a :: a in r.articles ==> a in s.articles || a in payload
    ensures forall a :: a in s.articles + payload ==> exists b :: b in r.articles && b.id == a.id
    ensures !r.isLoading
    ensures r.(articles := s.articles, isLoading := s.isLoading) == s
  {
    var combined := s.articles + payload;
    var deduped := KeepFirstOccurrences(combined, 0);
    KeptAreFirstOccurrences(combined, 0);
    assert forall a :: a in combined ==> exists b :: b in deduped && b.id == a.id by {
      forall a | a in combined
        ensures exists b :: b in deduped && b.id == a.id
      {
        var j := IndexOfId(combined, a.id);
        FirstOccurrenceKept(combined, 0, j);
        assert combined[j] in deduped;
      }
    }
    s.(articles := deduped, isLoading := false)
  }

  /** When the current list has no duplicate ids, appending keeps it unchanged
      at the front, and what follows is only incoming articles whose id was not
      already present (so an incoming duplicate never replaces the old one). */
  lemma AppendKeepsExistingInPlace(s: NewsState, payload: seq<Article>)
    requires DistinctIds(s.articles)
    ensures var r := AppendArticles(s, payload).articles;
      && |s.articles| <= |r|
      && r[..|s.articles|] == s.articles
      && (forall k :: |s.articles| <= k < |r| ==> r[k] in payload && r[k].id !in Ids(s.articles))
  {
    assert AppendArticles(s, payload).articles == KeepFirstOccurrences(s.articles + payload, 0);
    KeptShape(s.articles, payload);
  }

  /** The de-duplicated concatenation is the old list followed by incoming
      articles with new ids. */
  lemma KeptShape(old_: seq<Article>, incoming: seq<Article>)
    requires DistinctIds(old_)
    ensures var r := KeepFirstOccurrences(old_ + incoming, 0);
      && |old_| <= |r|
      && r[..|old_|] == old_
      && (forall k :: |old_| <= k < |r| ==> r[k] in incoming && r[k].id !in Ids(old_))
  {
    var n := |old_|;
    var tail := KeepFirstOccurrences(old_ + incoming, n);
    var r := KeepFirstOccurrences(old_ + incoming, 0);
    OldPrefixKept(old_, incoming);
    assert r[..n] == old_;
    KeptTailIsNew(old_, incoming);
    forall k | n <= k < |r|
      ensures r[k] in incoming && r[k].id !in Ids(old_)
    {
      assert r[k] == tail[k - n];
    }
  }

  /** What the filter keeps past the old list is incoming articles with ids the
      old list does not have. */
  lemma KeptTailIsNew(old_: seq<Article>, incoming: seq<Article>)
    ensures var tail := KeepFirstOccurrences(old_ + incoming, |old_|);
      forall k :: 0 <= k < |tail| ==> tail[k] in incoming && tail[k].id !in Ids(old_)
  {
    var n := |old_|;
    var combined := old_ + incoming;
    var tail := KeepFirstOccurrences(combined, n);
    KeptAreFirstOccurrences(combined, n);
    forall k | 0 <= k < |tail|
      ensures tail[k] in incoming && tail[k].id !in Ids(old_)
    {
      var x := tail[k];
      assert IsFirstOccurrenceFrom(combined, n, x);
      var j := IndexOfId(combined, x.id);
      assert x == incoming[j - n];
      forall m | 0 <= m < n ensures Ids(old_)[m] != x.id {
        assert combined[m] == old_[m];
      }
    }
  }

  /** `addArticle`: the new article goes to the front. */
  function AddArticle(s: NewsState, a: Article): (r: NewsState)
    ensures |r.articles| == |s.articles| + 1
    ensures r.articles[0] == a && r.articles[1..] == s.articles
    ensures r.(articles := s.articles) == s
  {
    s.(articles := [a] + s.articles)
  }

  /** `updateArticle`: the first article with the payload's id is replaced. */
  function UpdateArticle(s: NewsState, a: Article): (r: NewsState)
    ensures |r.articles| == |s.articles|
    ensures IndexOfId(s.articles, a.id) == -1 ==> r == s
    ensures var i := IndexOfId(s.articles, a.id);
      i >= 0 ==> (r.articles[i] == a
        && forall k :: 0 <= k < |s.articles| && k != i ==> r.articles[k] == s.articles[k])
    ensures r.(articles := s.articles) == s
  {
    var i := IndexOfId(s.articles, a.id);
    if i != -1 then s.(articles := s.articles[i := a]) else s
  }

  /** Applying the same update twice is the same as applying it once. */
  lemma UpdateIdempotent(s: NewsState, a: Article)
    ensures UpdateArticle(UpdateArticle(s, a), a) == UpdateArticle(s, a)
  {
    var i := IndexOfId(s.articles, a.id);
    if i >= 0 {
      var r := UpdateArticle(s, a);
      assert IndexOfId(r.articles, a.id) == i by {
        assert r.articles[i].id == a.id;
        assert forall k :: 0 <= k < i ==> r.articles[k] == s.articles[k];
      }
    }
  }

  /** `deleteArticle`: every article with the id goes, the rest stay in order. */
  function DeleteArticle(s: NewsState, id: string): (r: NewsState)
    ensures forall k :: 0 <= k < |r.articles| ==> r.articles[k] in s.articles && r.articles[k].id != id
    ensures forall k :: 0 <= k < |s.articles| && s.articles[k].id != id ==> s.articles[k] in r.articles
    ensures IndexOfId(r.articles, id) == -1
    ensures r.(articles := s.articles) == s
  {
    s.(articles := WithoutArticle(s.articles, id))
  }

  /** Deleting the same id again changes nothing. */
  lemma DeleteIdempotent(s: NewsState, id: string)
    ensures DeleteArticle(DeleteArticle(s, id), id) == DeleteArticle(s, id)
  {
    WithoutAbsentArticle(DeleteArticle(s, id).articles, id);
  }

  /** `setFilters`: a shallow merge; keys missing from the payload keep their value. */
  function SetFilters(s: NewsState, patch: FiltersPatch): (r: NewsState)
    ensures r.filters.category == (if patch.category.Some? then patch.category.value else s.filters.category)
    ensures r.filters.search == (if patch.search.Some? then patch.search.value else s.filters.search)
    ensures r.filters.status == (if patch.status.Some? then patch.status.value else s.filters.status)
    ensures r.(filters := s.filters) == s
  {
    var f := s.filters;
    s.(filters := Filters(
      patch.category.GetOr(f.category),
      patch.search.GetOr(f.search),
      patch.status.GetOr(f.status)))
  }

  /** An empty patch is a no-op, and a patch applied twice equals it applied once. */
  lemma SetFiltersLaws(s: NewsState, patch: FiltersPatch)
    ensures SetFilters(s, FiltersPatch(None, None, None)) == s
    ensures SetFilters(SetFilters(s, patch), patch) == SetFilters(s, patch)
  {
  }

  /** `setError`: records the error (or clears it) and ends loading. */
  function SetError(s: NewsState, e: Option<string>): (r: NewsState)
    ensures r.error == e && !r.isLoading
    ensures r.(error := s.error, isLoading := s.isLoading) == s
  {
    s.(error := e, isLoading := false)
  }

  datatype NewsAction =
    | SetLoadingAction(loading: bool)
    | SetArticlesAction(articles: seq<Article>)
    | AppendArticlesAction(articles: seq<Article>)
    | AddArticleAction(article: Article)
    | UpdateArticleAction(article: Article)
    | DeleteArticleAction(id: string)
    | SetFiltersAction(patch: FiltersPatch)
    | SetErrorAction(error: Option<string>)

  /** The slice's reducer. No action touches the category list, and every
      action that loads data ends the loading state. */
  function Reduce(s: NewsState, action: NewsAction): (r: NewsState)
    ensures r.categories == s.categories
    ensures action.SetArticlesAction? || action.AppendArticlesAction? || action.SetErrorAction? ==> !r.isLoading
    ensures (action.AddArticleAction? || action.UpdateArticleAction? || action.DeleteArticleAction?
      || action.SetFiltersAction?) ==> r.isLoading == s.isLoading
  {
    match action
    case SetLoadingAction(b) => SetLoading(s, b)
    case SetArticlesAction(xs) => SetArticles(s, xs)
    case AppendArticlesAction(xs) => AppendArticles(s, xs)
    case AddArticleAction(a) => AddArticle(s, a)
    case UpdateArticleAction(a) => UpdateArticle(s, a)
    case DeleteArticleAction(id) => DeleteArticle(s, id)
    case SetFiltersAction(p) => SetFilters(s, p)
    case SetErrorAction(e) => SetError(s, e)
  }
}
