/** The news record the back end returns, and how the home page
    (src/pages/public/HomePage.tsx) and the article page
    (src/pages/public/ArticleDetail.tsx) turn it into an `Article`. Absent
    fields are `None`; the JavaScript `||` fallbacks also replace an empty
    string. Turning `publishedDate` into an ISO string is date formatting and is
    left out: the date is kept as given, and the current time is a parameter. */
module ApiNews {
  import opened Common
  import opened Types

  datatype NewsRecord = NewsRecord(
    id: string,
    heading: string,
    content: string,
    subheading: Option<string>,
    imageUrl: Option<string>,
    category: string,
    employeeName: Option<string>,
    publishedDate: Option<string>,
    views: Option<int>)

  /** `x || fallback` for an optional string: an absent or empty value falls back. */
  function OrElse(x: Option<string>, fallback: string): (r: string)
    ensures x.Some? && x.value != [] ==> r == x.value
    ensures x.None? || x.value == [] ==> r == fallback
  {
    if x.Some? && x.value != [] then x.value else fallback
  }

  /** The mapping both pages share; `views` is left for the caller. */
  function ToArticle(n: NewsRecord, now: string): (a: Article)
    ensures a.id == n.id && a.title == n.heading && a.content == n.content && a.category == n.category
    ensures a.status == Approved
    ensures a.excerpt == OrElse(n.subheading, "")
    ensures a.imageUrl == Some(OrElse(n.imageUrl, ""))
    ensures a.author == Author("unknown", OrElse(n.employeeName, "Unknown"))
    ensures a.author.name != []
    ensures n.publishedDate.Some? && n.publishedDate.value != [] ==>
      a.createdAt == a.updatedAt == n.publishedDate.value && a.publishedAt == n.publishedDate
    ensures n.publishedDate.None? || n.publishedDate.value == [] ==>
      a.createdAt == a.updatedAt == now && a.publishedAt.None?
    ensures a.views.None?
  {
    var published := n.publishedDate.Some? && n.publishedDate.value != [];
    var stamp := if published then n.publishedDate.value else now;
    Article(
      n.id, n.heading, n.content, OrElse(n.subheading, ""), Some(OrElse(n.imageUrl, "")), n.category,
      Author("unknown", OrElse(n.employeeName, "Unknown")), Approved,
      stamp, stamp, if published then n.publishedDate else None, None, None)
  }

  /** The home page's list mapping, record by record. */
  function ToArticles(ns: seq<NewsRecord>, now: string): (r: seq<Article>)
    ensures |r| == |ns|
    ensures forall k :: 0 <= k < |ns| ==> r[k] == ToArticle(ns[k], now)
  {
    seq(|ns|, k requires 0 <= k < |ns| => ToArticle(ns[k], now))
  }

  /** The article page's mapping: the same record plus a view count, which is
      0 unless the back end sent a number. */
  function ToArticleWithViews(n: NewsRecord, now: string): (a: Article)
    ensures a.views == Some(n.views.GetOr(0))
    ensures a.(views := None) == ToArticle(n, now)
    ensures a.status == Approved && a.excerpt == OrElse(n.subheading, "") && a.author.name != []
  {
    ToArticle(n, now).(views := Some(n.views.GetOr(0)))
  }

  /** A record with every optional field missing maps to the documented defaults. */
  lemma BareRecordDefaults(id: string, heading: string, content: string, category: string, now: string)
    ensures var a := ToArticleWithViews(NewsRecord(id, heading, content, None, None, category, None, None, None), now);
      a.excerpt == "" && a.author.name == "Unknown" && a.views == Some(0) && a.status == Approved
      && a.createdAt == now && a.publishedAt.None?
  {
  }
}
