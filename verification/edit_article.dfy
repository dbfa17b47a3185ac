/** The edit form of src/pages/employee/EditArticle.tsx: the form's starting
    values, the non-blank rule on four fields, and what submitting does to the
    page. The request itself is an input: its outcome is passed in. */
module EditArticle {
  import opened Common
  import opened Types
  import ApiNews

  datatype Form = Form(title: string, excerpt: string, content: string, category: string, imageUrl: string)

  /** The page's `status`. */
  datatype Status = Idle | Loading | Saving

  datatype Field = Title | Excerpt | Content | CategoryField

  datatype Page = Page(form: Form, status: Status, errors: map<Field, string>, navigatedTo: Option<string>)

  const MyArticlesPath := "/employee/my-articles"

  /** The form as the page opens it: the fields of the article handed over by
      the previous page, each `""` when there is none. */
  function InitialForm(handed: Option<Article>): (f: Form)
    ensures handed.None? ==> f == Form("", "", "", "", "")
    ensures handed.Some? ==>
      var a := handed.value;
      f.title == a.title && f.excerpt == a.excerpt && f.content == a.content && f.category == a.category
    ensures handed.Some? ==> f.imageUrl == handed.value.imageUrl.GetOr("")
  {
    match handed
    case None => Form("", "", "", "", "")
    case Some(a) => Form(a.title, a.excerpt, a.content, a.category, a.imageUrl.GetOr(""))
  }

  /** The form filled from the back end's record when no article was handed over:
      every missing field becomes `""`. */
  function LoadedForm(n: ApiNews.NewsRecord): (f: Form)
    ensures f.title == n.heading && f.content == n.content && f.category == n.category
    ensures f.excerpt == ApiNews.OrElse(n.subheading, "") && f.imageUrl == ApiNews.OrElse(n.imageUrl, "")
  {
    Form(n.heading, ApiNews.OrElse(n.subheading, ""), n.content, n.category, ApiNews.OrElse(n.imageUrl, ""))
  }

  /** The form fetched for an article is the form that article would have
      opened with when handed over. */
  lemma LoadedMatchesHanded(n: ApiNews.NewsRecord, now: string)
    ensures LoadedForm(n) == InitialForm(Some(ApiNews.ToArticle(n, now)))
  {
  }

  /** `validate`: each of the four text fields must be non-blank. */
  function Validate(f: Form): (r: Checked<Field>)
    ensures Title in r.errors <==> IsBlank(f.title)
    ensures Excerpt in r.errors <==> IsBlank(f.excerpt)
    ensures Content in r.errors <==> IsBlank(f.content)
    ensures CategoryField in r.errors <==> IsBlank(f.category)
    ensures r.ok <==> !IsBlank(f.title) && !IsBlank(f.excerpt) && !IsBlank(f.content) && !IsBlank(f.category)
  {
    var e1: map<Field, string> := if IsBlank(f.title) then map[Title := "Title is required"] else map[];
    var e2 := if IsBlank(f.excerpt) then e1[Excerpt := "Excerpt is required"] else e1;
    var e3 := if IsBlank(f.content) then e2[Content := "Content is required"] else e2;
    var e4 := if IsBlank(f.category) then e3[CategoryField := "Category is required"] else e3;
    Checked(e4, e4 == map[])
  }

  /** A form opened with nothing handed over fails on all four fields. */
  lemma EmptyFormFailsEverywhere()
    ensures Validate(InitialForm(None)).errors.Keys == {Title, Excerpt, Content, CategoryField}
  {
  }

  /** What the `PUT` request did. */
  datatype Outcome = Saved | SaveFailed

  /** `handleSubmit`: nothing without a route id; an invalid form only shows
      its errors; a valid one is sent, the status is back to idle afterwards
      either way, and only a successful save moves on to the article list. */
  function Submit(p: Page, id: Option<string>, outcome: Outcome): (r: Page)
    ensures id.None? || id.value == [] ==> r == p
    ensures id.Some? && id.value != [] ==> r.form == p.form && r.errors == Validate(p.form).errors
    ensures id.Some? && id.value != [] && !Validate(p.form).ok ==> r.status == p.status && r.navigatedTo == p.navigatedTo
    ensures id.Some? && id.value != [] && Validate(p.form).ok ==>
      r.status == Idle && r.errors == map[] &&
      r.navigatedTo == (if outcome == Saved then Some(MyArticlesPath) else p.navigatedTo)
  {
    if id.None? || id.value == [] then p
    else
      var checked := Validate(p.form);
      if !checked.ok then p.(errors := checked.errors)
      else
        var saving := p.(errors := checked.errors, status := Saving);
        var after := if outcome == Saved then saving.(navigatedTo := Some(MyArticlesPath)) else saving;
        after.(status := Idle)
  }

  /** A failed save leaves the page as it was apart from clearing the errors
      and returning to idle, so the same form can be sent again. */
  lemma FailedSaveCanRetry(p: Page, id: string)
    requires id != [] && Validate(p.form).ok
    ensures Submit(p, Some(id), SaveFailed) == p.(errors := map[], status := Idle)
    ensures Submit(Submit(p, Some(id), SaveFailed), Some(id), Saved) == Submit(p, Some(id), Saved)
  {
  }
}
