/** The new-article form of src/pages/employee/WriteArticle.tsx: the field
    rules checked before submission, saving a draft, the submission outcome and
    the word count under the editor. The editor's HTML is turned into text by
    the DOM, so that text is an input here. */
module WriteArticle {
  import opened Common

  datatype Form = Form(title: string, excerpt: string, content: string, category: string, imageUrl: string)

  /** The page's `status`: the form is a draft until the server accepts it. */
  datatype Status = Draft | Submitting | Submitted

  /** The keys of the page's error record. */
  datatype Field = Title | Excerpt | Content | CategoryField

  type Errors = map<Field, string>

  datatype Page = Page(form: Form, status: Status, errors: Errors)

  const EmptyForm := Form("", "", "", "", "")
  const InitialPage := Page(EmptyForm, Draft, map[])

  const MinTitleLength: nat := 10
  const MinExcerptLength: nat := 20
  const MinContentLength: nat := 100

  const TitleRequired := "Title is required"
  const TitleTooShort := "Title must be at least 10 characters"
  const ExcerptRequired := "Excerpt is required"
  const ExcerptTooShort := "Excerpt must be at least 20 characters"
  const ContentRequired := "Content is required"
  const ContentTooShort := "Content must be at least 100 characters"
  const CategoryRequired := "Category is required"
  const DraftNeedsTitle := "Title is required to save draft"

  /** One length rule: blank text is missing; otherwise its length as typed,
      white space included, must reach the minimum. */
  function LengthRule(text: string, min: nat, required: string, tooShort: string): (r: Option<string>)
    ensures r.Some? <==> IsBlank(text) || |text| < min
    ensures IsBlank(text) ==> r == Some(required)
    ensures !IsBlank(text) && |text| < min ==> r == Some(tooShort)
  {
    if IsBlank(text) then Some(required)
    else if |text| < min then Some(tooShort)
    else None
  }

  /** The record with `field` set to the message, when there is one. */
  function Record(errors: Errors, field: Field, message: Option<string>): Errors {
    if message.Some? then errors[field := message.value] else errors
  }

  /** `validateForm`, given the text of the content: title, excerpt and
      content by their length rules, and a category must be chosen. */
  function ValidateForm(form: Form, contentText: string): (r: Checked<Field>)
    ensures Title in r.errors <==> IsBlank(form.title) || |form.title| < MinTitleLength
    ensures Excerpt in r.errors <==> IsBlank(form.excerpt) || |form.excerpt| < MinExcerptLength
    ensures Content in r.errors <==> IsBlank(contentText) || |contentText| < MinContentLength
    ensures CategoryField in r.errors <==> form.category == []
    ensures Title in r.errors ==> r.errors[Title] == if IsBlank(form.title) then TitleRequired else TitleTooShort
    ensures Excerpt in r.errors ==>
      r.errors[Excerpt] == if IsBlank(form.excerpt) then ExcerptRequired else ExcerptTooShort
    ensures Content in r.errors ==>
      r.errors[Content] == if IsBlank(contentText) then ContentRequired else ContentTooShort
    ensures CategoryField in r.errors ==> r.errors[CategoryField] == CategoryRequired
    ensures r.ok <==>
      !IsBlank(form.title) && |form.title| >= MinTitleLength &&
      !IsBlank(form.excerpt) && |form.excerpt| >= MinExcerptLength &&
      !IsBlank(contentText) && |contentText| >= MinContentLength &&
      form.category != []
  {
    var title := LengthRule(form.title, MinTitleLength, TitleRequired, TitleTooShort);
    var excerpt := LengthRule(form.excerpt, MinExcerptLength, ExcerptRequired, ExcerptTooShort);
    var content := LengthRule(contentText, MinContentLength, ContentRequired, ContentTooShort);
    var category := if form.category == [] then Some(CategoryRequired) else None;
    var errors := Record(Record(Record(Record(map[], Title, title), Excerpt, excerpt), Content, content),
                         CategoryField, category);
    Checked(errors, errors == map[])
  }

  /** The minimum counts white space: a ten-character title with only three
      letters passes the title rule. */
  lemma PaddedTitlePasses(form: Form, contentText: string)
    requires form.title == "   abc    "
    ensures Title !in ValidateForm(form, contentText).errors
  {
    assert !IsSpace(form.title[3]);
    BlankIffAllSpace(form.title);
  }

  /** `handleSaveDraft`: refused with a title error when the title is blank;
      otherwise the status becomes draft and the errors stay as they were. */
  function SaveDraft(p: Page): (r: Page)
    ensures IsBlank(p.form.title) ==> r == p.(errors := map[Title := DraftNeedsTitle])
    ensures !IsBlank(p.form.title) ==> r == p.(status := Draft)
  {
    if IsBlank(p.form.title) then p.(errors := map[Title := DraftNeedsTitle])
    else p.(status := Draft)
  }

  /** A form that passes validation can always be saved as a draft. */
  lemma SubmittableSavesAsDraft(p: Page, contentText: string)
    requires ValidateForm(p.form, contentText).ok
    ensures SaveDraft(p).status == Draft && SaveDraft(p).errors == p.errors
  {
  }

  /** What the `POST news` request produced. */
  datatype Response = RequestFailed | Responded(httpStatus: int)

  /** `handleSubmit`: the errors of validation are stored; a valid form is sent,
      and only a response with status 200 makes the article submitted. */
  function Submit(p: Page, contentText: string, response: Response): (r: Page)
    ensures r.form == p.form
    ensures r.errors == ValidateForm(p.form, contentText).errors
    ensures r.status == Submitted <==>
      (ValidateForm(p.form, contentText).ok && response == Responded(200)) || (p.status == Submitted)
    ensures r.status != Submitted ==> r.status == p.status
  {
    var checked := ValidateForm(p.form, contentText);
    var validated := p.(errors := checked.errors);
    if !checked.ok then validated
    else if response == Responded(200) then validated.(status := Submitted)
    else validated
  }

  /** An invalid form is never sent, whatever the server would say. */
  lemma InvalidFormNotSubmitted(p: Page, contentText: string, response: Response)
    requires !ValidateForm(p.form, contentText).ok && p.status != Submitted
    ensures Submit(p, contentText, response).status == p.status
  {
  }

  // ---------------------------------------------------------------------------
  // Word count: `contentText.split(/\s+/).filter(Boolean).length`
  // ---------------------------------------------------------------------------

  /** A word starts at `i` when `i` holds a non-space and its left neighbour,
      if any, is white space. */
  predicate IsWordStart(t: string, i: nat)
    requires i < |t|
  {
    !IsSpace(t[i]) && (i == 0 || IsSpace(t[i - 1]))
  }

  /** The number of words starting before position `n`: the non-empty pieces
      the split leaves in `t[..n]`. */
  function WordStarts(t: string, n: nat): nat
    requires n <= |t|
  {
    if n == 0 then 0 else WordStarts(t, n - 1) + (if IsWordStart(t, n - 1) then 1 else 0)
  }

  /** The word count, by one pass that remembers whether it is inside a word. */
  method WordCount(t: string) returns (count: nat)
    ensures count == WordStarts(t, |t|)
  {
    count := 0;
    var inWord := false;
    var i := 0;
    while i < |t|
      invariant 0 <= i <= |t|
      invariant count == WordStarts(t, i)
      invariant inWord <==> i > 0 && !IsSpace(t[i - 1])
    {
      if IsSpace(t[i]) {
        inWord := false;
      } else {
        if !inWord {
          count := count + 1;
        }
        inWord := true;
      }
      i := i + 1;
    }
  }

  /** No words exactly when everything so far is white space. */
  lemma {:induction false} NoWordsIffBlank(t: string, n: nat)
    requires n <= |t|
    ensures WordStarts(t, n) == 0 <==> forall k :: 0 <= k < n ==> IsSpace(t[k])
  {
    if n > 0 {
      NoWordsIffBlank(t, n - 1);
    }
  }

  /** Blank content has no words, and text with no white space is one word. */
  lemma WordCountExtremes(t: string)
    ensures IsBlank(t) <==> WordStarts(t, |t|) == 0
    ensures t != [] && (forall k :: 0 <= k < |t| ==> !IsSpace(t[k])) ==> WordStarts(t, |t|) == 1
  {
    BlankIffAllSpace(t);
    NoWordsIffBlank(t, |t|);
    if t != [] && forall k :: 0 <= k < |t| ==> !IsSpace(t[k]) {
      OneRunOneWord(t, |t|);
    }
  }

  /** A prefix without white space holds one word. */
  lemma {:induction false} OneRunOneWord(t: string, n: nat)
    requires 0 < n <= |t|
    requires forall k :: 0 <= k < n ==> !IsSpace(t[k])
    ensures WordStarts(t, n) == 1
  {
    if n > 1 {
      OneRunOneWord(t, n - 1);
    }
  }
}
