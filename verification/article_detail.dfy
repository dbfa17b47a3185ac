/** The text helpers of the article page (src/pages/public/ArticleDetail.tsx):
    turning HTML content into speakable text, the text read aloud, the reading
    time, the choice of a default voice, and the list of related articles. The
    speech engine, the DOM's `innerText` and the network are inputs. */
module ArticleDetail {
  import opened Common
  import opened Types
  import ApiNews

  // ---------------------------------------------------------------------------
  // stripTags: `html.replace(/<[^>]*>/g, " ").replace(/\s+/g, " ").trim()`
  // ---------------------------------------------------------------------------

  /** No `<` has a `>` anywhere after it. */
  predicate NoTag(s: string) {
    forall i, j :: 0 <= i < j < |s| && s[i] == '<' ==> s[j] != '>'
  }

  /** No two white-space characters in a row. */
  predicate NoDoubleSpace(s: string) {
    forall i :: 0 <= i < |s| - 1 ==> !(IsSpace(s[i]) && IsSpace(s[i + 1]))
  }

  /** Every character is a space or comes from `source`. */
  predicate FromSource(r: string, source: string) {
    forall k :: 0 <= k < |r| ==> r[k] == ' ' || r[k] in source
  }

  /** Where the first `>` after a leading `<` is, when `s` starts a tag. */
  predicate StartsTag(s: string)
    requires |s| > 0
  {
    s[0] == '<' && IndexOfChar(s, '>', 1) >= 0
  }

  /** How much of `s` the first expression consumes at its head: a whole tag,
      up to and including its first `>`, or one character. */
  function HeadLength(s: string): (n: nat)
    requires |s| > 0
    ensures 1 <= n <= |s|
    ensures !StartsTag(s) ==> n == 1
  {
    if StartsTag(s) then IndexOfChar(s, '>', 1) + 1 else 1
  }

  /** What the first expression writes for the head of `s`: one space for a
      tag, the character itself otherwise. */
  function HeadChar(s: string): (c: char)
    requires |s| > 0
    ensures c == ' ' || c == s[0]
    ensures c == '<' ==> forall k :: 1 <= k < |s| ==> s[k] != '>'
  {
    if StartsTag(s) then ' ' else s[0]
  }

  /** The first regular expression: scanning left to right, a `<` that has a
      `>` somewhere after it starts a match that runs to the first such `>`, and
      the match becomes one space. A `<` with no `>` after it stays. */
  function ReplaceTags(s: string): string
    decreases |s|
  {
    if |s| == 0 then [] else [HeadChar(s)] + ReplaceTags(s[HeadLength(s)..])
  }

  /** Every character the first expression leaves is a space or one of the input's. */
  lemma {:induction false} ReplaceTagsFromSource(s: string)
    ensures FromSource(ReplaceTags(s), s)
    decreases |s|
  {
    if |s| > 0 {
      var from := HeadLength(s);
      ReplaceTagsFromSource(s[from..]);
      FromSourceCons(HeadChar(s), ReplaceTags(s[from..]), s, from);
    }
  }

  /** After the first expression no `<` has a `>` after it. */
  lemma {:induction false} ReplaceTagsNoTag(s: string)
    ensures NoTag(ReplaceTags(s))
    decreases |s|
  {
    if |s| > 0 {
      var c := HeadChar(s);
      var rest := ReplaceTags(s[HeadLength(s)..]);
      ReplaceTagsNoTag(s[HeadLength(s)..]);
      if c == '<' {
        assert HeadLength(s) == 1;
        NoCloseAfter(s);
        ReplaceTagsFromSource(s[1..]);
        NotFromSource(rest, s[1..], '>');
      }
      NoTagCons(c, rest);
    }
  }

  /** When the head of `s` writes `<`, the rest of `s` holds no `>`. */
  lemma NoCloseAfter(s: string)
    requires |s| > 0 && HeadChar(s) == '<'
    ensures forall k :: 0 <= k < |s[1..]| ==> s[1..][k] != '>'
  {
    forall k | 0 <= k < |s[1..]| ensures s[1..][k] != '>' {
      assert s[1..][k] == s[k + 1];
    }
  }

  /** A character put in front of text taken from a suffix of `s`. */
  lemma FromSourceCons(c: char, rest: string, s: string, from: nat)
    requires from <= |s| && (c == ' ' || c in s) && FromSource(rest, s[from..])
    ensures FromSource([c] + rest, s)
  {
    forall k | 0 <= k < |[c] + rest| ensures ([c] + rest)[k] == ' ' || ([c] + rest)[k] in s {
      if k > 0 && rest[k - 1] != ' ' {
        assert rest[k - 1] in s[from..];
      }
    }
  }

  /** A character other than a space that the source lacks cannot appear. */
  lemma NotFromSource(r: string, source: string, c: char)
    requires FromSource(r, source) && c != ' '
    requires forall k :: 0 <= k < |source| ==> source[k] != c
    ensures forall k :: 0 <= k < |r| ==> r[k] != c
  {
  }

  /** `NoTag` of a string built from its first character. */
  lemma NoTagCons(c: char, rest: string)
    requires NoTag(rest) && (c == '<' ==> forall k :: 0 <= k < |rest| ==> rest[k] != '>')
    ensures NoTag([c] + rest)
  {
    var s := [c] + rest;
    forall i, j | 0 <= i < j < |s| && s[i] == '<' ensures s[j] != '>' {
      assert s[j] == rest[j - 1];
      if i > 0 {
        assert s[i] == rest[i - 1];
      }
    }
  }

  /** The second regular expression: every run of white space becomes one space. */
  function CollapseSpaces(s: string): (r: string)
    ensures |r| <= |s|
    ensures FromSource(r, s)
    ensures NoDoubleSpace(r)
    ensures |s| > 0 ==> |r| > 0 && (IsSpace(s[0]) <==> IsSpace(r[0]))
    ensures (forall k :: 0 <= k < |s| ==> !IsSpace(s[k])) ==> r == s
    decreases |s|
  {
    if |s| == 0 then []
    else if IsSpace(s[0]) then
      var rest := TrimStart(s);
      assert |rest| < |s|;
      var r := CollapseSpaces(rest);
      FromSourceCons(' ', r, s, |s| - |rest|);
      " " + r
    else
      var r := CollapseSpaces(s[1..]);
      FromSourceCons(s[0], r, s, 1);
      assert (forall k :: 0 <= k < |s| ==> !IsSpace(s[k])) ==> r == s[1..] by {
        if forall k :: 0 <= k < |s| ==> !IsSpace(s[k]) {
          assert forall k :: 0 <= k < |s[1..]| ==> !IsSpace(s[1..][k]) by {
            forall k | 0 <= k < |s[1..]| ensures !IsSpace(s[1..][k]) {
              assert s[1..][k] == s[k + 1];
            }
          }
        }
      }
      [s[0]] + r
  }

  /** Collapsing white space keeps every other character, in order. */
  lemma {:induction false} CollapseKeepsText(s: string)
    ensures NonSpace(CollapseSpaces(s)) == NonSpace(s)
    decreases |s|
  {
    if |s| > 0 {
      if IsSpace(s[0]) {
        var rest := TrimStart(s);
        var spaces := s[..|s| - |rest|];
        assert NonSpace(CollapseSpaces(s)) == NonSpace(rest) by {
          assert CollapseSpaces(s) == " " + CollapseSpaces(rest);
          assert NonSpace(" " + CollapseSpaces(rest)) == NonSpace(CollapseSpaces(rest));
          CollapseKeepsText(rest);
        }
        assert NonSpace(s) == NonSpace(rest) by {
          assert s == spaces + rest;
          NonSpaceAppend(spaces, rest);
          LeadingSpaceIsBlank(s, rest);
          NonSpaceOfBlank(spaces);
        }
      } else {
        CollapseKeepsText(s[1..]);
      }
    }
  }

  /** Collapsing white space cannot create a tag, since it only removes or
      rewrites white space. */
  lemma {:induction false} CollapseKeepsNoTag(s: string)
    requires NoTag(s)
    ensures NoTag(CollapseSpaces(s))
    decreases |s|
  {
    if |s| > 0 {
      if IsSpace(s[0]) {
        var rest := TrimStart(s);
        SlicesKeepShape(s, |s| - |rest|, |s|);
        assert s[|s| - |rest|..|s|] == rest;
        CollapseKeepsNoTag(rest);
        NoTagCons(' ', CollapseSpaces(rest));
      } else {
        SlicesKeepShape(s, 1, |s|);
        assert s[1..|s|] == s[1..];
        CollapseKeepsNoTag(s[1..]);
        if s[0] == '<' {
          assert forall k :: 0 <= k < |s[1..]| ==> s[1..][k] != '>' by {
            forall k | 0 <= k < |s[1..]| ensures s[1..][k] != '>' {
              assert s[1..][k] == s[k + 1];
            }
          }
          NotFromSource(CollapseSpaces(s[1..]), s[1..], '>');
        }
        NoTagCons(s[0], CollapseSpaces(s[1..]));
      }
    }
  }

  /** Both properties hold for any piece cut out of a string that has them. */
  lemma SlicesKeepShape(s: string, lo: nat, hi: nat)
    requires lo <= hi <= |s|
    ensures NoTag(s) ==> NoTag(s[lo..hi])
    ensures NoDoubleSpace(s) ==> NoDoubleSpace(s[lo..hi])
  {
    var t := s[lo..hi];
    if NoTag(s) {
      forall i, j | 0 <= i < j < |t| && t[i] == '<' ensures t[j] != '>' {
        assert t[i] == s[lo + i] && t[j] == s[lo + j];
      }
    }
    if NoDoubleSpace(s) {
      forall i | 0 <= i < |t| - 1 ensures !(IsSpace(t[i]) && IsSpace(t[i + 1])) {
        assert t[i] == s[lo + i] && t[i + 1] == s[lo + i + 1];
      }
    }
  }

  /** `stripTags`: plain text with single spaces and no tags. */
  function StripTags(html: string): (r: string)
    ensures r == [] || (!IsSpace(r[0]) && !IsSpace(r[|r| - 1]))
    ensures NoDoubleSpace(r)
    ensures NoTag(r)
  {
    var collapsed := CollapseSpaces(ReplaceTags(html));
    StripTagsShape(html);
    Trim(collapsed)
  }

  /** What `TrimStart` removes is white space. */
  lemma LeadingSpaceIsBlank(s: string, rest: string)
    requires rest == TrimStart(s)
    ensures IsBlank(s[..|s| - |rest|])
  {
    var spaces := s[..|s| - |rest|];
    forall k | 0 <= k < |spaces| ensures IsSpace(spaces[k]) {
      assert spaces[k] == s[k];
    }
  }

  /** `stripTags` changes only spacing: its text is the text the first
      expression leaves, so every character outside a tag survives, in order. */
  lemma StripTagsKeepsText(html: string)
    ensures NonSpace(StripTags(html)) == NonSpace(ReplaceTags(html))
  {
    var collapsed := CollapseSpaces(ReplaceTags(html));
    TrimKeepsText(collapsed);
    CollapseKeepsText(ReplaceTags(html));
  }

  lemma StripTagsShape(html: string)
    ensures var t := Trim(CollapseSpaces(ReplaceTags(html))); NoDoubleSpace(t) && NoTag(t)
  {
    var replaced := ReplaceTags(html);
    ReplaceTagsNoTag(html);
    CollapseKeepsNoTag(replaced);
    TrimKeepsShape(CollapseSpaces(replaced));
  }

  /** Trimming cuts a piece out of the string, so it keeps both properties. */
  lemma TrimKeepsShape(s: string)
    ensures NoTag(s) ==> NoTag(Trim(s))
    ensures NoDoubleSpace(s) ==> NoDoubleSpace(Trim(s))
  {
    SlicesKeepShape(s, LeadingSpace(s), ContentEnd(s));
  }

  /** Text without white space or `<` has nothing for either trim to remove. */
  lemma PlainTrimmed(s: string)
    requires forall k :: 0 <= k < |s| ==> !IsSpace(s[k])
    ensures Trim(s) == s
  {
    if |s| > 0 {
      assert !IsSpace(s[0]) && !IsSpace(s[|s| - 1]);
      assert s[0..|s|] == s;
    }
  }

  /** Text that is one word of ordinary characters comes through unchanged. */
  lemma {:induction false} PlainWordUnchanged(s: string)
    requires forall k :: 0 <= k < |s| ==> !IsSpace(s[k]) && s[k] != '<'
    ensures ReplaceTags(s) == s
    ensures StripTags(s) == s
  {
    PlainReplaced(s);
    assert CollapseSpaces(s) == s;
    PlainTrimmed(s);
  }

  /** The first expression leaves text without `<` unchanged. */
  lemma {:induction false} PlainReplaced(s: string)
    requires forall k :: 0 <= k < |s| ==> s[k] != '<'
    ensures ReplaceTags(s) == s
    decreases |s|
  {
    if |s| > 0 {
      assert HeadLength(s) == 1 && HeadChar(s) == s[0];
      PlainReplaced(s[1..]);
      assert [s[0]] + s[1..] == s;
    }
  }

  // ---------------------------------------------------------------------------
  // Read aloud
  // ---------------------------------------------------------------------------

  /** `contentEl?.innerText?.trim() || stripTags(article.content)`: the page's
      visible text, trimmed, when there is some, else the stripped content.
      `innerText` is an input (`None` when the element is missing). */
  function BodyText(innerText: Option<string>, content: string): (r: string)
    ensures innerText.Some? && !IsBlank(innerText.value) ==> r == Trim(innerText.value)
    ensures innerText.None? || IsBlank(innerText.value) ==> r == StripTags(content)
    ensures r == [] || (!IsSpace(r[0]) && !IsSpace(r[|r| - 1]))
  {
    var visible := if innerText.Some? then Trim(innerText.value) else [];
    if visible != [] then visible else StripTags(content)
  }

  /** `[title, bodyText].filter(Boolean).join(". ")`: the title and the body
      joined by ". ", an empty one dropped together with its separator. */
  function TextToSpeak(title: string, body: string): (r: string)
    ensures title != [] && body != [] ==> r == title + ". " + body
    ensures title != [] && body == [] ==> r == title
    ensures title == [] ==> r == body
  {
    if title == [] then body
    else if body == [] then title
    else title + ". " + body
  }

  /** The filter-then-join of the source gives the same text. */
  lemma TextToSpeakIsFilterJoin(title: string, body: string)
    ensures TextToSpeak(title, body) == Join(Filter([title, body], (x: string) => x != []), ". ")
  {
    var keep := (x: string) => x != [];
    assert [title, body] == [title] + [body];
    FilterConcat([title], [body], keep);
    assert Filter([title], keep) == (if title != [] then [title] else []) by {
      assert [title][1..] == [];
    }
    assert Filter([body], keep) == (if body != [] then [body] else []) by {
      assert [body][1..] == [];
    }
    if title != [] && body != [] {
      assert [title] + [body] == [title, body];
      assert [title, body][1..] == [body];
    }
  }

  // ---------------------------------------------------------------------------
  // Reading time
  // ---------------------------------------------------------------------------

  const WordsPerMinute: nat := 200

  /** `Math.ceil(content.split(" ").length / 200)`: minutes at 200 pieces a
      minute, where the pieces are what a single space separates. */
  function EstimatedReadTime(content: string): (r: nat)
    ensures var pieces := |Split(content, ' ')|;
      r * WordsPerMinute >= pieces && (r - 1) * WordsPerMinute < pieces
    ensures r >= 1
  {
    var pieces := |Split(content, ' ')|;
    (pieces + WordsPerMinute - 1) / WordsPerMinute
  }

  /** Even empty content reads in one minute. */
  lemma ReadTimeExamples()
    ensures EstimatedReadTime("") == 1
  {
  }

  lemma ReadTimeGrowsWithSpaces(a: string, b: string)
    requires Count(a, ' ') <= Count(b, ' ')
    ensures EstimatedReadTime(a) <= EstimatedReadTime(b)
  {
  }

  // ---------------------------------------------------------------------------
  // Default voice
  // ---------------------------------------------------------------------------

  datatype Voice = Voice(name: string, lang: string)

  predicate IsHindi(v: Voice) {
    Contains(Lower(v.lang), "hi") || Contains(Lower(v.name), "hindi")
  }

  predicate IsPreferredEnglish(v: Voice) {
    Contains(Lower(v.lang), "en") && (Contains(v.name, "Google") || Contains(v.name, "Microsoft"))
  }

  /** `voices.find(p)`. */
  function FindVoice(voices: seq<Voice>, p: Voice -> bool): (r: Option<nat>)
    ensures r.Some? ==> r.value < |voices| && p(voices[r.value])
    ensures r.Some? ==> forall k :: 0 <= k < r.value ==> !p(voices[k])
    ensures r.None? ==> forall k :: 0 <= k < |voices| ==> !p(voices[k])
  {
    if |voices| == 0 then None
    else if p(voices[0]) then Some(0)
    else
      match FindVoice(voices[1..], p)
      case None => None
      case Some(i) => Some(i + 1)
  }

  /** The effect that picks a voice: only when voices exist and none is chosen;
      the first Hindi voice, else the first Google or Microsoft English voice,
      else the first voice. */
  function DefaultVoice(voices: seq<Voice>, chosen: Option<Voice>): (r: Option<Voice>)
    ensures chosen.Some? || |voices| == 0 ==> r == chosen
    ensures chosen.None? && |voices| > 0 ==> r.Some? && r.value in voices
    ensures chosen.None? && |voices| > 0 && FindVoice(voices, IsHindi).Some? ==>
      r == Some(voices[FindVoice(voices, IsHindi).value])
    ensures chosen.None? && |voices| > 0 && FindVoice(voices, IsHindi).None? ==>
      (r.Some? && !IsHindi(r.value))
  {
    if chosen.Some? || |voices| == 0 then chosen
    else
      match FindVoice(voices, IsHindi)
      case Some(h) => Some(voices[h])
      case None =>
        match FindVoice(voices, IsPreferredEnglish)
        case Some(e) => Some(voices[e])
        case None => Some(voices[0])
  }

  /** Without a Hindi voice, a preferred English voice wins over the first one. */
  lemma EnglishBeforeFirst(voices: seq<Voice>)
    requires |voices| > 0 && FindVoice(voices, IsHindi).None?
    ensures var e := FindVoice(voices, IsPreferredEnglish);
      e.Some? ==> DefaultVoice(voices, None) == Some(voices[e.value])
    ensures FindVoice(voices, IsPreferredEnglish).None? ==> DefaultVoice(voices, None) == Some(voices[0])
  {
  }

  // ---------------------------------------------------------------------------
  // Related articles
  // ---------------------------------------------------------------------------

  const RelatedLimit: nat := 3

  /** Related by the cache: not this article, approved, same category ignoring
      case; at most three. */
  predicate CacheRelated(a: Article, current: Article) {
    a.id != current.id && a.status == Approved && Lower(a.category) == Lower(current.category)
  }

  /** Every cached article related to `current`, in cache order. */
  function CacheMatches(cache: seq<Article>, current: Article): (r: seq<Article>)
    ensures forall k :: 0 <= k < |r| ==> r[k] in cache && CacheRelated(r[k], current)
    ensures forall k :: 0 <= k < |cache| && CacheRelated(cache[k], current) ==> cache[k] in r
  {
    Filter(cache, (a: Article) => CacheRelated(a, current))
  }

  /** The catch branch: three of the related cached articles, or all of them
      when there are fewer. */
  function CacheFallback(cache: seq<Article>, current: Article): (r: seq<Article>)
    ensures |r| == Min(RelatedLimit, |CacheMatches(cache, current)|)
    ensures forall k :: 0 <= k < |r| ==> r[k] in cache && CacheRelated(r[k], current)
  {
    Slice(CacheMatches(cache, current), 0, RelatedLimit)
  }

  /** What the category request produced. */
  datatype RelatedResponse = RelatedFailed | RelatedOk(news: Option<seq<ApiNews.NewsRecord>>)

  /** The records of the reply other than the one with `id`, in reply order; a
      reply without a `news` array counts as empty. */
  function OtherRecords(news: Option<seq<ApiNews.NewsRecord>>, id: string): (r: seq<ApiNews.NewsRecord>)
    ensures news.None? ==> r == []
    ensures forall k :: 0 <= k < |r| ==> r[k].id != id && news.Some? && r[k] in news.value
    ensures news.Some? ==> forall k :: 0 <= k < |news.value| && news.value[k].id != id ==> news.value[k] in r
  {
    Filter(news.GetOr([]), (n: ApiNews.NewsRecord) => n.id != id)
  }

  /** `loadRelated`: nothing without a category; the server's list minus the
      current article, each mapped as the article page maps a record, when the
      request succeeds; the cache fallback when it fails. */
  function Related(current: Option<Article>, cache: seq<Article>, response: RelatedResponse, now: string)
    : (r: seq<Article>)
    ensures current.None? || current.value.category == [] ==> r == []
    ensures current.Some? && current.value.category != [] ==>
      forall k :: 0 <= k < |r| ==> r[k].id != current.value.id && r[k].status == Approved
    ensures current.Some? && current.value.category != [] && response.RelatedFailed? ==>
      r == CacheFallback(cache, current.value)
    ensures current.Some? && current.value.category != [] && response.RelatedOk? ==>
      var others := OtherRecords(response.news, current.value.id);
      |r| == |others| && forall k :: 0 <= k < |r| ==> r[k] == ApiNews.ToArticleWithViews(others[k], now)
  {
    if current.None? || current.value.category == [] then []
    else
      match response
      case RelatedFailed => CacheFallback(cache, current.value)
      case RelatedOk(news) =>
        var others := OtherRecords(news, current.value.id);
        seq(|others|, k requires 0 <= k < |others| => ApiNews.ToArticleWithViews(others[k], now))
  }
}
