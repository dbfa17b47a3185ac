/** Helpers shared by the slices and the pages: an optional value, order-keeping
    filters and slices over sequences, and the handful of JavaScript string
    operations the pages rely on (`\s` whitespace, `trim`, ASCII `toLowerCase` /
    `toUpperCase`, `includes`, `split` on one character, `join`). */
module Common {

  /** `null` / `undefined` versus a present value. */
  datatype Option<+T> = None | Some(value: T) {
    /** `x ?? fallback` */
    function GetOr(fallback: T): T {
      match this
      case Some(v) => v
      case None => fallback
    }
  }

  /** What a form validator hands back: the error record it stored (field to
      message, the fields `F` being the keys the page uses) and the boolean it
      returned. */
  datatype Checked<F> = Checked(errors: map<F, string>, ok: bool)

  function Min(a: int, b: int): int { if a <= b then a else b }
  function Max(a: int, b: int): int { if a >= b then a else b }

  // ---------------------------------------------------------------------------
  // Sequences
  // ---------------------------------------------------------------------------

  /** `xs.filter(keep)`: the elements satisfying `keep`, in their original order. */
  function Filter<T>(xs: seq<T>, keep: T -> bool): (r: seq<T>)
    ensures |r| <= |xs|
    ensures forall k :: 0 <= k < |r| ==> r[k] in xs && keep(r[k])
    ensures forall k :: 0 <= k < |xs| && keep(xs[k]) ==> xs[k] in r
  {
    if |xs| == 0 then []
    else (if keep(xs[0]) then [xs[0]] else []) + Filter(xs[1..], keep)
  }

  /** Filtering distributes over concatenation; together with the one-element
      case this pins down the order of `Filter`'s result. */
  lemma {:induction false} FilterConcat<T>(a: seq<T>, b: seq<T>, keep: T -> bool)
    ensures Filter(a + b, keep) == Filter(a, keep) + Filter(b, keep)
  {
    if |a| == 0 {
      assert a + b == b;
    } else {
      assert (a + b)[1..] == a[1..] + b;
      FilterConcat(a[1..], b, keep);
    }
  }

  /** A sequence whose elements all pass is returned unchanged. */
  lemma {:induction false} FilterKeepsAll<T>(xs: seq<T>, keep: T -> bool)
    requires forall k :: 0 <= k < |xs| ==> keep(xs[k])
    ensures Filter(xs, keep) == xs
  {
    if |xs| > 0 {
      assert keep(xs[0]);
      FilterKeepsAll(xs[1..], keep);
      assert [xs[0]] + xs[1..] == xs;
    }
  }

  /** Filtering twice with the same predicate is filtering once. */
  lemma FilterIdempotent<T>(xs: seq<T>, keep: T -> bool)
    ensures Filter(Filter(xs, keep), keep) == Filter(xs, keep)
  {
    FilterKeepsAll(Filter(xs, keep), keep);
  }

  /** `xs.slice(start, end)` for non-negative bounds: both bounds are clamped to
      the length, and a reversed range is empty rather than an error. */
  function Slice<T>(xs: seq<T>, start: nat, end: nat): (r: seq<T>)
    ensures |r| == if Min(end, |xs|) <= Min(start, |xs|) then 0 else Min(end, |xs|) - Min(start, |xs|)
    ensures |r| <= |xs|
    ensures start <= end ==> |r| <= end - start
    ensures forall k :: 0 <= k < |r| ==> r[k] == xs[start + k]
  {
    var lo := Min(start, |xs|);
    var hi := Min(end, |xs|);
    if hi <= lo then [] else xs[lo..hi]
  }

  // ---------------------------------------------------------------------------
  // Characters
  // ---------------------------------------------------------------------------

  /** The characters JavaScript's `\s` and `String.prototype.trim` treat as white space. */
  predicate IsSpace(c: char) {
    || c == ' ' || c == '\t' || c == '\n' || c == '\r' || c == '\U{000B}' || c == '\U{000C}'
    || c == '\U{00A0}' || c == '\U{1680}' || ('\U{2000}' <= c <= '\U{200A}')
    || c == '\U{2028}' || c == '\U{2029}' || c == '\U{202F}' || c == '\U{205F}'
    || c == '\U{3000}' || c == '\U{FEFF}'
  }

  predicate IsLowerAscii(c: char) { 'a' <= c <= 'z' }
  predicate IsUpperAscii(c: char) { 'A' <= c <= 'Z' }
  predicate IsDigit(c: char) { '0' <= c <= '9' }

  function LowerChar(c: char): (d: char)
    ensures !IsUpperAscii(d)
    ensures IsUpperAscii(c) ==> d as int == c as int + 32
    ensures !IsUpperAscii(c) ==> d == c
  {
    if IsUpperAscii(c) then (c as int + 32) as char else c
  }

  function UpperChar(c: char): (d: char)
    ensures !IsLowerAscii(d)
    ensures IsLowerAscii(c) ==> d as int == c as int - 32
    ensures !IsLowerAscii(c) ==> d == c
  {
    if IsLowerAscii(c) then (c as int - 32) as char else c
  }

  /** `s.toLowerCase()`, restricted to the ASCII letters. */
  function Lower(s: string): (r: string)
    ensures |r| == |s|
    ensures forall k :: 0 <= k < |s| ==> r[k] == LowerChar(s[k])
  {
    seq(|s|, k requires 0 <= k < |s| => LowerChar(s[k]))
  }

  /** `s.toUpperCase()`, restricted to the ASCII letters. */
  function Upper(s: string): (r: string)
    ensures |r| == |s|
    ensures forall k :: 0 <= k < |s| ==> r[k] == UpperChar(s[k])
  {
    seq(|s|, k requires 0 <= k < |s| => UpperChar(s[k]))
  }

  predicate HasChar(s: string, p: char -> bool) {
    exists k :: 0 <= k < |s| && p(s[k])
  }

  // ---------------------------------------------------------------------------
  // Strings
  // ---------------------------------------------------------------------------

  /** `hay.includes(needle)`; the empty needle is found in every string. */
  predicate Contains(hay: string, needle: string) {
    exists i :: 0 <= i <= |hay| && needle <= hay[i..]
  }

  /** Case-insensitive `includes`, as every search box on the pages does it. */
  predicate MatchesSearch(field: string, term: string) {
    Contains(Lower(field), Lower(term))
  }

  /** The position of the first character at or after `i` that is not white
      space, or `|s|` when there is none. */
  function SkipSpace(s: string, i: nat): (j: nat)
    requires i <= |s|
    ensures i <= j <= |s|
    ensures forall k :: i <= k < j ==> IsSpace(s[k])
    ensures j == |s| || !IsSpace(s[j])
    decreases |s| - i
  {
    if i == |s| || !IsSpace(s[i]) then i else SkipSpace(s, i + 1)
  }

  /** The position just after the last character before `j` (and not before
      `lo`) that is not white space, or `lo` when there is none. */
  function SkipSpaceBack(s: string, lo: nat, j: nat): (e: nat)
    requires lo <= j <= |s|
    ensures lo <= e <= j
    ensures forall k :: e <= k < j ==> IsSpace(s[k])
    ensures e == lo || !IsSpace(s[e - 1])
    decreases j
  {
    if j == lo || !IsSpace(s[j - 1]) then j else SkipSpaceBack(s, lo, j - 1)
  }

  /** Leading white space removed. */
  function TrimStart(s: string): (r: string)
    ensures |r| <= |s| && r == s[|s| - |r|..]
    ensures forall k :: 0 <= k < |s| - |r| ==> IsSpace(s[k])
    ensures r == [] || !IsSpace(r[0])
  {
    s[SkipSpace(s, 0)..]
  }

  /** Where the text of `s` starts: the length of its leading white space. */
  function LeadingSpace(s: string): (a: nat)
    ensures a <= |s|
  {
    SkipSpace(s, 0)
  }

  /** Where the text of `s` ends: the start of its trailing white space, never
      before `LeadingSpace(s)`. */
  function ContentEnd(s: string): (b: nat)
    ensures LeadingSpace(s) <= b <= |s|
  {
    SkipSpaceBack(s, LeadingSpace(s), |s|)
  }

  /** `s.trim()`: the stretch of `s` between its leading and its trailing white
      space, which begins and ends with something else. */
  function Trim(s: string): (r: string)
    ensures |r| <= |s|
    ensures r == s[LeadingSpace(s)..ContentEnd(s)]
    ensures IsBlank(s[..LeadingSpace(s)]) && IsBlank(s[ContentEnd(s)..])
    ensures r == [] || (!IsSpace(r[0]) && !IsSpace(r[|r| - 1]))
  {
    var a, b := LeadingSpace(s), ContentEnd(s);
    assert IsBlank(s[..a]) by {
      forall k | 0 <= k < a ensures IsSpace(s[..a][k]) {
        assert s[..a][k] == s[k];
      }
    }
    assert IsBlank(s[b..]) by {
      forall k | 0 <= k < |s| - b ensures IsSpace(s[b..][k]) {
        assert s[b..][k] == s[b + k];
      }
    }
    s[a..b]
  }

  /** Every character is white space, which is when `!s.trim()` holds
      (`BlankIffAllSpace`). */
  predicate IsBlank(s: string) {
    forall k :: 0 <= k < |s| ==> IsSpace(s[k])
  }

  /** `!s.trim()` holds exactly when every character is white space. */
  lemma BlankIffAllSpace(s: string)
    ensures Trim(s) == [] <==> IsBlank(s)
  {
    var a := LeadingSpace(s);
    if Trim(s) != [] {
      assert !IsSpace(s[a]);
    } else {
      assert a == |s|;
    }
  }

  /** The characters of `s` other than white space, in order: the text a
      reader sees, whatever the spacing. */
  function NonSpace(s: string): (r: string)
    ensures |r| <= |s|
    ensures forall k :: 0 <= k < |r| ==> !IsSpace(r[k])
  {
    if |s| == 0 then [] else (if IsSpace(s[0]) then [] else [s[0]]) + NonSpace(s[1..])
  }

  /** `NonSpace` of a concatenation is the concatenation of the two. */
  lemma {:induction false} NonSpaceAppend(a: string, b: string)
    ensures NonSpace(a + b) == NonSpace(a) + NonSpace(b)
  {
    if |a| == 0 {
      assert a + b == b;
    } else {
      assert (a + b)[1..] == a[1..] + b;
      NonSpaceAppend(a[1..], b);
    }
  }

  /** White space alone has no text. */
  lemma {:induction false} NonSpaceOfBlank(s: string)
    requires IsBlank(s)
    ensures NonSpace(s) == []
  {
    if |s| > 0 {
      assert IsBlank(s[1..]) by {
        forall k | 0 <= k < |s[1..]| ensures IsSpace(s[1..][k]) {
          assert s[1..][k] == s[k + 1];
        }
      }
      NonSpaceOfBlank(s[1..]);
    }
  }

  /** `trim` removes white space only: the text is unchanged. */
  lemma TrimKeepsText(s: string)
    ensures NonSpace(Trim(s)) == NonSpace(s)
  {
    var a, b := LeadingSpace(s), ContentEnd(s);
    var before, text, after := s[..a], s[a..b], s[b..];
    assert Trim(s) == text && IsBlank(before) && IsBlank(after);
    assert NonSpace(s) == NonSpace(before) + NonSpace(text + after) by {
      assert s == before + (text + after);
      NonSpaceAppend(before, text + after);
    }
    assert NonSpace(text + after) == NonSpace(text) + NonSpace(after) by {
      NonSpaceAppend(text, after);
    }
    NonSpaceOfBlank(before);
    NonSpaceOfBlank(after);
  }

  /** `s.indexOf(c, from)`: the position of the first `c` at or after `from`, or -1. */
  function IndexOfChar(s: string, c: char, from: nat): (r: int)
    requires from <= |s|
    ensures r == -1 || from <= r < |s|
    ensures r >= 0 ==> s[r] == c
    ensures forall k :: from <= k < |s| && (r == -1 || k < r) ==> s[k] != c
    decreases |s| - from
  {
    if from == |s| then -1
    else if s[from] == c then from
    else IndexOfChar(s, c, from + 1)
  }

  /** Number of occurrences of `c` in `s`. */
  function Count(s: string, c: char): nat {
    if |s| == 0 then 0 else (if s[0] == c then 1 else 0) + Count(s[1..], c)
  }

  lemma {:induction false} CountZero(s: string, c: char)
    ensures Count(s, c) == 0 <==> c !in s
  {
    if |s| > 0 {
      CountZero(s[1..], c);
      assert s == [s[0]] + s[1..];
    }
  }

  /** A character that occurs at exactly one position occurs once. */
  lemma {:induction false} CountUnique(s: string, c: char, at: nat)
    requires at < |s| && s[at] == c
    requires forall k :: 0 <= k < |s| && k != at ==> s[k] != c
    ensures Count(s, c) == 1
  {
    if at == 0 {
      assert forall k :: 0 <= k < |s[1..]| ==> s[1..][k] == s[k + 1];
      CountZero(s[1..], c);
    } else {
      assert forall k :: 0 <= k < |s[1..]| ==> s[1..][k] == s[k + 1];
      CountUnique(s[1..], c, at - 1);
    }
  }

  /** `s.split(sep)` for a one-character separator: the pieces between the
      separators, one more piece than there are separators. */
  function Split(s: string, sep: char): (parts: seq<string>)
    ensures |parts| == Count(s, sep) + 1
    ensures forall k :: 0 <= k < |parts| ==> sep !in parts[k]
  {
    if |s| == 0 then [""]
    else
      var rest := Split(s[1..], sep);
      if s[0] == sep then [""] + rest
      else [[s[0]] + rest[0]] + rest[1..]
  }

  /** `parts.join(sep)`. */
  function Join(parts: seq<string>, sep: string): string {
    if |parts| == 0 then ""
    else if |parts| == 1 then parts[0]
    else parts[0] + sep + Join(parts[1..], sep)
  }

  /** Splitting on a character and joining the pieces with it gives the string back. */
  lemma {:induction false} JoinSplit(s: string, sep: char)
    ensures Join(Split(s, sep), [sep]) == s
  {
    if |s| > 0 {
      var rest := Split(s[1..], sep);
      JoinSplit(s[1..], sep);
      if s[0] == sep {
        assert ([""] + rest)[1..] == rest;
        assert s == [sep] + s[1..];
      } else {
        var parts := [[s[0]] + rest[0]] + rest[1..];
        assert parts[1..] == rest[1..];
        if |rest| == 1 {
          assert s == [s[0]] + rest[0];
        } else {
          assert Join(rest, [sep]) == rest[0] + [sep] + Join(rest[1..], [sep]);
          assert s == [s[0]] + s[1..];
        }
      }
    }
  }
}
