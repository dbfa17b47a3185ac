/** The featured-article carousel (src/components/news/HeroSlider.tsx): a slide
    index that moves modulo the number of articles, an autoplay flag, and the
    rules for what is drawn. The five-second interval is left out: a timer tick
    is the `Tick` operation. */
module HeroSlider {
  import opened Common

  datatype Slider = Slider(currentSlide: int, isAutoPlaying: bool)

  const InitialSlider := Slider(0, true)

  /** `goToNext`: one slide on, wrapping from the last to the first. The index
      may be stale (the article list shrank), and is brought back into range. */
  function Next(i: nat, n: nat): (r: nat)
    requires n > 0
    ensures r < n
    ensures i + 1 < n ==> r == i + 1
    ensures i == n - 1 ==> r == 0
  {
    (i + 1) % n
  }

  /** `goToPrevious`: one slide back, wrapping from the first to the last. */
  function Previous(i: nat, n: nat): (r: nat)
    requires n > 0
    ensures r < n
    ensures 0 < i < n ==> r == i - 1
    ensures i == 0 ==> r == n - 1
  {
    (i - 1 + n) % n
  }

  /** Back after forward, and forward after back, return to the same slide. */
  lemma NextPreviousInverse(i: nat, n: nat)
    requires i < n
    ensures Previous(Next(i, n), n) == i
    ensures Next(Previous(i, n), n) == i
  {
  }

  /** `k` steps forward from slide `i`. */
  function Advance(i: nat, n: nat, k: nat): (r: nat)
    requires n > 0
    ensures r < n || (k == 0 && r == i)
    decreases k
  {
    if k == 0 then i else Next(Advance(i, n, k - 1), n)
  }

  /** Before the wrap, `k` steps forward are plain addition. */
  lemma {:induction false} AdvanceWithoutWrap(i: nat, n: nat, k: nat)
    requires i + k < n
    ensures Advance(i, n, k) == i + k
    decreases k
  {
    if k > 0 {
      AdvanceWithoutWrap(i, n, k - 1);
    }
  }

  /** Stepping `a` then `b` times is stepping `a + b` times. */
  lemma {:induction false} AdvanceCompose(i: nat, n: nat, a: nat, b: nat)
    requires n > 0
    ensures Advance(i, n, a + b) == Advance(Advance(i, n, a), n, b)
    decreases b
  {
    if b > 0 {
      AdvanceCompose(i, n, a, b - 1);
    }
  }

  /** A full round of `n` steps comes back to the starting slide: up to the
      last slide, one wrap to the first, then on to where it started. */
  lemma FullRoundReturns(i: nat, n: nat)
    requires i < n
    ensures Advance(i, n, n) == i
  {
    var toLast: nat := n - 1 - i;
    var rest: nat := i + 1;
    assert toLast + rest == n;
    AdvanceCompose(i, n, toLast, rest);
    AdvanceWithoutWrap(i, n, toLast);
    AdvanceCompose(n - 1, n, 1, i);
    WrapsToFirst(n);
    AdvanceWithoutWrap(0, n, i);
  }

  /** One step from the last slide lands on the first. */
  lemma WrapsToFirst(n: nat)
    requires n > 0
    ensures Advance(n - 1, n, 1) == 0
  {
    assert Advance(n - 1, n, 1) == Next(n - 1, n);
  }

  /** `goToSlide`: a dot click selects exactly that slide. */
  function GoToSlide(s: Slider, index: int): (r: Slider)
    ensures r.currentSlide == index && r.isAutoPlaying == s.isAutoPlaying
  {
    s.(currentSlide := index)
  }

  /** The arrows, and the automatic advance, only exist with more than one slide. */
  function GoToNext(s: Slider, n: nat): (r: Slider)
    requires n > 1 && s.currentSlide >= 0
    ensures 0 <= r.currentSlide < n && r.isAutoPlaying == s.isAutoPlaying
    ensures r.currentSlide == Next(s.currentSlide, n)
    ensures s.currentSlide + 1 < n ==> r.currentSlide == s.currentSlide + 1
    ensures s.currentSlide == n - 1 ==> r.currentSlide == 0
  {
    s.(currentSlide := Next(s.currentSlide, n))
  }

  function GoToPrevious(s: Slider, n: nat): (r: Slider)
    requires n > 1 && s.currentSlide >= 0
    ensures 0 <= r.currentSlide < n && r.isAutoPlaying == s.isAutoPlaying
    ensures r.currentSlide == Previous(s.currentSlide, n)
    ensures 0 < s.currentSlide < n ==> r.currentSlide == s.currentSlide - 1
    ensures s.currentSlide == 0 ==> r.currentSlide == n - 1
  {
    s.(currentSlide := Previous(s.currentSlide, n))
  }

  /** Whether the interval is running. */
  predicate AutoAdvances(s: Slider, n: nat) {
    s.isAutoPlaying && n > 1
  }

  /** One interval tick: advance when autoplay is on and there is more than one
      slide, and otherwise nothing happens. */
  function Tick(s: Slider, n: nat): (r: Slider)
    requires s.currentSlide >= 0
    ensures !AutoAdvances(s, n) ==> r == s
    ensures AutoAdvances(s, n) ==> r == GoToNext(s, n)
  {
    if AutoAdvances(s, n) then GoToNext(s, n) else s
  }

  /** Hovering the slider pauses it; leaving resumes it. */
  function MouseEnter(s: Slider): (r: Slider)
    ensures !r.isAutoPlaying && r.currentSlide == s.currentSlide
  {
    s.(isAutoPlaying := false)
  }

  function MouseLeave(s: Slider): (r: Slider)
    ensures r.isAutoPlaying && r.currentSlide == s.currentSlide
  {
    s.(isAutoPlaying := true)
  }

  /** While hovered, ticks never move the slider. */
  lemma HoverFreezes(s: Slider, n: nat)
    requires s.currentSlide >= 0
    ensures Tick(MouseEnter(s), n) == MouseEnter(s)
  {
  }

  /** What is drawn: a placeholder for no articles, otherwise the slides with the
      one at `visible` shown (none when the index is stale) and arrows and dots
      only for more than one slide. */
  datatype View =
    | Placeholder
    | Slides(visible: Option<nat>, showArrows: bool, showDots: bool)

  function Render(s: Slider, n: nat): (r: View)
    ensures r.Placeholder? <==> n == 0
    ensures r.Slides? ==> (r.showArrows <==> n > 1) && (r.showDots <==> n > 1)
    ensures r.Slides? ==> (r.visible.Some? <==> 0 <= s.currentSlide < n)
    ensures r.Slides? && r.visible.Some? ==> r.visible.value == s.currentSlide
  {
    if n == 0 then Placeholder
    else
      Slides(if 0 <= s.currentSlide < n then Some(s.currentSlide as nat) else None, n > 1, n > 1)
  }

  /** After shrinking the list, a stale index shows no slide until the next
      step, which brings it back into range. */
  lemma StaleIndexRecovers(s: Slider, n: nat)
    requires n > 1 && s.currentSlide >= n
    ensures Render(s, n).visible.None?
    ensures Render(GoToNext(s, n), n).visible.Some?
  {
  }
}
