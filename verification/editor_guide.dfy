/** The accordion of the editor guide (src/components/ui/editor-guide.tsx):
    `expandedSection` names the one section whose content is shown, or none. */
module EditorGuide {
  import opened Common

  type Expanded = Option<string>

  const InitiallyExpanded: Expanded := None

  /** A section's content is shown exactly when it is the expanded one. */
  predicate IsShown(e: Expanded, section: string) {
    e == Some(section)
  }

  /** `toggleSection`: clicking the open section closes it; clicking any other
      opens that one instead. */
  function Toggle(e: Expanded, section: string): (r: Expanded)
    ensures IsShown(e, section) ==> r.None?
    ensures !IsShown(e, section) ==> IsShown(r, section)
    ensures forall other :: other != section ==> !IsShown(r, other)
  {
    if e == Some(section) then None else Some(section)
  }

  /** Whatever the state, at most one of a list of sections is shown. */
  lemma AtMostOneShown(e: Expanded, sections: seq<string>)
    ensures forall i, j ::
      (0 <= i < |sections| && 0 <= j < |sections| && IsShown(e, sections[i]) && IsShown(e, sections[j]))
      ==> sections[i] == sections[j]
  {
  }

  /** Two clicks on the same section from a collapsed accordion close it again. */
  lemma ToggleTwiceFromCollapsed(section: string)
    ensures Toggle(Toggle(None, section), section) == None
  {
  }

  /** A run of clicks, in order. */
  function Clicks(e: Expanded, clicks: seq<string>): (r: Expanded)
    decreases |clicks|
  {
    if |clicks| == 0 then e else Clicks(Toggle(e, clicks[0]), clicks[1..])
  }

  /** After one or more clicks the accordion is either closed or shows the last
      section clicked. */
  lemma {:induction false} ClicksEndOnLast(e: Expanded, clicks: seq<string>)
    requires |clicks| > 0
    ensures var r := Clicks(e, clicks); r.None? || r == Some(clicks[|clicks| - 1])
    decreases |clicks|
  {
    if |clicks| > 1 {
      ClicksEndOnLast(Toggle(e, clicks[0]), clicks[1..]);
    }
  }

  /** Clicking one section `n` times from a collapsed accordion leaves it open
      exactly when `n` is odd. */
  lemma {:induction false} RepeatedClicks(section: string, n: nat)
    ensures Clicks(None, seq(n, _ => section)) == if n % 2 == 1 then Some(section) else None
  {
    if n > 0 {
      var clicks := seq(n, _ => section);
      assert clicks[1..] == seq(n - 1, _ => section);
      if n > 1 {
        var rest := seq(n - 2, _ => section);
        assert clicks[1..][1..] == rest;
        RepeatedClicks(section, n - 2);
      }
    }
  }
}
