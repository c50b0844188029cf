/** The navigation rules of the page scripts: which nav link is marked
    active as the reader scrolls, where a nav click scrolls to, and when the
    back-to-top button shows. Positions are whole pixels. */
module Navigation {
  import opened Wrappers

  /** A content section: its `offsetTop`, its `offsetHeight` and its `id`
      attribute, which may be missing. */
  datatype Section = Section(top: int, height: nat, idAttr: Option<string>)

  /** A nav link: its `href` and whether it has the `active` class. */
  datatype Link = Link(href: string, active: bool)

  /** How far above its top a section already counts as current. */
  const SectionLead: int := 100

  /** The header offset of the page script's nav click handler. */
  const HeaderOffset: int := 70

  /** The configured scroll offset of the class-based scripts. */
  const ScrollOffset: int := 80

  /** The scroll position past which the back-to-top button shows. */
  const ButtonThreshold: int := 300

  // ---------------------------------------------------------------------
  // The active-link rule
  // ---------------------------------------------------------------------

  /** The scroll position lies in the section's band: from 100 pixels
      above its top (included) to that point plus its height (excluded). */
  predicate IsCurrent(y: int, s: Section) {
    s.top - SectionLead <= y < s.top - SectionLead + s.height
  }

  /** The link target a section is compared with when read through
      `getAttribute('id')`: a missing attribute reads as `null`, which the
      template literal turns into the text "null". */
  function TargetViaAttribute(s: Section): string {
    "#" + (if s.idAttr.Some? then s.idAttr.value else "null")
  }

  /** The link target when read through the `id` property, which is empty
      when the attribute is missing. */
  function TargetViaProperty(s: Section): string {
    "#" + (if s.idAttr.Some? then s.idAttr.value else "")
  }

  /** Every link loses `active`, and exactly the links whose `href` is
      `target` get it back; `href`s are untouched. */
  function Highlight(links: seq<Link>, target: string): (r: seq<Link>)
    ensures |r| == |links|
    ensures forall i :: 0 <= i < |links| ==> r[i].href == links[i].href
    ensures forall i :: 0 <= i < |links| ==> (r[i].active <==> links[i].href == target)
  {
    if links == [] then []
    else
      var cleared := links[0].(active := false);
      [if cleared.href == target then cleared.(active := true) else cleared] + Highlight(links[1..], target)
  }

  /** Highlighting depends only on the last target: the classes set by an
      earlier highlight are all overwritten. */
  lemma HighlightOverrides(links: seq<Link>, first: string, second: string)
    ensures Highlight(Highlight(links, first), second) == Highlight(links, second)
  {
    var a := Highlight(Highlight(links, first), second);
    var b := Highlight(links, second);
    assert forall i :: 0 <= i < |links| ==> a[i] == b[i];
  }

  /** The index of the last current section, in document order; the
      reference the scroll rule is compared with. */
  function LastCurrent(y: int, sections: seq<Section>): (r: Option<nat>)
    ensures r.None? <==> forall k :: 0 <= k < |sections| ==> !IsCurrent(y, sections[k])
    ensures r.Some? ==> r.value < |sections| && IsCurrent(y, sections[r.value])
    ensures r.Some? ==> forall k :: r.value < k < |sections| ==> !IsCurrent(y, sections[k])
  {
    if sections == [] then None
    else
      var rest := LastCurrent(y, sections[1..]);
      assert forall k :: 1 <= k < |sections| ==> sections[k] == sections[1..][k - 1];
      if rest.Some? then Some(rest.value + 1)
      else if IsCurrent(y, sections[0]) then Some(0)
      else None
  }

  /** The scroll handler's walk over the sections, in document order: each
      current section re-highlights the links for its own target. */
  function ScanSections(y: int, sections: seq<Section>, links: seq<Link>, target: Section -> string): seq<Link> {
    if sections == [] then links
    else
      var s := sections[0];
      ScanSections(y, sections[1..], if IsCurrent(y, s) then Highlight(links, target(s)) else links, target)
  }

  /** The walk's outcome is the highlight of the last current section,
      and the links as they were when no section is current. */
  lemma {:induction false} ScanLastWins(y: int, sections: seq<Section>, links: seq<Link>, target: Section -> string)
    ensures LastCurrent(y, sections).None? ==> ScanSections(y, sections, links, target) == links
    ensures LastCurrent(y, sections).Some? ==>
              ScanSections(y, sections, links, target) == Highlight(links, target(sections[LastCurrent(y, sections).value]))
    decreases |sections|
  {
    if sections != [] {
      var s := sections[0];
      var next := if IsCurrent(y, s) then Highlight(links, target(s)) else links;
      assert ScanSections(y, sections, links, target) == ScanSections(y, sections[1..], next, target);
      ScanLastWins(y, sections[1..], next, target);
      var rest := LastCurrent(y, sections[1..]);
      if rest.Some? {
        assert LastCurrent(y, sections) == Some(rest.value + 1);
        assert sections[1..][rest.value] == sections[rest.value + 1];
        if IsCurrent(y, s) {
          HighlightOverrides(links, target(s), target(sections[rest.value + 1]));
        }
      } else if IsCurrent(y, s) {
        assert LastCurrent(y, sections) == Some(0);
      } else {
        assert LastCurrent(y, sections).None?;
      }
    }
  }

  /** The page script's `updateActiveLink`, reading ids through
      `getAttribute`. */
  function UpdateActiveLink(y: int, sections: seq<Section>, links: seq<Link>): (r: seq<Link>)
    ensures |r| == |links|
    ensures forall i :: 0 <= i < |links| ==> r[i].href == links[i].href
    ensures LastCurrent(y, sections).None? ==> r == links
    ensures LastCurrent(y, sections).Some? ==>
              forall i :: 0 <= i < |links| ==>
                (r[i].active <==> links[i].href == TargetViaAttribute(sections[LastCurrent(y, sections).value]))
  {
    ScanLastWins(y, sections, links, TargetViaAttribute);
    ScanSections(y, sections, links, TargetViaAttribute)
  }

  /** The module script's `updateActiveSection`, reading ids through the
      `id` property. */
  function UpdateActiveSection(y: int, sections: seq<Section>, links: seq<Link>): (r: seq<Link>)
    ensures |r| == |links|
    ensures forall i :: 0 <= i < |links| ==> r[i].href == links[i].href
    ensures LastCurrent(y, sections).None? ==> r == links
    ensures LastCurrent(y, sections).Some? ==>
              forall i :: 0 <= i < |links| ==>
                (r[i].active <==> links[i].href == TargetViaProperty(sections[LastCurrent(y, sections).value]))
  {
    ScanLastWins(y, sections, links, TargetViaProperty);
    ScanSections(y, sections, links, TargetViaProperty)
  }

  /** The two scripts mark the same links whenever the section that
      decides has an `id`; they differ only in how a missing one reads. */
  lemma ActiveRulesAgree(y: int, sections: seq<Section>, links: seq<Link>)
    requires forall k :: 0 <= k < |sections| ==> sections[k].idAttr.Some?
    ensures UpdateActiveLink(y, sections, links) == UpdateActiveSection(y, sections, links)
  {
  }

  /** The band is closed at the top and open at the bottom: its first
      pixel counts, the pixel before it and the pixel just past its height
      do not. */
  lemma CurrentBoundaries(s: Section)
    ensures s.height > 0 ==> IsCurrent(s.top - 100, s)
    ensures !IsCurrent(s.top - 101, s)
    ensures !IsCurrent(s.top - 100 + s.height, s)
  {
  }

  /** Two overlapping sections both current: the later one decides. */
  lemma OverlapLaterWins()
    ensures var sections := [Section(0, 500, Some("a")), Section(300, 500, Some("b"))];
            var links := [Link("#a", true), Link("#b", false)];
            UpdateActiveLink(250, sections, links) == [Link("#a", false), Link("#b", true)]
  {
    var sections := [Section(0, 500, Some("a")), Section(300, 500, Some("b"))];
    assert IsCurrent(250, sections[0]) && IsCurrent(250, sections[1]);
    assert LastCurrent(250, sections) == Some(1);
    assert TargetViaAttribute(sections[1]) == "#b";
  }

  // ---------------------------------------------------------------------
  // Nav clicks
  // ---------------------------------------------------------------------

  /** `document.querySelector(href)` finds this section: the link names
      its id. */
  predicate Selects(href: string, s: Section) {
    s.idAttr.Some? && href == "#" + s.idAttr.value
  }

  /** The first section the link's `href` selects, if any. */
  function FirstSelected(sections: seq<Section>, href: string): (r: Option<nat>)
    ensures r.None? <==> forall k :: 0 <= k < |sections| ==> !Selects(href, sections[k])
    ensures r.Some? ==> r.value < |sections| && Selects(href, sections[r.value])
    ensures r.Some? ==> forall k :: 0 <= k < r.value ==> !Selects(href, sections[k])
  {
    if sections == [] then None
    else if Selects(href, sections[0]) then Some(0)
    else
      var rest := FirstSelected(sections[1..], href);
      assert forall k :: 1 <= k < |sections| ==> sections[k] == sections[1..][k - 1];
      if rest.Some? then Some(rest.value + 1) else None
  }

  /** Where a nav click scrolls: `offset` pixels above the top of the
      section the link names, and nowhere when it names none. */
  function NavScrollTarget(sections: seq<Section>, href: string, offset: int): (r: Option<int>)
    ensures r.None? <==> forall k :: 0 <= k < |sections| ==> !Selects(href, sections[k])
    ensures r.Some? ==> exists k :: 0 <= k < |sections| && Selects(href, sections[k]) && r.value == sections[k].top - offset
  {
    match FirstSelected(sections, href)
    case None => None
    case Some(k) => Some(sections[k].top - offset)
  }

  /** When several sections carry the id, the first in document order is
      the one scrolled to: with the page script's offset that is 70 pixels
      above its top. */
  lemma NavScrollTargetFirst(sections: seq<Section>, href: string, k: nat)
    requires k < |sections| && Selects(href, sections[k])
    requires forall j :: 0 <= j < k ==> !Selects(href, sections[j])
    ensures NavScrollTarget(sections, href, HeaderOffset) == Some(sections[k].top - 70)
  {
    var f := FirstSelected(sections, href);
    assert f.value <= k;
  }

  /** The result of a nav click in the class-based scripts: where the
      window scrolls, if anywhere, and the links afterwards. */
  datatype Click = Click(scroll: Option<int>, links: seq<Link>)

  /** `handleNavigation`: when the link's target exists, scroll to
      80 pixels above it and mark exactly the links with the same `href`
      active; otherwise do nothing at all. */
  function HandleNavigation(sections: seq<Section>, links: seq<Link>, href: string): (r: Click)
    ensures r.scroll == NavScrollTarget(sections, href, ScrollOffset)
    ensures r.scroll.None? ==> r.links == links
    ensures r.scroll.Some? ==> |r.links| == |links|
    ensures r.scroll.Some? ==>
              forall i :: 0 <= i < |links| ==> r.links[i].href == links[i].href && (r.links[i].active <==> links[i].href == href)
  {
    var scroll := NavScrollTarget(sections, href, ScrollOffset);
    if scroll.Some? then Click(scroll, Highlight(links, href)) else Click(None, links)
  }

  /** After a click that scrolls, the clicked link itself is active. */
  lemma ClickedLinkActive(sections: seq<Section>, links: seq<Link>, c: nat)
    requires c < |links|
    requires NavScrollTarget(sections, links[c].href, ScrollOffset).Some?
    ensures HandleNavigation(sections, links, links[c].href).links[c].active
  {
  }

  // ---------------------------------------------------------------------
  // The back-to-top button
  // ---------------------------------------------------------------------

  /** The button shows strictly past 300 pixels. */
  predicate ButtonShown(y: int) {
    y > ButtonThreshold
  }

  /** The button's state after a run of scroll events, from `initial`. */
  function ButtonAfterScrolls(initial: bool, ys: seq<int>): (r: bool)
    ensures ys == [] ==> r == initial
    ensures ys != [] ==> (r <==> ButtonShown(ys[|ys| - 1]))
    decreases ys
  {
    if ys == [] then initial else ButtonAfterScrolls(ButtonShown(ys[0]), ys[1..])
  }

  /** The threshold is strict, and scrolling further down never hides the
      button. */
  lemma ButtonThresholdStrict(y1: int, y2: int)
    ensures !ButtonShown(300) && ButtonShown(301)
    ensures y1 <= y2 && ButtonShown(y1) ==> ButtonShown(y2)
  {
  }

  // ---------------------------------------------------------------------
  // The page script's scroll handler
  // ---------------------------------------------------------------------

  /** What the scroll handler updates: the nav links and the button. */
  datatype NavState = NavState(links: seq<Link>, buttonShown: bool)

  /** One scroll event: update the active link, then the button. */
  function OnScroll(state: NavState, sections: seq<Section>, y: int): (r: NavState)
    ensures r.buttonShown <==> ButtonShown(y)
    ensures LastCurrent(y, sections).None? ==> r.links == state.links
  {
    NavState(UpdateActiveLink(y, sections, state.links), ButtonShown(y))
  }

  /** A run of scroll events, in order. Link `href`s never change. */
  function ScrollEvents(state: NavState, sections: seq<Section>, ys: seq<int>): (r: NavState)
    ensures ys == [] ==> r == state
    ensures ys != [] ==> (r.buttonShown <==> ButtonShown(ys[|ys| - 1]))
    ensures |r.links| == |state.links|
    ensures forall i :: 0 <= i < |state.links| ==> r.links[i].href == state.links[i].href
  {
    if ys == [] then state
    else OnScroll(ScrollEvents(state, sections, ys[..|ys| - 1]), sections, ys[|ys| - 1])
  }

  /** Highlighting looks only at the links' `href`s. */
  lemma HighlightHrefsOnly(a: seq<Link>, b: seq<Link>, target: string)
    requires |a| == |b|
    requires forall i :: 0 <= i < |a| ==> a[i].href == b[i].href
    ensures Highlight(a, target) == Highlight(b, target)
  {
    var ha := Highlight(a, target);
    var hb := Highlight(b, target);
    assert forall i :: 0 <= i < |a| ==> ha[i] == hb[i];
  }

  /** The links after a run of scroll events depend only on the last
      event when some section is current then: earlier history is
      forgotten. When none is, the last event leaves the links as the
      events before it left them. */
  lemma ScrollForgetsHistory(state: NavState, sections: seq<Section>, ys: seq<int>)
    requires ys != []
    ensures var y := ys[|ys| - 1];
            LastCurrent(y, sections).Some? ==>
              ScrollEvents(state, sections, ys).links == UpdateActiveLink(y, sections, state.links)
    ensures var y := ys[|ys| - 1];
            LastCurrent(y, sections).None? ==>
              ScrollEvents(state, sections, ys).links == ScrollEvents(state, sections, ys[..|ys| - 1]).links
  {
    var y := ys[|ys| - 1];
    var before := ScrollEvents(state, sections, ys[..|ys| - 1]);
    if LastCurrent(y, sections).Some? {
      var t := TargetViaAttribute(sections[LastCurrent(y, sections).value]);
      ScanLastWins(y, sections, before.links, TargetViaAttribute);
      ScanLastWins(y, sections, state.links, TargetViaAttribute);
      HighlightHrefsOnly(before.links, state.links, t);
    }
  }
}
