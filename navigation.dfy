/**
 * Scroll-driven navigation: which navigation link is highlighted for the
 * current scroll position, where a click on an in-page anchor scrolls to, and
 * the two classes the scroll position switches on (the navbar's "scrolled"
 * look and the back-to-top button).  Positions are CSS pixels: the scroll
 * position of the window, and each element's offsetTop as the page reports
 * it (relative to its offset parent), used as given.
 */
module Navigation {
  import opened Wrappers
  import opened Sequences
  import opened Unicode

  /** An element of the page that has an id, with its layout box. */
  datatype Element = Element(id: JsString, offsetTop: int, offsetHeight: int)

  /** A section counts as current from this many pixels above its top. */
  const ActiveOffset := 100
  /** Anchor scrolling stops this many pixels above the target, below the fixed navbar. */
  const NavbarHeight := 70
  /** Scroll position beyond which the navbar takes its scrolled look. */
  const ScrolledThreshold := 50
  /** Scroll position beyond which the back-to-top button shows. */
  const BackToTopThreshold := 300

  /** The code unit of '#', which starts every in-page href. */
  const Hash: CodeUnit := '#' as int

  // ---------------------------------------------------------------------
  // The highlighted navigation link
  // ---------------------------------------------------------------------

  /**
   * The scroll window of a section: strictly below its top minus the offset,
   * down to and including that point plus its height.
   */
  predicate InWindow(scrollY: int, section: Element) {
    section.offsetTop - ActiveOffset < scrollY <= section.offsetTop - ActiveOffset + section.offsetHeight
  }

  /** The navigation link whose href is "#" followed by the id, if there is one. */
  function LinkFor(hrefs: seq<JsString>, id: JsString): Option<nat> {
    FirstIndex(hrefs, [Hash] + id)
  }

  /** The "active" flags after clearing every link and marking `link`. */
  function Highlight(n: nat, link: Option<nat>): (r: seq<bool>)
    ensures |r| == n
  {
    seq(n, i => link.Some? && link.value == i)
  }

  /** One section visited by the forEach: a section whose window holds the position re-highlights. */
  function Visit(scrollY: int, hrefs: seq<JsString>, flags: seq<bool>, section: Element): (r: seq<bool>)
    requires |flags| == |hrefs|
    ensures |r| == |flags|
  {
    if InWindow(scrollY, section) then Highlight(|flags|, LinkFor(hrefs, section.id)) else flags
  }

  /** The flags after visiting the sections in document order. */
  function Scan(scrollY: int, sections: seq<Element>, hrefs: seq<JsString>, flags: seq<bool>): (r: seq<bool>)
    requires |flags| == |hrefs|
    ensures |r| == |flags|
    decreases |sections|
  {
    if sections == [] then flags
    else
      var last := |sections| - 1;
      Visit(scrollY, hrefs, Scan(scrollY, sections[..last], hrefs, flags), sections[last])
  }

  /** The last section, in document order, whose window holds the position. */
  function LastMatch(scrollY: int, sections: seq<Element>): (r: Option<nat>)
    ensures r.Some? ==>
      && r.value < |sections| && InWindow(scrollY, sections[r.value])
      && forall j | r.value < j < |sections| :: !InWindow(scrollY, sections[j])
    ensures r.None? ==> forall j | 0 <= j < |sections| :: !InWindow(scrollY, sections[j])
    decreases |sections|
  {
    if sections == [] then None
    else
      var last := |sections| - 1;
      if InWindow(scrollY, sections[last]) then Some(last)
      else LastMatch(scrollY, sections[..last])
  }

  /**
   * What the highlight should be: if some section's window holds the
   * position, exactly the link of the last such section (none if it has no
   * link); otherwise the flags as they were.
   */
  function ActiveFlags(scrollY: int, sections: seq<Element>, hrefs: seq<JsString>, flags: seq<bool>): seq<bool>
    requires |flags| == |hrefs|
  {
    match LastMatch(scrollY, sections)
    case None => flags
    case Some(k) => Highlight(|flags|, LinkFor(hrefs, sections[k].id))
  }

  /** Visiting the sections one by one leaves the highlight of the last section that matched. */
  lemma {:induction false} ScanIsLastMatch(scrollY: int, sections: seq<Element>, hrefs: seq<JsString>, flags: seq<bool>)
    requires |flags| == |hrefs|
    ensures Scan(scrollY, sections, hrefs, flags) == ActiveFlags(scrollY, sections, hrefs, flags)
    decreases |sections|
  {
    if sections != [] {
      var last := |sections| - 1;
      var init := sections[..last];
      ScanIsLastMatch(scrollY, init, hrefs, flags);
      if !InWindow(scrollY, sections[last]) {
        match LastMatch(scrollY, init)
        case None =>
        case Some(k) => assert sections[k] == init[k];
      }
    }
  }

  /**
   * After the handler runs: when some section matched, at most one link is
   * active, and one is exactly when that section has a link; when none
   * matched, nothing changed.
   */
  lemma AtMostOneActive(scrollY: int, sections: seq<Element>, hrefs: seq<JsString>, flags: seq<bool>)
    requires |flags| == |hrefs|
    ensures var r := Scan(scrollY, sections, hrefs, flags);
      match LastMatch(scrollY, sections)
      case None => r == flags
      case Some(k) =>
        && (forall i, j | 0 <= i < |r| && 0 <= j < |r| && r[i] && r[j] :: i == j)
        && ((exists i | 0 <= i < |r| :: r[i]) <==> LinkFor(hrefs, sections[k].id).Some?)
        && (forall i | 0 <= i < |r| && r[i] :: hrefs[i] == [Hash] + sections[k].id)
  {
    ScanIsLastMatch(scrollY, sections, hrefs, flags);
    match LastMatch(scrollY, sections)
    case None =>
    case Some(k) =>
      var link := LinkFor(hrefs, sections[k].id);
      var r := Scan(scrollY, sections, hrefs, flags);
      if link.Some? {
        assert r[link.value];
      }
  }

  /** A matched section without a link clears every highlight. */
  lemma NoLinkClearsAll(scrollY: int, sections: seq<Element>, hrefs: seq<JsString>, flags: seq<bool>, k: nat)
    requires |flags| == |hrefs|
    requires LastMatch(scrollY, sections) == Some(k) && LinkFor(hrefs, sections[k].id).None?
    ensures forall i | 0 <= i < |flags| :: !Scan(scrollY, sections, hrefs, flags)[i]
  {
    ScanIsLastMatch(scrollY, sections, hrefs, flags);
  }

  /**
   * Running the handler twice at the same position (the direct listener and
   * the debounced one) leaves the same highlight as running it once.
   */
  lemma ScanIdempotent(scrollY: int, sections: seq<Element>, hrefs: seq<JsString>, flags: seq<bool>)
    requires |flags| == |hrefs|
    ensures var once := Scan(scrollY, sections, hrefs, flags);
      Scan(scrollY, sections, hrefs, once) == once
  {
    var once := Scan(scrollY, sections, hrefs, flags);
    ScanIsLastMatch(scrollY, sections, hrefs, flags);
    ScanIsLastMatch(scrollY, sections, hrefs, once);
  }

  /**
   * The scroll handler: visits the sections in document order and, for each
   * whose window holds the position, removes "active" from every link and
   * adds it to the section's link.  `active[i]` is whether link i (of
   * `hrefs`, in document order) carries the class.
   */
  method SetActiveNavLink(scrollY: int, sections: seq<Element>, hrefs: seq<JsString>, active: array<bool>)
    requires active.Length == |hrefs|
    modifies active
    ensures active[..] == ActiveFlags(scrollY, sections, hrefs, old(active[..]))
  {
    var i := 0;
    while i < |sections|
      invariant 0 <= i <= |sections|
      invariant active[..] == Scan(scrollY, sections[..i], hrefs, old(active[..]))
    {
      var section := sections[i];
      var sectionHeight := section.offsetHeight;
      var sectionTop := section.offsetTop - ActiveOffset;
      var navLink := LinkFor(hrefs, section.id);
      if scrollY > sectionTop && scrollY <= sectionTop + sectionHeight {
        var j := 0;
        while j < active.Length
          invariant 0 <= j <= active.Length
          invariant forall m | 0 <= m < j :: !active[m]
        {
          active[j] := false;
          j := j + 1;
        }
        if navLink.Some? {
          active[navLink.value] := true;
        }
        assert active[..] == Highlight(active.Length, navLink);
      }
      assert sections[..i + 1][..i] == sections[..i];
      i := i + 1;
    }
    assert sections[..i] == sections;
    ScanIsLastMatch(scrollY, sections, hrefs, old(active[..]));
  }

  // ---------------------------------------------------------------------
  // Smooth scrolling to an in-page anchor
  // ---------------------------------------------------------------------

  function Ids(elements: seq<Element>): (r: seq<JsString>)
    ensures |r| == |elements| && forall i | 0 <= i < |r| :: r[i] == elements[i].id
  {
    seq(|elements|, i requires 0 <= i < |elements| => elements[i].id)
  }

  /**
   * The position a click on an anchor whose href starts with "#" scrolls to:
   * the top of the first element with the named id, less the navbar height.
   * None means no scroll: the bare "#" (not a valid selector, so the lookup
   * throws) or no such element.
   */
  function AnchorTarget(href: JsString, elements: seq<Element>): (r: Option<int>)
    requires |href| >= 1 && href[0] == Hash
    ensures r.Some? <==> |href| > 1 && exists i | 0 <= i < |elements| :: elements[i].id == href[1..]
    ensures r.Some? ==> exists i | 0 <= i < |elements| ::
      && elements[i].id == href[1..] && r.value == elements[i].offsetTop - NavbarHeight
      && forall j | 0 <= j < i :: elements[j].id != href[1..]
  {
    if |href| == 1 then None
    else match FirstIndex(Ids(elements), href[1..])
      case None => None
      case Some(i) => Some(elements[i].offsetTop - NavbarHeight)
  }

  // ---------------------------------------------------------------------
  // Classes switched by the scroll position
  // ---------------------------------------------------------------------

  predicate NavbarScrolled(scrollY: int) { scrollY > ScrolledThreshold }

  predicate BackToTopVisible(scrollY: int) { scrollY > BackToTopThreshold }

  /** Whenever the back-to-top button shows, the navbar has its scrolled look. */
  lemma BackToTopImpliesScrolled(scrollY: int)
    ensures BackToTopVisible(scrollY) ==> NavbarScrolled(scrollY)
    ensures !NavbarScrolled(scrollY) ==> !BackToTopVisible(scrollY)
  {
  }

  /** The navbar's "scrolled" class and the back-to-top button's "visible" class. */
  class ScrollIndicators {
    var navbarScrolled: bool
    var backToTopVisible: bool

    /** The page as loaded, with neither class. */
    constructor ()
      ensures !navbarScrolled && !backToTopVisible
    {
      navbarScrolled, backToTopVisible := false, false;
    }

    /** The two scroll listeners, run at position scrollY. */
    method OnScroll(scrollY: int)
      modifies this
      ensures navbarScrolled == NavbarScrolled(scrollY)
      ensures backToTopVisible == BackToTopVisible(scrollY)
    {
      if scrollY > ScrolledThreshold {
        navbarScrolled := true;
      } else {
        navbarScrolled := false;
      }
      if scrollY > BackToTopThreshold {
        backToTopVisible := true;
      } else {
        backToTopVisible := false;
      }
    }
  }
}
