/**
 * The mobile menu: the hamburger button and the navigation menu each carry
 * an "active" class; the hamburger toggles both, a click on a navigation
 * link removes both, and Escape removes both while the menu is open.
 */
module Menu {
  import opened Unicode

  /** Whether the hamburger and the navigation menu carry "active". */
  datatype MenuFlags = MenuFlags(hamburgerActive: bool, navMenuActive: bool)

  const Closed := MenuFlags(false, false)
  const Open := MenuFlags(true, true)

  /** The two classes agree: the menu is either open or closed. */
  predicate InSync(f: MenuFlags) { f.hamburgerActive == f.navMenuActive }

  /** A click on the hamburger toggles both classes. */
  function OnHamburgerClick(f: MenuFlags): (r: MenuFlags)
    ensures r.hamburgerActive != f.hamburgerActive && r.navMenuActive != f.navMenuActive
  {
    MenuFlags(!f.hamburgerActive, !f.navMenuActive)
  }

  /** A click on a navigation link removes both classes. */
  function OnNavLinkClick(f: MenuFlags): (r: MenuFlags)
    ensures r == Closed
  {
    MenuFlags(false, false)
  }

  /** The `key` of a keydown event for the Escape key. */
  const Escape: JsString := Ascii("Escape")

  /** A key press: Escape closes the menu if the navigation menu is open; anything else changes nothing. */
  function OnKeyDown(f: MenuFlags, key: JsString): (r: MenuFlags)
    ensures r == Closed || r == f
    ensures !f.navMenuActive ==> r == f
    ensures key != Escape ==> r == f
    ensures key == Escape && f.navMenuActive ==> r == Closed
  {
    if key == Escape && f.navMenuActive then MenuFlags(false, false) else f
  }

  /** Every handler keeps the two classes in step, so the menu is always open or closed. */
  lemma HandlersKeepSync(f: MenuFlags, key: JsString)
    requires InSync(f)
    ensures InSync(OnHamburgerClick(f)) && InSync(OnNavLinkClick(f)) && InSync(OnKeyDown(f, key))
    ensures OnHamburgerClick(f) == (if f == Open then Closed else Open)
  {
  }

  /** Two hamburger clicks restore the classes, whatever they were. */
  lemma HamburgerTwiceRestores(f: MenuFlags)
    ensures OnHamburgerClick(OnHamburgerClick(f)) == f
  {
  }

  /** Closing a closed menu by a link click changes nothing. */
  lemma LinkClickIdempotent(f: MenuFlags)
    ensures OnNavLinkClick(OnNavLinkClick(f)) == OnNavLinkClick(f)
  {
  }

  /** Escape closes an open menu, leaves a closed one alone, and a second Escape changes nothing. */
  lemma EscapeCloses(f: MenuFlags)
    requires InSync(f)
    ensures OnKeyDown(f, Escape) == Closed
    ensures OnKeyDown(OnKeyDown(f, Escape), Escape) == OnKeyDown(f, Escape)
  {
  }

  /** The two elements' classes on the page. */
  class MobileMenu {
    var hamburgerActive: bool
    var navMenuActive: bool

    function Flags(): MenuFlags
      reads this
    {
      MenuFlags(hamburgerActive, navMenuActive)
    }

    /** The page as loaded, with the menu closed. */
    constructor ()
      ensures Flags() == Closed
    {
      hamburgerActive, navMenuActive := false, false;
    }

    method HamburgerClick()
      modifies this
      ensures Flags() == OnHamburgerClick(old(Flags()))
      ensures InSync(old(Flags())) ==> InSync(Flags())
    {
      hamburgerActive := !hamburgerActive;
      navMenuActive := !navMenuActive;
    }

    method NavLinkClick()
      modifies this
      ensures Flags() == OnNavLinkClick(old(Flags())) && InSync(Flags())
    {
      hamburgerActive := false;
      navMenuActive := false;
    }

    method KeyDown(key: JsString)
      modifies this
      ensures Flags() == OnKeyDown(old(Flags()), key)
      ensures InSync(old(Flags())) ==> InSync(Flags())
    {
      if key == Escape && navMenuActive {
        hamburgerActive := false;
        navMenuActive := false;
      }
    }
  }
}
