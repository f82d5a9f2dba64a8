/**
  The navigation bar: a mobile menu that opens and closes, and the section shown as
  active. Clicking an item scrolls to its section and closes the menu. The section
  becomes active only when the scroll triggers report entering it.
*/
module Navigation {

  datatype NavItem = NavItem(id: string, caption: string)

  /** The five items, in display order. */
  const NavItems: seq<NavItem> := [
    NavItem("hero", "Home"),
    NavItem("about", "About"),
    NavItem("projects", "Projects"),
    NavItem("skills", "Skills"),
    NavItem("contact", "Contact")
  ]

  predicate IsNavId(id: string) {
    exists k | 0 <= k < |NavItems| :: NavItems[k].id == id
  }

  datatype Nav = Nav(isMenuOpen: bool, activeSection: string)

  /** The state after mount. */
  const Init: Nav := Nav(false, "hero")

  /** The mobile menu button: `setIsMenuOpen(!isMenuOpen)`. */
  function ToggleMenu(s: Nav): (r: Nav)
    ensures r.isMenuOpen != s.isMenuOpen
    ensures r.activeSection == s.activeSection
  {
    s.(isMenuOpen := !s.isMenuOpen)
  }

  /** `scrollToSection(id)`. The scroll happens only when the element exists; the menu
      closes either way. The scroll itself is not part of the state. */
  function ScrollToSection(s: Nav, id: string, elementExists: bool): (r: Nav)
    ensures !r.isMenuOpen
    ensures r.activeSection == s.activeSection
  {
    s.(isMenuOpen := false)
  }

  /** `onEnter` and `onEnterBack` of the scroll trigger created for section `id`. */
  function SectionEntered(s: Nav, id: string): (r: Nav)
    ensures r.activeSection == id
    ensures r.isMenuOpen == s.isMenuOpen
  {
    s.(activeSection := id)
  }

  /** An item gets the highlighted style exactly when its id is the active section. */
  predicate Highlighted(s: Nav, id: string) {
    s.activeSection == id
  }

  /** The mobile menu panel is rendered while the menu is open. */
  predicate MobileMenuShown(s: Nav) {
    s.isMenuOpen
  }

  /** The ids of the highlighted items, in display order. */
  function HighlightedIds(s: Nav): (r: seq<string>)
    ensures |r| <= 1
    ensures IsNavId(s.activeSection) ==> r == [s.activeSection]
    ensures !IsNavId(s.activeSection) ==> r == []
  {
    var ids := seq(|NavItems|, k requires 0 <= k < |NavItems| => NavItems[k].id);
    IdsDistinct();
    assert IsNavId(s.activeSection) <==> s.activeSection in ids by {
      if IsNavId(s.activeSection) {
        var k :| 0 <= k < |NavItems| && NavItems[k].id == s.activeSection;
        assert ids[k] == s.activeSection;
      }
      if s.activeSection in ids {
        var k :| 0 <= k < |ids| && ids[k] == s.activeSection;
        assert NavItems[k].id == s.activeSection;
      }
    }
    FilterActive(ids, s.activeSection)
  }

  /** The five ids are pairwise distinct. */
  lemma IdsDistinct()
    ensures forall i, j | 0 <= i < j < |NavItems| :: NavItems[i].id != NavItems[j].id
  {
  }

  function FilterActive(ids: seq<string>, active: string): (r: seq<string>)
    requires forall i, j | 0 <= i < j < |ids| :: ids[i] != ids[j]
    ensures active in ids ==> r == [active]
    ensures active !in ids ==> r == []
    decreases |ids|
  {
    if |ids| == 0 then []
    else
      var rest := FilterActive(ids[1..], active);
      if ids[0] == active then
        assert active !in ids[1..];
        [active]
      else rest
  }

  /** At most one item is highlighted, since the ids are distinct. */
  lemma AtMostOneHighlighted(s: Nav, i: nat, j: nat)
    requires i < |NavItems| && j < |NavItems|
    requires Highlighted(s, NavItems[i].id) && Highlighted(s, NavItems[j].id)
    ensures i == j
  {
    IdsDistinct();
  }

  /** The mobile panel appears and disappears with the menu button, and any click on a
      nav item hides it. */
  lemma MenuVisibility(s: Nav, id: string, elementExists: bool)
    ensures MobileMenuShown(ToggleMenu(s)) <==> !MobileMenuShown(s)
    ensures !MobileMenuShown(ScrollToSection(s, id, elementExists))
  {
  }

  /** The menu button twice restores the menu. */
  lemma ToggleTwice(s: Nav)
    ensures ToggleMenu(ToggleMenu(s)) == s
  {
  }

  datatype NavEvent =
    | MenuButton            // the mobile menu button
    | ItemClicked(id: string, elementExists: bool) // a nav item or the logo
    | Entered(id: string)   // a section's scroll trigger fires `onEnter` or `onEnterBack`

  function NavStep(s: Nav, e: NavEvent): Nav {
    match e
    case MenuButton => ToggleMenu(s)
    case ItemClicked(id, found) => ScrollToSection(s, id, found)
    case Entered(id) => SectionEntered(s, id)
  }

  function NavRun(s: Nav, events: seq<NavEvent>): Nav
    decreases |events|
  {
    if |events| == 0 then s else NavRun(NavStep(s, events[0]), events[1..])
  }

  /** Scroll triggers exist only for the nav items' sections. */
  predicate FromNavSections(events: seq<NavEvent>) {
    forall k | 0 <= k < |events| :: events[k].Entered? ==> IsNavId(events[k].id)
  }

  /** The active section is always one of the nav items, so exactly one item is
      highlighted at every moment. */
  lemma {:induction false} ActiveStaysNavId(s: Nav, events: seq<NavEvent>)
    requires IsNavId(s.activeSection)
    requires FromNavSections(events)
    ensures IsNavId(NavRun(s, events).activeSection)
    ensures |HighlightedIds(NavRun(s, events))| == 1
    decreases |events|
  {
    if |events| > 0 {
      assert FromNavSections(events[1..]) by {
        forall k | 0 <= k < |events[1..]| ensures events[1..][k].Entered? ==> IsNavId(events[1..][k].id) {
          assert events[1..][k] == events[k + 1];
        }
      }
      ActiveStaysNavId(NavStep(s, events[0]), events[1..]);
    }
  }

  /** Clicks and the menu button never change the active section: only entering a
      section does. */
  lemma {:induction false} ClicksKeepActive(s: Nav, events: seq<NavEvent>)
    requires forall k | 0 <= k < |events| :: !events[k].Entered?
    ensures NavRun(s, events).activeSection == s.activeSection
    decreases |events|
  {
    if |events| > 0 {
      ClicksKeepActive(NavStep(s, events[0]), events[1..]);
    }
  }

  lemma InitState()
    ensures !MobileMenuShown(Init) && Highlighted(Init, "hero")
    ensures HighlightedIds(Init) == ["hero"]
  {
    assert NavItems[0].id == "hero";
  }
}
