/**
 * The responsive navigation bar: a fixed two-level menu table and the mobile
 * disclosure state, a hamburger flag `isOpen` and the name of the one open
 * submenu, `openSubmenu` (absent for JavaScript `null`).
 */
module Navigation {

  datatype Option<T> = None | Some(value: T)

  /** A link: its label and its target. */
  datatype Link = Link(name: string, href: string)

  /** A top-level menu entry, with or without a list of sub-links. */
  datatype MenuItem = MenuItem(name: string, href: string, submenu: Option<seq<Link>>)

  /** `menuItems`. */
  const MenuItems: seq<MenuItem> := [
    MenuItem("Sales", "#", None),
    MenuItem("Products", "#", Some([Link("Electronics", "#"), Link("Clothing", "#"), Link("Books", "#")])),
    MenuItem("Services", "#", Some([Link("Consulting", "#"), Link("Design", "#"), Link("Development", "#")])),
    MenuItem("Contact", "#", None)
  ]

  /** No two entries share a name (the table's React keys). */
  predicate DistinctNames(items: seq<MenuItem>)
  {
    forall i, j :: 0 <= i < j < |items| ==> items[i].name != items[j].name
  }

  lemma MenuItemsDistinct()
    ensures DistinctNames(MenuItems)
    ensures |MenuItems| == 4
  {
  }

  /**
   * `toggleSubmenu(name)`: `openSubmenu === name ? null : name`. The result is
   * empty exactly when `name` was the open one; otherwise it is `name`,
   * whatever was open before.
   */
  function ToggledSubmenu(open: Option<string>, name: string): (r: Option<string>)
    ensures r == None <==> open == Some(name)
    ensures r != None ==> r == Some(name)
  {
    if open == Some(name) then None else Some(name)
  }

  /**
   * Toggling the same name twice restores the previous value exactly when
   * nothing or that same name was open; if another submenu was open, two
   * toggles leave none open.
   */
  lemma ToggleSubmenuTwice(open: Option<string>, name: string)
    ensures ToggledSubmenu(ToggledSubmenu(open, name), name) == open <==> (open == None || open == Some(name))
    ensures open != None && open != Some(name) ==> ToggledSubmenu(ToggledSubmenu(open, name), name) == None
  {
  }

  /** The mobile panel of `item` is rendered: the menu is open, the item has a submenu, and it is the open one. */
  predicate PanelShown(isOpen: bool, open: Option<string>, item: MenuItem)
    ensures PanelShown(isOpen, open, item) ==> isOpen && open == Some(item.name)
    ensures item.submenu == None ==> !PanelShown(isOpen, open, item)
  {
    isOpen && item.submenu.Some? && open == Some(item.name)
  }

  /** The item's chevron exists (it has a submenu) and is rotated (it is the open one). */
  predicate ChevronRotated(open: Option<string>, item: MenuItem)
    ensures ChevronRotated(open, item) ==> open == Some(item.name)
    ensures item.submenu == None ==> !ChevronRotated(open, item)
  {
    item.submenu.Some? && open == Some(item.name)
  }

  /** While the mobile menu is shown, the rotated chevron marks exactly the item whose panel is shown. */
  lemma ChevronMarksPanel(open: Option<string>, item: MenuItem)
    ensures ChevronRotated(open, item) <==> PanelShown(true, open, item)
  {
  }

  /**
   * Clicking an item with a submenu flips that item's chevron and straightens
   * the chevron of every other item.
   */
  lemma ToggleFlipsChevron(open: Option<string>, item: MenuItem, other: MenuItem)
    requires item.submenu.Some?
    requires other.name != item.name
    ensures ChevronRotated(ToggledSubmenu(open, item.name), item) <==> !ChevronRotated(open, item)
    ensures !ChevronRotated(ToggledSubmenu(open, item.name), other)
  {
  }

  /** The items whose submenu panel is rendered, in menu order. */
  function ShownPanels(isOpen: bool, open: Option<string>, items: seq<MenuItem>): (shown: seq<MenuItem>)
    ensures |shown| <= |items|
  {
    if items == [] then []
    else (if PanelShown(isOpen, open, items[0]) then [items[0]] else []) + ShownPanels(isOpen, open, items[1..])
  }

  /** An item is in the shown list exactly when it is in the menu and its panel is shown. */
  lemma {:induction false} ShownPanelsExact(isOpen: bool, open: Option<string>, items: seq<MenuItem>, item: MenuItem)
    ensures item in ShownPanels(isOpen, open, items) <==> item in items && PanelShown(isOpen, open, item)
    decreases |items|
  {
    if items != [] {
      ShownPanelsExact(isOpen, open, items[1..], item);
      assert items == [items[0]] + items[1..];
    }
  }

  /** With no item named `name` in the list, no panel is shown for `name`. */
  lemma {:induction false} NoPanelWithoutName(isOpen: bool, name: string, items: seq<MenuItem>)
    requires forall k :: 0 <= k < |items| ==> items[k].name != name
    ensures ShownPanels(isOpen, Some(name), items) == []
    decreases |items|
  {
    if items != [] {
      NoPanelWithoutName(isOpen, name, items[1..]);
    }
  }

  /** In a menu with distinct names, at most one submenu panel is shown at any time. */
  lemma {:induction false} AtMostOnePanel(isOpen: bool, open: Option<string>, items: seq<MenuItem>)
    requires DistinctNames(items)
    ensures |ShownPanels(isOpen, open, items)| <= 1
    decreases |items|
  {
    if items != [] {
      var rest := items[1..];
      assert DistinctNames(rest) by {
        forall i, j | 0 <= i < j < |rest| ensures rest[i].name != rest[j].name {
          assert rest[i] == items[i + 1] && rest[j] == items[j + 1];
        }
      }
      if PanelShown(isOpen, open, items[0]) {
        forall k | 0 <= k < |rest| ensures rest[k].name != items[0].name {
          assert rest[k] == items[k + 1];
        }
        NoPanelWithoutName(isOpen, items[0].name, rest);
      } else {
        AtMostOnePanel(isOpen, open, rest);
      }
    }
  }

  /**
   * Toggling an item that has no submenu ("Sales", "Contact") either stores its
   * name or clears the open one; either way no panel of the menu is shown,
   * whichever was shown before.
   */
  lemma ItemWithoutSubmenuHidesPanels(isOpen: bool, prev: Option<string>, k: int)
    requires 0 <= k < |MenuItems| && MenuItems[k].submenu == None
    ensures ShownPanels(isOpen, ToggledSubmenu(prev, MenuItems[k].name), MenuItems) == []
  {
    var name := MenuItems[k].name;
    assert k == 0 || k == 3;
    var open := ToggledSubmenu(prev, name);
    assert open == None || open == Some(name);
    assert ShownPanels(isOpen, open, MenuItems[3..]) == [];
    assert ShownPanels(isOpen, open, MenuItems[2..]) == [];
    assert ShownPanels(isOpen, open, MenuItems[1..]) == [];
  }

  /** The navigation bar's mobile disclosure state. */
  class Navbar {
    var isOpen: bool
    var openSubmenu: Option<string>

    /** Initially the mobile menu is closed and no submenu is open. */
    constructor ()
      ensures !isOpen && openSubmenu == None
    {
      isOpen := false;
      openSubmenu := None;
    }

    /** The hamburger button: `setIsOpen(!isOpen)`; the open submenu is kept. */
    method ToggleMenu()
      modifies this
      ensures isOpen == !old(isOpen)
      ensures openSubmenu == old(openSubmenu)
    {
      isOpen := !isOpen;
    }

    /** A mobile menu entry's button: `toggleSubmenu(name)`; the menu stays as it is. */
    method ToggleSubmenu(name: string)
      modifies this
      ensures openSubmenu == ToggledSubmenu(old(openSubmenu), name)
      ensures isOpen == old(isOpen)
    {
      openSubmenu := if openSubmenu == Some(name) then None else Some(name);
    }

    /** The panels rendered in the current state. */
    function VisiblePanels(): (shown: seq<MenuItem>)
      reads this
      ensures |shown| <= 1
    {
      MenuItemsDistinct();
      AtMostOnePanel(isOpen, openSubmenu, MenuItems);
      ShownPanels(isOpen, openSubmenu, MenuItems)
    }
  }

  /** Two hamburger clicks restore the state: closing and reopening brings back the same open panel. */
  method ToggleMenuTwice(nav: Navbar)
    modifies nav
    ensures nav.isOpen == old(nav.isOpen) && nav.openSubmenu == old(nav.openSubmenu)
    ensures nav.VisiblePanels() == old(nav.VisiblePanels())
  {
    nav.ToggleMenu();
    nav.ToggleMenu();
  }
}
