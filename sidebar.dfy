/**
  The sidebar of assets/scripts.js (`initSidebar`): the desktop collapse
  toggle, which is mirrored on the body and the root element and saved as a
  preference, and the mobile drawer, whose open state is mirrored by the
  overlay, the body's scroll lock and the menu button's `aria-expanded`.
*/
module Sidebar {
  import opened BrowserStorage
  import opened Preferences

  /** The preference key of the collapsed state. */
  const CollapsedKey := "sidebarCollapsed"

  /** `loadSidebarState`: the sidebar starts collapsed iff the stored preference is truthy. */
  predicate LoadsCollapsed(items: map<string, string>, readFails: bool) {
    Truthy(GetPreference(items, readFails, CollapsedKey, Flag(false)))
  }

  /** A collapsed state that was saved is the state the next page load restores. */
  lemma CollapsedStateRoundTrip(items: map<string, string>, collapsed: bool, fault: Fault, retry: Retry)
    requires Saved(fault, retry)
    ensures LoadsCollapsed(AfterSave(items, CollapsedKey, Flag(collapsed), fault, retry), false) == collapsed
  {
    FlagRoundTrip(items, CollapsedKey, collapsed, fault, retry, Flag(false));
  }

  /** With nothing stored, or storage that cannot be read, the sidebar starts expanded. */
  lemma NothingStoredLoadsExpanded(items: map<string, string>, readFails: bool)
    requires readFails || CollapsedKey !in items
    ensures !LoadsCollapsed(items, readFails)
  {
  }

  class SidebarPage {
    /** The storage the collapsed state is saved to. */
    const storage: LocalStorage
    /** Which of the optional controls are on the page (the sidebar itself is always there). */
    const hasToggle: bool
    const hasMenuButton: bool
    const hasOverlay: bool

    /** The sidebar has class `collapsed`. */
    var collapsed: bool
    /** The body has class `sidebar-collapsed`. */
    var bodyCollapsed: bool
    /** The root element carries `data-sidebar-collapsed="true"`. */
    var rootMarked: bool
    /** The sidebar has class `mobile-open`. */
    var mobileOpen: bool
    /** The overlay has class `active`. */
    var overlayActive: bool
    /** `document.body.style.overflow` is `hidden`. */
    var scrollLocked: bool
    /** The menu button's `aria-expanded` is `"true"`. */
    var menuExpanded: bool

    /** The three collapse markers agree. */
    predicate DesktopConsistent()
      reads this
    {
      bodyCollapsed == collapsed && rootMarked == collapsed
    }

    /** The overlay, the scroll lock and the menu button all show the drawer's state. */
    predicate MobileConsistent()
      reads this
    {
      && (hasOverlay ==> overlayActive == mobileOpen)
      && scrollLocked == mobileOpen
      && (hasMenuButton ==> menuExpanded == mobileOpen)
    }

    /** The page before `initSidebar`: nothing collapsed, the drawer closed. */
    constructor (storage: LocalStorage, hasToggle: bool, hasMenuButton: bool, hasOverlay: bool)
      ensures this.storage == storage
      ensures this.hasToggle == hasToggle && this.hasMenuButton == hasMenuButton && this.hasOverlay == hasOverlay
      ensures !collapsed && !mobileOpen
      ensures DesktopConsistent() && MobileConsistent()
    {
      this.storage := storage;
      this.hasToggle := hasToggle;
      this.hasMenuButton := hasMenuButton;
      this.hasOverlay := hasOverlay;
      collapsed := false;
      bodyCollapsed := false;
      rootMarked := false;
      mobileOpen := false;
      overlayActive := false;
      scrollLocked := false;
      menuExpanded := false;
    }

    /** `loadSidebarState`: a truthy stored preference collapses the sidebar;
        otherwise nothing changes. */
    method LoadSidebarState(readFails: bool)
      modifies this`collapsed, this`bodyCollapsed, this`rootMarked
      ensures LoadsCollapsed(storage.items, readFails) ==> collapsed && bodyCollapsed && rootMarked
      ensures !LoadsCollapsed(storage.items, readFails) ==>
        collapsed == old(collapsed) && bodyCollapsed == old(bodyCollapsed) && rootMarked == old(rootMarked)
      ensures old(DesktopConsistent()) ==> DesktopConsistent()
    {
      var pref := GetPreference(storage.items, readFails, CollapsedKey, Flag(false));
      if Truthy(pref) {
        collapsed := true;
        bodyCollapsed := true;
        rootMarked := true;
      }
    }

    /** The desktop toggle: both classes flip, the root marker follows the
        sidebar's class, and the new state is saved. */
    method OnToggleClick(fault: Fault, retry: Retry)
      requires hasToggle
      modifies this`collapsed, this`bodyCollapsed, this`rootMarked, storage
      ensures collapsed == !old(collapsed) && bodyCollapsed == !old(bodyCollapsed)
      ensures rootMarked == collapsed
      ensures storage.items == AfterSave(old(storage.items), CollapsedKey, Flag(collapsed), fault, retry)
      ensures old(DesktopConsistent()) ==> DesktopConsistent()
    {
      collapsed := !collapsed;
      bodyCollapsed := !bodyCollapsed;
      var newState := collapsed;
      rootMarked := newState;
      SavePreference(storage, CollapsedKey, Flag(newState), fault, retry);
    }

    /** Closes the drawer: the overlay, the scroll lock and the menu button follow. */
    method CloseDrawer()
      modifies this`mobileOpen, this`overlayActive, this`scrollLocked, this`menuExpanded
      ensures !mobileOpen && !scrollLocked
      ensures hasOverlay ==> !overlayActive
      ensures !hasOverlay ==> overlayActive == old(overlayActive)
      ensures hasMenuButton ==> !menuExpanded
      ensures !hasMenuButton ==> menuExpanded == old(menuExpanded)
      ensures MobileConsistent()
    {
      mobileOpen := false;
      if hasOverlay {
        overlayActive := false;
      }
      scrollLocked := false;
      if hasMenuButton {
        menuExpanded := false;
      }
    }

    /** The mobile menu button: the drawer flips, and the overlay, the scroll lock and the button follow. */
    method OnMenuButtonClick()
      requires hasMenuButton
      modifies this`mobileOpen, this`overlayActive, this`scrollLocked, this`menuExpanded
      ensures mobileOpen == !old(mobileOpen)
      ensures scrollLocked == mobileOpen && menuExpanded == mobileOpen
      ensures hasOverlay ==> overlayActive == mobileOpen
      ensures !hasOverlay ==> overlayActive == old(overlayActive)
      ensures MobileConsistent()
    {
      if mobileOpen {
        CloseDrawer();
      } else {
        mobileOpen := true;
        if hasOverlay {
          overlayActive := true;
        }
        scrollLocked := true;
        menuExpanded := true;
      }
    }

    /** A click on the overlay closes the drawer. */
    method OnOverlayClick()
      requires hasOverlay
      modifies this`mobileOpen, this`overlayActive, this`scrollLocked, this`menuExpanded
      ensures !mobileOpen && !overlayActive && !scrollLocked
      ensures hasMenuButton ==> !menuExpanded
      ensures MobileConsistent()
    {
      CloseDrawer();
    }

    /** The document `keydown` handler: Escape closes the drawer while it is open; anything else changes nothing. */
    method OnKeyDown(key: string)
      modifies this`mobileOpen, this`overlayActive, this`scrollLocked, this`menuExpanded
      ensures key == "Escape" && old(mobileOpen) ==> !mobileOpen && !scrollLocked && (hasMenuButton ==> !menuExpanded)
      ensures !(key == "Escape" && old(mobileOpen)) ==> unchanged(this)
      ensures old(MobileConsistent()) ==> MobileConsistent()
    {
      if key == "Escape" && mobileOpen {
        CloseDrawer();
      }
    }

    /** `closeMobileSidebar`, run by a click on a navigation item: closes
        the drawer when the viewport is at most 1024 pixels wide (`narrow`). */
    method CloseMobileSidebar(narrow: bool)
      modifies this`mobileOpen, this`overlayActive, this`scrollLocked, this`menuExpanded
      ensures narrow ==> !mobileOpen && !scrollLocked && (hasMenuButton ==> !menuExpanded)
      ensures !narrow ==> unchanged(this)
      ensures old(MobileConsistent()) ==> MobileConsistent()
    {
      if narrow {
        CloseDrawer();
      }
    }

    /** The debounced `resize` handler as written: it calls
        `closeMobileSidebar` only when the viewport is wider than 1024 pixels,
        and that function acts only when it is at most 1024 pixels wide, so
        the handler never changes anything, even with the drawer open. */
    method OnResizeAsWritten(narrow: bool)
      modifies this`mobileOpen, this`overlayActive, this`scrollLocked, this`menuExpanded
      ensures unchanged(this)
    {
      if !narrow {
        CloseMobileSidebar(narrow);
      }
    }

    /** The `resize` handler as evidently intended: growing past the 1024-pixel
        breakpoint closes the drawer; at narrow widths nothing changes. */
    method OnResize(narrow: bool)
      modifies this`mobileOpen, this`overlayActive, this`scrollLocked, this`menuExpanded
      ensures !narrow ==> !mobileOpen && !scrollLocked && (hasMenuButton ==> !menuExpanded)
      ensures narrow ==> unchanged(this)
      ensures old(MobileConsistent()) ==> MobileConsistent()
    {
      if !narrow {
        CloseDrawer();
      }
    }
  }
}
