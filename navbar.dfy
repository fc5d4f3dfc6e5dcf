/**
  The top navigation bar of assets/scripts.js (`initTopNavbar`): the
  notifications dropdown and the user dropdown, which a click on either
  trigger keeps from being open together, the outside click and Escape that
  close them, and "mark all as read".
*/
module Navbar {

  class TopNavbar {
    /** Which of the elements `initTopNavbar` looks up are on the page. */
    const hasNotificationsButton: bool
    const hasNotificationsDropdown: bool
    const hasUserProfile: bool
    const hasUserDropdown: bool
    /** The triggers sit inside their `.notifications-wrapper` / `.user-profile-wrapper`. */
    const hasNotificationsWrapper: bool
    const hasUserWrapper: bool
    /** The notification badge (or count) that "mark all as read" hides. */
    const hasBadge: bool
    /** Whether each `.notification-dropdown-item` has class `unread`, in document order. */
    const unread: array<bool>

    /** The notifications dropdown has class `active`. */
    var notificationsOpen: bool
    /** The user dropdown has class `active`. */
    var userOpen: bool
    /** The user profile trigger has class `active`. */
    var profileActive: bool
    /** The badge's `display` is `none`. */
    var badgeHidden: bool

    /** The two dropdowns are never displayed together. */
    predicate Exclusive()
      reads this
    {
      !(hasNotificationsDropdown && notificationsOpen && hasUserDropdown && userOpen)
    }

    constructor (hasNotificationsButton: bool, hasNotificationsDropdown: bool, hasUserProfile: bool,
                 hasUserDropdown: bool, hasNotificationsWrapper: bool, hasUserWrapper: bool, hasBadge: bool,
                 unread: seq<bool>)
      ensures this.hasNotificationsButton == hasNotificationsButton && this.hasNotificationsDropdown == hasNotificationsDropdown
      ensures this.hasUserProfile == hasUserProfile && this.hasUserDropdown == hasUserDropdown
      ensures this.hasNotificationsWrapper == hasNotificationsWrapper && this.hasUserWrapper == hasUserWrapper
      ensures this.hasBadge == hasBadge
      ensures fresh(this.unread) && this.unread[..] == unread
      ensures !notificationsOpen && !userOpen && !profileActive && !badgeHidden
      ensures Exclusive()
    {
      this.hasNotificationsButton := hasNotificationsButton;
      this.hasNotificationsDropdown := hasNotificationsDropdown;
      this.hasUserProfile := hasUserProfile;
      this.hasUserDropdown := hasUserDropdown;
      this.hasNotificationsWrapper := hasNotificationsWrapper;
      this.hasUserWrapper := hasUserWrapper;
      this.hasBadge := hasBadge;
      this.unread := new bool[|unread|](k requires 0 <= k < |unread| => unread[k]);
      notificationsOpen := false;
      userOpen := false;
      profileActive := false;
      badgeHidden := false;
    }

    /** A click on the notifications button: an open user dropdown is closed
        first, then the notifications dropdown flips. Afterwards the two are
        not open together, whatever the state before. */
    method OnNotificationsClick()
      requires hasNotificationsButton && hasNotificationsDropdown
      modifies this`notificationsOpen, this`userOpen, this`profileActive
      ensures notificationsOpen == !old(notificationsOpen)
      ensures hasUserDropdown && old(userOpen) ==> !userOpen && (hasUserProfile ==> !profileActive)
      ensures !(hasUserDropdown && old(userOpen)) ==> userOpen == old(userOpen) && profileActive == old(profileActive)
      ensures Exclusive()
    {
      var isActive := notificationsOpen;
      if hasUserDropdown && userOpen {
        userOpen := false;
        if hasUserProfile {
          profileActive := false;
        }
      }
      notificationsOpen := !isActive;
    }

    /** A click on the user profile: an open notifications dropdown is
        closed first, then the user dropdown and the trigger's highlight flip
        together. Afterwards the two dropdowns are not open together. */
    method OnUserProfileClick()
      requires hasUserProfile && hasUserDropdown
      modifies this`notificationsOpen, this`userOpen, this`profileActive
      ensures userOpen == !old(userOpen) && profileActive == userOpen
      ensures hasNotificationsDropdown && old(notificationsOpen) ==> !notificationsOpen
      ensures !(hasNotificationsDropdown && old(notificationsOpen)) ==> notificationsOpen == old(notificationsOpen)
      ensures Exclusive()
    {
      var isActive := userOpen;
      if hasNotificationsDropdown && notificationsOpen {
        notificationsOpen := false;
      }
      if isActive {
        userOpen := false;
        profileActive := false;
      } else {
        userOpen := true;
        profileActive := true;
      }
    }

    /** A click anywhere in the document that reaches its handler (the two
        triggers stop theirs); `inNotifications` and `inUser` say whether the
        target lies inside each wrapper. A dropdown is closed when its wrapper
        exists and the click is outside it; nothing is ever opened. */
    method OnDocumentClick(inNotifications: bool, inUser: bool)
      modifies this`notificationsOpen, this`userOpen, this`profileActive
      ensures hasNotificationsWrapper && hasNotificationsDropdown && !inNotifications ==> !notificationsOpen
      ensures !(hasNotificationsWrapper && hasNotificationsDropdown && !inNotifications) ==> notificationsOpen == old(notificationsOpen)
      ensures hasUserWrapper && hasUserDropdown && !inUser && old(userOpen) ==> !userOpen && !profileActive
      ensures !(hasUserWrapper && hasUserDropdown && !inUser && old(userOpen)) ==>
        userOpen == old(userOpen) && profileActive == old(profileActive)
      ensures old(Exclusive()) ==> Exclusive()
    {
      if hasNotificationsWrapper && hasNotificationsDropdown {
        if !inNotifications && notificationsOpen {
          notificationsOpen := false;
        }
      }
      if hasUserWrapper && hasUserDropdown {
        if !inUser && userOpen {
          userOpen := false;
          profileActive := false;
        }
      }
    }

    /** The document `keydown` handler: Escape closes both dropdowns; any other key changes nothing. */
    method OnKeyDown(key: string)
      modifies this`notificationsOpen, this`userOpen, this`profileActive
      ensures key == "Escape" && hasNotificationsDropdown ==> !notificationsOpen
      ensures key == "Escape" && hasUserDropdown ==> !userOpen
      ensures key == "Escape" && hasUserDropdown && hasUserProfile && old(userOpen) ==> !profileActive
      ensures key != "Escape" ==> unchanged(this)
      ensures Exclusive() || key != "Escape"
      ensures old(Exclusive()) ==> Exclusive()
    {
      if key == "Escape" {
        if hasNotificationsDropdown && notificationsOpen {
          notificationsOpen := false;
        }
        if hasUserDropdown && userOpen {
          userOpen := false;
          if hasUserProfile {
            profileActive := false;
          }
        }
      }
    }

    /** "Mark all as read" (its handler exists only with the button): no
        notification item is left `unread`, and the badge is hidden. */
    method OnMarkAllRead()
      modifies unread, this`badgeHidden
      ensures forall k :: 0 <= k < unread.Length ==> !unread[k]
      ensures hasBadge ==> badgeHidden
      ensures !hasBadge ==> badgeHidden == old(badgeHidden)
    {
      var k := 0;
      while k < unread.Length
        modifies unread
        invariant 0 <= k <= unread.Length
        invariant forall j :: 0 <= j < k ==> !unread[j]
      {
        if unread[k] {
          unread[k] := false;
        }
        k := k + 1;
      }
      if hasBadge {
        badgeHidden := true;
      }
    }
  }
}
