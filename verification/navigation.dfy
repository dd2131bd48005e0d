/**
 * The mobile navigation menu and the sticky header.
 *
 * The menu's open state lives in three class toggles that always move
 * together: `active` on the hamburger button, `active` on the `nav` element
 * and `nav-open` on the body. The header carries `scrolled` while the page is
 * scrolled more than 100 pixels; scroll events are throttled so that at most
 * one header update waits for the next animation frame.
 */
module Navigation {
  import opened Viewport

  /** Scroll offset, in pixels, beyond which the header is `scrolled`. */
  const ScrolledThreshold: int := 100

  /** Where a click lands, as the document's click listener tells targets
      apart with `nav.contains` and `hamburger.contains`. */
  datatype Target =
    | Hamburger  // the hamburger button or something inside it
    | NavLink    // an `a` element inside the `nav`
    | InNav      // anything else inside the `nav`
    | Outside    // anywhere else on the page

  class MobileNav {
    var hamburgerActive: bool
    var navActive: bool
    var bodyNavOpen: bool

    ghost predicate Valid()
      reads this
    {
      hamburgerActive == navActive == bodyNavOpen
    }

    /** The menu is open exactly when the `nav` element is `active`. */
    function IsOpen(): bool
      reads this
    {
      navActive
    }

    /** The page as loaded, with the menu closed. */
    constructor ()
      ensures Valid() && !IsOpen()
    {
      hamburgerActive, navActive, bodyNavOpen := false, false, false;
    }

    /** `toggleMobileNav`: each of the three classes flips. */
    method Toggle()
      modifies this
      ensures hamburgerActive == !old(hamburgerActive)
      ensures navActive == !old(navActive)
      ensures bodyNavOpen == !old(bodyNavOpen)
      ensures old(Valid()) ==> Valid()
    {
      hamburgerActive := !hamburgerActive;
      navActive := !navActive;
      bodyNavOpen := !bodyNavOpen;
    }

    /** The document's click listener: an open menu closes on a click that is
        neither inside the `nav` nor on the hamburger. */
    method OnDocumentClick(target: Target)
      requires Valid()
      modifies this
      ensures Valid()
      ensures IsOpen() <==> old(IsOpen()) && target != Outside
    {
      if navActive && target == Outside {
        Toggle();
      }
    }

    /** The listener on every link of the `nav`: an open menu closes. */
    method OnLinkClick()
      requires Valid()
      modifies this
      ensures Valid() && !IsOpen()
    {
      if navActive {
        Toggle();
      }
    }

    /** The hamburger's listener. */
    method OnHamburgerClick()
      requires Valid()
      modifies this
      ensures Valid() && IsOpen() == !old(IsOpen())
    {
      Toggle();
    }

    /** One click, dispatched to the listeners it reaches in bubbling order:
        the hamburger's or a link's own listener first, then the document's. */
    method Click(target: Target)
      requires Valid()
      modifies this
      ensures Valid()
      ensures target == Hamburger ==> IsOpen() == !old(IsOpen())
      ensures target == NavLink || target == Outside ==> !IsOpen()
      ensures target == InNav ==> IsOpen() == old(IsOpen())
    {
      if target == Hamburger {
        OnHamburgerClick();
      } else if target == NavLink {
        OnLinkClick();
      }
      OnDocumentClick(target);
    }

    /** The debounced resize callback: a viewport wider than 768 pixels closes
        an open menu; otherwise nothing changes. */
    method OnResizeSettled(innerWidth: int)
      requires Valid()
      modifies this
      ensures Valid()
      ensures innerWidth > MobileMaxWidth ==> !IsOpen()
      ensures innerWidth <= MobileMaxWidth ==> IsOpen() == old(IsOpen())
    {
      if innerWidth > MobileMaxWidth && navActive {
        Toggle();
      }
    }
  }

  /** `window.pageYOffset || document.documentElement.scrollTop`: the window's
      offset, unless it is falsy (0), in which case the document's. */
  function ScrollOffset(pageYOffset: int, documentScrollTop: int): (offset: int)
    ensures offset == pageYOffset || offset == documentScrollTop
    ensures offset != pageYOffset ==> pageYOffset == 0
    ensures offset == 0 <==> pageYOffset == 0 && documentScrollTop == 0
  {
    if pageYOffset != 0 then pageYOffset else documentScrollTop
  }

  class StickyHeader {
    var scrolled: bool
    var lastScrollTop: int
    var ticking: bool
    /** Header updates waiting for an animation frame. */
    ghost var framesRequested: nat

    /** The throttle: a frame is waiting exactly while `ticking` is set, and
        never more than one. */
    ghost predicate Valid()
      reads this
    {
      framesRequested == if ticking then 1 else 0
    }

    constructor ()
      ensures Valid() && !ticking && !scrolled && lastScrollTop == 0
    {
      scrolled, lastScrollTop, ticking, framesRequested := false, 0, false, 0;
    }

    /** The scroll listener: requests a frame unless one is already waiting. */
    method OnScroll()
      requires Valid()
      modifies this
      ensures Valid() && ticking && framesRequested == 1
      ensures scrolled == old(scrolled) && lastScrollTop == old(lastScrollTop)
    {
      if !ticking {
        framesRequested := framesRequested + 1;
        ticking := true;
      }
    }

    /** The waiting frame runs `updateHeader`. */
    method OnAnimationFrame(pageYOffset: int, documentScrollTop: int)
      requires Valid() && framesRequested > 0
      modifies this
      ensures Valid() && !ticking
      ensures scrolled <==> ScrollOffset(pageYOffset, documentScrollTop) > ScrolledThreshold
      ensures lastScrollTop == ScrollOffset(pageYOffset, documentScrollTop)
    {
      framesRequested := framesRequested - 1;
      UpdateHeader(pageYOffset, documentScrollTop);
    }

    /** `updateHeader`. */
    method UpdateHeader(pageYOffset: int, documentScrollTop: int)
      modifies this
      ensures scrolled <==> ScrollOffset(pageYOffset, documentScrollTop) > ScrolledThreshold
      ensures lastScrollTop == ScrollOffset(pageYOffset, documentScrollTop)
      ensures !ticking && framesRequested == old(framesRequested)
    {
      var scrollTop := ScrollOffset(pageYOffset, documentScrollTop);
      scrolled := scrollTop > ScrolledThreshold;
      lastScrollTop := scrollTop;
      ticking := false;
    }
  }
}
