/**
 * The scroll state of the site navigation bar, src/components/NavBar.tsx:
 * the bar hides while the page scrolls down past the top band and shows again
 * on the way up, and a scroll-to-top button appears far down the page.
 * Scroll positions are whole pixels.
 */
module NavBar {
  /** Below this position the bar is always shown. */
  const TopBand: int := 100
  /** Past this position the scroll-to-top button is shown. */
  const ScrollTopThreshold: int := 600

  /** Whether the bar is shown after a scroll event from `last` to `y`. */
  function Visible(y: int, last: int): (b: bool)
    ensures y <= TopBand ==> b
    ensures y > TopBand ==> (b <==> y < last)
  {
    if y > TopBand then y < last else true
  }

  /** An event that does not move the page, past the top band, hides the bar. */
  lemma StillPastBandHides(y: int)
    requires y > TopBand
    ensures !Visible(y, y)
  {
  }

  class NavBar {
    var scrollY: int
    var lastScrollY: int
    var isVisible: bool
    var showScrollTop: bool

    /** The initial state: at the top, bar shown, no scroll-to-top button. */
    constructor ()
      ensures scrollY == 0 && lastScrollY == 0 && isVisible && !showScrollTop
    {
      scrollY := 0;
      lastScrollY := 0;
      isVisible := true;
      showScrollTop := false;
    }

    /** `handleScroll` with `window.scrollY == y`. */
    method HandleScroll(y: int)
      modifies this
      ensures isVisible == Visible(y, old(lastScrollY))
      ensures showScrollTop <==> y > ScrollTopThreshold
      ensures scrollY == y && lastScrollY == y
    {
      if y > TopBand {
        isVisible := y < lastScrollY;
      } else {
        isVisible := true;
      }
      showScrollTop := y > ScrollTopThreshold;
      scrollY := y;
      lastScrollY := y;
    }
  }
}
