/**
 * The certificate carousel: `n` radio inputs, each followed by its card, and
 * one navigation dot per card. Selecting certificate `i` unchecks the other
 * inputs, hides every card, shows card `i` and the cards at most `r` places
 * away from it (`r` is 1 on a viewport at most 768 pixels wide, 2 otherwise),
 * and marks only dot `i` active.
 *
 * A card's look is two flags: `display` (its inline `display` is `flex`
 * rather than `none`) and `hidden` (it carries the `hidden` class). The
 * helpers always set them together, except for the selected card, which is
 * given `display: flex` but keeps the `hidden` class it got a moment before.
 */
module Certificates {
  import Dom
  import opened Viewport

  /** How many cards are shown on each side of the selected one. */
  function Radius(width: int): nat {
    if width <= MobileMaxWidth then 1 else 2
  }

  /** How many leading cards are shown when nothing is selected. */
  function InitialVisible(width: int): nat {
    if width <= MobileMaxWidth then 1 else 2
  }

  /** Card `j` is in the range the window loop walks,
      `max(0, sel - r) <= j <= min(n - 1, sel + r)`. */
  predicate InWindow(n: int, sel: int, r: int, j: int) {
    Max(0, sel - r) <= j <= Min(n - 1, sel + r)
  }

  /** The card flags once certificate `sel` is selected: the window, which is
      the cards at most `r` places from `sel`. */
  function WindowDisplay(n: nat, sel: int, r: nat): (d: seq<bool>)
    ensures |d| == n
    ensures forall j | 0 <= j < n :: d[j] <==> sel - r <= j <= sel + r
  {
    seq(n, j => InWindow(n, sel, r, j))
  }

  /** The card flags that showing the window around `sel` leaves behind when
      it starts from `d`: cards of the window other than `sel` are switched
      on, every other card keeps its flag. */
  function Widened(d: seq<bool>, sel: int, r: nat): (w: seq<bool>)
    ensures |w| == |d|
    ensures forall j | 0 <= j < |d| :: w[j] <==> d[j] || (j != sel && sel - r <= j <= sel + r)
  {
    seq(|d|, j requires 0 <= j < |d| => (InWindow(|d|, sel, r, j) && j != sel) || d[j])
  }

  function CountTrue(s: seq<bool>): nat {
    if s == [] then 0 else CountTrue(s[..|s| - 1]) + (if s[|s| - 1] then 1 else 0)
  }

  /** Among the first `n` positions, the ones in `[lo, hi]` number
      `min(hi, n - 1) - max(lo, 0) + 1`, or none. */
  lemma {:induction false} CountRange(n: nat, lo: int, hi: int)
    ensures CountTrue(seq(n, j => lo <= j <= hi)) == Max(0, Min(hi, n - 1) - Max(lo, 0) + 1)
  {
    if n > 0 {
      var s := seq(n, j => lo <= j <= hi);
      CountRange(n - 1, lo, hi);
      assert s[..n - 1] == seq(n - 1, j => lo <= j <= hi);
    }
  }

  /** Selecting a certificate shows between 1 and `2 r + 1` cards: the window
      clipped at both ends of the list. */
  lemma WindowSize(n: nat, sel: int, r: nat)
    requires 0 <= sel < n
    ensures CountTrue(WindowDisplay(n, sel, r)) == Min(n - 1, sel + r) - Max(0, sel - r) + 1
    ensures 1 <= CountTrue(WindowDisplay(n, sel, r)) <= 2 * r + 1
  {
    assert WindowDisplay(n, sel, r) == seq(n, j => sel - r <= j <= sel + r);
    CountRange(n, sel - r, sel + r);
  }

  /** On a resize, showing the window around the selected card never hides
      anything: after selecting certificate 2 of 5 on a wide viewport, a
      resize to a mobile width leaves cards 0 and 4 shown although they are
      outside the narrower window. */
  lemma ResizeKeepsStaleCards()
    ensures var before := WindowDisplay(5, 2, Radius(1024));
            var after := Widened(before, 2, Radius(500));
            after[0] && after[4] && !InWindow(5, 2, Radius(500), 0) && !InWindow(5, 2, Radius(500), 4)
  {
  }

  /** At load the selection never happens: with three certificates on a wide
      viewport, the page shows cards 0 and 1 only, while selecting
      certificate 0 would also show card 2 and make dot 0 active. */
  lemma LoadSkipsSelection()
    ensures var atLoad := seq(3, j => j < InitialVisible(1024));
            var selected := WindowDisplay(3, 0, Radius(1024));
            !atLoad[2] && selected[2]
  {
  }

  class Carousel {
    /** `checked` of each radio input. */
    const checked: array<bool>
    /** Whether each card's inline `display` is `flex`. */
    const display: array<bool>
    /** Whether each card carries the `hidden` class. */
    const hidden: array<bool>
    /** Whether each navigation dot carries the `active` class. */
    const dotActive: array<bool>

    ghost predicate Valid() {
      && checked.Length == display.Length == hidden.Length == dotActive.Length
      && checked != display && checked != hidden && checked != dotActive
      && display != hidden && display != dotActive && hidden != dotActive
    }

    /** Number of certificates. */
    function Count(): nat { display.Length }

    /** Cards as selecting `sel` leaves them. */
    ghost predicate ShowsWindow(sel: int, width: int)
      requires Valid()
      reads display, hidden
    {
      && display[..] == WindowDisplay(Count(), sel, Radius(width))
      && forall j | 0 <= j < Count() :: hidden[j] <==> !InWindow(Count(), sel, Radius(width), j) || j == sel
    }

    /** Dot `i` is the only active one. */
    ghost predicate DotsShow(i: int)
      requires Valid()
      reads dotActive
    {
      forall j | 0 <= j < Count() :: dotActive[j] <==> j == i
    }

    /** The section as loaded, with the navigation dots just created (none
        active yet). */
    constructor (checkedAtLoad: seq<bool>, displayAtLoad: seq<bool>, hiddenAtLoad: seq<bool>)
      requires |checkedAtLoad| == |displayAtLoad| == |hiddenAtLoad|
      ensures Valid()
      ensures checked[..] == checkedAtLoad && display[..] == displayAtLoad && hidden[..] == hiddenAtLoad
      ensures forall j | 0 <= j < dotActive.Length :: !dotActive[j]
      ensures fresh(checked) && fresh(display) && fresh(hidden) && fresh(dotActive)
    {
      var n := |checkedAtLoad|;
      checked := new bool[n](i requires 0 <= i < n => checkedAtLoad[i]);
      display := new bool[n](i requires 0 <= i < n => displayAtLoad[i]);
      hidden := new bool[n](i requires 0 <= i < n => hiddenAtLoad[i]);
      dotActive := new bool[n](i => false);
    }

    /** `limitVisibleCertificates`: the first one (mobile) or two cards shown,
        the rest hidden. */
    method LimitVisible(width: int)
      requires Valid()
      modifies display, hidden
      ensures forall j | 0 <= j < Count() :: display[j] <==> j < InitialVisible(width)
      ensures forall j | 0 <= j < Count() :: hidden[j] <==> j >= InitialVisible(width)
    {
      var visible := InitialVisible(width);
      var j := 0;
      while j < Count()
        invariant 0 <= j <= Count()
        invariant forall k | 0 <= k < j :: display[k] == (k < visible) && hidden[k] == (k >= visible)
      {
        if j < visible {
          display[j] := true;
          hidden[j] := false;
        } else {
          display[j] := false;
          hidden[j] := true;
        }
        j := j + 1;
      }
    }

    /** `hideAllCertificates`. */
    method HideAll()
      requires Valid()
      modifies display, hidden
      ensures forall j | 0 <= j < Count() :: !display[j] && hidden[j]
    {
      var j := 0;
      while j < Count()
        invariant 0 <= j <= Count()
        invariant forall k | 0 <= k < j :: !display[k] && hidden[k]
      {
        display[j] := false;
        hidden[j] := true;
        j := j + 1;
      }
    }

    /** `showBannersAroundSelected(sel)`: every card of the window except
        `sel` itself is shown; nothing is hidden. The loop stays inside
        `0 .. n - 1` for any `sel`. */
    method ShowAround(sel: int, width: int)
      requires Valid()
      modifies display, hidden
      ensures display[..] == Widened(old(display[..]), sel, Radius(width))
      ensures forall j | 0 <= j < Count() ::
                hidden[j] <==> old(hidden[j]) && !(InWindow(Count(), sel, Radius(width), j) && j != sel)
    {
      var r := Radius(width);
      var lo := Max(0, sel - r);
      var hi := Min(Count() - 1, sel + r);
      var i := lo;
      while i <= hi
        invariant lo <= i && (i <= hi + 1 || i == lo)
        invariant forall j | 0 <= j < Count() ::
                    if lo <= j < i && j != sel then display[j] && !hidden[j]
                    else display[j] == old(display[j]) && hidden[j] == old(hidden[j])
      {
        if i != sel {
          display[i] := true;
          hidden[i] := false;
        }
        i := i + 1;
      }
    }

    /** `updateDots(active)`. */
    method UpdateDots(active: int)
      requires Valid()
      modifies dotActive
      ensures DotsShow(active)
    {
      var j := 0;
      while j < Count()
        invariant 0 <= j <= Count()
        invariant forall k | 0 <= k < j :: dotActive[k] <==> k == active
      {
        dotActive[j] := j == active;
        j := j + 1;
      }
    }

    /** Every input except `i` unchecked. */
    method UncheckOthers(i: int)
      requires Valid()
      modifies checked
      ensures forall j | 0 <= j < Count() :: checked[j] <==> j == i && old(checked[i])
    {
      var j := 0;
      while j < Count()
        invariant 0 <= j <= Count()
        invariant forall k | 0 <= k < Count() ::
                    checked[k] == if k < j && k != i then false else old(checked[k])
      {
        if j != i {
          checked[j] := false;
        }
        j := j + 1;
      }
    }

    /** The `change` handler of input `i`; centring the card in its scroll
        container is not part of this model. */
    method OnChange(i: nat, width: int)
      requires Valid() && i < Count()
      modifies checked, display, hidden, dotActive
      ensures forall j | 0 <= j < Count() :: checked[j] <==> j == i && old(checked[i])
      ensures ShowsWindow(i, width)
      ensures DotsShow(i)
    {
      UncheckOthers(i);
      HideAll();
      display[i] := true;
      ShowAround(i, width);
      UpdateDots(i);
    }

    /** A click on dot `i`: every input unchecked, input `i` checked, then its
        `change` handler. */
    method ClickDot(i: nat, width: int)
      requires Valid() && i < Count()
      modifies checked, display, hidden, dotActive
      ensures forall j | 0 <= j < Count() :: checked[j] <==> j == i
      ensures ShowsWindow(i, width)
      ensures DotsShow(i)
    {
      var j := 0;
      while j < Count()
        invariant 0 <= j <= Count()
        invariant forall k | 0 <= k < j :: !checked[k]
      {
        checked[j] := false;
        j := j + 1;
      }
      checked[i] := true;
      OnChange(i, width);
    }

    /** The `DOMContentLoaded` handler as written: the first cards shown and
        input 0 checked. The `change` it then dispatches on input 0 reaches no
        listener, since those are added only after it, so no window is shown
        and no dot becomes active; the other inputs keep their state. */
    method OnLoad(width: int)
      requires Valid()
      modifies checked, display, hidden
      ensures forall j | 0 <= j < Count() :: display[j] <==> j < InitialVisible(width)
      ensures forall j | 0 <= j < Count() :: hidden[j] <==> j >= InitialVisible(width)
      ensures Count() > 0 ==> checked[0]
      ensures forall j | 0 < j < Count() :: checked[j] == old(checked[j])
    {
      LimitVisible(width);
      if Count() > 0 {
        checked[0] := true;
      }
    }

    /** The `DOMContentLoaded` handler as intended: if there is any
        certificate, the first one is checked and selected, as a `change` on
        input 0 would select it. */
    method OnLoadSelectFirst(width: int)
      requires Valid()
      modifies checked, display, hidden, dotActive
      ensures Count() > 0 ==> (forall j | 0 <= j < Count() :: checked[j] <==> j == 0)
                              && ShowsWindow(0, width) && DotsShow(0)
    {
      LimitVisible(width);
      if Count() > 0 {
        checked[0] := true;
        OnChange(0, width);
      }
    }

    /** The resize handler as written: with a checked input, the window for
        the new width is shown around it but no card is hidden; with none,
        the first cards are shown as on load. */
    method OnResize(width: int)
      requires Valid()
      modifies display, hidden
      ensures true in old(checked[..]) ==>
                display[..] == Widened(old(display[..]), FirstChecked(), Radius(width))
      ensures true in old(checked[..]) ==>
                forall j | 0 <= j < Count() ::
                  hidden[j] <==> old(hidden[j]) && !(InWindow(Count(), FirstChecked(), Radius(width), j) && j != FirstChecked())
      ensures true !in old(checked[..]) ==>
                forall j | 0 <= j < Count() ::
                  (display[j] <==> j < InitialVisible(width)) && (hidden[j] <==> j >= InitialVisible(width))
    {
      var found, active := Dom.FindFirst(checked[..], true);
      if found {
        Dom.FirstUnique(checked[..], true, active, FirstChecked());
        ShowAround(active, width);
      } else {
        LimitVisible(width);
      }
    }

    /** The resize handler as intended: the cards show exactly the window for
        the new width around the checked input. */
    method OnResizeRecompute(width: int)
      requires Valid()
      modifies display, hidden
      ensures true in checked[..] ==> ShowsWindow(FirstChecked(), width)
      ensures true !in checked[..] ==>
                forall j | 0 <= j < Count() ::
                  (display[j] <==> j < InitialVisible(width)) && (hidden[j] <==> j >= InitialVisible(width))
    {
      var found, active := Dom.FindFirst(checked[..], true);
      if found {
        Dom.FirstUnique(checked[..], true, active, FirstChecked());
        HideAll();
        display[active] := true;
        ShowAround(active, width);
      } else {
        LimitVisible(width);
      }
    }

    /** Index of the first checked input (`:checked` in document order). */
    ghost function FirstChecked(): (i: nat)
      requires Valid() && true in checked[..]
      reads checked
      ensures Dom.IsFirst(checked[..], true, i)
    {
      Dom.FirstExists(checked[..], true);
      var i :| Dom.IsFirst(checked[..], true, i);
      i
    }
  }
}
