# Portfolio page behaviour, modelled in Dafny

This project models the decision logic of the portfolio page's script
(`script.js`). The DOM is replaced by state. Per-element class flags
(`active`, `hidden`, `checked`, inline `display: flex`) become `bool` arrays owned
by a controller class. Attribute values (`data-filter`, `data-category`,
`data-tab`, ids) become `string`s. Window sizes and scroll offsets become
method parameters. Each event listener becomes a method of its controller.

- `JsText` (jstext.dfy): the JavaScript string operations the handlers use.
  These are the `\s` class, `trim`, `split` on one character and `join`.
  `split` is proved to round-trip with `join`.
- `Viewport` (viewport.dfy): the 768-pixel mobile breakpoint shared by the carousel and the menu, and integer `Min`/`Max`.
- `Dom` (dom.dfy): document-order lookup, the part of `querySelector` and
  `getElementById` that the handlers rely on.
- `Contact` (contact.dfy): the form submit handler. The email test
  `^[^\s@]+@[^\s@]+\.[^\s@]+$` is given its regular-expression meaning. That meaning
  is proved equal to a plain-words shape: no white space, exactly one `@`,
  something before it, and a `.` inside the domain. A scanning method is proved
  to decide it. The validation loop is proved to build exactly the ordered message
  list, and the form is rejected iff that list is non-empty.
- `Projects` (projects.dfy): the filter buttons and project cards. Because `&&` binds
  tighter than `||`, the `'all'` clause of the card test adds nothing. A card is
  shown iff the filter value is one of its space-separated categories.
- `Certificates` (certificates.dfy): the certificate carousel. Selecting `i`
  leaves exactly input `i` checked (when selected from a dot) and exactly dot
  `i` active. The shown cards are those at most `r` places from `i` (`r` = 1 at
  widths up to 768, else 2): between 1 and `2r+1` cards. The selected card is
  given `display: flex` at script.js:417 but keeps the `hidden` class that
  `hideAllCertificates` gave it. The model records that as written.
- `Navigation` (navigation.dfy): the mobile menu's open state and the sticky header's
  `scrolled` flag with its one-frame throttle.
- `Journey` (journey.dfy): the timeline tabs.
- `Typing` (typing.dfy): the typewriter effect.

The filter does not show every card under `all`. The code (script.js:108-109)
shows a card under `all` only when the card's own category list contains `all`.
The model follows the code, not the looser reading "the filter is `all` or the
card lists the filter".

## Model

| member | source | states |
|---|---|---|
| `JsText.TrimEmptyIff` | script.js:148 | `value.trim()` is empty (falsy) exactly when every character of `value` is white space |
| `JsText.Trim` | script.js:148 | `value.trim()` neither starts nor ends with white space |
| `JsText.TrimStart` | script.js:148 | the trimmed-at-start string does not begin with white space |
| `JsText.TrimEnd` | script.js:148 | the trimmed-at-end string does not end with white space |
| `JsText.TrimStartDrops` | script.js:148 | trimming at the start removes only a prefix made of white space |
| `JsText.TrimEndDrops` | script.js:148 | trimming at the end removes only a suffix made of white space |
| `JsText.Split` | script.js:106 | `split(' ')` yields at least one piece and no piece contains the separator |
| `JsText.JoinSplit` | script.js:106 | joining the pieces of `split` with the separator gives the attribute back |
| `JsText.SplitJoin` | script.js:106 | splitting a join of separator-free pieces gives the pieces back |
| `Dom.FindFirst` | script.js:355 | the lookup finds a match iff one exists, and then returns the first in document order |
| `Contact.RegexIffShape` | script.js:178 | the regex accepts `s` iff `s` has no white space, exactly one `@` with text before it, and a `.` in the domain that is neither its first nor last character |
| `Contact.IsValidEmail` | script.js:177-180 | the scan returns true exactly for the strings the regex accepts |
| `Contact.OnlyAt` | script.js:178 | with an `@` at a given position, there is exactly one `@` iff no other position holds one |
| `Contact.Capitalize` | script.js:150 | the key keeps its length and its tail; its first character is upper-cased |
| `Contact.Validate` | script.js:144-156 | the loop's message list is the fields' messages in field order, and `isValid` holds iff every field is non-blank and a non-blank `email` is well formed |
| `Contact.Submit` | script.js:139-161 | the submission is rejected, with the collected non-empty message list, iff some field fails; otherwise sending starts |
| `Contact.FieldErrorsEmptyIff` | script.js:148-155 | a field adds no message iff its value is not blank and, for `email`, well formed |
| `Contact.NoErrorsIff` | script.js:158 | the message list is empty iff every field passes |
| `Contact.ErrorsInFieldOrder` | script.js:147-156 | the messages of field `i` form one block between those of the earlier and the later fields |
| `Contact.ErrorsStep` | script.js:147-156 | each loop iteration appends exactly that field's messages |
| `Contact.BlankEmailBothMessages` | script.js:148-155 | a blank `email` yields "Email is required" followed by the invalid-address message |
| `Projects.CardShown` | script.js:106-109 | the handler's card test holds iff the filter value is one of the card's space-separated categories |
| `Projects.ShownForListedCategories` | script.js:106-109 | a card listing categories `c1 … ck` is shown for exactly those filter values |
| `Projects.FilterBar.ApplyFilter` | script.js:98-116 | every card is `hidden` iff it does not match the filter value |
| `Projects.FilterBar.DeactivateAll` | script.js:90 | no button is `active` |
| `Projects.FilterBar.Click` | script.js:88-117 | exactly the clicked button is `active`, and a card is not `hidden` iff the button's filter value is among its categories |
| `Projects.FilterBar.ShowAllOnLoad` | script.js:353-371 | cards are shown iff they list `all`; the first `all` button is the only `active` one, or none is when no such button exists |
| `Projects.FilterBar.constructor` | script.js:7-8 | the filter state starts from the class lists of the loaded markup |
| `Certificates.WindowDisplay` | script.js:480-495 | card `j` is in the selection window iff it is at most `r` places from the selected index |
| `Certificates.Widened` | script.js:486-494 | showing the window switches on the window's cards other than the selected one and leaves every other card as it was |
| `Certificates.CountRange` | script.js:486-488 | the loop range clipped to `0 .. n-1` holds `min(hi, n-1) - max(lo, 0) + 1` cards, or none |
| `Certificates.WindowSize` | script.js:483-488 | a selection shows between 1 and `2r+1` cards: the window clipped at both ends of the list |
| `Certificates.ResizeKeepsStaleCards` | script.js:393-401 | after selecting card 2 of 5 on a wide viewport, a resize to mobile width leaves cards 0 and 4 shown outside the new window |
| `Certificates.Carousel.constructor` | script.js:433-455 | one inactive navigation dot is created per card |
| `Certificates.Carousel.LimitVisible` | script.js:457-471 | card `j` is shown and not `hidden` iff `j` is below 1 (mobile) or 2 |
| `Certificates.Carousel.HideAll` | script.js:473-478 | every card has `display: none` and the `hidden` class |
| `Certificates.Carousel.ShowAround` | script.js:480-495 | the window's cards other than the selected one are shown, the rest are unchanged, and no index outside `0 .. n-1` is touched |
| `Certificates.Carousel.UpdateDots` | script.js:497-506 | dot `j` is `active` iff `j` is the given index |
| `Certificates.Carousel.UncheckOthers` | script.js:406-410 | every input except the selected one is unchecked; the selected one is untouched |
| `Certificates.Carousel.OnChange` | script.js:404-430 | after a change on input `i`, no other input is checked, card `j` has `display: flex` iff it is in the window around `i`, it is `hidden` iff it is outside the window or is `i`, and only dot `i` is active |
| `Certificates.Carousel.ClickDot` | script.js:441-450 | after a dot click, exactly input `i` is checked and the cards and dots show selection `i` |
| `Certificates.LoadSkipsSelection` | script.js:384-390 | with three certificates at width 1024, the load leaves card 2 hidden although selecting certificate 0 would show it |
| `Certificates.Carousel.OnLoad` | script.js:384-390 | as written: the first 1 (mobile) or 2 cards are shown and the rest `hidden`, input 0 is checked and the other inputs keep their state; the dispatched `change` reaches no listener yet, so the dots are untouched |
| `Certificates.Carousel.OnLoadSelectFirst` | script.js:387-430 | as intended: with at least one certificate, only input 0 is checked, the cards show the window around certificate 0 and only dot 0 is active |
| `Certificates.Carousel.OnResize` | script.js:393-401 | with a checked input, the cards are widened around the first checked one for the new width; with none, the first 1 (mobile) or 2 cards are shown and every other card is `hidden`, as on load |
| `Certificates.Carousel.OnResizeRecompute` | script.js:393-401 | with a checked input, the cards show exactly the window for the new width around it; with none, the first 1 (mobile) or 2 cards are shown and every other card is `hidden` |
| `Certificates.Carousel.FirstChecked` | script.js:394-396 | the index of the first checked input in document order |
| `Navigation.MobileNav.constructor` | script.js:2-3 | the menu starts closed with its three class flags in agreement |
| `Navigation.MobileNav.Toggle` | script.js:13-17 | each of the three classes flips, so the open flag flips and the flags stay in agreement |
| `Navigation.MobileNav.OnDocumentClick` | script.js:22-28 | an open menu closes on a click outside both the nav and the hamburger; nothing else changes it |
| `Navigation.MobileNav.OnLinkClick` | script.js:31-37 | after a nav-link click the menu is closed |
| `Navigation.MobileNav.OnHamburgerClick` | script.js:19 | a hamburger click flips the menu |
| `Navigation.MobileNav.Click` | script.js:19-37 | a click on the hamburger flips the menu, a link or outside click leaves it closed, and any other click inside the nav leaves it as it was |
| `Navigation.MobileNav.OnResizeSettled` | script.js:201-208 | once resizing settles, a width above 768 leaves the menu closed and any other width leaves it unchanged |
| `Navigation.ScrollOffset` | script.js:65 | the offset is `pageYOffset` unless that is 0, and then the document's `scrollTop`; it is 0 iff both are |
| `Navigation.StickyHeader.constructor` | script.js:60-61 | the header starts with offset 0, no frame waiting and not `scrolled` |
| `Navigation.StickyHeader.OnScroll` | script.js:77-84 | a scroll requests a header update only when none is waiting, so at most one waits |
| `Navigation.StickyHeader.OnAnimationFrame` | script.js:79-81 | the waiting frame updates the header and releases the throttle |
| `Navigation.StickyHeader.UpdateHeader` | script.js:64-75 | the header is `scrolled` iff the scroll offset exceeds 100; the offset is recorded and the throttle released |
| `Journey.TabSet.constructor` | script.js:229-230 | the tabs and sections, with their ids and `active` flags, are those of the loaded markup |
| `Journey.TabSet.Click` | script.js:232-245 | exactly the clicked tab is `active`, and the section with the tab's target id is the only `active` section (none if the id is absent) |
| `Journey.OpenedSectionMatchesTab` | script.js:242-243 | with distinct section ids, the section opened is exactly the one whose id the tab names |
| `Typing.Typewriter.constructor` | script.js:306-310 | typing starts with an empty element, index 0 and the cursor visible |
| `Typing.Typewriter.Step` | script.js:260-271 | a tick appends `text[charIndex]` and advances the index until the text is exhausted, then hides the cursor; the shown text is always `text[..charIndex]` |
| `Typing.Typewriter.Run` | script.js:260-274 | after `k` more ticks the index is the old index plus `k`, capped at the text length, the shown text is the text up to that index, and the cursor is hidden iff some tick found the text exhausted |

## Left out

- DOM querying, `addEventListener` wiring and `dispatchEvent` are not modelled. Each listener is a method, and a dispatched `change` is a direct call.
- Smooth scrolling to anchors (script.js:39-58) and `centerCertificate` (script.js:508-523) are left out. They compute fractional pixel positions from layout measurements.
- The IntersectionObservers for skill bars, reveals and section titles (script.js:121-136, 183-197, 331-350) are left out. They are driven by the browser's visibility events.
- Timers are left out. This covers the 250 ms resize debounce, the 150/100 ms typing interval, the 500 ms start delay and the 800 ms cursor delay. Each callback is modelled as a step that runs when called.
- Typing.Typewriter.Step: hides the cursor in the same step that finds the text exhausted, without the 800 ms delay.
- Typing.Typewriter.constructor: assumes the header's typed-text element starts empty. `typeSectionTitle` empties it explicitly; `typeText` relies on the markup.
- A section title whose observer fires again while it is still typing runs two timer chains on one element. That interleaving is not modelled.
- The injected stylesheet, the paper-plane animation, `toggleDescription` and inline styles are left out. The inline styles include widths, `maxWidth`, `minWidth`, `--card-index` and the animation reset. All of these are presentation only.
- `alert`, `form.reset`, and the submit button's disabled state and label during the 1.5 s simulated send are left out. `Contact.Submit` only reports `Sending`.
- Contact.Capitalize: upper-cases only `a`–`z`; JavaScript's `toUpperCase` also maps other letters and can lengthen a string (`ß` becomes `SS`).
- JavaScript strings are UTF-16 code units, and the model's strings are sequences of Unicode scalar values. Characters outside the Basic Multilingual Plane are not modelled as surrogate pairs.
- Form values that are files, and the order in which `FormData` lists fields, are not modelled. The fields are an input sequence of string pairs.
- A missing `data-filter` or `data-category` attribute (`getAttribute` returning `null`) is not modelled. Attribute values are strings.
- Journey.TabSet.Click: assumes an id named by a tab, if present at all, belongs to a journey section. `getElementById` could return another element.
- Certificates.Carousel.OnLoad: setting `checked` on input 0 leaves the other inputs as they were. In a browser it would also uncheck them if they share a radio-group name, which the markup decides.
- The carousel assumes input `i`'s next sibling is card `i`, with as many inputs as cards. One dot is created per card.
- Scroll offsets and widths are integers. Browsers may report fractional pixel values.

## Findings

| source | as written | input that shows it | evidently intended | confidence | as-written member | corrected member |
|---|---|---|---|---|---|---|
| script.js:393-401 | on resize, the window for the new width is shown around the checked card, but cards outside it are never hidden | 5 certificates, certificate 2 selected at width 1024 (cards 0-4 shown), then a resize to width 500 | only cards 1-3 shown, the window for a mobile width | medium, not executed | `Certificates.Carousel.OnResize` with `Certificates.ResizeKeepsStaleCards` | `Certificates.Carousel.OnResizeRecompute` |
| script.js:384-390 | the load handler dispatches `change` on input 0 before any `change` listener is added (script.js:403), so nothing is selected: the first cards are shown and no dot is active | 3 certificates at width 1024: cards 0 and 1 shown, card 2 hidden, no dot active | certificate 0 selected: cards 0-2 shown and dot 0 active | medium, not executed | `Certificates.Carousel.OnLoad` with `Certificates.LoadSkipsSelection` | `Certificates.Carousel.OnLoadSelectFirst` |
