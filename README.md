# Bankist landing page: verified model of its interactive components

The Bankist landing page script wires page elements to user events. This
project models the parts that keep state or loop over elements. It also
proves what each of them guarantees.

- **Slider** (`slider.dfy`): the testimonial carousel. A class `Carousel`
  holds the current slide index `curSlide`, the constant number of slides
  `maxSlide` and an `array<int>` with one horizontal offset per slide, in
  percent (the number inside `translateX(…%)`). `GoToSlide` writes
  `100 * (i - k)` into every slide. `Next` and `Prev` move the index with
  wrap-around, then reposition every slide. The pure functions `Layout`,
  `NextIndex` and `PrevIndex` specify the methods. `Step` and `Run` give
  the index after one click and after a sequence of clicks. Their
  contracts and the lemmas beside them prove:
  - the range invariant over any sequence of clicks;
  - the wrap rule equals arithmetic modulo the number of slides;
  - with no slides the index drifts without bound;
  - the final index depends only on the net number of right clicks;
  - a full turn of right clicks returns to the start;
  - a left click undoes a right click, and the reverse.
- **Tabs** (`tabs.dfy`): the operations tab component. A class `TabPanel`
  holds one active flag per tab and one per content panel, plus each tab's
  `data-tab` key and each panel's key. `Click` clears every flag in two
  loops, then activates the clicked tab and the first panel whose key
  matches.
- **ModalWindow** (`modal.dfy`): the modal and its overlay, each with a
  hidden flag. It has open, close and the Escape key handler.
- **MenuFade** (`menu_fade.dfy`): the hover fade of the navigation bar. A
  class `Nav` holds the opacity of every link and of the logo.
  `HandleHover` dims every link except the hovered one, and the logo. The
  value the handler is bound to (0.5 on mouse-over, 1 on mouse-out) is a
  parameter.
- **Wrappers** (`wrappers.dfy`): an `Option` type for "an element or
  nothing".

Page elements are abstracted as array indices or booleans. A DOM lookup is
a parameter: which tab a click landed in (`closest`), and whether the hover
target is a link. The content panel for a tab is looked up by a function over
the panels' keys (`ContentFor`), and the model covers the cases where it
finds nothing. The logo lookup of the hover handler can also find nothing; the model assumes
the logo is present (see "Left out").

## Model

| member | source | states |
|---|---|---|
| `Slider.Layout` | script.js:184-186 | slide `i` has offset `100*(i-k)`; the shown slide, and no other, is at offset 0; earlier slides are at negative offsets; neighbours differ by exactly 100 |
| `Slider.LayoutShowsExactlyOne` | script.js:184-186 | some slide is at offset 0 iff the index is in `[0, N)`, and at most one slide is ever at offset 0 |
| `Slider.NextIndex` | script.js:191-195 | the right button's rule "wrap at N-1, else increment"; for an in-range index it equals `(cur + 1) mod N` and stays in range |
| `Slider.PrevIndex` | script.js:202-206 | the left button's rule "wrap at 0, else decrement"; for an in-range index it equals `(cur - 1) mod N` and stays in range |
| `Slider.Step` | script.js:190-209 | one click of either button moves an in-range index by +1 or -1 modulo N and stays in range |
| `Slider.Run` | script.js:181-209 | a sequence of clicks applied in order; from an index in `[0, N)` the index stays in `[0, N)` |
| `Slider.NextThenPrevRestores` | script.js:190-209 | Next then Prev, and Prev then Next, restore the index and so the slide offsets |
| `Slider.NoSlidesLeaveRange` | script.js:181-182 | with no slides, the first Next yields 1 and the first Prev yields -1, so the range invariant needs N >= 1 |
| `Slider.NoSlidesDrift` | script.js:181-209 | with no slides neither wrap ever fires: the index is the start plus right clicks minus left clicks |
| `Slider.ReachableInRange` | script.js:181-209 | from the initial index 0 with N >= 1, every reachable index is in `[0, N)` |
| `Slider.RunIsNetDisplacement` | script.js:190-209 | after any sequence of clicks the index is (start + rights - lefts) mod N |
| `Slider.FullTurnReturns` | script.js:190-198 | N consecutive right clicks return to the starting slide |
| `Slider.Carousel.constructor` | script.js:177-187 | page load: index 0, and the slides are positioned for slide 0 |
| `Slider.Carousel.GoToSlide` | script.js:184-186 | every slide gets the offset `Layout(N, k)` assigns it; the index is unchanged |
| `Slider.Carousel.Next` | script.js:190-198 | the index becomes `NextIndex(old index)`; all slides are repositioned for it; an in-range index stays in range |
| `Slider.Carousel.Prev` | script.js:201-209 | the index becomes `PrevIndex(old index)`; all slides are repositioned for it; an in-range index stays in range |
| `Tabs.FirstWithKey` | script.js:77 | the search of the panels' keys returns the first panel carrying the key, and returns nothing iff no panel carries it |
| `Tabs.ContentFor` | script.js:71-77 | the lookup after the clear loop finds nothing iff the key is the `active` modifier just removed or no panel carries the key; otherwise it finds the first panel carrying it |
| `Tabs.PanelFlags` | script.js:71-77 | after a click, panel `c` is active iff the tab's `data-tab` is not `active` and `c` is the first panel whose key equals it |
| `Tabs.OnlyAtCountsOne` | script.js:70-77 | raising one in-range flag after clearing all leaves exactly one flag raised |
| `Tabs.TabPanel.constructor` | script.js:60-62 | the component holds the tab and content flags and their keys |
| `Tabs.TabPanel.Click` | script.js:64-78 | a click outside every tab changes nothing; a click on tab `t` leaves exactly tab `t` active and exactly the first panel matching its key active; it reports failure when the lookup finds no panel (no panel carries the key, or the key is `active`), with all panels then inactive |
| `ModalWindow.Opened` | script.js:11-15 | opening shows both elements and keeps them in step, and an Escape press right after it gives the closed state |
| `ModalWindow.Closed` | script.js:17-20 | closing hides both elements and keeps them in step, and no key press changes the closed state |
| `ModalWindow.OnKeyDown` | script.js:29-33 | only Escape on a shown modal changes anything, and it hides both; a key press keeps the two elements in step and never shows a hidden one |
| `ModalWindow.CloseAndOpenIdempotent` | script.js:11-20 | closing twice is closing once; opening twice is opening once |
| `ModalWindow.Modal.constructor` | script.js:3-4 | holds the two selected elements, both starting hidden as the page markup has them |
| `ModalWindow.Modal.Open` | script.js:11-15 | the new visibility is `Opened` of the old |
| `ModalWindow.Modal.Close` | script.js:17-20 | the new visibility is `Closed` of the old |
| `ModalWindow.Modal.KeyDown` | script.js:29-33 | the new visibility is `OnKeyDown` of the old and the key |
| `MenuFade.Dimmed` | script.js:91-93 | every link other than the hovered one gets the bound value, and the hovered link keeps its opacity; a menu already at the bound value is left unchanged |
| `MenuFade.LastHoverWins` | script.js:85-95 | a second hover on the same link overrides the first entirely |
| `MenuFade.MouseOutRestores` | script.js:100-102 | from a fully opaque menu, mouse-over (0.5) then mouse-out (1) on a link gives a fully opaque menu again |
| `MenuFade.MoveToAnotherLink` | script.js:85-102 | in a fully opaque menu, moving the mouse from link `a` to link `b` leaves `b` opaque and every other link faded |
| `MenuFade.Nav.constructor` | script.js:83 | the navigation bar holds the link and logo opacities |
| `MenuFade.Nav.HandleHover` | script.js:85-95 | a non-link target changes nothing; on link `L` every other link and the logo get the bound value, and `L` is untouched |

## Left out

- Smooth scrolling (script.js:36-56): a call of the browser's `scrollIntoView`, with no logic of its own.
- Sticky navigation, section reveal and lazy images (script.js:104-174): the browser's intersection observer drives them, and the image swap waits for an asynchronous `load` event. Sticky reduces to "sticky iff the header is not intersecting".
- Event-listener registration (script.js:22-27, 100-102, 190, 201) is not modelled. Lines 22 and 24 register the same `openModal` function on the same buttons twice; the browser keeps only one copy of an identical listener, so a click opens the modal once. `CloseAndOpenIdempotent` shows that even a double call would change nothing.
- The starting `hidden` class of the modal and the overlay comes from the page markup, which is not part of this model; `Modal.constructor` assumes both elements start hidden.
- `e.preventDefault()` in `openModal` (script.js:12): browser default behaviour.
- CSS strings. Offsets are integers (the percent in `translateX`). Opacities are `real`s. Hidden and active classes are booleans.
- DOM lookups (`querySelector`, `closest`, `dataset`) are parameters: the clicked tab index, the hovered link index, and the keys of tabs and panels.
- Tabs.TabPanel.Click: the source looks up the content panel in the whole document. The model searches only the content panels. When nothing matches, the source throws a TypeError after the flags were updated. The model returns `ok == false` with that same state.
- Tabs.TabPanel.Click: keys are taken to be plain class-name fragments. The source builds a CSS selector from the key, so a key holding selector syntax (`1, .btn`, `1:`) can match an element that is not a panel, or make `querySelector` throw a SyntaxError; the model compares the key with the panels' keys as strings. The one plain key with a special outcome, `active`, is modelled: the clear loop has just removed that class, so `ContentFor` finds nothing.
- MenuFade.Nav.HandleHover: the model assumes the navigation bar holds a logo. Without one, the lookup at script.js:89 finds nothing, and script.js:94 throws after the link loop has run. That error path is not modelled.
