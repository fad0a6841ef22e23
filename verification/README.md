# Menu carousel of the LA Cafe site, in Dafny

The site's script drives an endlessly looping carousel of menu cards. It builds a strip
of `itemsPerView` clones, then the original cards, then `itemsPerView` more clones. It
steps one position at a time, guarded by `isTransitioning`. When a step ends on a clone,
it snaps back to the matching real card. It commits a touch swipe once the finger has
travelled more than 50 px. It picks `itemsPerView` (4, 2 or 1) from the window width and
rebuilds the strip when that value changes.

This project models that carousel. The state is an immutable record (`Carousel.State`):

- the strip of cards (`items`);
- `itemsPerView` and `currentIndex`;
- the `isTransitioning` guard;
- the drag fields `isDragging`, `startX` and `currentX`;
- a count of pending guard-release callbacks;
- whether autoplay runs.

Every browser event is a pure function on that record:

- button clicks and autoplay ticks;
- `transitionend`, and the 20 ms callback it schedules, modelled as the event `Settle`;
- touch start, move and end;
- resize and page load.

A card is an identity plus the `clone` class. Its content is opaque.

Modules:

- `Layout`: the strip `cloneMenuItems` builds. `CloneMenuItems` performs the same
  append / insertBefore operations as the source. It is proved equal to the declarative
  `LoopLayout`. This module also defines what a seamless loop is.
- `Breakpoints`: the width rule for `itemsPerView`.
- `Carousel`: stepping, boundary correction, guard release, buttons, load and resize.
- `Swipe`: the touch handlers.
- `Cycles`: runs of step, then `transitionend`, then guard release. Any mix of forward
  and backward runs keeps the carousel on a real card. A full loop returns it to the
  exact state it started from.
- `ModArith`: remainder facts.

The event functions follow the script as written. Three places where the script
evidently misbehaves are listed under "## Findings". For each one, a corrected
definition sits beside the as-written one, and the intended property is proved about
it. The range and loop lemmas depend only on the strip's length, and both layouts have
the same length. So those lemmas hold for both.

## Model

| member | source | states |
|---|---|---|
| Layout.CloneMenuItems | script.js:53-85 | With no cards the container is left as it is. Otherwise the DOM operations produce `itemsPerView` leading clones (the last originals, last one first), then every original in order, then clones of the first `itemsPerView` originals in order. The strip is `|cards| + 2*itemsPerView` long, and it equals `LoopLayout`. |
| Layout.LoopLayoutSeamlessFromFirstReal | script.js:71-81 | From position `itemsPerView` onward, every position of the built strip shows the card an endless loop shows there. This covers the originals and the trailing clones. |
| Layout.LoopLayoutNotSeamless | script.js:63-69 | With at least two cards per view and distinct cards, the built strip is not a seamless loop. Position 0 shows the last original, where the loop needs the `itemsPerView`-th from last. |
| Layout.LoopLayoutInOrderSeamless | script.js:63-81 | With the leading clones in order, every position of the strip shows the card an endless loop shows there. |
| Layout.SeamlessWindowsAgree | script.js:91-95 | On a seamless strip, two indices a whole number of loops apart show the same cards in the viewport. |
| Layout.Originals | script.js:55 | Helper of the corrected rebuild, not behaviour of the script: the script's query at line 55 does no filtering. The result holds no clones. Every card it holds comes from the input, and every input card without the `clone` class is kept. |
| Layout.OriginalsAppend | script.js:55 | Dropping clones from two joined strips gives the two results joined, so the order of the kept cards is preserved. This is for the corrected rebuild. |
| Layout.OriginalsOfLoopLayout | script.js:53-85 | Dropping the clones from a built strip returns exactly the original cards, for either order of leading clones. |
| Breakpoints.ItemsPerView | script.js:48 | 4 cards above 768 px, 2 above 480 px, 1 otherwise. The value is always 1, 2 or 4. |
| Breakpoints.ItemsPerViewMonotone | script.js:157 | A wider window never shows fewer cards. |
| Carousel.AnimatedWindowInBounds | script.js:91-95 | While the index is at most one step outside the real positions, all `itemsPerView` cards in view exist. |
| Carousel.NextSlide | script.js:97-102 | The strip is unchanged. From a real position the index lands at most one step past the real range, and the viewport stays on the strip. |
| Carousel.PrevSlide | script.js:104-109 | The same for a step back: at most one step before the real range, viewport on the strip. |
| Carousel.StepGuard | script.js:97-109 | While the guard is set, both steps leave the state unchanged. Otherwise a step raises the guard, moves the index by exactly +1 or -1, and changes nothing else. |
| Carousel.TransitionEnd | script.js:111-134 | The correction changes only the index and schedules one guard release. From an index at most one step outside the real range, it lands on a real position. That position shows the same card of the loop (same index modulo the real count). |
| Carousel.CorrectionCases | script.js:111-128 | Let `R` be the real count. An index at or past `R + itemsPerView` becomes `itemsPerView`. An index below `itemsPerView` (and below `R + itemsPerView`) becomes `R + itemsPerView - 1`. An index already on a real position is kept. |
| Carousel.SnapIsInvisible | script.js:111-128 | On a seamless strip, the snap does not change which cards the viewport shows. |
| Carousel.ForwardSnapIsInvisible | script.js:114-120 | On the script's strip, the snap from the trailing clones back to the first real card shows the same cards. |
| Carousel.BackwardSnapIsVisible | script.js:122-128 | On the script's strip, with two or more cards per view, a step back from the first real card and the snap that follows show different cards. |
| Carousel.InOrderSnapIsInvisible | script.js:111-128 | With in-order leading clones, the snap is invisible at both ends. |
| Carousel.Settle | script.js:130-133 | A scheduled callback releases the guard and consumes itself. It changes no other field: not the index, the strip, the drag fields or autoplay. With none scheduled, nothing happens. |
| Carousel.ControlsStep | script.js:136-153 | `ClickNext` / `ClickPrev` are exactly `nextSlide` / `prevSlide` with autoplay left running, so a click raises the guard and changes no drag field. `AutoplayTick` steps forward only while autoplay runs and never starts it. It changes only the index and the guard, and it raises the guard whenever autoplay runs. From a settled carousel, every control keeps the viewport on the strip. |
| Carousel.LoadBuildsLoop | script.js:209-219 | `Load` then `ContentLoaded`: loading with enough original cards builds the strip of `|cards| + 2*itemsPerView` cards with real count `|cards|`. The index starts on the first real card, which shows the first `itemsPerView` originals in order. Nothing is in flight, and autoplay runs. |
| Carousel.LoadWithoutCards | script.js:209-218 | `Load` then `ContentLoaded`: with no cards, loading leaves the state as it is and autoplay never starts. |
| Carousel.ResizeRule | script.js:156-166 | `Resize`: a resize rebuilds only when the width's `itemsPerView` differs from the current one. It then sets the new value and puts the index on `itemsPerView`, a real position. The new strip is `LoopLayout` of every card the old strip held, clones included, so it grows by two views of clones. With no cards the strip stays empty. No other field changes. |
| Carousel.ResizeCountsClonesAsOriginals | script.js:55-56 | After a resize that changes `itemsPerView`, the rebuilt loop has `|cards| + 2*oldItemsPerView` real positions, because the old clones count as originals. This covers every new `itemsPerView` the old strip has enough cards for. |
| Carousel.ResizeOneCardFromOneToTwo | script.js:156-161 | One card loaded at 300 px and resized to 600 px gives a strip of 7 positions with 3 real ones. |
| Carousel.ResizeEightCardsFromFourToTwo | script.js:156-161 | Take eight cards loaded at 1024 px and resize to 600 px. The script's strip has 20 positions. |
| Carousel.ResizeFromOriginalsRebuilds | script.js:53-85 | A resize that rebuilds from the cards without the `clone` class gives the same strip as a fresh load at the new width. The real count is the number of cards, and the index is on the first real card. |
| Swipe.CommittedStep | script.js:192-201 | The committed index change is always -1, 0 or +1. |
| Swipe.TouchEndDecision | script.js:179-203 | `TouchMove`, `TouchEnd`: without a drag, move and release do nothing. A release ends the drag, restarts autoplay, and keeps the strip, both finger positions and the pending guard releases. Travel of 50 px or less (exactly 50 included), or a step already in flight, leaves the index alone. Otherwise, travel to the right steps back and travel to the left steps forward. The guard is raised exactly when a step is taken. |
| Swipe.GestureStep | script.js:173-201 | `TouchStart`, `TouchMove`, `TouchEnd` in a row: a full touch/move/release gesture moves the index by -1, 0 or +1 according to its travel against the 50 px threshold. |
| Swipe.GestureThenSettle | script.js:187-203 | After a gesture from a settled carousel, the correction and the guard release leave it settled on the same strip. |
| Swipe.TapMeasuresFromLastPosition | script.js:173-177 | A touch released without moving measures its travel from the previous gesture's last position. |
| Swipe.FirstTapSteps | script.js:169-177 | After loading, the first tap anywhere more than 50 px from the left edge steps the carousel forward. |
| Swipe.TouchStartAtFixesTap | script.js:173-177 | If touchstart also resets the last position, a tap never steps, and every gesture with a move behaves exactly as in the script. |
| Cycles.Cycle | script.js:97-134 | One step, its correction and its guard release take a settled carousel to a settled one. Only the index changes, moving one real position round the loop. |
| Cycles.CyclesPosition | script.js:97-134 | Any run of forward and backward cycles keeps the carousel settled on the same strip. The final position is the starting one plus the net forward count, modulo the real count. |
| Cycles.OffsetOfRepeat | script.js:97-109 | `k` steps in one direction move `k` positions that way. |
| Cycles.FullLoopForward | script.js:114-120 | As many forward cycles as there are real positions return the carousel to exactly its starting state. |
| Cycles.FullLoopBackward | script.js:122-128 | The same holds for backward cycles. |
| Cycles.EightCardLoop | script.js:97-134 | Eight cards at 1024 px give sixteen positions with the index on 4. After eight forward cycles the carousel is back in its starting state. |

## Left out

- Rendering is not modelled: `translateX` percentages, the transition style toggles and the live drag offset (script.js:87-95, 116-127, 183-184). The model works in indices only.
- Timers are abstract. Autoplay is a boolean, and the 4000 ms interval is not modelled. The 20 ms timeouts after load and resize (script.js:164, 214) only re-enable the transition style.
- The 20 ms timeout in `handleTransitionEnd` is a counter of pending callbacks, released by `Settle`.
- `transitionend` events are taken one per animation. Events that bubble up from the cards' own hover transitions are not modelled.
- The invariants are proved for the step, `transitionend`, release order (module `Cycles`, `Swipe.GestureThenSettle`). Other interleavings are not covered. For example, a release scheduled by an earlier `transitionend` can fire during a later step and clear the guard mid-animation. No range invariant holds for every event order.
- Touch coordinates are real numbers. The rounding of JavaScript doubles, NaN and multi-touch are not modelled; the first touch point is used.
- Fewer cards than `itemsPerView` (but more than zero) makes the script fail part-way through `cloneMenuItems`, after it has cleared the container. This case is excluded by the requires of `Layout.CloneMenuItems`, `Carousel.ContentLoaded` and `Carousel.Resize`, not modelled as an error.
- Missing elements are not modelled: no container, or no buttons (script.js:144). The model assumes all are present. The console diagnostic for an empty carousel is not modelled.
- The other features of the script are outside the carousel and not modelled: mobile menu toggle, smooth scrolling, navbar styling, fade-in observer, ripple, parallax, active link, typewriter, injected styles.

## Findings

| source | as written | input that shows it | evidently intended | confidence | as-written member | corrected member |
|---|---|---|---|---|---|---|
| script.js:63-69 | Each leading clone is appended and then moved before the first child, so the leading clones end up reversed: `[o[n-1], ..., o[n-itemsPerView]]`. | Four cards a, b, c, d at 600 px (two per view). A step back from index 2 shows `[c, a]`, and the snap to index 5 then shows `[d, a]`. | Leading clones in the originals' order, so the snap at the leading end is invisible like the one at the trailing end. | medium; not executed | Carousel.BackwardSnapIsVisible | Carousel.InOrderSnapIsInvisible |
| script.js:55 | A rebuild queries every `.menu-item`, and the clones keep that class. A resize therefore clones the previous clones as if they were originals. | Eight cards loaded at 1024 px, then resized to 600 px: the strip has 20 positions and 16 real ones, instead of 12 and 8. | Rebuild from the original cards only. | high; not executed | Carousel.ResizeCountsClonesAsOriginals | Carousel.ResizeFromOriginalsRebuilds |
| script.js:173-177 | touchstart does not reset `currentX`, so a release without a move measures from the previous gesture's position (0 after load). | After loading, a tap at x = 200 with no move steps the carousel forward. | A tap does not step: reset the last position on touchstart. | high; not executed | Swipe.FirstTapSteps | Swipe.TouchStartAtFixesTap |
