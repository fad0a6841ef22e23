/** The carousel's state and its index arithmetic (script.js lines 43-166, 205-219):
    stepping guarded by `isTransitioning`, the boundary snap when a step ends on a clone,
    the delayed release of the guard, page load and the resize rebuild. Every DOM event
    is a pure transition on an immutable state record; rendering (transforms, transition
    styles) is not part of the state. */
module Carousel {
  import opened Layout
  import opened ModArith
  import Breakpoints

  /** The module-level variables of the carousel. `pendingSettles` counts the 20 ms
      callbacks that `handleTransitionEnd` has scheduled and that have not yet run;
      `autoplay` says whether an autoplay interval is running. */
  datatype State = State(
    items: seq<Item>,
    itemsPerView: nat,
    currentIndex: int,
    isTransitioning: bool,
    isDragging: bool,
    startX: real,
    currentX: real,
    pendingSettles: nat,
    autoplay: bool)

  /** `totalOriginal` of handleTransitionEnd: the strip's length less both clone zones. */
  function RealCount(s: State): int
  {
    |s.items| - 2 * s.itemsPerView
  }

  /** A built strip: at least one card per view and at least one real position. */
  predicate WellFormed(s: State)
  {
    1 <= s.itemsPerView && 1 <= RealCount(s)
  }

  /** The index addresses a real position, `[itemsPerView, RealCount + itemsPerView)`. */
  predicate InRealRange(s: State)
  {
    s.itemsPerView <= s.currentIndex < RealCount(s) + s.itemsPerView
  }

  /** The index is at most one step outside the real positions. */
  predicate InAnimatedRange(s: State)
  {
    s.itemsPerView - 1 <= s.currentIndex <= RealCount(s) + s.itemsPerView
  }

  /** The viewport's `itemsPerView` positions from the index all exist. */
  predicate WindowInBounds(s: State)
  {
    0 <= s.currentIndex && s.currentIndex + s.itemsPerView <= |s.items|
  }

  /** The cards the viewport shows. */
  function Visible(s: State): seq<Item>
    requires WindowInBounds(s)
  {
    Window(s.items, s.currentIndex, s.itemsPerView)
  }

  /** No step in flight, no snap waiting to be released, index on a real card. */
  predicate Settled(s: State)
  {
    WellFormed(s) && InRealRange(s) && !s.isTransitioning && s.pendingSettles == 0
  }

  /** Wherever the index may be while a step animates, the viewport stays on the strip. */
  lemma AnimatedWindowInBounds(s: State)
    requires WellFormed(s) && InAnimatedRange(s)
    ensures WindowInBounds(s)
  {
  }

  // ---------------------------------------------------------------------------
  // Stepping

  /** nextSlide: one position forward unless a step is already in flight. */
  function NextSlide(s: State): (r: State)
    ensures r.items == s.items && r.itemsPerView == s.itemsPerView
    ensures WellFormed(s) && InRealRange(s) ==> InAnimatedRange(r) && WindowInBounds(r)
  {
    if s.isTransitioning then s
    else s.(isTransitioning := true, currentIndex := s.currentIndex + 1)
  }

  /** prevSlide: one position back unless a step is already in flight. */
  function PrevSlide(s: State): (r: State)
    ensures r.items == s.items && r.itemsPerView == s.itemsPerView
    ensures WellFormed(s) && InRealRange(s) ==> InAnimatedRange(r) && WindowInBounds(r)
  {
    if s.isTransitioning then s
    else s.(isTransitioning := true, currentIndex := s.currentIndex - 1)
  }

  /** A step while the guard is set changes nothing; otherwise it raises the guard,
      moves the index by exactly one and leaves every other field alone. */
  lemma StepGuard(s: State)
    ensures s.isTransitioning ==> NextSlide(s) == s && PrevSlide(s) == s
    ensures !s.isTransitioning ==>
      && NextSlide(s).isTransitioning && NextSlide(s).currentIndex == s.currentIndex + 1
      && NextSlide(s).(isTransitioning := false, currentIndex := s.currentIndex) == s
      && PrevSlide(s).isTransitioning && PrevSlide(s).currentIndex == s.currentIndex - 1
      && PrevSlide(s).(isTransitioning := false, currentIndex := s.currentIndex) == s
  {
  }

  // ---------------------------------------------------------------------------
  // Boundary correction and the delayed release of the guard

  /** handleTransitionEnd: an index past the last real card snaps to the first real one,
      then an index before the first real card snaps to the last real one; the release
      of the guard is scheduled, not performed. */
  function TransitionEnd(s: State): (r: State)
    ensures r == s.(currentIndex := r.currentIndex, pendingSettles := s.pendingSettles + 1)
    ensures WellFormed(s) && InAnimatedRange(s) ==> InRealRange(r)
    ensures WellFormed(s) && InAnimatedRange(s) ==>
      (r.currentIndex - s.itemsPerView) % RealCount(s) == (s.currentIndex - s.itemsPerView) % RealCount(s)
  {
    var total := RealCount(s);
    var afterEnd := if s.currentIndex >= total + s.itemsPerView then s.itemsPerView else s.currentIndex;
    var afterStart := if afterEnd < s.itemsPerView then total + s.itemsPerView - 1 else afterEnd;
    var r := s.(currentIndex := afterStart, pendingSettles := s.pendingSettles + 1);
    // Both branches return `r`; the first only brings the remainder fact into the proof.
    if WellFormed(s) && InAnimatedRange(s) then
      SnapKeepsPosition(s.currentIndex - s.itemsPerView, afterStart - s.itemsPerView, total);
      r
    else r
  }

  /** The snap moves the index by a whole loop or not at all. */
  lemma SnapKeepsPosition(before: int, after: int, total: int)
    requires total >= 1
    requires -1 <= before <= total
    requires after == (if before == total then 0 else if before == -1 then total - 1 else before)
    ensures after % total == before % total
  {
    if before == total {
      ModUnique(before, 1, 0, total);
      ModUnique(after, 0, 0, total);
    } else if before == -1 {
      ModUnique(before, -1, total - 1, total);
      ModUnique(after, 0, total - 1, total);
    }
  }

  /** The three cases of the boundary correction, with `R = RealCount`: an index at or past
      `R + itemsPerView` becomes `itemsPerView`; an index below `itemsPerView` (and below
      `R + itemsPerView`) becomes `R + itemsPerView - 1`; any other index is kept. */
  lemma CorrectionCases(s: State)
    ensures s.currentIndex >= RealCount(s) + s.itemsPerView ==>
      TransitionEnd(s).currentIndex == s.itemsPerView
    ensures s.currentIndex < s.itemsPerView && s.currentIndex < RealCount(s) + s.itemsPerView ==>
      TransitionEnd(s).currentIndex == RealCount(s) + s.itemsPerView - 1
    ensures InRealRange(s) ==> TransitionEnd(s).currentIndex == s.currentIndex
  {
  }

  /** On a strip that loops seamlessly, the snap after a step does not change what the
      viewport shows: the correction is invisible. */
  lemma SnapIsInvisible(s: State, originals: seq<Item>)
    requires WellFormed(s) && InAnimatedRange(s)
    requires |originals| == RealCount(s)
    requires LoopsSeamlessly(s.items, originals, s.itemsPerView)
    ensures WindowInBounds(TransitionEnd(s))
    ensures Ids(Visible(TransitionEnd(s))) == Ids(Visible(s))
  {
    var r := TransitionEnd(s);
    var n := RealCount(s);
    var a, b := r.currentIndex - s.itemsPerView, s.currentIndex - s.itemsPerView;
    assert a % n == b % n;
    CongruentDifference(a, b, n);
    assert r.currentIndex - s.currentIndex == a - b;
    SeamlessWindowsAgree(s.items, originals, s.itemsPerView, r.currentIndex, s.currentIndex);
  }

  /** On the source's strip the snap at the trailing end is invisible: from the first real
      position on the strip follows the loop, so a step forward onto the trailing clones
      and the snap back show the same cards. */
  lemma ForwardSnapIsInvisible(s: State, cards: seq<Item>)
    requires WellFormed(s)
    requires |cards| == RealCount(s) && s.itemsPerView <= |cards|
    requires s.items == LoopLayout(cards, s.itemsPerView)
    requires s.itemsPerView <= s.currentIndex <= RealCount(s) + s.itemsPerView
    ensures WindowInBounds(TransitionEnd(s))
    ensures Ids(Visible(TransitionEnd(s))) == Ids(Visible(s))
  {
    var r := TransitionEnd(s);
    var n, v := RealCount(s), s.itemsPerView;
    forall t | 0 <= t < v
      ensures Ids(Visible(r))[t] == Ids(Visible(s))[t]
    {
      LoopLayoutSeamlessFromFirstReal(cards, v, r.currentIndex + t);
      LoopLayoutSeamlessFromFirstReal(cards, v, s.currentIndex + t);
      if s.currentIndex == n + v {
        ModShift(r.currentIndex + t - v, 1, n);
        assert s.currentIndex + t - v == r.currentIndex + t - v + 1 * n;
      }
    }
  }

  /** On the source's strip the snap at the leading end shows different cards whenever
      two or more cards are in view: a step back from the first real card lands on the
      clone of the `itemsPerView`-th from last original, and the snap replaces it by the
      last original. */
  lemma BackwardSnapIsVisible(cards: seq<Item>, width: int)
    requires DistinctIds(cards)
    requires 2 <= Breakpoints.ItemsPerView(width) <= |cards|
    ensures var back := PrevSlide(ContentLoaded(Load(cards, width)));
      && WellFormed(back) && InAnimatedRange(back)
      && WindowInBounds(TransitionEnd(back))
      && Ids(Visible(TransitionEnd(back))) != Ids(Visible(back))
  {
    LoadBuildsLoop(cards, width);
    var back := PrevSlide(ContentLoaded(Load(cards, width)));
    var n, v := |cards|, back.itemsPerView;
    var snapped := TransitionEnd(back);
    assert back.currentIndex == v - 1;
    assert snapped.currentIndex == n + v - 1;
    assert Visible(back)[0] == back.items[v - 1] == Clone(cards[n - v]);
    assert Visible(snapped)[0] == back.items[n + v - 1] == cards[n - 1];
    assert Ids(Visible(back))[0] != Ids(Visible(snapped))[0];
  }

  /** With the leading clones in order every snap is invisible, at either end. */
  lemma InOrderSnapIsInvisible(s: State, cards: seq<Item>)
    requires WellFormed(s) && InAnimatedRange(s)
    requires |cards| == RealCount(s) && s.itemsPerView <= |cards|
    requires s.items == LoopLayoutInOrder(cards, s.itemsPerView)
    ensures WindowInBounds(TransitionEnd(s))
    ensures Ids(Visible(TransitionEnd(s))) == Ids(Visible(s))
  {
    LoopLayoutInOrderSeamless(cards, s.itemsPerView);
    SnapIsInvisible(s, cards);
  }

  /** settle: the 20 ms callback scheduled by handleTransitionEnd releases the guard.
      With nothing scheduled there is no callback to run. */
  function Settle(s: State): (r: State)
    ensures r.items == s.items && r.itemsPerView == s.itemsPerView
    ensures r.currentIndex == s.currentIndex
    ensures s.pendingSettles > 0 ==> !r.isTransitioning && r.pendingSettles == s.pendingSettles - 1
    ensures s.pendingSettles > 0 ==>
      r.(isTransitioning := s.isTransitioning, pendingSettles := s.pendingSettles) == s
    ensures s.pendingSettles == 0 ==> r == s
  {
    if s.pendingSettles == 0 then s
    else s.(isTransitioning := false, pendingSettles := s.pendingSettles - 1)
  }

  // ---------------------------------------------------------------------------
  // Autoplay and the buttons

  /** startAutoplay: whatever interval ran before, exactly one runs afterwards. */
  function StartAutoplay(s: State): State
  {
    s.(autoplay := true)
  }

  /** One tick of the autoplay interval, while one runs. */
  function AutoplayTick(s: State): State
  {
    if s.autoplay then NextSlide(s) else s
  }

  /** The next button: a step forward, then the autoplay timer restarts. */
  function ClickNext(s: State): State
  {
    StartAutoplay(NextSlide(s))
  }

  /** The previous button: a step back, then the autoplay timer restarts. */
  function ClickPrev(s: State): State
  {
    StartAutoplay(PrevSlide(s))
  }

  /** Both buttons are exactly nextSlide / prevSlide with autoplay left running; a tick
      steps forward only while autoplay runs, never starts it and touches nothing but the
      index and the guard. From a settled carousel every one of them keeps the viewport
      on the strip. */
  lemma ControlsStep(s: State)
    ensures ClickNext(s) == NextSlide(s).(autoplay := true)
    ensures ClickPrev(s) == PrevSlide(s).(autoplay := true)
    ensures ClickNext(s).autoplay && ClickPrev(s).autoplay
    ensures ClickNext(s).currentIndex == NextSlide(s).currentIndex
    ensures ClickPrev(s).currentIndex == PrevSlide(s).currentIndex
    ensures AutoplayTick(s).autoplay == s.autoplay
    ensures AutoplayTick(s).currentIndex == s.currentIndex + (if s.autoplay && !s.isTransitioning then 1 else 0)
    ensures AutoplayTick(s).isTransitioning == (s.isTransitioning || s.autoplay)
    ensures AutoplayTick(s).(currentIndex := s.currentIndex, isTransitioning := s.isTransitioning) == s
    ensures Settled(s) ==>
      && InAnimatedRange(ClickNext(s)) && InAnimatedRange(ClickPrev(s)) && InAnimatedRange(AutoplayTick(s))
      && WindowInBounds(ClickNext(s)) && WindowInBounds(ClickPrev(s)) && WindowInBounds(AutoplayTick(s))
  {
  }

  // ---------------------------------------------------------------------------
  // Building the strip: page load and resize

  /** cloneMenuItems on the state, rebuilding from the given `.menu-item` cards; with no
      cards the state is left alone. The index is not touched. */
  function Rebuild(s: State, cards: seq<Item>): State
    requires |cards| == 0 || s.itemsPerView <= |cards|
  {
    if |cards| == 0 then s else s.(items := LoopLayout(cards, s.itemsPerView))
  }

  /** The variables when the script runs: every `.menu-item` card, the width's
      `itemsPerView` and the index on the first real card. */
  function Load(cards: seq<Item>, width: int): State
  {
    var perView := Breakpoints.ItemsPerView(width);
    State(cards, perView, perView, false, false, 0.0, 0.0, 0, false)
  }

  /** The DOMContentLoaded handler: build the strip; start autoplay only if there are cards. */
  function ContentLoaded(s: State): (r: State)
    requires |s.items| == 0 || s.itemsPerView <= |s.items|
  {
    var built := Rebuild(s, s.items);
    if |built.items| > 0 then StartAutoplay(built) else built
  }

  /** After loading the page with at least one view of original cards, the strip is the
      originals with `itemsPerView` clones at each end, the index is on the first real
      card, the viewport shows the first `itemsPerView` originals in order, nothing is in
      flight and autoplay runs. */
  lemma LoadBuildsLoop(cards: seq<Item>, width: int)
    requires 1 <= Breakpoints.ItemsPerView(width) <= |cards|
    ensures var s := ContentLoaded(Load(cards, width));
      && s.items == LoopLayout(cards, s.itemsPerView)
      && |s.items| == |cards| + 2 * s.itemsPerView
      && RealCount(s) == |cards|
      && Settled(s)
      && s.currentIndex == s.itemsPerView
      && Visible(s) == cards[..s.itemsPerView]
      && s.autoplay
  {
    var s := ContentLoaded(Load(cards, width));
    assert Visible(s) == cards[..s.itemsPerView];
  }

  /** With no cards, loading builds nothing and never starts autoplay. */
  lemma LoadWithoutCards(width: int)
    ensures ContentLoaded(Load([], width)).items == []
    ensures !ContentLoaded(Load([], width)).autoplay
    ensures ContentLoaded(Load([], width)) == Load([], width)
  {
  }

  /** A resize whose `itemsPerView` would need more cards than there are cannot rebuild:
      the source fails part-way through cloneMenuItems. */
  predicate ResizeFits(s: State, width: int)
  {
    var perView := Breakpoints.ItemsPerView(width);
    perView == s.itemsPerView || |s.items| == 0 || perView <= |s.items|
  }

  /** The resize handler as written: a new `itemsPerView` resets the index to it and
      rebuilds from every `.menu-item` in the page, which after the first build includes
      the clones. */
  function Resize(s: State, width: int): (r: State)
    requires ResizeFits(s, width)
  {
    var perView := Breakpoints.ItemsPerView(width);
    if perView == s.itemsPerView then s
    else Rebuild(s.(itemsPerView := perView, currentIndex := perView), s.items)
  }

  /** A resize rebuilds only when the width's `itemsPerView` differs from the current
      one; it then puts the index on the first real card of the new strip, rebuilds the
      strip from every card it held (clones included) and changes nothing else. */
  lemma ResizeRule(s: State, width: int)
    requires ResizeFits(s, width)
    ensures Breakpoints.ItemsPerView(width) == s.itemsPerView ==> Resize(s, width) == s
    ensures Breakpoints.ItemsPerView(width) != s.itemsPerView ==>
      var r := Resize(s, width);
      && r.itemsPerView == Breakpoints.ItemsPerView(width)
      && r.currentIndex == r.itemsPerView
      && (|s.items| == 0 ==> r.items == s.items)
      && (|s.items| > 0 ==> r.items == LoopLayout(s.items, r.itemsPerView))
      && (|s.items| > 0 ==> |r.items| == |s.items| + 2 * r.itemsPerView && InRealRange(r))
      && r == s.(itemsPerView := r.itemsPerView, currentIndex := r.currentIndex, items := r.items)
  {
  }

  /** After a resize that changes `itemsPerView`, the source's rebuild counts the old
      clones as originals: the loop has `2 * oldItemsPerView` more real positions than
      there are cards. */
  lemma ResizeCountsClonesAsOriginals(cards: seq<Item>, width: int, newWidth: int)
    requires 1 <= Breakpoints.ItemsPerView(width) <= |cards|
    requires Breakpoints.ItemsPerView(newWidth) <= |cards| + 2 * Breakpoints.ItemsPerView(width)
    requires Breakpoints.ItemsPerView(newWidth) != Breakpoints.ItemsPerView(width)
    ensures var s := ContentLoaded(Load(cards, width));
      ResizeFits(s, newWidth) &&
      RealCount(Resize(s, newWidth)) == |cards| + 2 * s.itemsPerView
  {
    LoadBuildsLoop(cards, width);
  }

  /** Eight distinct original cards. */
  function EightCards(): seq<Item>
  {
    [Item(0, false), Item(1, false), Item(2, false), Item(3, false),
     Item(4, false), Item(5, false), Item(6, false), Item(7, false)]
  }

  /** Eight cards loaded at 1024 px and resized to 600 px: the strip has 20 positions,
      not the 8 + 2 * 2 = 12 a rebuild from the originals gives. */
  lemma ResizeEightCardsFromFourToTwo()
    ensures var cards := EightCards();
      var s := ContentLoaded(Load(cards, 1024));
      ResizeFits(s, 600) && |Resize(s, 600).items| == 20
  {
    var cards := EightCards();
    ResizeCountsClonesAsOriginals(cards, 1024, 600);
  }

  /** One card loaded at 300 px and resized to 600 px: the rebuild clones the card and
      its two clones, giving 7 positions and 3 real ones where one card needs only 1. */
  lemma ResizeOneCardFromOneToTwo()
    ensures var s := ContentLoaded(Load([Item(0, false)], 300));
      ResizeFits(s, 600) && |Resize(s, 600).items| == 7 && RealCount(Resize(s, 600)) == 3
  {
    ResizeCountsClonesAsOriginals([Item(0, false)], 300, 600);
  }

  /** Like ResizeFits, counting only the cards without the `clone` class. */
  predicate OriginalsFit(s: State, width: int)
  {
    var perView := Breakpoints.ItemsPerView(width);
    perView == s.itemsPerView || |Originals(s.items)| == 0 || perView <= |Originals(s.items)|
  }

  /** The resize handler rebuilding from the original cards only (those without the
      `clone` class). */
  function ResizeFromOriginals(s: State, width: int): (r: State)
    requires OriginalsFit(s, width)
  {
    var perView := Breakpoints.ItemsPerView(width);
    if perView == s.itemsPerView then s
    else Rebuild(s.(itemsPerView := perView, currentIndex := perView), Originals(s.items))
  }

  /** Rebuilding from the originals gives the strip a fresh load at the new width would
      give: the same cards, clones for the new view only, the index on the first real
      card. */
  lemma ResizeFromOriginalsRebuilds(cards: seq<Item>, width: int, newWidth: int)
    requires NoClones(cards)
    requires 1 <= Breakpoints.ItemsPerView(width) <= |cards|
    requires Breakpoints.ItemsPerView(newWidth) <= |cards|
    ensures var s := ContentLoaded(Load(cards, width));
      OriginalsFit(s, newWidth) &&
      var r := ResizeFromOriginals(s, newWidth);
      && r.items == ContentLoaded(Load(cards, newWidth)).items
      && RealCount(r) == |cards|
      && r.currentIndex == r.itemsPerView
      && WellFormed(r) && InRealRange(r)
  {
    var s := ContentLoaded(Load(cards, width));
    LoadBuildsLoop(cards, width);
    OriginalsOfLoopLayout(cards, s.itemsPerView);
  }
}
