/** Touch handling on the carousel (script.js lines 168-203): a touch records where the
    finger went down, a move records where it is, and the release commits one step when
    the finger travelled more than the swipe threshold. Drag offsets on screen are
    rendering and are not modelled. */
module Swipe {
  import opened Carousel
  import opened Layout
  import Breakpoints

  /** Minimum horizontal travel, in CSS pixels, for a release to commit a step. */
  const SwipeThreshold: real := 50.0

  function Abs(x: real): real
  {
    if x < 0.0 then -x else x
  }

  /** touchstart as written: records the start and begins a drag; `currentX` keeps
      whatever the previous gesture left there. */
  function TouchStart(s: State, x: real): State
  {
    s.(startX := x, isDragging := true)
  }

  /** touchmove: records the finger's position while a drag is on. */
  function TouchMove(s: State, x: real): State
  {
    if !s.isDragging then s else s.(currentX := x)
  }

  /** touchend: ends the drag; travel to the right beyond the threshold steps back,
      travel to the left beyond it steps forward, anything shorter steps nowhere; the
      autoplay timer restarts in every case. */
  function TouchEnd(s: State): State
  {
    if !s.isDragging then s
    else
      var released := s.(isDragging := false);
      var diff := s.currentX - s.startX;
      var stepped :=
        if Abs(diff) > SwipeThreshold then
          if diff > 0.0 then PrevSlide(released) else NextSlide(released)
        else released;
      StartAutoplay(stepped)
  }

  /** The index change a release commits to: none without a drag, while a step is in
      flight or for travel up to the threshold (50 px exactly included); otherwise one
      step against the direction of travel. */
  function CommittedStep(s: State): (d: int)
    ensures -1 <= d <= 1
  {
    var diff := s.currentX - s.startX;
    if !s.isDragging || s.isTransitioning || Abs(diff) <= SwipeThreshold then 0
    else if diff > 0.0 then -1
    else 1
  }

  /** The release's whole effect: a move or release without a drag does nothing; a
      release ends the drag, restarts autoplay, moves the index by the committed step,
      raises the guard exactly when it steps, and changes nothing else: the strip, both
      finger positions and the pending guard releases survive it. */
  lemma TouchEndDecision(s: State)
    ensures !s.isDragging ==> TouchEnd(s) == s
    ensures !s.isDragging ==> forall x :: TouchMove(s, x) == s
    ensures s.isDragging ==>
      var r := TouchEnd(s);
      && !r.isDragging && r.autoplay
      && r.items == s.items && r.itemsPerView == s.itemsPerView
      && r.currentIndex == s.currentIndex + CommittedStep(s)
      && r.isTransitioning == (s.isTransitioning || CommittedStep(s) != 0)
      && r == s.(isDragging := false, autoplay := true,
                 currentIndex := r.currentIndex, isTransitioning := r.isTransitioning)
  {
  }

  /** A full gesture: down at `from`, moved to `to`, released. */
  function Gesture(s: State, from: real, to: real): State
  {
    TouchEnd(TouchMove(TouchStart(s, from), to))
  }

  /** A gesture steps back when dragged right by more than 50 px, forward when dragged
      left by more than 50 px, and not at all otherwise or while a step is in flight. */
  lemma GestureStep(s: State, from: real, to: real)
    ensures Gesture(s, from, to).currentIndex == s.currentIndex +
      (if s.isTransitioning || Abs(to - from) <= SwipeThreshold then 0
       else if to > from then -1 else 1)
    ensures Gesture(s, from, to).items == s.items
  {
    TouchEndDecision(TouchMove(TouchStart(s, from), to));
  }

  /** After a gesture from a settled carousel, the boundary correction and the release
      of the guard leave it settled again, on the same strip. */
  lemma GestureThenSettle(s: State, from: real, to: real)
    requires Settled(s)
    ensures var r := Settle(TransitionEnd(Gesture(s, from, to)));
      Settled(r) && r.items == s.items && r.itemsPerView == s.itemsPerView
  {
    var g := Gesture(s, from, to);
    GestureStep(s, from, to);
    assert InAnimatedRange(g);
  }

  // ---------------------------------------------------------------------------
  // A touch without a move

  /** A tap: touch down and release with no move in between. */
  function Tap(s: State, x: real): State
  {
    TouchEnd(TouchStart(s, x))
  }

  /** As written, a tap measures its travel from the previous gesture's last position. */
  lemma TapMeasuresFromLastPosition(s: State, x: real)
    ensures Tap(s, x).currentIndex == s.currentIndex +
      (if s.isTransitioning || Abs(s.currentX - x) <= SwipeThreshold then 0
       else if s.currentX > x then -1 else 1)
  {
    TouchEndDecision(TouchStart(s, x));
  }

  /** The first tap after loading, anywhere more than 50 px from the left edge, steps the
      carousel forward although the finger never moved. */
  lemma FirstTapSteps(cards: seq<Item>, width: int, x: real)
    requires 1 <= Breakpoints.ItemsPerView(width) <= |cards|
    requires x > SwipeThreshold
    ensures var s := ContentLoaded(Load(cards, width));
      Tap(s, x).currentIndex == s.currentIndex + 1
  {
    LoadBuildsLoop(cards, width);
    TapMeasuresFromLastPosition(ContentLoaded(Load(cards, width)), x);
  }

  /** touchstart that also resets the finger's last position to the touch point. */
  function TouchStartAt(s: State, x: real): State
  {
    s.(startX := x, currentX := x, isDragging := true)
  }

  /** With the position reset on touch, a tap never steps, and any gesture that moves
      behaves exactly as it does with the source's touchstart. */
  lemma TouchStartAtFixesTap(s: State, x: real, to: real)
    ensures TouchEnd(TouchStartAt(s, x)).currentIndex == s.currentIndex
    ensures TouchEnd(TouchStartAt(s, x)).isTransitioning == s.isTransitioning
    ensures TouchEnd(TouchMove(TouchStartAt(s, x), to)) == Gesture(s, x, to)
  {
    TouchEndDecision(TouchStartAt(s, x));
  }
}
