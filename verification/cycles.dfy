/** Runs of the step protocol: a step, the boundary correction when its animation ends,
    and the delayed release of the guard (script.js lines 97-134). Any mix of forward
    and backward runs keeps the carousel on a real card and moves it around the loop of
    real positions. */
module Cycles {
  import opened Carousel
  import opened ModArith

  datatype Direction = Forward | Backward

  function Step(s: State, d: Direction): State
  {
    match d
    case Forward => NextSlide(s)
    case Backward => PrevSlide(s)
  }

  function Delta(d: Direction): int
  {
    match d
    case Forward => 1
    case Backward => -1
  }

  /** Net forward steps in a run. */
  function Offset(ds: seq<Direction>): int
  {
    if |ds| == 0 then 0 else Delta(ds[0]) + Offset(ds[1..])
  }

  /** One step, its transitionend and the release of the guard. From a settled carousel
      it is settled again, one real position further round the loop, and nothing but the
      index has changed. */
  function Cycle(s: State, d: Direction): (r: State)
    ensures Settled(s) ==>
      && Settled(r)
      && r == s.(currentIndex := r.currentIndex)
      && r.currentIndex - s.itemsPerView == (s.currentIndex - s.itemsPerView + Delta(d)) % RealCount(s)
  {
    var stepped := Step(s, d);
    var r := Settle(TransitionEnd(stepped));
    // Both branches return `r`; the first only brings the remainder fact into the proof.
    if Settled(s) then
      var n := RealCount(s);
      assert stepped.currentIndex == s.currentIndex + Delta(d);
      ModUnique(r.currentIndex - s.itemsPerView, 0, r.currentIndex - s.itemsPerView, n);
      r
    else r
  }

  function Cycles(s: State, ds: seq<Direction>): State
    decreases |ds|
  {
    if |ds| == 0 then s else Cycles(Cycle(s, ds[0]), ds[1..])
  }

  /** After any run from a settled carousel it is settled on the same strip, at the real
      position the net number of forward steps reaches round the loop. */
  lemma {:induction false} CyclesPosition(s: State, ds: seq<Direction>)
    requires Settled(s)
    ensures var r := Cycles(s, ds);
      && Settled(r)
      && r == s.(currentIndex := r.currentIndex)
      && r.currentIndex - s.itemsPerView == (s.currentIndex - s.itemsPerView + Offset(ds)) % RealCount(s)
    decreases |ds|
  {
    var n, p := RealCount(s), s.currentIndex - s.itemsPerView;
    if |ds| == 0 {
      ModUnique(p, 0, p, n);
    } else {
      var d, rest := ds[0], ds[1..];
      var next := Cycle(s, d);
      var q := next.currentIndex - s.itemsPerView;
      assert q == (p + Delta(d)) % n;
      assert next.itemsPerView == s.itemsPerView && RealCount(next) == n;
      CyclesPosition(next, rest);
      var r := Cycles(next, rest);
      assert Cycles(s, ds) == r;
      assert r.currentIndex - s.itemsPerView == (q + Offset(rest)) % n;
      ModAddLeft(p + Delta(d), Offset(rest), n);
      assert Offset(ds) == Delta(d) + Offset(rest);
    }
  }

  /** A run of `k` steps in one direction moves `k` positions that way. */
  lemma {:induction false} OffsetOfRepeat(d: Direction, k: nat)
    ensures Offset(seq(k, _ => d)) == k * Delta(d)
  {
    if k > 0 {
      assert seq(k, _ => d)[1..] == seq(k - 1, _ => d);
      OffsetOfRepeat(d, k - 1);
    }
  }

  /** As many forward runs as there are real positions bring the carousel back to exactly
      the state it started from. */
  lemma FullLoopForward(s: State)
    requires Settled(s)
    ensures Cycles(s, seq(RealCount(s), _ => Forward)) == s
  {
    var n, p := RealCount(s), s.currentIndex - s.itemsPerView;
    CyclesPosition(s, seq(n, _ => Forward));
    OffsetOfRepeat(Forward, n);
    ModUnique(p + n, 1, p, n);
  }

  /** The same holds going backward. */
  lemma FullLoopBackward(s: State)
    requires Settled(s)
    ensures Cycles(s, seq(RealCount(s), _ => Backward)) == s
  {
    var n, p := RealCount(s), s.currentIndex - s.itemsPerView;
    CyclesPosition(s, seq(n, _ => Backward));
    OffsetOfRepeat(Backward, n);
    ModUnique(p - n, -1, p, n);
  }

  /** Eight cards at 1024 px: sixteen positions, the index on position 4, and after eight
      forward runs the carousel is back where it started, showing the same four cards. */
  lemma EightCardLoop()
    ensures var s := ContentLoaded(Load(EightCards(), 1024));
      && |s.items| == 16
      && s.currentIndex == 4
      && Settled(s)
      && Cycles(s, seq(8, _ => Forward)) == s
  {
    var s := ContentLoaded(Load(EightCards(), 1024));
    LoadBuildsLoop(EightCards(), 1024);
    FullLoopForward(s);
  }
}
