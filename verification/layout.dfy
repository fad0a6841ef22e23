/** The item strip of the menu carousel: the `.menu-item` cards inside the carousel
    container, as `cloneMenuItems` lays them out (script.js lines 53-85). A card is
    abstracted to an identity and the `clone` class; its content is opaque. */
module Layout {
  import opened ModArith

  /** Identity of a menu card; a clone carries the identity of the card it copies. */
  type ItemId = nat

  /** A `.menu-item` element: which card it shows and whether it carries the `clone` class. */
  datatype Item = Item(id: ItemId, isClone: bool)

  /** `cloneNode(true)` followed by `classList.add('clone')`. */
  function Clone(x: Item): Item
  {
    Item(x.id, true)
  }

  function Clones(xs: seq<Item>): (r: seq<Item>)
    ensures |r| == |xs|
  {
    seq(|xs|, k requires 0 <= k < |xs| => Clone(xs[k]))
  }

  /** The cards shown, position by position. */
  function Ids(xs: seq<Item>): (r: seq<ItemId>)
    ensures |r| == |xs|
  {
    seq(|xs|, k requires 0 <= k < |xs| => xs[k].id)
  }

  predicate NoClones(xs: seq<Item>)
  {
    forall k :: 0 <= k < |xs| ==> !xs[k].isClone
  }

  predicate DistinctIds(xs: seq<Item>)
  {
    forall a, b :: 0 <= a < b < |xs| ==> xs[a].id != xs[b].id
  }

  /** The `itemsPerView` positions starting at `i`: what the viewport shows at index `i`. */
  function Window(strip: seq<Item>, i: int, itemsPerView: nat): seq<Item>
    requires 0 <= i && i + itemsPerView <= |strip|
  {
    strip[i .. i + itemsPerView]
  }

  // ---------------------------------------------------------------------------
  // The strip as cloneMenuItems builds it

  /** The leading clones as the source leaves them: the last `itemsPerView` originals,
      last one first (each clone is appended, then moved before the first child). */
  function Leading(originals: seq<Item>, itemsPerView: nat): seq<Item>
    requires itemsPerView <= |originals|
  {
    seq(itemsPerView, k requires 0 <= k < itemsPerView => Clone(originals[|originals| - 1 - k]))
  }

  /** The trailing clones: the first `itemsPerView` originals, in order. */
  function Trailing(originals: seq<Item>, itemsPerView: nat): seq<Item>
    requires itemsPerView <= |originals|
  {
    Clones(originals[..itemsPerView])
  }

  /** Leading clones, the originals, trailing clones. */
  function LoopLayout(originals: seq<Item>, itemsPerView: nat): seq<Item>
    requires itemsPerView <= |originals|
  {
    Leading(originals, itemsPerView) + originals + Trailing(originals, itemsPerView)
  }

  /** The container's children after `cloneMenuItems`, computed by the same sequence of
      DOM operations the source performs: clear the container, append-then-move-to-front
      a clone of each of the last `itemsPerView` originals, append every original, append
      a clone of each of the first `itemsPerView` originals. With no items the container
      is left alone. */
  method CloneMenuItems(children: seq<Item>, itemsPerView: nat) returns (strip: seq<Item>)
    requires |children| == 0 || itemsPerView <= |children|
    ensures |children| == 0 ==> strip == children
    ensures |children| > 0 ==> strip == LoopLayout(children, itemsPerView)
    ensures |children| > 0 ==> |strip| == |children| + 2 * itemsPerView
    ensures |children| > 0 ==> strip[itemsPerView .. itemsPerView + |children|] == children
    ensures |children| > 0 ==> strip[itemsPerView + |children| ..] == Clones(children[..itemsPerView])
    ensures |children| > 0 ==>
      forall k :: 0 <= k < itemsPerView ==> strip[k] == Clone(children[|children| - 1 - k])
  {
    var originals := children;
    var total := |originals|;
    if total == 0 {
      return children;
    }
    strip := [];
    var i := total - itemsPerView;
    while i < total
      invariant total - itemsPerView <= i <= total
      invariant strip == Leading(originals[..i], i - (total - itemsPerView))
    {
      var clone := Clone(originals[i]);
      strip := strip + [clone];                    // appendChild(clone)
      strip := [clone] + strip[..|strip| - 1];     // insertBefore(clone, firstChild)
      i := i + 1;
    }
    assert originals[..total] == originals;
    var j := 0;
    while j < total
      invariant 0 <= j <= total
      invariant strip == Leading(originals, itemsPerView) + originals[..j]
    {
      strip := strip + [originals[j]];
      j := j + 1;
    }
    assert originals[..total] == originals;
    j := 0;
    while j < itemsPerView
      invariant 0 <= j <= itemsPerView
      invariant strip == Leading(originals, itemsPerView) + originals + Clones(originals[..j])
    {
      strip := strip + [Clone(originals[j])];
      assert originals[..j + 1] == originals[..j] + [originals[j]];
      j := j + 1;
    }
  }

  // ---------------------------------------------------------------------------
  // The loop the strip is meant to realise

  /** Position `k` of the strip shows the original a seamless endless loop would show:
      the one `k - itemsPerView` steps (wrapping around) from the first original. */
  predicate LoopsSeamlessly(strip: seq<Item>, originals: seq<Item>, itemsPerView: nat)
    requires |originals| > 0
  {
    && |strip| == |originals| + 2 * itemsPerView
    && forall k :: 0 <= k < |strip| ==> strip[k].id == originals[(k - itemsPerView) % |originals|].id
  }

  /** Leading clones in order, the last `itemsPerView` originals as they stand. */
  function LeadingInOrder(originals: seq<Item>, itemsPerView: nat): seq<Item>
    requires itemsPerView <= |originals|
  {
    Clones(originals[|originals| - itemsPerView ..])
  }

  /** The strip with its leading clones in order. */
  function LoopLayoutInOrder(originals: seq<Item>, itemsPerView: nat): seq<Item>
    requires itemsPerView <= |originals|
  {
    LeadingInOrder(originals, itemsPerView) + originals + Trailing(originals, itemsPerView)
  }

  /** From the first real position on, the source's strip follows the loop: the originals
      and the trailing clones are where an endless loop puts them. */
  lemma LoopLayoutSeamlessFromFirstReal(originals: seq<Item>, itemsPerView: nat, k: int)
    requires 1 <= itemsPerView <= |originals|
    requires itemsPerView <= k < |originals| + 2 * itemsPerView
    ensures LoopLayout(originals, itemsPerView)[k].id
         == originals[(k - itemsPerView) % |originals|].id
  {
    var n := |originals|;
    if k < itemsPerView + n {
      ModUnique(k - itemsPerView, 0, k - itemsPerView, n);
    } else {
      ModUnique(k - itemsPerView, 1, k - itemsPerView - n, n);
    }
  }

  /** With at least two cards per view and distinct cards, the source's strip does not
      loop seamlessly: position 0 shows the last original where the loop needs the
      `itemsPerView`-th from last. */
  lemma LoopLayoutNotSeamless(originals: seq<Item>, itemsPerView: nat)
    requires 2 <= itemsPerView <= |originals|
    requires DistinctIds(originals)
    ensures !LoopsSeamlessly(LoopLayout(originals, itemsPerView), originals, itemsPerView)
  {
    var n := |originals|;
    var strip := LoopLayout(originals, itemsPerView);
    ModUnique(0 - itemsPerView, -1, n - itemsPerView, n);
    assert strip[0] == Leading(originals, itemsPerView)[0] == Clone(originals[n - 1]);
    assert originals[n - itemsPerView].id != originals[n - 1].id;
  }

  /** The strip with in-order leading clones loops seamlessly over its whole length. */
  lemma LoopLayoutInOrderSeamless(originals: seq<Item>, itemsPerView: nat)
    requires 1 <= itemsPerView <= |originals|
    ensures LoopsSeamlessly(LoopLayoutInOrder(originals, itemsPerView), originals, itemsPerView)
  {
    var n := |originals|;
    var strip := LoopLayoutInOrder(originals, itemsPerView);
    forall k | 0 <= k < |strip|
      ensures strip[k].id == originals[(k - itemsPerView) % n].id
    {
      if k < itemsPerView {
        ModUnique(k - itemsPerView, -1, n - itemsPerView + k, n);
      } else if k < itemsPerView + n {
        ModUnique(k - itemsPerView, 0, k - itemsPerView, n);
      } else {
        ModUnique(k - itemsPerView, 1, k - itemsPerView - n, n);
      }
    }
  }

  /** On a seamless strip, two indices a whole number of loops apart show the same cards:
      snapping between them is invisible. */
  lemma SeamlessWindowsAgree(strip: seq<Item>, originals: seq<Item>, itemsPerView: nat, i: int, j: int)
    requires |originals| > 0
    requires LoopsSeamlessly(strip, originals, itemsPerView)
    requires 0 <= i && i + itemsPerView <= |strip|
    requires 0 <= j && j + itemsPerView <= |strip|
    requires (i - j) % |originals| == 0
    ensures Ids(Window(strip, i, itemsPerView)) == Ids(Window(strip, j, itemsPerView))
  {
    var n := |originals|;
    forall t | 0 <= t < itemsPerView
      ensures Ids(Window(strip, i, itemsPerView))[t] == Ids(Window(strip, j, itemsPerView))[t]
    {
      assert (i + t - itemsPerView) - (j + t - itemsPerView) == i - j;
      ModCongruent(i + t - itemsPerView, j + t - itemsPerView, n);
      assert strip[i + t].id == originals[(i + t - itemsPerView) % n].id;
      assert strip[j + t].id == originals[(j + t - itemsPerView) % n].id;
    }
  }

  // ---------------------------------------------------------------------------
  // Which items a rebuild starts from

  /** The cards without the `clone` class, in order: what a rebuild should start from.
      The source's rebuild does not filter (see Carousel.Resize); this is the corrected one's. */
  function Originals(xs: seq<Item>): (r: seq<Item>)
    ensures |r| <= |xs|
    ensures NoClones(r)
    ensures forall x :: x in r ==> x in xs
    ensures forall x :: x in xs && !x.isClone ==> x in r
    decreases |xs|
  {
    if |xs| == 0 then []
    else if xs[0].isClone then Originals(xs[1..])
    else [xs[0]] + Originals(xs[1..])
  }

  lemma {:induction false} OriginalsAppend(a: seq<Item>, b: seq<Item>)
    ensures Originals(a + b) == Originals(a) + Originals(b)
    decreases |a|
  {
    if |a| == 0 {
      assert a + b == b;
    } else {
      assert (a + b)[0] == a[0];
      assert (a + b)[1..] == a[1..] + b;
      OriginalsAppend(a[1..], b);
    }
  }

  lemma {:induction false} OriginalsOfNoClones(xs: seq<Item>)
    requires NoClones(xs)
    ensures Originals(xs) == xs
    decreases |xs|
  {
    if |xs| > 0 {
      OriginalsOfNoClones(xs[1..]);
    }
  }

  lemma {:induction false} OriginalsOfClones(xs: seq<Item>)
    requires forall k :: 0 <= k < |xs| ==> xs[k].isClone
    ensures Originals(xs) == []
    decreases |xs|
  {
    if |xs| > 0 {
      OriginalsOfClones(xs[1..]);
    }
  }

  /** Clones around a run of originals drop out, leaving the run. */
  lemma OriginalsBetweenClones(lead: seq<Item>, originals: seq<Item>, trail: seq<Item>)
    requires forall k :: 0 <= k < |lead| ==> lead[k].isClone
    requires forall k :: 0 <= k < |trail| ==> trail[k].isClone
    requires NoClones(originals)
    ensures Originals(lead + originals + trail) == originals
  {
    OriginalsAppend(lead + originals, trail);
    OriginalsAppend(lead, originals);
    OriginalsOfClones(lead);
    OriginalsOfClones(trail);
    OriginalsOfNoClones(originals);
  }

  /** Dropping the clones from a built strip recovers exactly the originals it was built
      from, whichever order the leading clones are in. */
  lemma OriginalsOfLoopLayout(originals: seq<Item>, itemsPerView: nat)
    requires itemsPerView <= |originals|
    requires NoClones(originals)
    ensures Originals(LoopLayout(originals, itemsPerView)) == originals
    ensures Originals(LoopLayoutInOrder(originals, itemsPerView)) == originals
  {
    var lead, trail := Leading(originals, itemsPerView), Trailing(originals, itemsPerView);
    forall k | 0 <= k < |lead|
      ensures lead[k].isClone
    {
      assert lead[k] == Clone(originals[|originals| - 1 - k]);
    }
    OriginalsBetweenClones(lead, originals, trail);
    OriginalsBetweenClones(LeadingInOrder(originals, itemsPerView), originals, trail);
  }
}
