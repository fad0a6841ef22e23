/** How many menu cards the viewport shows, from the window width (script.js lines 48
    and 157). */
module Breakpoints {

  /** Four cards above 768 px, two above 480 px, one otherwise. */
  function ItemsPerView(width: int): (n: nat)
    ensures n == 1 || n == 2 || n == 4
    ensures n == 4 <==> width > 768
    ensures n == 2 <==> 480 < width <= 768
    ensures n == 1 <==> width <= 480
  {
    if width > 768 then 4 else if width > 480 then 2 else 1
  }

  /** A wider window never shows fewer cards. */
  lemma ItemsPerViewMonotone(narrow: int, wide: int)
    requires narrow <= wide
    ensures ItemsPerView(narrow) <= ItemsPerView(wide)
  {
  }
}
