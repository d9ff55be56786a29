/**
 The responsive page size of the shorts and QT sliders
 (`getShortsPerPage` in static/js/script.js): a step function of the
 viewport width in CSS pixels, read from `window.innerWidth` each time a
 page is shown. Each breakpoint belongs to the narrower tier.
 */
module Viewport {

  /** The widths at which one more card fits on a page, narrowest first. */
  const Breakpoints: seq<int> := [768, 1024, 1200]

  /** Cards per page for a viewport `width` wide: 2 on phones (up to 768),
      3 on tablets (up to 1024), 4 on small desktops (up to 1200), 5 beyond. */
  function PerPageFor(width: int): (r: nat)
    ensures 2 <= r <= 5
  {
    if width <= 768 then 2
    else if width <= 1024 then 3
    else if width <= 1200 then 4
    else 5
  }

  /** How many of `bps` a viewport `width` wide is strictly wider than. */
  function TiersPassed(width: int, bps: seq<int>): (k: nat)
    ensures k <= |bps|
  {
    if bps == [] then 0
    else (if width > bps[0] then 1 else 0) + TiersPassed(width, bps[1..])
  }

  /** The step function is two cards plus one per breakpoint the width
      exceeds: the tiers are exactly the intervals between consecutive
      breakpoints, each closed on its right end. */
  lemma PerPageForByTiers(width: int)
    ensures PerPageFor(width) == 2 + TiersPassed(width, Breakpoints)
  {
    var one := if width > 768 then 1 else 0;
    var two := if width > 1024 then 1 else 0;
    var three := if width > 1200 then 1 else 0;
    assert [1200][1..] == [];
    assert TiersPassed(width, [1200]) == three;
    assert [1024, 1200][1..] == [1200];
    assert TiersPassed(width, [1024, 1200]) == two + three;
    assert Breakpoints[1..] == [1024, 1200];
    assert TiersPassed(width, Breakpoints) == one + two + three;
  }

  /** A wider viewport never gets fewer cards per page. */
  lemma PerPageForMonotone(w1: int, w2: int)
    requires w1 <= w2
    ensures PerPageFor(w1) <= PerPageFor(w2)
  {
  }
}
