/**
 The touch-swipe rule of `addSwipeSupport` in static/js/script.js. Only
 the horizontal screen coordinates of the touch start and end matter;
 they are plain integer inputs here.
 */
module Swipe {

  /** Minimum horizontal travel, in pixels, for a touch to count as a swipe. */
  const SwipeThreshold: int := 50

  /** Which of the two callbacks `handleSwipe` fires: `next` is the
      swipe-left callback (the slider's next page), `prev` the swipe-right
      callback (its previous page). */
  datatype SwipeOutcome = SwipeOutcome(next: bool, prev: bool)

  /** `handleSwipe`: two independent strict tests on the end coordinate. */
  function HandleSwipe(startX: int, endX: int): (o: SwipeOutcome)
    ensures o.next <==> startX - endX > SwipeThreshold
    ensures o.prev <==> endX - startX > SwipeThreshold
    ensures !(o.next && o.prev)
  {
    SwipeOutcome(endX < startX - SwipeThreshold, endX > startX + SwipeThreshold)
  }

  /** A travel of at most the threshold either way does nothing, and any
      longer travel fires exactly one callback, chosen by its direction. */
  lemma SwipeDeadZone(startX: int, endX: int)
    ensures -SwipeThreshold <= endX - startX <= SwipeThreshold <==>
              HandleSwipe(startX, endX) == SwipeOutcome(false, false)
    ensures endX - startX < -SwipeThreshold ==> HandleSwipe(startX, endX) == SwipeOutcome(true, false)
    ensures endX - startX > SwipeThreshold ==> HandleSwipe(startX, endX) == SwipeOutcome(false, true)
  {
  }
}
