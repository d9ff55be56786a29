/**
 The four card sliders of the home page (static/js/script.js, the
 `DOMContentLoaded` handler): vision, sermon, shorts and QT. Each is one
 `Slider` value; loading the page builds it, and every browser event
 that reaches it (a nav-button click, a touch swipe, a window resize)
 maps it to its next value. The page arithmetic is the shared pager;
 what differs per slider is its page size, whether it listens for
 swipes and resizes, and the test that hides its nav buttons.

 The cards never change after load. A slider without cards renders
 nothing, attaches no click or resize handler and keeps its buttons on
 screen; its swipe handler (attached whenever the container exists)
 would divide by a page count of zero and store NaN, which no card can
 ever display, so the model leaves such a slider unchanged.
 */
module Sliders {
  import opened JsArith
  import opened Paging
  import opened Viewport
  import opened Swipe
  import VisionSlider

  datatype Kind = Vision | Sermon | Shorts | Qt

  /** Cards per page of each slider when the viewport is `width` wide. */
  function PerPage(kind: Kind, width: int): (r: nat)
    ensures r >= 1
    ensures kind == Shorts || kind == Qt ==> r == PerPageFor(width)
  {
    match kind
    case Vision => 1
    case Sermon => 2
    case Shorts => PerPageFor(width)
    case Qt => PerPageFor(width)
  }

  /** `addSwipeSupport` is applied to the vision, sermon and shorts
      containers; the QT grid gets none. */
  predicate HasSwipe(kind: Kind) {
    kind != Qt
  }

  /** Only the responsive sliders re-render on `resize`. */
  predicate ReactsToResize(kind: Kind) {
    kind == Shorts || kind == Qt
  }

  /** A slider as the page holds it: its cards, the viewport width, the
      current page (for the vision slider, the active card), whether its
      nav buttons were hidden, and the flag last written on each card
      (`active` for the vision slider, displayed for the others). */
  datatype Slider = Slider(kind: Kind, count: nat, width: int, page: int, navHidden: bool, shown: seq<bool>)

  datatype Event = PrevClick | NextClick | SwipeGesture(startX: int, endX: int) | Resize(newWidth: int)

  /** The slider's card flags agree with its page: a slider with cards is
      on a page that exists, and the cards flagged are exactly those the
      pager puts on that page. */
  predicate Consistent(s: Slider) {
    var pp := PerPage(s.kind, s.width);
    && (s.count > 0 ==> 0 <= s.page < TotalPages(s.count, pp))
    && s.shown == Render(PagerState(s.count, pp, s.page))
  }

  /** The button-hiding test each slider runs once, at load, inside its
      `length > 0` guard: a single vision card, at most two sermon cards,
      or no more shorts/QT cards than fit on a page at the load width. */
  predicate HidesNavAtLoad(kind: Kind, count: nat, width: int) {
    && count > 0
    && match kind
       case Vision => count == 1
       case Sermon => count <= 2
       case Shorts => count <= PerPageFor(width)
       case Qt => count <= PerPageFor(width)
  }

  /** Each slider's own hiding test is the same rule: hide the buttons
      exactly when the slider has cards and they fit on one page. */
  lemma HidesNavIffOnePage(kind: Kind, count: nat, width: int)
    ensures HidesNavAtLoad(kind, count, width) <==> count > 0 && TotalPages(count, PerPage(kind, width)) == 1
  {
    var pp := PerPage(kind, width);
    if count > 0 {
      var t := TotalPages(count, pp);
      if count <= pp && t > 1 {
        MulMonotone(1, t - 1, pp);
      }
    }
  }

  /** Page load: a slider with cards shows its first page and hides its
      buttons when all cards fit on it; an empty slider shows nothing and
      keeps its buttons. */
  function Load(kind: Kind, count: nat, width: int): (s: Slider)
    ensures s.kind == kind && s.count == count && s.width == width
    ensures Consistent(s)
    ensures count > 0 ==> s.page == 0
    ensures s.navHidden <==> count > 0 && TotalPages(count, PerPage(kind, width)) == 1
  {
    HidesNavIffOnePage(kind, count, width);
    var pp := PerPage(kind, width);
    var shown := if kind == Vision then VisionSlider.ShowCard(count, 0) else Render(PagerState(count, pp, 0));
    if count > 0 then
      VisionSlider.IsSingleCardPager(count, 0);
      Slider(kind, count, width, 0, HidesNavAtLoad(kind, count, width), shown)
    else
      Slider(kind, count, width, 0, false, [])
  }

  /** One page forward or back, as the slider's own handler computes it:
      the vision slider's index update and `showVisionCard`, or
      `show…Page(page ± 1)` for the others. */
  function Turn(s: Slider, forward: bool): (t: Slider)
    requires Consistent(s) && s.count > 0
    ensures Consistent(t)
    ensures t == s.(page := t.page, shown := t.shown)
    ensures var p := PagerState(s.count, PerPage(s.kind, s.width), s.page);
            t.page == if forward then Next(p).page else Prev(p).page
  {
    if s.kind == Vision then
      VisionSlider.IsSingleCardPager(s.count, s.page);
      var i := if forward then VisionSlider.NextIndex(s.page, s.count) else VisionSlider.PrevIndex(s.page, s.count);
      VisionSlider.IsSingleCardPager(s.count, i);
      s.(page := i, shown := VisionSlider.ShowCard(s.count, i))
    else
      var p := PagerState(s.count, PerPage(s.kind, s.width), s.page);
      var q := GoTo(p, if forward then s.page + 1 else s.page - 1);
      assert q == if forward then Next(p) else Prev(p);
      s.(page := q.page, shown := Render(q))
  }

  /** What one event does to a slider. A click reaches a handler only when
      the slider has cards (handlers are attached inside the `length > 0`
      guard) and its buttons are on screen; a swipe only when the slider
      has swipe support and cards; a resize re-renders only the responsive
      sliders, with their current page. The cards, the slider's kind and
      its button visibility never change. */
  function Step(s: Slider, e: Event): (t: Slider)
    requires Consistent(s)
    ensures Consistent(t)
    ensures t.kind == s.kind && t.count == s.count && t.navHidden == s.navHidden
    ensures e.Resize? ==> t.width == e.newWidth
    ensures !e.Resize? ==> t.width == s.width
  {
    match e
    case PrevClick =>
      if s.count > 0 && !s.navHidden then Turn(s, false) else s
    case NextClick =>
      if s.count > 0 && !s.navHidden then Turn(s, true) else s
    case SwipeGesture(startX, endX) =>
      if s.count > 0 && HasSwipe(s.kind) then
        var o := HandleSwipe(startX, endX);
        var s1 := if o.next then Turn(s, true) else s;
        if o.prev then Turn(s1, false) else s1
      else
        s
    case Resize(w) =>
      if s.count > 0 && ReactsToResize(s.kind) then
        var p := Repage(PagerState(s.count, PerPage(s.kind, s.width), s.page), PerPage(s.kind, w));
        RepageInRange(PagerState(s.count, PerPage(s.kind, s.width), s.page), PerPage(s.kind, w));
        s.(width := w, page := p.page, shown := Render(p))
      else
        s.(width := w)
  }

  /** A click on a visible button of a slider with cards turns exactly one
      page, wrapping at either end. */
  lemma ClickTurnsOnePage(s: Slider, e: Event)
    requires Consistent(s) && s.count > 0 && !s.navHidden
    requires e == NextClick || e == PrevClick
    ensures var n := TotalPages(s.count, PerPage(s.kind, s.width));
            Step(s, e).page == if e == NextClick then (if s.page == n - 1 then 0 else s.page + 1)
                               else (if s.page == 0 then n - 1 else s.page - 1)
  {
  }

  /** A swipe on a slider with swipe support behaves like the matching
      button press when it travels more than the threshold, and does
      nothing otherwise. */
  lemma SwipeActsLikeClick(s: Slider, startX: int, endX: int)
    requires Consistent(s) && s.count > 0 && HasSwipe(s.kind)
    ensures endX - startX < -SwipeThreshold ==> Step(s, SwipeGesture(startX, endX)) == Turn(s, true)
    ensures endX - startX > SwipeThreshold ==> Step(s, SwipeGesture(startX, endX)) == Turn(s, false)
    ensures -SwipeThreshold <= endX - startX <= SwipeThreshold ==> Step(s, SwipeGesture(startX, endX)) == s
  {
  }

  /** A resize re-renders a responsive slider for the new page size: the
      page is back in range, a page that still exists is kept, and one
      beyond the new page count wraps round rather than resetting to 0. */
  lemma ResizeKeepsPage(s: Slider, w: int)
    requires Consistent(s) && s.count > 0 && ReactsToResize(s.kind)
    ensures var n := TotalPages(s.count, PerPageFor(w));
            && 0 <= Step(s, Resize(w)).page < n
            && Step(s, Resize(w)).page == s.page % n
            && (s.page < n ==> Step(s, Resize(w)).page == s.page)
  {
    RepageInRange(PagerState(s.count, PerPage(s.kind, s.width), s.page), PerPageFor(w));
  }

  /** The slider after a sequence of events, applied in order. */
  function Run(s: Slider, events: seq<Event>): (t: Slider)
    requires Consistent(s)
    ensures Consistent(t)
    ensures t.kind == s.kind && t.count == s.count && t.navHidden == s.navHidden
    decreases |events|
  {
    if events == [] then s else Run(Step(s, events[0]), events[1..])
  }

  /** A consistent slider with cards is on a page that exists and
      displays exactly that page's cards: a run of consecutive cards,
      between one and a page size of them. */
  lemma ConsistentShowsOnePage(s: Slider)
    requires Consistent(s) && s.count > 0
    ensures var p := PagerState(s.count, PerPage(s.kind, s.width), s.page);
            && p.Valid()
            && Shown(s.shown) == Range(s.page * p.perPage, Min(s.count, s.page * p.perPage + p.perPage))
            && 1 <= |Shown(s.shown)| <= p.perPage
  {
    PageSize(PagerState(s.count, PerPage(s.kind, s.width), s.page));
  }

  /** Whatever events follow a page load, a slider with cards shows one
      whole page of its cards, and its buttons stay as the load left them:
      hidden exactly when the cards fitted on one page at the load width. */
  lemma AfterLoad(kind: Kind, count: nat, width: int, events: seq<Event>)
    requires count > 0
    ensures var t := Run(Load(kind, count, width), events);
            var p := PagerState(count, PerPage(kind, t.width), t.page);
            && p.Valid()
            && 1 <= |Shown(t.shown)| <= p.perPage
            && (t.navHidden <==> TotalPages(count, PerPage(kind, width)) == 1)
  {
    var t := Run(Load(kind, count, width), events);
    ConsistentShowsOnePage(t);
  }

  /** Button visibility is fixed at load: a QT grid loaded wide enough
      for all its cards keeps its buttons hidden after the window narrows,
      and having no swipe support it has no other way to turn the page.
      So every event leaves it on its first page, even when the new page
      size splits its cards over several pages. */
  lemma {:induction false} QtPinnedWhenNavHidden(s: Slider, events: seq<Event>)
    requires Consistent(s) && s.kind == Qt && s.navHidden && s.page == 0
    ensures Run(s, events).page == 0
    decreases |events|
  {
    if events != [] {
      var t := Step(s, events[0]);
      if events[0].Resize? && s.count > 0 {
        ResizeKeepsPage(s, events[0].newWidth);
      }
      assert t.page == 0;
      QtPinnedWhenNavHidden(t, events[1..]);
    }
  }

  /** An instance: four QT cards loaded at 1300 px fit on one page, so
      the buttons are hidden; at 700 px they need two pages, yet after any
      events the last two cards are never shown while the viewport stays
      700 px wide. */
  lemma QtNarrowedLosesCards(events: seq<Event>)
    ensures var s := Run(Load(Qt, 4, 1300), [Resize(700)]);
            && s.navHidden
            && TotalPages(4, PerPage(Qt, 700)) == 2
            && var t := Run(s, events);
               t.width == 700 ==> !t.shown[2] && !t.shown[3]
  {
    var s0 := Load(Qt, 4, 1300);
    var s := Run(s0, [Resize(700)]);
    assert s == Step(s0, Resize(700));
    QtPinnedWhenNavHidden(s, events);
  }

  /** The buttons agree with the page count at the current width: hidden
      exactly when the slider has cards and they fit on one page. */
  predicate NavAgrees(s: Slider) {
    s.navHidden <==> s.count > 0 && TotalPages(s.count, PerPage(s.kind, s.width)) == 1
  }

  /** `Step` with the button-hiding test run again after a resize: a
      responsive slider with cards hides its buttons exactly when its
      cards fit on one page at the new width, and shows them otherwise.
      Every other event does what `Step` does. */
  function StepRecheckingNav(s: Slider, e: Event): (t: Slider)
    requires Consistent(s)
    ensures Consistent(t)
    ensures t.kind == s.kind && t.count == s.count
    ensures t == Step(s, e).(navHidden := t.navHidden)
    ensures !e.Resize? ==> t.navHidden == s.navHidden
    ensures NavAgrees(s) ==> NavAgrees(t)
  {
    var t := Step(s, e);
    if e.Resize? && s.count > 0 && ReactsToResize(s.kind) then
      HidesNavIffOnePage(s.kind, s.count, e.newWidth);
      t.(navHidden := HidesNavAtLoad(s.kind, s.count, e.newWidth))
    else
      t
  }

  /** The slider after a sequence of events under `StepRecheckingNav`. */
  function RunRecheckingNav(s: Slider, events: seq<Event>): (t: Slider)
    requires Consistent(s)
    ensures Consistent(t)
    ensures t.kind == s.kind && t.count == s.count
    ensures NavAgrees(s) ==> NavAgrees(t)
    decreases |events|
  {
    if events == [] then s else RunRecheckingNav(StepRecheckingNav(s, events[0]), events[1..])
  }

  /** `k` clicks on the "next" button. */
  function Presses(k: nat): (es: seq<Event>)
    ensures |es| == k
    ensures forall i :: 0 <= i < k ==> es[i] == NextClick
  {
    if k == 0 then [] else [NextClick] + Presses(k - 1)
  }

  /** While the buttons are on screen, `k` clicks on "next" advance the
      slider as `k` presses of the pager's next. */
  lemma {:induction false} PressesAdvance(s: Slider, k: nat)
    requires Consistent(s) && s.count > 0 && !s.navHidden
    ensures RunRecheckingNav(s, Presses(k)).kind == s.kind
    ensures RunRecheckingNav(s, Presses(k)).width == s.width
    ensures RunRecheckingNav(s, Presses(k)).page == NextTimes(PagerState(s.count, PerPage(s.kind, s.width), s.page), k).page
    decreases k
  {
    if k > 0 {
      var p := PagerState(s.count, PerPage(s.kind, s.width), s.page);
      var s1 := StepRecheckingNav(s, NextClick);
      assert Presses(k)[0] == NextClick && Presses(k)[1..] == Presses(k - 1);
      assert RunRecheckingNav(s, Presses(k)) == RunRecheckingNav(s1, Presses(k - 1));
      assert s1 == Turn(s, true);
      assert PagerState(s1.count, PerPage(s1.kind, s1.width), s1.page) == Next(p);
      PressesAdvance(s1, k - 1);
      NextTimesShift(p, k - 1);
    }
  }

  /** While the buttons are on screen, `q + totalPages - page` clicks on
      "next" bring the slider to any page `q` that exists. */
  lemma PressesReachPage(s: Slider, q: int, k: nat)
    requires Consistent(s) && s.count > 0 && !s.navHidden
    requires 0 <= q < TotalPages(s.count, PerPage(s.kind, s.width))
    requires k == q + TotalPages(s.count, PerPage(s.kind, s.width)) - s.page
    ensures RunRecheckingNav(s, Presses(k)).kind == s.kind
    ensures RunRecheckingNav(s, Presses(k)).width == s.width
    ensures RunRecheckingNav(s, Presses(k)).page == q
  {
    var p := PagerState(s.count, PerPage(s.kind, s.width), s.page);
    WrapsToPage(p, q, k);
    PressesAdvance(s, k);
  }

  /** `q + totalPages - page` presses of the pager's next reach page `q`. */
  lemma WrapsToPage(p: PagerState, q: int, k: nat)
    requires p.Valid() && 0 <= q < TotalPages(p.count, p.perPage)
    requires k == q + TotalPages(p.count, p.perPage) - p.page
    ensures NextTimes(p, k).page == q
  {
    NextTimesWraps(p, k);
    ModOfBlock(1, TotalPages(p.count, p.perPage), q);
  }

  /** A consistent slider shows card `i` when it is on the card's page. */
  lemma ShownOnItsPage(s: Slider, i: nat)
    requires Consistent(s) && i < s.count && s.page == i / PerPage(s.kind, s.width)
    ensures s.shown[i]
  {
    FloorDivBlock(i, PerPage(s.kind, s.width), s.page);
  }

  /** With the buttons re-evaluated on resize, every card of a slider
      whose buttons agree with its page count is shown after some number
      of clicks on "next". */
  lemma EveryCardReachable(s: Slider, i: nat)
    requires Consistent(s) && NavAgrees(s) && i < s.count
    ensures exists k: nat :: RunRecheckingNav(s, Presses(k)).shown[i]
  {
    var k := ClicksToCard(s, i);
    assert RunRecheckingNav(s, Presses(k)).shown[i];
  }

  /** How many clicks on "next" bring card `i` on screen: none when the
      buttons are hidden, since then every card is on the only page. */
  function ClicksToCard(s: Slider, i: nat): (k: nat)
    requires Consistent(s) && NavAgrees(s) && i < s.count
    ensures RunRecheckingNav(s, Presses(k)).shown[i]
  {
    if s.navHidden then
      ReachedWhenHidden(s, i);
      0
    else
      var pp := PerPage(s.kind, s.width);
      CardOnOnePage(s.count, pp, i);
      var k: nat := i / pp + TotalPages(s.count, pp) - s.page;
      ReachedWhenShown(s, i, i / pp, k);
      k
  }

  /** Hidden buttons mean one page, which shows every card. */
  lemma ReachedWhenHidden(s: Slider, i: nat)
    requires Consistent(s) && NavAgrees(s) && s.navHidden && i < s.count
    ensures RunRecheckingNav(s, Presses(0)).shown[i]
  {
    CardOnOnePage(s.count, PerPage(s.kind, s.width), i);
    assert Presses(0) == [];
    ShownOnItsPage(s, i);
  }

  /** With the buttons on screen, `k` clicks through to the card's page
      `q` show the card. */
  lemma ReachedWhenShown(s: Slider, i: nat, q: int, k: nat)
    requires Consistent(s) && s.count > 0 && !s.navHidden && i < s.count
    requires q == i / PerPage(s.kind, s.width) && q < TotalPages(s.count, PerPage(s.kind, s.width))
    requires k == q + TotalPages(s.count, PerPage(s.kind, s.width)) - s.page
    ensures RunRecheckingNav(s, Presses(k)).shown[i]
  {
    PressesReachPage(s, q, k);
    ShownOnItsPage(RunRecheckingNav(s, Presses(k)), i);
  }

  /** Loaded with any cards at any width and after any events, a slider
      whose buttons are re-evaluated on resize can still bring every one
      of its cards on screen. */
  lemma CardsStayReachable(kind: Kind, count: nat, width: int, events: seq<Event>, i: nat)
    requires i < count
    ensures var t := RunRecheckingNav(Load(kind, count, width), events);
            exists k: nat :: RunRecheckingNav(t, Presses(k)).shown[i]
  {
    var s := Load(kind, count, width);
    var t := RunRecheckingNav(s, events);
    EveryCardReachable(t, i);
  }

  /** The QT instance again, with the buttons re-evaluated: after the
      narrowing to 700 px they reappear, and one click shows cards 2 and 3. */
  lemma QtNarrowedReachesCards()
    ensures var s := RunRecheckingNav(Load(Qt, 4, 1300), [Resize(700)]);
            && !s.navHidden
            && var t := RunRecheckingNav(s, [NextClick]);
               t.shown[2] && t.shown[3]
  {
    var s0 := Load(Qt, 4, 1300);
    var s := RunRecheckingNav(s0, [Resize(700)]);
    assert s == StepRecheckingNav(s0, Resize(700));
    assert RunRecheckingNav(s, [NextClick]) == StepRecheckingNav(s, NextClick);
  }

  /** A slider whose buttons are hidden, left on its first page, stays
      there under any events that include no swipe it reacts to. */
  lemma {:induction false} PinnedWithoutSwipes(s: Slider, events: seq<Event>)
    requires Consistent(s) && s.navHidden && s.page == 0
    requires forall j :: 0 <= j < |events| ==> !events[j].SwipeGesture?
    ensures Run(s, events).page == 0
    decreases |events|
  {
    if events != [] {
      var t := Step(s, events[0]);
      if events[0].Resize? && s.count > 0 && ReactsToResize(s.kind) {
        ResizeKeepsPage(s, events[0].newWidth);
      }
      assert t.page == 0;
      PinnedWithoutSwipes(t, events[1..]);
    }
  }

  /** The shorts slider has the same load-only button test. Five shorts
      cards loaded at 1300 px fit on one page and hide the buttons; at
      700 px they need three pages, yet without touch input (no swipe
      among the events) cards 2 to 4 are never shown while the viewport
      stays 700 px wide. */
  lemma ShortsNarrowedLosesCardsWithoutTouch(events: seq<Event>)
    requires forall j :: 0 <= j < |events| ==> !events[j].SwipeGesture?
    ensures var s := Run(Load(Shorts, 5, 1300), [Resize(700)]);
            && s.navHidden
            && TotalPages(5, PerPage(Shorts, 700)) == 3
            && var t := Run(s, events);
               t.width == 700 ==> !t.shown[2] && !t.shown[3] && !t.shown[4]
  {
    var s0 := Load(Shorts, 5, 1300);
    var s := Run(s0, [Resize(700)]);
    assert s == Step(s0, Resize(700));
    PinnedWithoutSwipes(s, events);
  }

  /** `k` leftward swipes, each travelling 100 px. */
  function LeftSwipes(k: nat): (es: seq<Event>)
    ensures |es| == k
    ensures forall j :: 0 <= j < k ==> es[j] == SwipeGesture(100, 0)
  {
    if k == 0 then [] else [SwipeGesture(100, 0)] + LeftSwipes(k - 1)
  }

  /** On a slider with swipe support and cards, `k` leftward swipes move
      it as `k` presses of the pager's next, whether or not its buttons
      are on screen. */
  lemma {:induction false} SwipesAdvance(s: Slider, k: nat)
    requires Consistent(s) && s.count > 0 && HasSwipe(s.kind)
    ensures Run(s, LeftSwipes(k)).kind == s.kind
    ensures Run(s, LeftSwipes(k)).width == s.width
    ensures Run(s, LeftSwipes(k)).page == NextTimes(PagerState(s.count, PerPage(s.kind, s.width), s.page), k).page
    decreases k
  {
    if k > 0 {
      var p := PagerState(s.count, PerPage(s.kind, s.width), s.page);
      SwipeActsLikeClick(s, 100, 0);
      var s1 := Step(s, SwipeGesture(100, 0));
      assert LeftSwipes(k)[0] == SwipeGesture(100, 0) && LeftSwipes(k)[1..] == LeftSwipes(k - 1);
      assert Run(s, LeftSwipes(k)) == Run(s1, LeftSwipes(k - 1));
      assert s1 == Turn(s, true);
      assert PagerState(s1.count, PerPage(s1.kind, s1.width), s1.page) == Next(p);
      SwipesAdvance(s1, k - 1);
      NextTimesShift(p, k - 1);
    }
  }

  /** `k` leftward swipes through to the card's page `q` show the card. */
  lemma SwipedToCard(s: Slider, i: nat, q: int, k: nat)
    requires Consistent(s) && s.count > 0 && HasSwipe(s.kind) && i < s.count
    requires q == i / PerPage(s.kind, s.width) && q < TotalPages(s.count, PerPage(s.kind, s.width))
    requires k == q + TotalPages(s.count, PerPage(s.kind, s.width)) - s.page
    ensures Run(s, LeftSwipes(k)).shown[i]
  {
    var p := PagerState(s.count, PerPage(s.kind, s.width), s.page);
    WrapsToPage(p, q, k);
    SwipesAdvance(s, k);
    ShownOnItsPage(Run(s, LeftSwipes(k)), i);
  }

  /** On a touch screen, the code as written still reaches every card of
      the vision, sermon and shorts sliders, buttons hidden or not: the
      returned number of leftward swipes shows card `i`. */
  function SwipesToCard(s: Slider, i: nat): (k: nat)
    requires Consistent(s) && s.count > 0 && HasSwipe(s.kind) && i < s.count
    ensures Run(s, LeftSwipes(k)).shown[i]
  {
    var pp := PerPage(s.kind, s.width);
    CardOnOnePage(s.count, pp, i);
    var k: nat := i / pp + TotalPages(s.count, pp) - s.page;
    SwipedToCard(s, i, i / pp, k);
    k
  }
}
