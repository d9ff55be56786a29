# Church website: carousel paging and YouTube ID extraction in Dafny

This project models the two pieces of pure logic in a small church website.

1. **The home-page card sliders** (`static/js/script.js`). There are four: vision, sermon, shorts and QT. The vision slider marks one card `active`. The sermon slider shows two cards per page. The shorts and QT sliders show 2 to 5 cards per page, depending on the viewport width. Each slider keeps a current page. A requested page is normalised with `(page + totalPages) % totalPages`. Card `i` is displayed exactly when `Math.floor(i / perPage)` is the current page. Nav buttons and touch swipes turn the page. A window resize re-renders the responsive sliders.
2. **`extract_youtube_id`** (`main.py`). It tries five unanchored regular expressions in a fixed order and returns the first capture group, or `None`.

Modules:

- `JsArith` (`js_arith.dfy`): JavaScript's truncated `%` and `Math.ceil(n / d)`, written out over unbounded integers. It also holds the residue facts the other modules use.
- `Paging` (`paging.dfy`): the generic pager `PagerState(count, perPage, page)`. It covers page count, normalisation, next/prev, per-card visibility and re-paging after a page-size change.
- `Viewport` (`viewport.dfy`): `getShortsPerPage` as a step function of the width.
- `Swipe` (`swipe.dfy`): `handleSwipe` with its 50 px strict threshold.
- `VisionSlider` (`vision.dfy`): the vision slider's own index updates and `showVisionCard`.
- `Sliders` (`sliders.dfy`): the four sliders as one state machine. A slider is built by `Load`, and `Step` applies events: clicks, swipes and resizes.
- `YouTube` (`youtube.dfy`): the pattern loop, a leftmost-match scanner and the full-pattern search with the optional prefix.

Inputs that come from the browser are plain parameters. These are the viewport width (`window.innerWidth`), the touch start and end `screenX`, and the number of cards in each slider.

## Model

| member | source | states |
|---|---|---|
| JsArith.JsRem | static/js/script.js:164 | JavaScript `%` for a positive divisor. For a non-negative dividend the result is in `[0, b)`. For a negative dividend it is in `(-b, 0]`. It always differs from the dividend by a multiple of `b`. |
| JsArith.CeilDiv | static/js/script.js:163 | `Math.ceil(n / d)` is the least `r` with `r * d >= n`. |
| JsArith.FloorDivBlock | static/js/script.js:167 | For a non-negative index, `Math.floor(i / d) == q` holds iff `q*d <= i < q*d + d`. |
| Paging.TotalPages | static/js/script.js:163 | The page count is 0 iff the slider is empty. The pages cover every card, and the last page holds at least one. |
| Paging.Normalise | static/js/script.js:164 | Any request from `-totalPages` up lands in `[0, totalPages)`. An in-range page is unchanged. The result is always congruent to the request modulo `totalPages`. |
| Paging.NormaliseWraps | static/js/script.js:217 | Requests that differ by whole turns land on the same page, when both are at least `-totalPages`. |
| Paging.GoTo | static/js/script.js:162-165 | `show…Page(page)` keeps the cards and page size. It yields a valid page for every request from `-totalPages` up, congruent to the request. |
| Paging.Next | static/js/script.js:185-189 | Next goes from the last page to page 0 and otherwise moves forward exactly one. The result is a valid page. |
| Paging.Prev | static/js/script.js:179-183 | Prev goes from page 0 to `totalPages-1` and otherwise moves back exactly one. The result is a valid page. |
| Paging.NextPrevInverse | static/js/script.js:179-189 | Next and Prev undo each other on every valid state. |
| Paging.NextTimesWraps | static/js/script.js:238-241 | `k` presses of next give page `(page + k) % totalPages`, so `totalPages` presses return to the start. |
| Paging.NextTimesShift | static/js/script.js:238-241 | One press of next followed by `k` more is the same as `k + 1` presses. |
| Paging.Render | static/js/script.js:166-173 | One display flag per card. A card is shown iff its index is in `[page*perPage, page*perPage + perPage)`. |
| Paging.Visible | static/js/script.js:220-221 | Card `i` is on the current page iff `Math.floor(i / perPage) === page`. It is characterised by `Paging.Render`'s contract and by `JsArith.FloorDivBlock`: card `i` is visible iff it lies in `[page*perPage, page*perPage + perPage)`. |
| Paging.CardOnOnePage | static/js/script.js:219-226 | Every card belongs to exactly one page, `i / perPage`. That page exists, and no other page shows the card. |
| Paging.PageSize | static/js/script.js:269-272 | A valid page shows exactly the consecutive cards from `page*perPage` to the next page or the end. That is between 1 and `perPage` cards, and only the last page may show fewer than `perPage`. |
| Paging.RangeSize | static/js/script.js:166-173 | A block of consecutive card indices has as many cards as its width. |
| Paging.RepageInRange | static/js/script.js:245-247 | After a page-size change, re-rendering with the current page gives a valid page equal to `page % newTotalPages`. A page that still exists is kept and not reset to 0. |
| Paging.Repage | static/js/script.js:245-247 | The resize re-render `showShortsPage(shortsPage)`, also `showQtyPage(qtyPage)` at line 281. It keeps the card count and takes the new page size. `Paging.RepageInRange` characterises its page. |
| Viewport.PerPageFor | static/js/script.js:206-212 | Cards per page are always between 2 and 5. |
| Viewport.PerPageForByTiers | static/js/script.js:206-212 | Cards per page are 2 plus the number of breakpoints (768, 1024, 1200) the width strictly exceeds. So each boundary width belongs to the lower tier. |
| Viewport.PerPageForMonotone | static/js/script.js:206-212 | A wider viewport never gets fewer cards per page. |
| Swipe.HandleSwipe | static/js/script.js:304-314 | Next fires iff the touch travels left more than 50 px. Prev fires iff it travels right more than 50 px. They never both fire. |
| Swipe.SwipeDeadZone | static/js/script.js:304-314 | A travel of at most 50 px either way fires nothing, including exactly 50. A longer travel fires exactly one callback, chosen by its direction. |
| VisionSlider.NextIndex | static/js/script.js:140-145 | `(index + 1) % len` is in range for any index from -1 up. It moves a valid index forward one, wrapping from the last card to the first. |
| VisionSlider.PrevIndex | static/js/script.js:133-138 | `(index - 1 + len) % len` is in range for any index from `1 - len` up. It moves a valid index back one, wrapping from the first card to the last. |
| VisionSlider.ShowCard | static/js/script.js:121-128 | After `showVisionCard(index)`, an in-range index leaves exactly one active card, the one at `index`. Any other index leaves none active. |
| VisionSlider.IsSingleCardPager | static/js/script.js:121-145 | The vision slider is the generic pager with one card per page. Its index updates equal the pager's next/prev, and its active flags equal the pager's display flags. |
| Sliders.PerPage | static/js/script.js:160 | Each slider's page size is at least 1. The shorts and QT sliders use the viewport step function. |
| Sliders.HasSwipe | static/js/script.js:317-339 | Swipe support is attached to the vision, sermon and shorts sliders only. `Sliders.Step` reacts to a swipe only on these, and `Sliders.QtPinnedWhenNavHidden` relies on QT having none. |
| Sliders.ReactsToResize | static/js/script.js:244-247 | Only the shorts and QT sliders, here and at line 281, re-render on `resize`. `Sliders.Step` re-pages only these, and `Sliders.ResizeKeepsPage` states the result. |
| Sliders.HidesNavAtLoad | static/js/script.js:147-151 | The load-time hiding tests are: vision `=== 1` here, sermon `<= 2` at lines 191-195, shorts and QT `<= cardsPerPage` at lines 249-254 and 283-287. All sit inside the `length > 0` guard. `Sliders.HidesNavIffOnePage` proves each test equivalent to "has cards, all on one page". |
| Sliders.HidesNavIffOnePage | static/js/script.js:249-254 | Each slider has its own load-time hiding test (vision: one card, sermon: at most two, shorts/QT: no more than a page). Each test holds iff the slider has cards and they fit on one page. |
| Sliders.Load | static/js/script.js:229-255 | After load, a slider with cards is on page 0 with its flags consistent. Its buttons are hidden iff it has cards and exactly one page. An empty slider shows nothing and keeps its buttons. |
| Sliders.Turn | static/js/script.js:179-189 | A page turn changes only the page and the card flags. It lands on the pager's next/prev page and keeps the flags consistent. |
| Sliders.Step | static/js/script.js:133-339 | The handlers of all four sliders: vision clicks (lines 133-145), sermon clicks (179-189), shorts clicks and resize (232-247), QT clicks and resize (278-281) and the swipes (317-339). Every event keeps a slider consistent: a valid page whose cards are exactly the ones flagged. Cards, kind and button visibility never change, and only a resize changes the width. |
| Sliders.ClickTurnsOnePage | static/js/script.js:278-279 | A click on a visible button turns exactly one page, wrapping at either end. |
| Sliders.SwipeActsLikeClick | static/js/script.js:317-339 | On a slider with swipe support, a swipe longer than 50 px acts as next (leftward) or prev (rightward). A shorter one changes nothing. |
| Sliders.ResizeKeepsPage | static/js/script.js:281 | A resize of a responsive slider re-renders at `page % newTotalPages`. That page is in range, and an existing page is kept. |
| Sliders.Run | static/js/script.js:113-340 | Any sequence of events keeps a slider consistent. Cards, kind and button visibility do not change. |
| Sliders.ConsistentShowsOnePage | static/js/script.js:219-226 | A consistent slider with cards displays one whole page: a run of consecutive cards, between 1 and a page size of them. |
| Sliders.AfterLoad | static/js/script.js:229-255 | After load and any events, a slider with cards is on a valid page that shows 1 to `perPage` cards. Its buttons stay hidden iff the cards fitted on one page at the load width. |
| Sliders.QtPinnedWhenNavHidden | static/js/script.js:275-288 | A QT grid whose buttons were hidden at load stays on page 0 after every event sequence, because it has no swipe support. |
| Sliders.QtNarrowedLosesCards | static/js/script.js:281-287 | Load four QT cards at 1300 px and resize to 700 px. The buttons stay hidden and there are two pages, yet cards 2 and 3 are never shown while the viewport stays 700 px wide. |
| Sliders.StepRecheckingNav | static/js/script.js:281-287 | The corrected resize: it re-runs the QT and shorts button-hiding test at the new width. Otherwise it acts exactly as `Step`. It keeps the slider consistent, and it keeps the buttons hidden iff the cards fit on one page at the current width. |
| Sliders.RunRecheckingNav | static/js/script.js:281-287 | Under the corrected resize, any sequence of events keeps the slider consistent and its buttons in agreement with the current page count. |
| Sliders.PressesAdvance | static/js/script.js:278-279 | While the buttons are on screen, `k` clicks on next move the slider as `k` presses of the pager's next. |
| Sliders.ClicksToCard | static/js/script.js:278-287 | Under the corrected resize, a slider whose buttons agree with its page count shows any chosen card after the returned number of clicks on next. |
| Sliders.EveryCardReachable | static/js/script.js:278-287 | Under the corrected resize, every card of such a slider is shown after some number of clicks on next. |
| Sliders.CardsStayReachable | static/js/script.js:229-287 | Under the corrected resize, after load at any width and any events, every card can still be brought on screen. |
| Sliders.QtNarrowedReachesCards | static/js/script.js:281-287 | The QT instance under the corrected resize: after narrowing to 700 px the buttons reappear, and one click shows cards 2 and 3. |
| Sliders.PinnedWithoutSwipes | static/js/script.js:244-287 | As written, a slider whose buttons are hidden and which is on its first page stays there under any events containing no swipe, resizes included. |
| Sliders.ShortsNarrowedLosesCardsWithoutTouch | static/js/script.js:244-254 | Load five shorts cards at 1300 px and resize to 700 px. The buttons stay hidden and there are three pages, yet without swipes cards 2 to 4 are never shown while the viewport stays 700 px wide. |
| Sliders.SwipesAdvance | static/js/script.js:317-339 | As written, on a slider with swipe support and cards, `k` leftward swipes move it as `k` presses of the pager's next, whether or not its buttons are on screen. |
| Sliders.SwipesToCard | static/js/script.js:295-339 | As written, on a touch screen the returned number of leftward swipes shows any chosen card of the vision, sermon or shorts slider. |
| YouTube.RunLength | main.py:40 | The run of ID characters from an index contains only ID characters and is maximal: it ends at the end of the string or at a non-ID character. |
| YouTube.CaptureAt | main.py:37-41 | `{11}` matches iff the next 11 characters are ID characters and takes exactly those, so a longer run is truncated. `+` matches iff the next character is an ID character and takes the maximal run. The capture is a substring at that index. |
| YouTube.MatchAt | main.py:37-41 | One marker-only pattern tried at one index `m` succeeds iff the marker occurs at `m` and a valid ID follows it: eleven ID characters for `{11}`, at least one for `+`. The ID it returns is exactly the substring right after the marker, eleven characters long for `{11}` and the whole maximal run of ID characters for `+`. |
| YouTube.Search | main.py:44 | `re.search` for marker plus ID returns the leftmost index from the start position where a valid ID follows the marker. None means no such index exists. |
| YouTube.FindFrom | main.py:43-46 | The pattern loop returns the first pattern, in order, that matches anywhere, at its leftmost match. None means no remaining pattern matches anywhere. |
| YouTube.ExtractYoutubeId | main.py:33-47 | The result is None iff none of the five patterns occurs anywhere in the URL. Otherwise it is an ID that wins: no earlier pattern occurs, and it sits at the winning pattern's leftmost match. |
| YouTube.ExtractIffWins | main.py:43-46 | The returned ID is exactly the unique winning ID. Pattern order decides first, even when a later pattern occurs earlier in the URL, and the leftmost match decides within a pattern. |
| YouTube.WinningIdShape | main.py:37-41 | A returned ID immediately follows its marker in the URL and is a non-empty run of `[A-Za-z0-9_-]`. It has exactly 11 characters except from the shorts pattern, where it is the maximal run. |
| YouTube.TryAt | main.py:37-41 | The engine's attempt at one start index succeeds iff some prefix alternative occurs there and is followed by the marker and a valid ID. The body tries the alternatives in the order given, and the search passes `https://www.`, `https://`, `http://www.`, `http://`, `www.` and none, which is backtracking order. The contract needs only existence because `PrefixedMatchIsLeftmost` shows the alternative chosen never changes the capture. |
| YouTube.RegexSearch | main.py:44 | `re.search` on one full pattern, prefix alternatives included: the capture of the leftmost start index where an attempt succeeds. `YouTube.PrefixIrrelevant` characterises it: it returns the ID of the leftmost marker-only match. |
| YouTube.NoMarkerInPrefix | main.py:37-41 | No marker can start inside an occurrence of a prefix alternative, because every marker begins with `y` and no prefix contains it. |
| YouTube.PrefixedMatchIsLeftmost | main.py:37-41 | When the full pattern matches at a start index through some prefix alternative, the leftmost marker-only match from that index captures the same ID. |
| YouTube.AttemptIsLeftmost | main.py:37-41 | When the attempt at a start index succeeds, its capture is that of the leftmost marker-only match from that index. |
| YouTube.NoPrefixNoMatch | main.py:37-41 | The empty prefix is one of the alternatives. So when no alternative matches at a start index, the bare marker does not match there either. |
| YouTube.PrefixIrrelevantFrom | main.py:37-41 | Leftmost search for the full pattern, optional prefix included, captures what leftmost search for the marker alone captures. |
| YouTube.PrefixIrrelevant | main.py:43-46 | For each of the five patterns, the optional `http(s)://` and `www.` prefix never changes the ID returned. |
| YouTube.RegexFindFrom | main.py:43-46 | `extract_youtube_id` as written: the loop over the five full patterns returns the first capture. `YouTube.RegexFindFromAgrees` and `YouTube.RegexExtractIsExtract` characterise it: it returns exactly the ID that `ExtractYoutubeId` specifies. |
| YouTube.RegexFindFromAgrees | main.py:43-46 | The loop over the full regular expressions, prefixes included, returns the same ID as the loop over the marker-only patterns, from any pattern on. |
| YouTube.RegexExtractIsExtract | main.py:33-47 | `extract_youtube_id` as written, each pattern searched with its optional prefix, returns exactly the ID that `ExtractYoutubeId` characterises. |

## Left out

- I/O and DOM effects are left out: class and style writes, event registration, the mobile menu, smooth scroll, scroll-spy, header shadow, fade-in observer, video modal and Escape key. The per-card flag that the sliders write is modelled as a `seq<bool>`.
- `static/js/admin.js` (`editSermon`/`cancelEdit`) only toggles row display. It has no logic to model.
- `main.py` is modelled only through `extract_youtube_id`. The FastAPI routes, templates, sqlite schema and queries, sessions, uploads, `hash_password` and thumbnail URL formatting are left out: they are I/O, framework plumbing or a library call.
- JsArith.JsRem: only positive divisors are modelled. The sliders only divide by a positive page count once they have cards. A zero divisor yields NaN in JavaScript.
- Paging functions require a non-empty slider (`count > 0`). The initial render and the click and resize handlers are all guarded by `length > 0`. The swipe handlers are attached whenever the container exists. On an empty slider they would compute `x % 0` and store NaN as the page. No card can ever show that, so `Sliders.Step` leaves an empty slider unchanged.
- JavaScript numbers are doubles. Widths, indices and counts are modelled as unbounded integers. Touch `screenX` values are also modelled as integers, although browsers may report fractions.
- Nav buttons that are absent from the page are not modelled: every slider is assumed to have both buttons. A click on a hidden button (`display: none`) cannot happen and is modelled as a no-op.
- Character classes are ASCII `[a-zA-Z0-9_-]` over `char`, as in the pattern. Python's regex engine is modelled only as far as these five patterns need: leftmost start, prefix alternatives in backtracking order, and a greedy final `+`.

Three details of the behaviour of `static/js/script.js`:

- The code's swipe test is strict (`end < start - 50`). A displacement of exactly 50 does nothing.
- Nav-button visibility is decided once at load and not recomputed on resize. `Sliders.QtNarrowedLosesCards` shows the consequence for the QT grid, which also has no swipe support. See "## Findings".
- The code normalises with a single `(page + totalPages) % totalPages`, not a double modulo. The result is only guaranteed in range for requests from `-totalPages` up. Every request the code makes is in that range.

## Findings

| source | as written | input that shows it | evidently intended | confidence | as-written member | corrected member |
|---|---|---|---|---|---|---|
| static/js/script.js:281-287 | The QT resize handler re-renders with the current page. The button-hiding test runs only once, at load. | Four QT cards loaded at 1300 px: one page, buttons hidden. Narrow the window to 700 px: two pages, buttons still hidden, and QT has no swipe. | Re-run the hiding test on resize, so the buttons come back once the cards no longer fit on one page and every card stays reachable. | medium; not executed | Sliders.QtNarrowedLosesCards | Sliders.CardsStayReachable |
| static/js/script.js:244-254 | The shorts resize handler re-renders with the current page. The button-hiding test runs only once, at load. | Five shorts cards loaded at 1300 px: one page, buttons hidden. Narrow the window to 700 px: three pages, buttons still hidden. Without touch input there is no swipe, so cards 2 to 4 stay off screen. | Re-run the hiding test on resize, as for QT. | medium; not executed | Sliders.ShortsNarrowedLosesCardsWithoutTouch | Sliders.CardsStayReachable |

`Sliders.QtPinnedWhenNavHidden` states the general as-written case: a QT grid whose buttons were hidden at load stays on page 0 after every event sequence.

The corrected behaviour is `Sliders.StepRecheckingNav` and `Sliders.RunRecheckingNav`. `Sliders.EveryCardReachable` and `Sliders.CardsStayReachable` prove that under it every card can be shown. `Sliders.QtNarrowedReachesCards` replays the same QT instance.

`Sliders.Step` and `Sliders.Run` keep the code's own behaviour.

The shorts slider has the same load-only test, at lines 249-254.
- **With touch input**, its swipe still turns the page. `Sliders.SwipesAdvance` proves that `k` leftward swipes move a slider with swipe support as `k` presses of next. `Sliders.SwipesToCard` gives a number of swipes that shows any chosen card, whether the buttons are hidden or not.
- **Without touch input**, such as a narrowed desktop window, the swipe handlers never fire (lines 295-302 listen only for `touchstart` and `touchend`). The shorts slider is then stranded the same way as QT. `Sliders.PinnedWithoutSwipes` states the general case: a slider whose buttons are hidden stays on its first page under any events without a swipe.
