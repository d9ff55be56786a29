/**
 The paging arithmetic the card sliders of the home page share
 (static/js/script.js): a slider holds `count` cards, shows `perPage` of
 them at a time, and remembers the current page. Asking for a page
 normalises it with `(page + totalPages) % totalPages`, and card `i` is
 displayed exactly when `Math.floor(i / perPage)` is the current page.

 Every function here requires a non-empty slider with a positive page
 size: the browser code only renders and attaches its buttons when the
 slider has cards, and a page count of zero would make `%` yield NaN.
 */
module Paging {
  import opened JsArith

  /** One slider's paging state. */
  datatype PagerState = PagerState(count: nat, perPage: nat, page: int) {

    /** The slider has cards and a page size, so its arithmetic is defined. */
    predicate Active() {
      count > 0 && perPage > 0
    }

    /** The current page is one of the pages that exist. */
    predicate Valid() {
      Active() && 0 <= page < TotalPages(count, perPage)
    }
  }

  /** `Math.ceil(count / perPage)`: the number of pages. It is zero exactly
      for an empty slider; otherwise the pages cover every card, and
      the last page holds at least one. */
  function TotalPages(count: nat, perPage: nat): (t: nat)
    requires perPage > 0
    ensures t == 0 <==> count == 0
    ensures count <= t * perPage
    ensures count > 0 ==> (t - 1) * perPage < count
  {
    CeilDiv(count, perPage)
  }

  /** The page a request lands on: `(page + totalPages) % totalPages`
      with JavaScript's `%`. A request no lower than `-totalPages` (every
      request the sliders make is the current page or one either side of
      it) lands in range, an in-range page is left alone, and the result
      always differs from the request by whole turns of the carousel. */
  function Normalise(count: nat, perPage: nat, page: int): (r: int)
    requires count > 0 && perPage > 0
    ensures page + TotalPages(count, perPage) >= 0 ==> 0 <= r < TotalPages(count, perPage)
    ensures 0 <= page < TotalPages(count, perPage) ==> r == page
    ensures (r - page) % TotalPages(count, perPage) == 0
  {
    var t := TotalPages(count, perPage);
    var r := JsRem(page + t, t);
    assert (r - page) % t == 0 by {
      ShiftResidue(page + t - r, t);
    }
    assert 0 <= page < t ==> r == page by {
      if 0 <= page < t {
        SameResidue(r, page, t);
      }
    }
    r
  }

  /** Requests that differ by whole turns land on the same page, as long
      as both are no lower than `-totalPages` (below that JavaScript's `%`
      leaves a negative remainder). */
  lemma NormaliseWraps(count: nat, perPage: nat, page: int, k: int)
    requires count > 0 && perPage > 0
    requires page + TotalPages(count, perPage) >= 0
    requires page + k * TotalPages(count, perPage) + TotalPages(count, perPage) >= 0
    ensures Normalise(count, perPage, page + k * TotalPages(count, perPage)) == Normalise(count, perPage, page)
  {
    var t := TotalPages(count, perPage);
    var r1 := Normalise(count, perPage, page);
    var r2 := Normalise(count, perPage, page + k * t);
    assert (page + k * t) - page == k * t;
    MultipleMod(k, t);
    CongruentTrans(r2, page + k * t, page, t);
    CongruentSym(r1, page, t);
    CongruentTrans(r2, page, r1, t);
    SameResidue(r2, r1, t);
  }

  /** Moving a multiple of `t` by one turn keeps it a multiple. */
  lemma ShiftResidue(x: int, t: int)
    requires t > 0 && x % t == 0
    ensures (-(x - t)) % t == 0
  {
    var q := x / t;
    assert x == q * t;
    assert -(x - t) == (1 - q) * t;
    MultipleMod(1 - q, t);
  }

  /** `showSermonPage(page)` / `showShortsPage(page)` / `showQtyPage(page)`:
      record the normalised page; the card count and page size stay. */
  function GoTo(s: PagerState, page: int): (t: PagerState)
    requires s.Active()
    ensures t.count == s.count && t.perPage == s.perPage
    ensures page + TotalPages(s.count, s.perPage) >= 0 ==> t.Valid()
    ensures (t.page - page) % TotalPages(s.count, s.perPage) == 0
  {
    s.(page := Normalise(s.count, s.perPage, page))
  }

  /** The "next" button or a left swipe: `show…Page(page + 1)`. From the
      last page it wraps to the first; otherwise it moves forward one. */
  function Next(s: PagerState): (t: PagerState)
    requires s.Valid()
    ensures t.Valid() && t.count == s.count && t.perPage == s.perPage
    ensures t.page == if s.page == TotalPages(s.count, s.perPage) - 1 then 0 else s.page + 1
  {
    var n := TotalPages(s.count, s.perPage);
    var r := Normalise(s.count, s.perPage, s.page + 1);
    assert s.page == n - 1 ==> r == 0 by {
      if s.page == n - 1 {
        MultipleMod(1, n);
        CongruentTrans(r, n, 0, n);
        SameResidue(r, 0, n);
      }
    }
    s.(page := r)
  }

  /** The "previous" button or a right swipe: `show…Page(page - 1)`.
      From the first page it wraps to the last; otherwise it moves back one. */
  function Prev(s: PagerState): (t: PagerState)
    requires s.Valid()
    ensures t.Valid() && t.count == s.count && t.perPage == s.perPage
    ensures t.page == if s.page == 0 then TotalPages(s.count, s.perPage) - 1 else s.page - 1
  {
    var n := TotalPages(s.count, s.perPage);
    var r := Normalise(s.count, s.perPage, s.page - 1);
    assert s.page == 0 ==> r == n - 1 by {
      if s.page == 0 {
        MultipleMod(-1, n);
        CongruentTrans(r, -1, n - 1, n);
        SameResidue(r, n - 1, n);
      }
    }
    s.(page := r)
  }

  /** Next and Prev undo each other. */
  lemma NextPrevInverse(s: PagerState)
    requires s.Valid()
    ensures Prev(Next(s)) == s
    ensures Next(Prev(s)) == s
  {
  }

  /** The state after `k` presses of "next". */
  function NextTimes(s: PagerState, k: nat): (t: PagerState)
    requires s.Valid()
    ensures t.Valid() && t.count == s.count && t.perPage == s.perPage
  {
    if k == 0 then s else Next(NextTimes(s, k - 1))
  }

  /** Pressing "next" once and then `k` times is pressing it `k + 1`
      times. */
  lemma {:induction false} NextTimesShift(s: PagerState, k: nat)
    requires s.Valid()
    ensures NextTimes(Next(s), k) == NextTimes(s, k + 1)
    decreases k
  {
    if k > 0 {
      NextTimesShift(s, k - 1);
    }
  }

  /** Pressing "next" `k` times advances the page by `k` modulo the page
      count, so `totalPages` presses bring the slider back where it was. */
  lemma {:induction false} NextTimesWraps(s: PagerState, k: nat)
    requires s.Valid()
    ensures NextTimes(s, k).page == (s.page + k) % TotalPages(s.count, s.perPage)
  {
    var n := TotalPages(s.count, s.perPage);
    if k == 0 {
      ModOfBlock(0, n, s.page);
    } else {
      NextTimesWraps(s, k - 1);
      ModSucc(s.page + k - 1, n);
    }
  }

  /** Counting up by one steps the remainder up by one, wrapping at `n`. */
  lemma ModSucc(x: int, n: int)
    requires x >= 0 && n > 0
    ensures (x + 1) % n == if x % n == n - 1 then 0 else x % n + 1
  {
    var q, p := x / n, x % n;
    assert x == q * n + p;
    if p == n - 1 {
      assert x + 1 == (q + 1) * n + 0;
      ModOfBlock(q + 1, n, 0);
    } else {
      assert x + 1 == q * n + (p + 1);
      ModOfBlock(q, n, p + 1);
    }
  }

  /** The remainder of `q * n + r` is `r` when `r` is below `n`. */
  lemma ModOfBlock(q: int, n: int, r: int)
    requires n > 0 && 0 <= r < n
    ensures (q * n + r) % n == r
  {
    var x := q * n + r;
    MultipleMod(q, n);
    assert (x - r) % n == 0;
    var m := x % n;
    assert x == (x / n) * n + m;
    assert (m - r) == x - r - (x / n) * n;
    assert (m - r) % n == 0 by {
      var k := (x - r) / n;
      assert x - r == k * n;
      assert m - r == (k - x / n) * n;
      MultipleMod(k - x / n, n);
    }
    SameResidue(m, r, n);
  }

  /** Card `i` is on the current page: `Math.floor(i / perPage) === page`. */
  predicate Visible(s: PagerState, i: nat)
    requires s.perPage > 0
  {
    i / s.perPage == s.page
  }

  /** The display flag the slider writes on every card after a page change
      (`display: flex/block` for true, `display: none` for false). The
      current page shows one block of `perPage` consecutive cards. */
  function Render(s: PagerState): (shown: seq<bool>)
    requires s.perPage > 0
    ensures |shown| == s.count
    ensures forall i :: 0 <= i < s.count ==>
              (shown[i] <==> s.page * s.perPage <= i < s.page * s.perPage + s.perPage)
  {
    FloorDivBlocks(s.perPage, s.page);
    seq(s.count, i requires 0 <= i < s.count => Visible(s, i))
  }

  /** FloorDivBlock for every index at once. */
  lemma FloorDivBlocks(d: int, q: int)
    requires d > 0
    ensures forall i :: 0 <= i ==> (i / d == q <==> q * d <= i < q * d + d)
  {
    forall i | 0 <= i
      ensures i / d == q <==> q * d <= i < q * d + d
    {
      FloorDivBlock(i, d, q);
    }
  }

  /** The indices a flag sequence marks as shown. */
  function Shown(flags: seq<bool>): set<int> {
    set i | 0 <= i < |flags| && flags[i]
  }

  /** Every card belongs to exactly one page: the page `i / perPage`,
      which exists, displays card `i`, and no other page does. */
  lemma CardOnOnePage(count: nat, perPage: nat, i: nat)
    requires count > 0 && perPage > 0 && i < count
    ensures 0 <= i / perPage < TotalPages(count, perPage)
    ensures Render(PagerState(count, perPage, i / perPage))[i]
    ensures forall q :: Render(PagerState(count, perPage, q))[i] ==> q == i / perPage
  {
    var n := TotalPages(count, perPage);
    var q := i / perPage;
    assert q * perPage <= i;
    if q >= n {
      MulMonotone(n, q, perPage);
    }
  }

  /** The cards the current page shows are the consecutive indices from
      `page * perPage` up to the next page or the end of the slider; there
      is at least one and at most `perPage` of them, and only the last page
      may hold fewer than `perPage`. */
  lemma PageSize(s: PagerState)
    requires s.Valid()
    ensures Shown(Render(s)) == Range(s.page * s.perPage, Min(s.count, s.page * s.perPage + s.perPage))
    ensures 1 <= |Shown(Render(s))| <= s.perPage
    ensures s.page < TotalPages(s.count, s.perPage) - 1 ==> |Shown(Render(s))| == s.perPage
  {
    var n := TotalPages(s.count, s.perPage);
    var lo := s.page * s.perPage;
    var hi := Min(s.count, lo + s.perPage);
    PageBounds(s);
    ShownIsRange(s);
    RangeSize(lo, hi);
  }

  /** The first card of a valid page exists, and every page but the last
      is full. */
  lemma PageBounds(s: PagerState)
    requires s.Valid()
    ensures s.page * s.perPage < s.count
    ensures s.page < TotalPages(s.count, s.perPage) - 1 ==> s.page * s.perPage + s.perPage < s.count
  {
    var n := TotalPages(s.count, s.perPage);
    MulMonotone(s.page, n - 1, s.perPage);
    if s.page < n - 1 {
      MulMonotone(s.page + 1, n - 1, s.perPage);
    }
  }

  /** The flags of a page mark exactly its block of consecutive cards. */
  lemma ShownIsRange(s: PagerState)
    requires s.perPage > 0 && s.page >= 0
    ensures Shown(Render(s)) == Range(s.page * s.perPage, Min(s.count, s.page * s.perPage + s.perPage))
  {
    var lo := s.page * s.perPage;
    var hi := Min(s.count, lo + s.perPage);
    var flags := Render(s);
    forall i
      ensures i in Shown(flags) <==> i in Range(lo, hi)
    {
      InRange(i, lo, hi);
    }
  }

  function Min(a: int, b: int): int {
    if a <= b then a else b
  }

  /** The consecutive integers from `lo` up to but excluding `hi`. */
  function Range(lo: int, hi: int): set<int>
    decreases hi - lo
  {
    if lo >= hi then {} else {lo} + Range(lo + 1, hi)
  }

  /** Range holds exactly the integers between its bounds. */
  lemma {:induction false} InRange(x: int, lo: int, hi: int)
    ensures x in Range(lo, hi) <==> lo <= x < hi
    decreases hi - lo
  {
    if lo < hi {
      InRange(x, lo + 1, hi);
    }
  }

  /** A range has as many members as its width. */
  lemma {:induction false} RangeSize(lo: int, hi: int)
    requires lo <= hi
    ensures |Range(lo, hi)| == hi - lo
    decreases hi - lo
  {
    if lo < hi {
      RangeSize(lo + 1, hi);
      InRange(lo, lo + 1, hi);
    }
  }

  /** Re-render with the current page after the page size changes
      (the resize handler calls `showShortsPage(shortsPage)`). */
  function Repage(s: PagerState, perPage: nat): (t: PagerState)
    requires s.count > 0 && perPage > 0
    ensures t.count == s.count && t.perPage == perPage
  {
    GoTo(s.(perPage := perPage), s.page)
  }

  /** After a page-size change the page is back in range for the new page
      count. A page that still exists is kept (not reset to 0); a page
      beyond the new count wraps round to `page % totalPages`. */
  lemma RepageInRange(s: PagerState, perPage: nat)
    requires s.Valid() && perPage > 0
    ensures Repage(s, perPage).Valid()
    ensures s.page < TotalPages(s.count, perPage) ==> Repage(s, perPage).page == s.page
    ensures Repage(s, perPage).page == s.page % TotalPages(s.count, perPage)
  {
    var n := TotalPages(s.count, perPage);
    var r := Normalise(s.count, perPage, s.page);
    assert Repage(s, perPage).page == r;
    var q := s.page / n;
    assert s.page - s.page % n == q * n;
    MultipleMod(q, n);
    CongruentTrans(r, s.page, s.page % n, n);
    SameResidue(r, s.page % n, n);
  }
}
