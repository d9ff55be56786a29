/**
 The vision slider of static/js/script.js: one card at a time, marked
 with the `active` class rather than hidden. Its index updates are
 written out separately in the browser code, `(visionIndex + 1) % len`
 for next and `(visionIndex - 1 + len) % len` for previous; this module
 models them as written and shows that they are the generic pager with
 one card per page.
 */
module VisionSlider {
  import opened JsArith
  import opened Paging

  /** Next button or left swipe: `(index + 1) % len`. Any index from -1
      up lands in range; a valid index moves forward one, wrapping from
      the last card to the first. */
  function NextIndex(index: int, len: nat): (r: int)
    requires len > 0
    ensures index >= -1 ==> 0 <= r < len
    ensures 0 <= index < len ==> r == if index == len - 1 then 0 else index + 1
  {
    JsRem(index + 1, len)
  }

  /** Previous button or right swipe: `(index - 1 + len) % len`. Any
      index from `1 - len` up lands in range; a valid index moves back
      one, wrapping from the first card to the last. */
  function PrevIndex(index: int, len: nat): (r: int)
    requires len > 0
    ensures index - 1 + len >= 0 ==> 0 <= r < len
    ensures 0 <= index < len ==> r == if index == 0 then len - 1 else index - 1
  {
    var r := JsRem(index - 1 + len, len);
    assert 0 <= index < len ==> r == if index == 0 then len - 1 else index - 1 by {
      if 0 <= index < len {
        var k := (index - 1 + len - r) / len;
        assert index - 1 + len - r == k * len;
        if index == 0 {
          assert r - (len - 1) == (-k) * len;
          MultipleMod(-k, len);
          SameResidue(r, len - 1, len);
        } else {
          assert r - (index - 1) == (1 - k) * len;
          MultipleMod(1 - k, len);
          SameResidue(r, index - 1, len);
        }
      }
    }
    r
  }

  /** `showVisionCard(index)`: the `active` flag of each card. For an
      index in range exactly one card is active, the one at `index`; for
      any other index no card is. */
  function ShowCard(len: nat, index: int): (active: seq<bool>)
    ensures |active| == len
    ensures 0 <= index < len ==> active[index]
    ensures forall i, j :: 0 <= i < len && 0 <= j < len && active[i] && active[j] ==> i == j
    ensures !(0 <= index < len) ==> forall i :: 0 <= i < len ==> !active[i]
  {
    seq(len, i requires 0 <= i < len => i == index)
  }

  /** The vision slider is the generic pager with one card per page:
      its index updates are the pager's next and previous, and the active
      card is the one the pager would display. */
  lemma IsSingleCardPager(len: nat, index: int)
    requires 0 <= index < len
    ensures TotalPages(len, 1) == len
    ensures NextIndex(index, len) == Next(PagerState(len, 1, index)).page
    ensures PrevIndex(index, len) == Prev(PagerState(len, 1, index)).page
    ensures ShowCard(len, index) == Render(PagerState(len, 1, index))
  {
    var s := PagerState(len, 1, index);
    var a, b := ShowCard(len, index), Render(s);
    assert forall i :: 0 <= i < len ==> a[i] == b[i];
  }
}
