/** The page step of the table: `sortedData.slice(first, last)` with
    `last = currentPage * itemsPerPage` and `first = last - itemsPerPage`,
    the page count `Math.ceil(length / itemsPerPage)`, and the Previous and
    Next buttons. */
module Pagination {
  import opened Records

  function Min(a: int, b: int): int { if a <= b then a else b }

  function Max(a: int, b: int): int { if a <= b then b else a }

  /** How `Array.prototype.slice` turns an argument into a position: a
      negative one counts from the end, and both are clamped to the array. */
  function SlicePosition(k: int, len: nat): (p: nat)
    ensures p <= len
  {
    if k < 0 then Max(len + k, 0) else Min(k, len)
  }

  /** `s.slice(start, end)`. */
  function Slice<T>(s: seq<T>, start: int, end: int): (r: seq<T>)
    ensures |r| <= |s|
    ensures 0 <= start <= end ==> r == s[Min(start, |s|)..Min(end, |s|)]
  {
    var from, to := SlicePosition(start, |s|), SlicePosition(end, |s|);
    if from < to then s[from..to] else []
  }

  /** Two adjacent slices join into one: cutting a list at three positions
      loses and repeats nothing. */
  lemma SliceConcat<T>(s: seq<T>, a: int, b: int, c: int)
    requires 0 <= a <= b <= c
    ensures Slice(s, a, b) + Slice(s, b, c) == Slice(s, a, c)
  {
  }

  /** The rows shown for `page`: at most a page's worth, and for a page
      number of at least 1 the window `[(page-1)*3, page*3)` cut off at the
      end of the list. */
  function PageItems<T>(s: seq<T>, page: int): (r: seq<T>)
    ensures |r| <= ItemsPerPage
    ensures page >= 1 ==>
      r == if (page - 1) * ItemsPerPage < |s| then s[(page - 1) * ItemsPerPage..Min(page * ItemsPerPage, |s|)] else []
  {
    var last := page * ItemsPerPage;
    var first := last - ItemsPerPage;
    Slice(s, first, last)
  }

  /** `Math.ceil(n / itemsPerPage)`: zero for an empty list, otherwise the
      least number of pages that hold `n` rows. */
  function PageCount(n: nat): (r: nat)
    ensures n == 0 <==> r == 0
    ensures n > 0 ==> (r - 1) * ItemsPerPage < n <= r * ItemsPerPage
  {
    if n % ItemsPerPage == 0 then n / ItemsPerPage else n / ItemsPerPage + 1
  }

  /** Pages 1 to `k` shown one after the other. */
  function PagesThrough<T>(s: seq<T>, k: nat): seq<T>
  {
    if k == 0 then [] else PagesThrough(s, k - 1) + PageItems(s, k)
  }

  lemma {:induction false} PagesThroughIsPrefix<T>(s: seq<T>, k: nat)
    ensures PagesThrough(s, k) == s[..Min(k * ItemsPerPage, |s|)]
  {
    if k > 0 {
      PagesThroughIsPrefix(s, k - 1);
      var lo, hi := Min((k - 1) * ItemsPerPage, |s|), Min(k * ItemsPerPage, |s|);
      assert s[..hi] == s[..lo] + s[lo..hi];
    }
  }

  /** Reading pages 1 to `PageCount` in turn gives back the whole list. */
  lemma PagesReassemble<T>(s: seq<T>)
    ensures PagesThrough(s, PageCount(|s|)) == s
  {
    PagesThroughIsPrefix(s, PageCount(|s|));
  }

  /** A page at or after 1 has rows exactly when it is at most the page
      count; past the last page the table is empty. */
  lemma PageNonEmptyIffInRange<T>(s: seq<T>, page: int)
    requires page >= 1
    ensures PageItems(s, page) != [] <==> page <= PageCount(|s|)
  {
  }

  /** Row `i` of the list is row `i % 3` of page `i / 3 + 1`. */
  lemma PageOfRow<T>(s: seq<T>, i: nat)
    requires i < |s|
    ensures 1 <= i / ItemsPerPage + 1 <= PageCount(|s|)
    ensures i % ItemsPerPage < |PageItems(s, i / ItemsPerPage + 1)|
    ensures PageItems(s, i / ItemsPerPage + 1)[i % ItemsPerPage] == s[i]
  {
  }

  /** The Previous button: disabled on page 1, otherwise one page back. */
  function PreviousPage(page: int): (r: int)
    ensures page >= 1 ==> r >= 1
    ensures page > 1 ==> r < page
    ensures page - 1 <= r <= page && (r == page <==> page == 1)
  {
    if page != 1 then page - 1 else page
  }

  /** The Next button: disabled when the page equals the page count,
      otherwise one page on. */
  function NextPage(page: int, total: nat): (r: int)
    ensures page >= 1 ==> r >= 1
    ensures 1 <= page <= total ==> 1 <= r <= total
    ensures page <= r <= page + 1 && (r == page <==> page == total)
  {
    if page != total then page + 1 else page
  }

  /** With nothing to show the page count is 0, so Next stays enabled on
      page 1 and leads to pages past the end, which show no rows. */
  lemma NextOnEmptyListLeavesRange<T>(s: seq<T>, page: int)
    requires s == [] && page >= 1
    ensures NextPage(page, PageCount(|s|)) == page + 1
    ensures PageItems(s, NextPage(page, PageCount(|s|))) == []
  {
  }

  /** The page is not moved back when its only row goes away: if page `p`
      holds just the last row, removing that row leaves `p` past the page
      count, showing nothing. */
  lemma RemovingLastRowEmptiesItsPage<T>(s: seq<T>, page: int)
    requires page >= 1 && |s| == (page - 1) * ItemsPerPage + 1
    ensures PageItems(s, page) == [s[|s| - 1]]
    ensures PageCount(|s| - 1) == page - 1
    ensures PageItems(s[..|s| - 1], page) == []
  {
  }
}
