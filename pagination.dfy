/**
 * `paginate_quetions`: a page number selects the window `[(page-1)*10, page*10)`
 * of the formatted selection, cut with Python's slice semantics.
 */
module Pagination {

  const QUESTIONS_PER_PAGE: nat := 10

  function Min(a: int, b: int): int {
    if a <= b then a else b
  }

  /** How Python normalises one bound of `s[start:end]` for a sequence of length `n`: a negative bound counts from the end, then the bound is clamped to `[0, n]`. */
  function SliceBound(n: nat, i: int): (b: nat)
    ensures b <= n
  {
    if i < 0 then (if i + n < 0 then 0 else i + n)
    else if i > n then n
    else i
  }

  /** Python's `s[start:end]` (step 1): never fails, empty when the bounds cross. */
  function PySlice<T>(s: seq<T>, start: int, end: int): (r: seq<T>)
    ensures |r| <= |s|
    ensures forall x :: x in r ==> x in s
  {
    var lo, hi := SliceBound(|s|, start), SliceBound(|s|, end);
    if lo < hi then s[lo..hi] else []
  }

  /** The page `page` of `items` (`page` as `request.args.get('page', 1, type=int)` delivers it). */
  function Paginate<T>(items: seq<T>, page: int): (r: seq<T>)
    ensures |r| <= QUESTIONS_PER_PAGE
    ensures forall x :: x in r ==> x in items
  {
    var start := (page - 1) * QUESTIONS_PER_PAGE;
    var end := start + QUESTIONS_PER_PAGE;
    PySlice(items, start, end)
  }

  /** Number of pages needed for `n` items: the ceiling of n / 10. */
  function PageCount(n: nat): nat {
    (n + QUESTIONS_PER_PAGE - 1) / QUESTIONS_PER_PAGE
  }

  /** For a positive page the result is exactly the clipped window, and a page past the end is empty rather than an error. */
  lemma PageWindow<T>(items: seq<T>, page: int)
    requires page >= 1
    ensures Min((page - 1) * QUESTIONS_PER_PAGE, |items|) <= Min(page * QUESTIONS_PER_PAGE, |items|)
    ensures Paginate(items, page) ==
            items[Min((page - 1) * QUESTIONS_PER_PAGE, |items|)..Min(page * QUESTIONS_PER_PAGE, |items|)]
    ensures (page - 1) * QUESTIONS_PER_PAGE >= |items| ==> Paginate(items, page) == []
  {
  }

  /** A positive page is non-empty exactly when it is one of the first PageCount(n) pages. */
  lemma PageNonEmptyIff<T>(items: seq<T>, page: int)
    requires page >= 1
    ensures Paginate(items, page) != [] <==> (page - 1) * QUESTIONS_PER_PAGE < |items|
    ensures (page - 1) * QUESTIONS_PER_PAGE < |items| <==> page <= PageCount(|items|)
  {
    PageWindow(items, page);
    var n := |items|;
    var k := PageCount(n);
    assert k * QUESTIONS_PER_PAGE >= n && (n == 0 || (k - 1) * QUESTIONS_PER_PAGE < n);
  }

  /** Page 0 is the slice `[-10:0]`, which is empty whatever the items. */
  lemma PageZeroIsEmpty<T>(items: seq<T>)
    ensures Paginate(items, 0) == []
  {
  }

  /** A negative page counts from the end, as Python slicing does: page -1 of 15 items is the first five. */
  lemma NegativePageCountsFromEnd<T>(items: seq<T>)
    requires |items| == 15
    ensures Paginate(items, -1) == items[..5]
  {
  }

  /** Pages 1..k laid end to end. */
  function PagesUpTo<T>(items: seq<T>, k: nat): seq<T> {
    if k == 0 then [] else PagesUpTo(items, k - 1) + Paginate(items, k)
  }

  /** The first k pages together are the first min(10k, n) items. */
  lemma {:induction false} PagesUpToIsPrefix<T>(items: seq<T>, k: nat)
    ensures Min(k * QUESTIONS_PER_PAGE, |items|) >= 0
    ensures PagesUpTo(items, k) == items[..Min(k * QUESTIONS_PER_PAGE, |items|)]
  {
    if k > 0 {
      PagesUpToIsPrefix(items, k - 1);
      PageWindow(items, k);
      var a, b := Min((k - 1) * QUESTIONS_PER_PAGE, |items|), Min(k * QUESTIONS_PER_PAGE, |items|);
      assert items[..a] + items[a..b] == items[..b];
    }
  }

  /** Concatenating pages 1..PageCount(n) in order rebuilds the whole sequence. */
  lemma AllPagesRebuild<T>(items: seq<T>)
    ensures PagesUpTo(items, PageCount(|items|)) == items
  {
    var n := |items|;
    PagesUpToIsPrefix(items, PageCount(n));
    assert PageCount(n) * QUESTIONS_PER_PAGE >= n;
    assert items[..n] == items;
  }
}
