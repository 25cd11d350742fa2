/** Page arithmetic shared by the table and the CSV export, and the window of
    numbered buttons the pagination bar shows. */
module Paging {
  import opened Common

  /** `Math.ceil(count / size)`: the fewest pages of `size` items that hold `count` items. */
  function TotalPages(count: nat, size: nat): (t: nat)
    requires size >= 1
    ensures t * size >= count
    ensures t >= 1 ==> (t - 1) * size < count
    ensures t == 0 <==> count == 0
  {
    (count + size - 1) / size
  }

  /** A longer list never has fewer pages. */
  lemma TotalPagesMonotone(c1: nat, c2: nat, size: nat)
    requires size >= 1 && c1 <= c2
    ensures TotalPages(c1, size) <= TotalPages(c2, size)
  {
    var t1, t2 := TotalPages(c1, size), TotalPages(c2, size);
    if t1 > t2 {
      MultiplyMonotone(t2, t1 - 1, size);
    }
  }

  lemma MultiplyMonotone(a: nat, b: nat, size: nat)
    requires a <= b
    ensures a * size <= b * size
  {
  }

  /** Index of the first item of `page`: `(currentPage - 1) * itemsPerPage`. */
  function PageStart(page: nat, size: nat): nat
    requires page >= 1
  {
    (page - 1) * size
  }

  /** Every page up to the page count starts at an existing item. */
  lemma PageStartsInside(page: nat, count: nat, size: nat)
    requires size >= 1 && 1 <= page <= TotalPages(count, size)
    ensures PageStart(page, size) < count
  {
    MultiplyMonotone(page - 1, TotalPages(count, size) - 1, size);
  }

  /** A page number within the page count, or page 1 of an empty list, starts at most at the
      end of the list. */
  lemma PageStartsWithin(page: int, count: nat, size: int)
    ensures size >= 1 && 1 <= page <= Max(1, TotalPages(count, size)) ==> PageStart(page, size) <= count
  {
    if size >= 1 && 1 <= page <= Max(1, TotalPages(count, size)) && count > 0 {
      PageStartsInside(page, count, size);
    }
  }

  /** `items.slice(start, start + size)` for `start = (page - 1) * size`; the slice is
      clipped to the end of the list and empty when it starts past the end. */
  function PageSlice<T>(s: seq<T>, page: nat, size: nat): (r: seq<T>)
    requires page >= 1 && size >= 1
    ensures |r| <= size
    ensures PageStart(page, size) >= |s| ==> r == []
    ensures PageStart(page, size) < |s| ==> |r| == Min(size, |s| - PageStart(page, size))
    ensures forall k :: 0 <= k < |r| ==> r[k] == s[PageStart(page, size) + k]
  {
    var start := PageStart(page, size);
    if start >= |s| then [] else s[start..Min(start + size, |s|)]
  }

  /** Pages `1..n` one after the other. */
  function Pages<T>(s: seq<T>, size: nat, n: nat): seq<T>
    requires size >= 1
  {
    if n == 0 then [] else Pages(s, size, n - 1) + PageSlice(s, n, size)
  }

  /** The first `n` pages are the first `n * size` items (or all of them). */
  lemma {:induction false} PagesArePrefix<T>(s: seq<T>, size: nat, n: nat)
    requires size >= 1
    ensures Pages(s, size, n) == s[..Min(n * size, |s|)]
  {
    if n > 0 {
      PagesArePrefix(s, size, n - 1);
      var start := (n - 1) * size;
      assert start + size == n * size;
      if start < |s| {
        assert s[..start] + s[start..Min(n * size, |s|)] == s[..Min(n * size, |s|)];
      } else {
        MultiplyMonotone(n - 1, n, size);
      }
    }
  }

  /** Paging loses nothing and repeats nothing: pages `1..totalPages` concatenate to the list. */
  lemma PagesCoverList<T>(s: seq<T>, size: nat)
    requires size >= 1
    ensures Pages(s, size, TotalPages(|s|, size)) == s
  {
    PagesArePrefix(s, size, TotalPages(|s|, size));
    assert s[..|s|] == s;
  }

  /** Every item lies on exactly one page: item `i` is item `i % size` of page `i / size + 1`. */
  lemma ItemOnPage<T>(s: seq<T>, size: nat, i: nat)
    requires size >= 1 && i < |s|
    ensures var page := i / size + 1;
      1 <= page <= TotalPages(|s|, size) && PageSlice(s, page, size)[i % size] == s[i]
  {
    var page := i / size + 1;
    assert PageStart(page, size) == i - i % size;
    var t := TotalPages(|s|, size);
    if page > t {
      MultiplyMonotone(t, page - 1, size);
    }
  }

  /** Example: 25 items, 10 per page, make 3 pages; the last holds 5. */
  lemma PagingExample<T>(s: seq<T>)
    requires |s| == 25
    ensures TotalPages(|s|, 10) == 3
    ensures |PageSlice(s, 3, 10)| == 5 && PageSlice(s, 4, 10) == []
  {
  }

  // ---------------------------------------------------------------- window of page buttons

  const MaxPagesToShow: int := 5

  /** `startPage` and `endPage` of the pagination bar: centred on the current page
      where possible, shifted back so that five buttons show near the last page. */
  function Window(current: int, total: int): (w: (int, int))
    ensures 1 <= current <= total ==>
      1 <= w.0 <= current <= w.1 <= total && w.1 - w.0 + 1 == Min(MaxPagesToShow, total)
    ensures 1 + MaxPagesToShow / 2 <= current <= total - MaxPagesToShow / 2 ==>
      w == (current - MaxPagesToShow / 2, current + MaxPagesToShow / 2)
    ensures w.0 == Max(1, Min(current - MaxPagesToShow / 2, total - MaxPagesToShow + 1))
    ensures w.1 == Min(total, w.0 + MaxPagesToShow - 1)
  {
    var start0 := Max(1, current - MaxPagesToShow / 2);
    var end := Min(total, start0 + MaxPagesToShow - 1);
    var start := if end - start0 < MaxPagesToShow - 1 then Max(1, end - MaxPagesToShow + 1) else start0;
    (start, end)
  }

  /** Example: on page 1 of 3 the bar shows 1, 2, 3; on page 9 of 10 it shows 6 to 10. */
  lemma WindowExample()
    ensures Window(1, 3) == (1, 3)
    ensures Window(9, 10) == (6, 10)
    ensures Window(1, 10) == (1, 5)
  {
  }
}
