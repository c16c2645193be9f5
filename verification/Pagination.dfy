/** Cutting a list into pages. */
module Pagination {
  datatype Pagination = Pagination(itemCount: nat, pageIndex: int, perPage: int, pageCount: int)
  datatype Page = Page(index: int, active: bool)

  /** Computed with fractions, which are cut off. */
  function GetPageCount(items: nat, perPage: int): int
    requires perPage >= 1
  {
    ((items as real + perPage as real - 1.0) / perPage as real).Floor
  }

  method NewPagination(items: nat, page: int, perPage: int) returns (p: Pagination)
    requires perPage >= 1
    ensures p.itemCount == items && p.perPage == perPage && p.pageCount == GetPageCount(items, perPage)
    ensures p.pageIndex == if 1 <= page <= p.pageCount then page else if page < 1 || items == 0 then 1 else p.pageCount
    ensures 1 <= p.pageIndex && (items > 0 ==> p.pageIndex <= p.pageCount)
  {
    var pCount := GetPageCount(items, perPage);
    PageCountIsEnough(items, perPage);
    var index := page;
    if page < 1 || items == 0 {
      index := 1;
    } else if page > pCount {
      index := pCount;
    }
    p := Pagination(items, index, perPage, pCount);
  }

  lemma MulAtMost(x: real, y: real, c: real)
    requires c > 0.0 && x <= y
    ensures x * c <= y * c
  {
  }

  lemma MulLess(x: real, y: real, c: real)
    requires c > 0.0 && x < y
    ensures x * c < y * c
  {
  }

  lemma MulAsReal(a: int, b: int)
    ensures (a * b) as real == a as real * b as real
  {
  }

  lemma DivThenMul(a: real, b: real)
    requires b > 0.0
    ensures a / b * b == a
  {
  }

  lemma FloorIsBelow(a: int, b: int)
    requires b >= 1
    ensures (a as real / b as real).Floor * b <= a
  {
    var n := (a as real / b as real).Floor;
    MulAtMost(n as real, a as real / b as real, b as real);
    DivThenMul(a as real, b as real);
    MulAsReal(n, b);
  }

  lemma NextIsAbove(a: int, b: int)
    requires b >= 1
    ensures a < ((a as real / b as real).Floor + 1) * b
  {
    var n := (a as real / b as real).Floor + 1;
    MulLess(a as real / b as real, n as real, b as real);
    DivThenMul(a as real, b as real);
    MulAsReal(n, b);
  }

  /** Just enough pages. */
  lemma PageCountIsEnough(items: nat, perPage: int)
    requires perPage >= 1
    ensures var n := GetPageCount(items, perPage);
      n >= 0 && (n - 1) * perPage < items <= n * perPage
  {
    var n := GetPageCount(items, perPage);
    FloorIsBelow(items + perPage - 1, perPage);
    NextIsAbove(items + perPage - 1, perPage);
    assert (n + 1) * perPage == n * perPage + perPage && (n - 1) * perPage == n * perPage - perPage;
    if n < 0 { MulMonotone(n + 1, 0, perPage); }
  }

  /** The indices of the first item of the page and of the item after its last. */
  function GetSliceNumbers(p: Pagination): (int, int) {
    var end := p.pageIndex * p.perPage;
    ((p.pageIndex - 1) * p.perPage, if p.itemCount < end then p.itemCount else end)
  }

  function Smaller(a: int, b: int): int { if a < b then a else b }

  /** The consecutive pages from one to another. */
  function PageRun(first: int, last: int, current: int): seq<Page> {
    seq(if last < first then 0 else last - first + 1, i => Page(first + i, first + i == current))
  }

  predicate HasIndex(pages: seq<Page>, n: int) {
    exists i :: 0 <= i < |pages| && pages[i].index == n
  }

  lemma PageRunHas(first: int, last: int, current: int, n: int)
    ensures HasIndex(PageRun(first, last, current), n) <==> first <= n <= last
  {
    if first <= n <= last {
      assert PageRun(first, last, current)[n - first].index == n;
    }
  }

  /** The page links: the run of pages within two of the current one, which alone is active. */
  method GetCurrentPages(p: Pagination) returns (pages: seq<Page>)
    requires p.pageIndex >= 1
    ensures pages ==
      PageRun(if p.pageIndex < 3 then 1 else p.pageIndex - 2, Smaller(p.pageCount, p.pageIndex + 2), p.pageIndex)
    ensures forall page | page in pages :: page.active <==> page.index == p.pageIndex
    ensures forall i, j | 0 <= i < j < |pages| :: pages[i].index < pages[j].index
    ensures forall n :: HasIndex(pages, n) <==> 1 <= n <= p.pageCount && p.pageIndex - 2 <= n <= p.pageIndex + 2
  {
    pages := [];
    ghost var first := if p.pageIndex < 3 then 1 else p.pageIndex - 2;
    var i := 1;
    while i <= p.pageCount
      invariant 1 <= i && (i == 1 || i <= p.pageCount + 1)
      invariant pages == PageRun(first, Smaller(i - 1, p.pageIndex + 2), p.pageIndex)
    {
      var newPage := Page(i, false);
      if i == p.pageIndex {
        newPage := newPage.(active := true);
        pages := pages + [newPage];
      } else if i >= p.pageIndex - 2 && i <= p.pageIndex + 2 {
        pages := pages + [newPage];
      }
      i := i + 1;
    }
    forall n ensures HasIndex(pages, n) <==> 1 <= n <= p.pageCount && p.pageIndex - 2 <= n <= p.pageIndex + 2 {
      PageRunHas(first, Smaller(p.pageCount, p.pageIndex + 2), p.pageIndex, n);
    }
  }

  /** The items of one page. */
  function PageOf<T>(s: seq<T>, page: int, perPage: int): seq<T>
    requires perPage >= 1 && 1 <= page <= GetPageCount(|s|, perPage)
  {
    PageCountIsEnough(|s|, perPage);
    SliceIsInside(|s|, page, perPage);
    var (from, to) := GetSliceNumbers(Pagination(|s|, page, perPage, GetPageCount(|s|, perPage)));
    s[from..to]
  }

  lemma SliceIsInside(items: nat, page: int, perPage: int)
    requires perPage >= 1 && 1 <= page <= GetPageCount(items, perPage)
    ensures 0 <= (page - 1) * perPage < items
    ensures page < GetPageCount(items, perPage) ==> page * perPage <= items
  {
    var n := GetPageCount(items, perPage);
    PageCountIsEnough(items, perPage);
    MulMonotone(page - 1, n - 1, perPage);
    if page < n { MulMonotone(page, n - 1, perPage); }
  }

  lemma MulMonotone(a: int, b: int, c: int)
    requires a <= b && c >= 0
    ensures a * c <= b * c && (a >= 0 ==> 0 <= a * c)
  {
  }

  /** The items of pages 1 to n, one page after the other. */
  function PagesUpTo<T>(s: seq<T>, n: int, perPage: int): seq<T>
    requires perPage >= 1 && 0 <= n <= GetPageCount(|s|, perPage)
  {
    if n == 0 then [] else PagesUpTo(s, n - 1, perPage) + PageOf(s, n, perPage)
  }

  lemma {:induction false} PagesAreInOrder<T>(s: seq<T>, n: int, perPage: int)
    requires perPage >= 1 && 0 <= n <= GetPageCount(|s|, perPage)
    ensures n * perPage <= |s| ==> PagesUpTo(s, n, perPage) == s[..n * perPage]
    ensures n == GetPageCount(|s|, perPage) ==> PagesUpTo(s, n, perPage) == s
    decreases n
  {
    PageCountIsEnough(|s|, perPage);
    if n > 0 {
      SliceIsInside(|s|, n, perPage);
      PagesAreInOrder(s, n - 1, perPage);
      assert (n - 1) * perPage <= n * perPage;
    }
  }

  /** Every item is on exactly one page: the pages one after the other are the list. */
  lemma PagesPartition<T>(s: seq<T>, perPage: int)
    requires perPage >= 1
    ensures GetPageCount(|s|, perPage) >= 0 && PagesUpTo(s, GetPageCount(|s|, perPage), perPage) == s
  {
    PageCountIsEnough(|s|, perPage);
    PagesAreInOrder(s, GetPageCount(|s|, perPage), perPage);
  }
}
