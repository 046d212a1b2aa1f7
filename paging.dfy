/**
 * Pagination of an ordered post list, as the posts app's `get_page` does it:
 * a paginator with a fixed page size, asked for the page named by the
 * request's `page` query parameter through the paginator's forgiving lookup,
 * which never fails. The paginator keeps its defaults: no orphans, and an
 * empty list still has one (empty) page.
 */
module Paging {
  import opened Constants

  /**
   * The `page` query parameter after the paginator has tried to read it as
   * an integer: absent, not an integer at all, or a whole number.
   */
  datatype PageQuery = Absent | NotAnInteger | Number(n: int)

  /** One page: its items, its 1-based number and how many pages there are. */
  datatype Page<T> = Page(items: seq<T>, number: nat, numPages: nat) {
    predicate HasNext() { number < numPages }
    predicate HasPrevious() { number > 1 }
  }

  /** How many pages a list of `count` items fills; never fewer than one. */
  function NumPages(count: nat, perPage: Positive): (n: nat)
    ensures n >= 1
    ensures (n - 1) * perPage < (if count == 0 then 1 else count) <= n * perPage
  {
    var hits := if count == 0 then 1 else count;
    var n := (hits + perPage - 1) / perPage;
    assert hits + perPage - 1 == n * perPage + (hits + perPage - 1) % perPage;
    n
  }

  /**
   * The page the lookup settles on: the first when the parameter is absent
   * or not an integer, the last when the number is below one or beyond the
   * last page.
   */
  function PageNumber(q: PageQuery, numPages: nat): (n: nat)
    requires numPages >= 1
    ensures 1 <= n <= numPages
    ensures q.Number? && 1 <= q.n <= numPages ==> n == q.n
    ensures !q.Number? ==> n == 1
    ensures q.Number? && (q.n < 1 || q.n > numPages) ==> n == numPages
  {
    match q
    case Absent => 1
    case NotAnInteger => 1
    case Number(k) => if k < 1 || k > numPages then numPages else k
  }

  lemma MulMonotone(a: nat, b: nat, c: nat)
    requires a <= b
    ensures a * c <= b * c
  {
  }

  /** Where page `number` starts in a list of `count` items: inside the list, and a full page before the last. */
  lemma PageStart(count: nat, perPage: Positive, number: nat)
    requires 1 <= number <= NumPages(count, perPage)
    ensures (number - 1) * perPage <= count
    ensures number < NumPages(count, perPage) ==> (number - 1) * perPage + perPage <= count
    ensures number == NumPages(count, perPage) ==> (number - 1) * perPage + perPage >= count
  {
    var numPages := NumPages(count, perPage);
    MulMonotone(number - 1, numPages - 1, perPage);
    if number < numPages {
      MulMonotone(number, numPages - 1, perPage);
    }
    assert (number - 1) * perPage + perPage == number * perPage;
    if number == numPages {
      assert count <= number * perPage;
    }
  }

  /** The index in the whole list of the first item of page `number`. */
  function Offset(number: nat, perPage: Positive): nat
    requires number >= 1
  {
    (number - 1) * perPage
  }

  /** The paginator's page lookup on `list`, with `perPage` items a page. */
  function GetPage<T>(list: seq<T>, q: PageQuery, perPage: Positive): (page: Page<T>)
    ensures page.numPages == NumPages(|list|, perPage)
    ensures page.number == PageNumber(q, page.numPages)
    ensures |page.items| <= perPage
    ensures Offset(page.number, perPage) + |page.items| <= |list|
    ensures page.items == list[Offset(page.number, perPage)..Offset(page.number, perPage) + |page.items|]
    ensures page.number < page.numPages ==> |page.items| == perPage
    ensures page.number == page.numPages ==> Offset(page.number, perPage) + |page.items| == |list|
  {
    var numPages := NumPages(|list|, perPage);
    var number := PageNumber(q, numPages);
    PageStart(|list|, perPage, number);
    var bottom := Offset(number, perPage);
    var top := if bottom + perPage >= |list| then |list| else bottom + perPage;
    Page(list[bottom..top], number, numPages)
  }

  /** Item `i` of a page is item `(number - 1) * perPage + i` of the whole list. */
  lemma PageItemAt<T>(list: seq<T>, q: PageQuery, perPage: Positive, i: nat)
    requires i < |GetPage(list, q, perPage).items|
    ensures (GetPage(list, q, perPage).number - 1) * perPage + i < |list|
    ensures GetPage(list, q, perPage).items[i] == list[(GetPage(list, q, perPage).number - 1) * perPage + i]
  {
    var page := GetPage(list, q, perPage);
    var start := Offset(page.number, perPage);
    assert page.items[i] == list[start..start + |page.items|][i];
  }

  /**
   * A page has a next page exactly when items follow it in the list, and a
   * previous page exactly when items precede it.
   */
  lemma PageNeighbours<T>(list: seq<T>, q: PageQuery, perPage: Positive)
    ensures GetPage(list, q, perPage).HasNext()
        <==> Offset(GetPage(list, q, perPage).number, perPage) + |GetPage(list, q, perPage).items| < |list|
    ensures GetPage(list, q, perPage).HasPrevious() <==> Offset(GetPage(list, q, perPage).number, perPage) > 0
  {
    var page := GetPage(list, q, perPage);
    if page.HasNext() {
      MulMonotone(page.number, page.numPages - 1, perPage);
      assert page.number * perPage == Offset(page.number, perPage) + perPage;
    }
    if page.HasPrevious() {
      MulMonotone(1, page.number - 1, perPage);
    }
  }

  /** Without a `page` parameter the first page is served: the first `perPage` items, or all of them. */
  lemma AbsentIsFirstPage<T>(list: seq<T>, perPage: Positive)
    ensures GetPage(list, Absent, perPage).number == 1
    ensures GetPage(list, Absent, perPage).items == if |list| <= perPage then list else list[..perPage]
  {
    var page := GetPage(list, Absent, perPage);
    if page.number < page.numPages {
      assert |page.items| == perPage;
    } else {
      assert |page.items| == |list|;
    }
  }

  /** With more items than fit on a page, page two holds what page one left over. */
  lemma SecondPageRemainder<T>(list: seq<T>, perPage: Positive)
    requires perPage < |list| <= 2 * perPage
    ensures GetPage(list, Number(2), perPage).number == 2
    ensures GetPage(list, Number(2), perPage).items == list[perPage..]
    ensures |GetPage(list, Number(2), perPage).items| == |list| - perPage
  {
    var n := NumPages(|list|, perPage);
    if n > 2 {
      MulMonotone(2, n - 1, perPage);
    }
    assert n == 2;
  }

  /** The last page of a non-empty list holds the remainder of the division, or a full page when there is none. */
  lemma LastPageSize<T>(list: seq<T>, perPage: Positive)
    requires |list| > 0
    ensures |GetPage(list, Number(NumPages(|list|, perPage)), perPage).items|
         == if |list| % perPage == 0 then perPage else |list| % perPage
  {
    var n := NumPages(|list|, perPage);
    var page := GetPage(list, Number(n), perPage);
    var d := |list| - (n - 1) * perPage;
    assert 0 < d <= perPage;
    assert |page.items| == d;
    assert |list| == (n - 1) * perPage + d;
    if d == perPage {
      assert |list| == n * perPage;
      DivModUnique(|list|, perPage, n, 0);
    } else {
      DivModUnique(|list|, perPage, n - 1, d);
    }
  }

  lemma DivModUnique(a: nat, b: Positive, q: int, r: int)
    requires a == q * b + r && 0 <= r < b
    ensures a % b == r
  {
    var q', r' := a / b, a % b;
    assert a == q' * b + r';
    MulGap(q, q', b);
    MulGap(q', q, b);
  }

  /** Multiplying by a positive number keeps a gap of at least one factor. */
  lemma MulGap(x: int, y: int, b: Positive)
    ensures x < y ==> x * b + b <= y * b
  {
    if x < y {
      MulMonotone(1, y - x, b);
      assert (y - x) * b == y * b - x * b;
    }
  }

  /** A number below one or past the last page is served the last page. */
  lemma OutOfRangeIsLastPage<T>(list: seq<T>, perPage: Positive, n: int)
    requires n < 1 || n > NumPages(|list|, perPage)
    ensures GetPage(list, Number(n), perPage) == GetPage(list, Number(NumPages(|list|, perPage)), perPage)
  {
  }

  /** The items of pages `n`, `n + 1`, ... through the last, one after another. */
  function PagesFrom<T>(list: seq<T>, perPage: Positive, n: nat): seq<T>
    requires 1 <= n <= NumPages(|list|, perPage)
    decreases NumPages(|list|, perPage) - n
  {
    GetPage(list, Number(n), perPage).items
      + if n < NumPages(|list|, perPage) then PagesFrom(list, perPage, n + 1) else []
  }

  /** Pages `n` through the last are exactly the list from page `n`'s first item on. */
  lemma {:induction false} PagesFromSuffix<T>(list: seq<T>, perPage: Positive, n: nat)
    requires 1 <= n <= NumPages(|list|, perPage)
    ensures PagesFrom(list, perPage, n) == list[Offset(n, perPage)..]
    decreases NumPages(|list|, perPage) - n
  {
    var items := GetPage(list, Number(n), perPage).items;
    var start := Offset(n, perPage);
    if n < NumPages(|list|, perPage) {
      PagesFromSuffix(list, perPage, n + 1);
      FullPage(list, perPage, n);
      SliceSplit(list, start, start + perPage);
      assert PagesFrom(list, perPage, n) == items + PagesFrom(list, perPage, n + 1);
    } else {
      assert items == list[start..];
    }
  }

  /** A page before the last is the `perPage` items at its offset, and the next page starts right after. */
  lemma FullPage<T>(list: seq<T>, perPage: Positive, n: nat)
    requires 1 <= n < NumPages(|list|, perPage)
    ensures Offset(n, perPage) + perPage <= |list|
    ensures GetPage(list, Number(n), perPage).items == list[Offset(n, perPage)..Offset(n, perPage) + perPage]
    ensures Offset(n + 1, perPage) == Offset(n, perPage) + perPage
  {
    var page := GetPage(list, Number(n), perPage);
    assert page.number == n;
    assert |page.items| == perPage;
    assert n * perPage == (n - 1) * perPage + perPage;
  }

  lemma SliceSplit<T>(list: seq<T>, i: nat, j: nat)
    requires i <= j <= |list|
    ensures list[i..] == list[i..j] + list[j..]
  {
  }

  /** Read one after another, the pages give back the whole list, in order, each item once. */
  lemma PagesCoverList<T>(list: seq<T>, perPage: Positive)
    ensures PagesFrom(list, perPage, 1) == list
  {
    PagesFromSuffix(list, perPage, 1);
  }
}
