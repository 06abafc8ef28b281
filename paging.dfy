/** Django's `Paginator(object_list, per_page)` with its defaults (no orphans, an
    empty first page allowed) and `Paginator.get_page(number)`: the documented
    rule for which page is served and which rows it holds. */
module Paging {

  /** `posts_per_page`, the only numeric setting of the app. */
  const PostsPerPage: nat := 12

  /** The `page` query value, as `get_page` classifies it: absent, present but
      not an integer, or an integer. */
  datatype PageRequest = Absent | NotAnInteger | Number(n: int)

  /** The page object the views hand to the templates. */
  datatype Page<T> = Page(items: seq<T>, number: nat, numPages: nat, count: nat)

  /** Index of the first row of page `number`: `(number - 1) * perPage`, written
      as repeated addition. */
  function PageStart(perPage: nat, number: nat): nat
    requires number >= 1
  {
    if number == 1 then 0 else PageStart(perPage, number - 1) + perPage
  }

  /** The repeated addition is the product `(number - 1) * perPage`. */
  lemma {:induction false} PageStartClosedForm(perPage: nat, number: nat)
    requires number >= 1
    ensures PageStart(perPage, number) == (number - 1) * perPage
  {
    if number > 1 {
      PageStartClosedForm(perPage, number - 1);
    }
  }

  /** `Paginator.num_pages`: the fewest pages that hold `count` rows, and one
      page (empty) when there are none. */
  function NumPages(count: nat, perPage: nat): (n: nat)
    requires perPage > 0
    ensures n >= 1
    ensures count == 0 ==> n == 1
    ensures count <= PageStart(perPage, n) + perPage
    ensures count == 0 || PageStart(perPage, n) < count
    decreases count
  {
    if count <= perPage then 1 else 1 + NumPages(count - perPage, perPage)
  }

  lemma {:induction false} PageStartMonotone(perPage: nat, a: nat, b: nat)
    requires 1 <= a < b
    ensures PageStart(perPage, a) + perPage <= PageStart(perPage, b)
    decreases b
  {
    if a < b - 1 {
      PageStartMonotone(perPage, a, b - 1);
    }
  }

  /** The page `get_page` serves: page 1 for a missing or non-integer number, the
      requested page when it exists, and the last page for any integer outside
      1..num_pages (`EmptyPage`, raised for numbers below 1 as well as above). */
  function PageNumber(count: nat, perPage: nat, req: PageRequest): (n: nat)
    requires perPage > 0
    ensures 1 <= n <= NumPages(count, perPage)
    ensures !req.Number? ==> n == 1
    ensures req.Number? && 1 <= req.n <= NumPages(count, perPage) ==> n == req.n
    ensures req.Number? && !(1 <= req.n <= NumPages(count, perPage)) ==> n == NumPages(count, perPage)
  {
    match req
    case Absent => 1
    case NotAnInteger => 1
    case Number(k) =>
      if k < 1 || k > NumPages(count, perPage) then NumPages(count, perPage) else k
  }

  /** The rows of page `number` (`Paginator.page`): a full page except possibly the
      last, which holds the remainder, and nothing but an empty page for an
      empty list. */
  function PageItems<T>(items: seq<T>, perPage: nat, number: nat): (r: seq<T>)
    requires perPage > 0 && 1 <= number <= NumPages(|items|, perPage)
    ensures PageStart(perPage, number) + |r| <= |items|
    ensures r == items[PageStart(perPage, number)..PageStart(perPage, number) + |r|]
    ensures number < NumPages(|items|, perPage) ==> |r| == perPage
    ensures number == NumPages(|items|, perPage) ==> PageStart(perPage, number) + |r| == |items|
    ensures |items| > 0 ==> |r| > 0
    ensures forall x :: x in r ==> x in items
  {
    var n := NumPages(|items|, perPage);
    var bottom := PageStart(perPage, number);
    assert number < n ==> bottom + perPage <= PageStart(perPage, n) by {
      if number < n { PageStartMonotone(perPage, number, n); }
    }
    var top := if bottom + perPage >= |items| then |items| else bottom + perPage;
    items[bottom..top]
  }

  /** `Paginator(items, perPage).get_page(req)`. */
  function GetPage<T>(items: seq<T>, perPage: nat, req: PageRequest): (p: Page<T>)
    requires perPage > 0
    ensures p.count == |items| && p.numPages == NumPages(|items|, perPage)
    ensures p.number == PageNumber(|items|, perPage, req)
    ensures p.items == PageItems(items, perPage, p.number)
  {
    var number := PageNumber(|items|, perPage, req);
    Page(PageItems(items, perPage, number), number, NumPages(|items|, perPage), |items|)
  }

  /** A missing or malformed page number gives the first `perPage` rows. */
  lemma FirstPageByDefault<T>(items: seq<T>, perPage: nat, req: PageRequest)
    requires perPage > 0 && !req.Number?
    ensures GetPage(items, perPage, req).number == 1
    ensures GetPage(items, perPage, req).items
         == items[..if |items| <= perPage then |items| else perPage]
  {
    var n := NumPages(|items|, perPage);
    if n > 1 {
      PageStartMonotone(perPage, 1, n);
    }
  }

  /** Any integer outside 1..num_pages gives the last page, which holds the rows
      after the last full page. */
  lemma OutOfRangeGivesLastPage<T>(items: seq<T>, perPage: nat, k: int)
    requires perPage > 0
    requires k < 1 || k > NumPages(|items|, perPage)
    ensures GetPage(items, perPage, Number(k)) == GetPage(items, perPage, Number(NumPages(|items|, perPage)))
    ensures GetPage(items, perPage, Number(k)).items
         == items[PageStart(perPage, NumPages(|items|, perPage))..]
  {
  }

  /** With the app's page size, `num_pages` is the ceiling of count / 12 (and 1
      for no rows), and the last page holds count mod 12 rows, or a full 12 when
      the count is a positive multiple of 12. */
  lemma {:induction false} PageCountsAtTwelve(count: nat)
    ensures NumPages(count, PostsPerPage) == if count == 0 then 1 else (count + 11) / 12
    ensures PageStart(PostsPerPage, NumPages(count, PostsPerPage)) == 12 * (NumPages(count, PostsPerPage) - 1)
    ensures count > 0 ==>
              count - PageStart(PostsPerPage, NumPages(count, PostsPerPage))
              == if count % 12 == 0 then 12 else count % 12
  {
    if count > PostsPerPage {
      PageCountsAtTwelve(count - PostsPerPage);
      var n := NumPages(count - PostsPerPage, PostsPerPage);
      assert NumPages(count, PostsPerPage) == n + 1;
      assert PageStart(PostsPerPage, n + 1) == PageStart(PostsPerPage, n) + 12;
    }
  }

  /** Pages `from`..num_pages, one after another. */
  function PagesFrom<T>(items: seq<T>, perPage: nat, from: nat): seq<T>
    requires perPage > 0 && 1 <= from
    decreases NumPages(|items|, perPage) + 1 - from
  {
    if from > NumPages(|items|, perPage) then []
    else PageItems(items, perPage, from) + PagesFrom(items, perPage, from + 1)
  }

  /** A page before the last is the `perPage` rows from its start, and the next
      page starts right after them. */
  lemma FullPageStep<T>(items: seq<T>, perPage: nat, from: nat)
    requires perPage > 0 && 1 <= from < NumPages(|items|, perPage)
    ensures PageStart(perPage, from) + perPage <= |items|
    ensures PageItems(items, perPage, from)
         == items[PageStart(perPage, from)..PageStart(perPage, from) + perPage]
    ensures PageStart(perPage, from + 1) == PageStart(perPage, from) + perPage
  {
    var r := PageItems(items, perPage, from);
    assert |r| == perPage;
  }

  /** The last page is the tail of the list from its start. */
  lemma LastPageTail<T>(items: seq<T>, perPage: nat)
    requires perPage > 0
    ensures var n := NumPages(|items|, perPage);
            PageStart(perPage, n) <= |items| && PageItems(items, perPage, n) == items[PageStart(perPage, n)..]
  {
    var n := NumPages(|items|, perPage);
    var r := PageItems(items, perPage, n);
    assert PageStart(perPage, n) + |r| == |items|;
  }

  /** A suffix of a list is the slice up to any later point followed by the rest. */
  lemma SliceSplit<T>(s: seq<T>, a: nat, b: nat)
    requires a <= b <= |s|
    ensures s[a..] == s[a..b] + s[b..]
  {
    assert forall k :: 0 <= k < |s| - a ==> s[a..][k] == (s[a..b] + s[b..])[k];
  }

  lemma {:induction false} PagesFromSuffix<T>(items: seq<T>, perPage: nat, from: nat)
    requires perPage > 0 && 1 <= from <= NumPages(|items|, perPage)
    ensures PageStart(perPage, from) <= |items|
         && PagesFrom(items, perPage, from) == items[PageStart(perPage, from)..]
    decreases NumPages(|items|, perPage) + 1 - from
  {
    var start := PageStart(perPage, from);
    if from == NumPages(|items|, perPage) {
      LastPageTail(items, perPage);
      assert PagesFrom(items, perPage, from + 1) == [];
    } else {
      FullPageStep(items, perPage, from);
      PagesFromSuffix(items, perPage, from + 1);
      SliceSplit(items, start, start + perPage);
    }
  }

  /** The pages partition the list: read in order they give every row exactly
      once, so no row is skipped or shown twice. */
  lemma PagesPartition<T>(items: seq<T>, perPage: nat)
    requires perPage > 0
    ensures PagesFrom(items, perPage, 1) == items
  {
    PagesFromSuffix(items, perPage, 1);
  }

  /** Thirteen rows at twelve per page: page 1 holds twelve, page 2 the thirteenth,
      and any larger page number serves page 2 again. */
  lemma ThirteenRows<T>(items: seq<T>, k: int)
    requires |items| == 13 && k >= 2
    ensures NumPages(13, PostsPerPage) == 2
    ensures GetPage(items, PostsPerPage, Absent).items == items[..12]
    ensures GetPage(items, PostsPerPage, Number(1)).items == items[..12]
    ensures GetPage(items, PostsPerPage, Number(k)).items == [items[12]]
  {
    assert NumPages(13, PostsPerPage) == 2;
    FirstPageByDefault(items, PostsPerPage, Absent);
  }
}
