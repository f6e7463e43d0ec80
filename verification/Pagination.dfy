/** Page-number pagination over a fixed ordered list of results. */
module Pagination {
  import opened Prelude

  function Min(a: nat, b: nat): nat {
    if a < b then a else b
  }

  /** How many items come before a page. */
  function Skip(page: nat, perPage: nat): nat
    requires page >= 1
  {
    (page - 1) * perPage
  }

  /** At most perPage items, after skipping those of the earlier pages. */
  function Page<T>(items: seq<T>, page: nat, perPage: nat): seq<T>
    requires page >= 1
  {
    var start := Min(Skip(page, perPage), |items|);
    items[start..Min(start + perPage, |items|)]
  }

  /** The `hasNext` flag of the response envelope. */
  predicate HasNext(page: nat, perPage: nat, total: nat) {
    page * perPage < total
  }

  lemma NextSkip(page: nat, perPage: nat)
    requires page >= 1
    ensures Skip(page + 1, perPage) == page * perPage == Skip(page, perPage) + perPage
  {
  }

  /** `hasNext` is right: it holds exactly when the next page has something on it. */
  lemma HasNextIffNextPageNonEmpty<T>(items: seq<T>, page: nat, perPage: nat)
    requires page >= 1 && perPage >= 1
    ensures HasNext(page, perPage, |items|) <==> Page(items, page + 1, perPage) != []
  {
    NextSkip(page, perPage);
  }

  /** Every page but the last is full. */
  lemma PageBeforeNextIsFull<T>(items: seq<T>, page: nat, perPage: nat)
    requires page >= 1 && HasNext(page, perPage, |items|)
    ensures |Page(items, page, perPage)| == perPage
  {
    NextSkip(page, perPage);
  }

  /** A client that starts at `page` and follows the pages while `hasNext` holds. */
  function Walk<T>(items: seq<T>, page: nat, perPage: nat): seq<seq<T>>
    requires page >= 1 && perPage >= 1
    decreases |items| - Skip(page, perPage)
  {
    NextSkip(page, perPage);
    [Page(items, page, perPage)] + if HasNext(page, perPage, |items|) then Walk(items, page + 1, perPage) else []
  }

  function Flatten<T>(pages: seq<seq<T>>): seq<T> {
    if pages == [] then [] else pages[0] + Flatten(pages[1..])
  }

  lemma {:induction false} WalkFrom<T>(items: seq<T>, page: nat, perPage: nat)
    requires page >= 1 && perPage >= 1 && Skip(page, perPage) <= |items|
    ensures Flatten(Walk(items, page, perPage)) == items[Skip(page, perPage)..]
    decreases |items| - Skip(page, perPage)
  {
    NextSkip(page, perPage);
    hide Skip;
    var start, walk := Skip(page, perPage), Walk(items, page, perPage);
    if HasNext(page, perPage, |items|) {
      WalkFrom(items, page + 1, perPage);
      assert walk[1..] == Walk(items, page + 1, perPage);
      assert items[start..] == items[start..start + perPage] + items[start + perPage..];
    } else {
      assert walk == [Page(items, page, perPage)];
      assert Flatten(walk) == walk[0] + [];
    }
  }

  /** The last page of the walk is the first that reaches the end. */
  lemma {:induction false} WalkLength<T>(items: seq<T>, page: nat, perPage: nat)
    requires page >= 1 && perPage >= 1
    ensures var last := page + |Walk(items, page, perPage)| - 1;
      page <= last && !HasNext(last, perPage, |items|) && (last > page ==> HasNext(last - 1, perPage, |items|))
    decreases |items| - Skip(page, perPage)
  {
    NextSkip(page, perPage);
    hide Skip;
    if HasNext(page, perPage, |items|) {
      WalkLength(items, page + 1, perPage);
    }
  }

  /**
   * Following the pages from 1 while `hasNext` holds yields every item exactly once and in order,
   * over max(1, ceil(total / perPage)) pages.
   */
  lemma WalkYieldsEverything<T>(items: seq<T>, perPage: nat)
    requires perPage >= 1
    ensures Flatten(Walk(items, 1, perPage)) == items
    ensures |Walk(items, 1, perPage)| == if items == [] then 1 else (|items| + perPage - 1) / perPage
  {
    WalkFrom(items, 1, perPage);
    WalkLength(items, 1, perPage);
    assert items[0..] == items;
    var n := |Walk(items, 1, perPage)|;
    if items != [] {
      CeilingIs(|items|, perPage, n);
    }
  }

  lemma CeilingIs(total: nat, perPage: nat, n: nat)
    requires total >= 1 && perPage >= 1 && n >= 1
    requires (n - 1) * perPage < total <= n * perPage
    ensures (total + perPage - 1) / perPage == n
  {
    var x := total + perPage - 1;
    assert n * perPage == (n - 1) * perPage + perPage;
    assert n * perPage <= x < n * perPage + perPage;
    QuotientIs(x, perPage, n);
  }
}
