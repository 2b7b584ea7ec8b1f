/** Continuation-token pagination, as both `getPaginatedStackResources`
    (timingsCollector/src/generators.js) and `getPaginatedTraceSummaries`
    (timingsCollector/src/timingsCollector.js) perform it: ask for a page, append its items to
    an accumulator, and ask again with the page's NextToken for as long as that token is truthy.

    The remote service is given as the sequence of pages it answers with, in order; the n-th
    request receives `pages[n]`. */
module Paging {
  import opened Common

  datatype Page<T> = Page(items: seq<T>, nextToken: Option<string>)

  /** JavaScript truthiness of a NextToken: `undefined`, `null` and `""` stop the recursion. */
  predicate Truthy(token: Option<string>)
  {
    token.Some? && token.value != ""
  }

  /** The items of each page, page by page. */
  function PageItems<T>(pages: seq<Page<T>>): (r: seq<seq<T>>)
    ensures |r| == |pages|
    ensures forall k :: 0 <= k < |pages| ==> r[k] == pages[k].items
  {
    seq(|pages|, k requires 0 <= k < |pages| => pages[k].items)
  }

  /** Page `k` is the one that ends the listing: every earlier page carried a truthy token
      and page `k` does not. */
  ghost predicate LastPage<T>(pages: seq<Page<T>>, k: nat)
  {
    k < |pages| && !Truthy(pages[k].nextToken) && forall j :: 0 <= j < k ==> Truthy(pages[j].nextToken)
  }

  /** Drains the listing into `acc`. The result is None when the given pages run out while a
      token is still outstanding (the source would keep asking); otherwise it is the accumulator
      followed by the items of every page up to and including the first page without a truthy
      token, in page order. Pages after that one are never requested. */
  function Paginate<T>(pages: seq<Page<T>>, acc: seq<T>): (r: Option<seq<T>>)
    ensures r.Some? <==> exists k :: 0 <= k < |pages| && !Truthy(pages[k].nextToken)
    ensures r.Some? ==> exists k: nat :: LastPage(pages, k) && r.value == acc + Flatten(PageItems(pages[..k + 1]))
    decreases |pages|
  {
    if pages == [] then None
    else
      var acc' := acc + pages[0].items;
      if !Truthy(pages[0].nextToken) then
        assert LastPage(pages, 0);
        assert PageItems(pages[..1]) == [pages[0].items];
        Some(acc')
      else
        var r := Paginate(pages[1..], acc');
        assert r.Some? <==> exists k :: 0 <= k < |pages| && !Truthy(pages[k].nextToken) by {
          if k :| 0 <= k < |pages| && !Truthy(pages[k].nextToken) {
            assert k > 0 && !Truthy(pages[1..][k - 1].nextToken);
          }
        }
        assert r.Some? ==> exists k: nat :: LastPage(pages, k) && r.value == acc + Flatten(PageItems(pages[..k + 1])) by {
          if r.Some? {
            var k: nat :| LastPage(pages[1..], k) && r.value == acc' + Flatten(PageItems(pages[1..][..k + 1]));
            PaginateStep(pages, acc, k);
          }
        }
        r
  }

  /** One step of the recursion: ending at page `k` of the remaining pages is ending at page
      `k + 1` of all of them, with the first page's items moved into the accumulator. */
  lemma PaginateStep<T>(pages: seq<Page<T>>, acc: seq<T>, k: nat)
    requires |pages| > 0 && Truthy(pages[0].nextToken) && LastPage(pages[1..], k)
    ensures LastPage(pages, k + 1)
    ensures (acc + pages[0].items) + Flatten(PageItems(pages[1..][..k + 1])) == acc + Flatten(PageItems(pages[..k + 2]))
  {
    forall j | 0 <= j < k + 1 ensures Truthy(pages[j].nextToken) {
      if j > 0 {
        assert pages[j] == pages[1..][j - 1];
      }
    }
    assert PageItems(pages[..k + 2]) == [pages[0].items] + PageItems(pages[1..][..k + 1]);
    assert ([pages[0].items] + PageItems(pages[1..][..k + 1]))[1..] == PageItems(pages[1..][..k + 1]);
  }

  /** At most one page ends the listing. */
  lemma LastPageUnique<T>(pages: seq<Page<T>>, k1: nat, k2: nat)
    requires LastPage(pages, k1) && LastPage(pages, k2)
    ensures k1 == k2
  {
  }

  /** The accumulator only ever sits in front of what the listing yields: starting from `acc`
      gives `acc` followed by the result of starting from nothing. */
  lemma PaginateAccumulator<T>(pages: seq<Page<T>>, acc: seq<T>)
    ensures Paginate(pages, acc).Some? <==> Paginate(pages, []).Some?
    ensures Paginate(pages, acc).Some? ==> Paginate(pages, acc).value == acc + Paginate(pages, []).value
  {
    var r, r0 := Paginate(pages, acc), Paginate(pages, []);
    assert r.Some? <==> r0.Some?;
    if r.Some? {
      var k1: nat :| LastPage(pages, k1) && r.value == acc + Flatten(PageItems(pages[..k1 + 1]));
      var k2: nat :| LastPage(pages, k2) && r0.value == [] + Flatten(PageItems(pages[..k2 + 1]));
      LastPageUnique(pages, k1, k2);
      assert r0.value == Flatten(PageItems(pages[..k1 + 1]));
    }
  }

  /** The recursion makes exactly as many requests as the listing has pages: one more than the
      number of leading pages with a truthy token. */
  function Requests<T>(pages: seq<Page<T>>): (n: nat)
    ensures n <= |pages|
    ensures forall k: nat :: LastPage(pages, k) ==> n == k + 1
  {
    if pages == [] then 0
    else if !Truthy(pages[0].nextToken) then 1
    else
      var n := Requests(pages[1..]);
      assert forall k: nat :: LastPage(pages, k) ==> 1 + n == k + 1 by {
        forall k: nat | LastPage(pages, k) ensures 1 + n == k + 1 {
          assert k > 0;
          forall j | 0 <= j < k - 1 ensures Truthy(pages[1..][j].nextToken) {
            assert pages[1..][j] == pages[j + 1];
          }
          assert pages[1..][k - 1] == pages[k];
          assert LastPage(pages[1..], k - 1);
        }
      }
      1 + n
  }
}
