/** Page-by-page collection of stargazer logins (`fetch_stargazers`).

    The HTTP request and the HTML selection are abstracted into a page oracle:
    for each page number it yields `None` when the response status is not 200
    or the stargazer list container is missing, and otherwise the list items of
    that page in document order, each holding the text of its heading's anchor,
    or `None` when the heading has no anchor. */
module Fetch {
  import opened Wrappers
  import opened Text

  /** The anchor text of one list item, if the item's heading has an anchor. */
  type Item = Option<string>

  /** One page as seen through the network and the HTML parser. */
  type Page = Option<seq<Item>>

  /** The number of pages the tracker requests on every run. */
  const TotalPages: int := 5

  /** The login an item contributes: the stripped anchor text, or nothing. */
  function ItemLogins(item: Item): seq<string>
  {
    match item
    case None => []
    case Some(text) => [Strip(text)]
  }

  /** The logins of one successfully parsed page, in the order the items appear.
      Items without an anchor are skipped; every login is stripped. */
  function PageLogins(items: seq<Item>): (r: seq<string>)
    ensures |r| <= |items|
    ensures forall i :: 0 <= i < |r| ==> IsStripped(r[i])
  {
    if |items| == 0 then [] else ItemLogins(items[0]) + PageLogins(items[1..])
  }

  /** The logins a page response contributes: nothing for a failed page. */
  function ResponseLogins(page: Page): seq<string>
  {
    match page
    case None => []
    case Some(items) => PageLogins(items)
  }

  /** The concatenation of `parts(lo)`, ..., `parts(hi)` in increasing order. */
  function Concat(parts: int -> seq<string>, lo: int, hi: int): seq<string>
    decreases hi - lo
  {
    if hi < lo then [] else Concat(parts, lo, hi - 1) + parts(hi)
  }

  /** The logins of pages `lo..hi` (inclusive), page by page in increasing
      page order and, within a page, in item order. */
  function Gather(pages: int -> Page, lo: int, hi: int): seq<string>
  {
    Concat(p => ResponseLogins(pages(p)), lo, hi)
  }

  /** Page extraction distributes over concatenation of item lists, so logins
      keep their in-page order. */
  lemma {:induction false} PageLoginsAppend(a: seq<Item>, b: seq<Item>)
    ensures PageLogins(a + b) == PageLogins(a) + PageLogins(b)
    decreases |a|
  {
    if |a| == 0 {
      assert a + b == b;
    } else {
      assert (a + b)[1..] == a[1..] + b;
      PageLoginsAppend(a[1..], b);
    }
  }

  /** A login is on a page exactly when some item of that page has an anchor
      whose stripped text is that login. */
  lemma {:induction false} PageLoginsMembership(items: seq<Item>, x: string)
    ensures x in PageLogins(items) <==>
            exists i :: 0 <= i < |items| && items[i].Some? && Strip(items[i].value) == x
    decreases |items|
  {
    if |items| > 0 {
      PageLoginsMembership(items[1..], x);
      if x in PageLogins(items[1..]) {
        var i :| 0 <= i < |items[1..]| && items[1..][i].Some? && Strip(items[1..][i].value) == x;
        assert items[i + 1] == items[1..][i];
      }
      if exists i :: 0 <= i < |items| && items[i].Some? && Strip(items[i].value) == x {
        var i :| 0 <= i < |items| && items[i].Some? && Strip(items[i].value) == x;
        if i > 0 {
          assert items[1..][i - 1] == items[i];
        }
      }
    }
  }

  /** A page logins list is exactly as long as the number of items with an anchor. */
  lemma {:induction false} PageLoginsAllAnchored(items: seq<Item>)
    ensures |PageLogins(items)| == |items| <==> forall i :: 0 <= i < |items| ==> items[i].Some?
    decreases |items|
  {
    if |items| > 0 {
      PageLoginsAllAnchored(items[1..]);
      assert forall i :: 1 <= i < |items| ==> items[i] == items[1..][i - 1];
      if items[0].None? {
        assert |PageLogins(items[1..])| <= |items[1..]|;
      }
    }
  }

  lemma {:induction false} ConcatSplit(parts: int -> seq<string>, lo: int, k: int, hi: int)
    requires lo <= k <= hi
    ensures Concat(parts, lo, hi) == Concat(parts, lo, k - 1) + parts(k) + Concat(parts, k + 1, hi)
    decreases hi - k
  {
    if k < hi {
      ConcatSplit(parts, lo, k, hi - 1);
    }
  }

  /** The pages `lo..hi` split at any page `k`: everything before `k`, then `k`'s
      own logins, then everything after it. */
  lemma GatherSplit(pages: int -> Page, lo: int, k: int, hi: int)
    requires lo <= k <= hi
    ensures Gather(pages, lo, hi) == Gather(pages, lo, k - 1) + ResponseLogins(pages(k)) + Gather(pages, k + 1, hi)
  {
    ConcatSplit(p => ResponseLogins(pages(p)), lo, k, hi);
  }

  /** Collecting one more page appends exactly that page's logins. */
  lemma GatherNext(pages: int -> Page, lo: int, hi: int)
    requires lo <= hi
    ensures Gather(pages, lo, hi) == Gather(pages, lo, hi - 1) + ResponseLogins(pages(hi))
  {
  }

  /** A failed or empty page contributes nothing and does not stop the pages
      after it from contributing. */
  lemma FailedPageSkipped(pages: int -> Page, lo: int, k: int, hi: int)
    requires lo <= k <= hi
    requires pages(k).None? || pages(k) == Some([])
    ensures Gather(pages, lo, hi) == Gather(pages, lo, k - 1) + Gather(pages, k + 1, hi)
  {
    GatherSplit(pages, lo, k, hi);
  }

  lemma {:induction false} ConcatMembership(parts: int -> seq<string>, lo: int, hi: int, x: string)
    ensures x in Concat(parts, lo, hi) <==> exists p :: lo <= p <= hi && x in parts(p)
    decreases hi - lo
  {
    if lo <= hi {
      ConcatMembership(parts, lo, hi - 1, x);
      assert Concat(parts, lo, hi) == Concat(parts, lo, hi - 1) + parts(hi);
      if exists p :: lo <= p <= hi && x in parts(p) {
        var p :| lo <= p <= hi && x in parts(p);
        if p < hi {
          assert x in Concat(parts, lo, hi - 1);
        }
      }
    }
  }

  /** A login is collected from pages `lo..hi` exactly when one of those pages
      contributes it. */
  lemma GatherMembership(pages: int -> Page, lo: int, hi: int, x: string)
    ensures x in Gather(pages, lo, hi) <==> exists p :: lo <= p <= hi && x in ResponseLogins(pages(p))
  {
    var parts := p => ResponseLogins(pages(p));
    assert Gather(pages, lo, hi) == Concat(parts, lo, hi);
    ConcatMembership(parts, lo, hi, x);
    assert forall p :: parts(p) == ResponseLogins(pages(p));
  }

  /** Two oracles that agree on pages `lo..hi` yield the same logins: nothing
      outside the requested range is consulted. */
  lemma {:induction false} GatherOnlyReadsRange(pages: int -> Page, other: int -> Page, lo: int, hi: int)
    requires forall p :: lo <= p <= hi ==> pages(p) == other(p)
    ensures Gather(pages, lo, hi) == Gather(other, lo, hi)
    decreases hi - lo
  {
    if lo <= hi {
      GatherOnlyReadsRange(pages, other, lo, hi - 1);
      GatherNext(pages, lo, hi);
      GatherNext(other, lo, hi);
    }
  }

  /** With the program's page count, a run collects pages 1 to 5 and nothing
      else, in that order. */
  lemma DefaultPages(pages: int -> Page)
    ensures Gather(pages, 1, TotalPages) ==
              ResponseLogins(pages(1)) + ResponseLogins(pages(2)) + ResponseLogins(pages(3)) + ResponseLogins(pages(4)) + ResponseLogins(pages(5))
  {
    var e := p => ResponseLogins(pages(p));
    assert Gather(pages, 1, 0) == [];
    GatherNext(pages, 1, 1);
    assert Gather(pages, 1, 1) == e(1);
    GatherNext(pages, 1, 2);
    assert Gather(pages, 1, 2) == e(1) + e(2);
    GatherNext(pages, 1, 3);
    assert Gather(pages, 1, 3) == e(1) + e(2) + e(3);
    GatherNext(pages, 1, 4);
    assert Gather(pages, 1, 4) == e(1) + e(2) + e(3) + e(4);
    GatherNext(pages, 1, 5);
  }

  /** One more element of a prefix is that element appended. */
  lemma TakeNext<T>(s: seq<T>, j: int)
    requires 0 <= j < |s|
    ensures s[..j + 1] == s[..j] + [s[j]]
  {
  }

  /** Appending one item appends that item's login, if it has one. */
  lemma PageLoginsNext(items: seq<Item>, item: Item)
    ensures PageLogins(items + [item]) == PageLogins(items) + ItemLogins(item)
  {
    PageLoginsAppend(items, [item]);
    assert PageLogins([item]) == ItemLogins(item) + PageLogins([]);
  }

  /** The per-page loop of `fetch_stargazers`: walks the list items in order
      and keeps the stripped anchor text of every item that has an anchor. */
  method ExtractLogins(items: seq<Item>) returns (logins: seq<string>)
    ensures logins == PageLogins(items)
  {
    logins := [];
    var j := 0;
    while j < |items|
      invariant 0 <= j <= |items|
      invariant logins == PageLogins(items[..j])
    {
      TakeNext(items, j);
      PageLoginsNext(items[..j], items[j]);
      if items[j].Some? {
        var login := Strip(items[j].value);
        logins := logins + [login];
      }
      j := j + 1;
    }
    assert items[..|items|] == items;
  }

  /** `fetch_stargazers`: requests pages `1..totalPages` in increasing order,
      whatever each response is, and appends every anchored item's stripped
      text, page by page and item by item. `requested` is the sequence of page
      numbers asked for, recorded by the loop as it goes; that the result
      depends on exactly the responses for pages `1..totalPages` is shown by
      `GatherOnlyReadsRange` (nothing outside the range is consulted) and
      `FailedPageSkipped` (a failed page does not stop later pages). */
  method FetchStargazers(pages: int -> Page, totalPages: int) returns (stargazers: seq<string>, requested: seq<int>)
    ensures |requested| == (if totalPages > 0 then totalPages else 0)
    ensures forall i :: 0 <= i < |requested| ==> requested[i] == i + 1
    ensures stargazers == Gather(pages, 1, totalPages)
  {
    stargazers := [];
    requested := [];
    var page := 1;
    while page <= totalPages
      invariant 1 <= page <= (if totalPages > 0 then totalPages + 1 else 1)
      invariant |requested| == page - 1
      invariant forall i :: 0 <= i < |requested| ==> requested[i] == i + 1
      invariant stargazers == Gather(pages, 1, page - 1)
    {
      GatherNext(pages, 1, page);
      requested := requested + [page];
      var response := pages(page);
      if response.Some? {
        var logins := ExtractLogins(response.value);
        stargazers := stargazers + logins;
      }
      page := page + 1;
    }
  }
}
