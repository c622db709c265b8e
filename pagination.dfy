/** Paging through the working collection: the visible slice, the pagination
    controls, and how a click on a control moves the current page. */
module Pagination {
  import opened Wrappers
  import opened Clients

  const ITEMS_PER_PAGE: nat := 10

  function Min(a: int, b: int): int {
    if a <= b then a else b
  }

  function Max(a: int, b: int): int {
    if a >= b then a else b
  }

  /** `Array.prototype.slice(start, end)`: negative bounds count from the end, bounds
      beyond the length are clipped, and crossed bounds give nothing. */
  function JsSlice(s: seq<Client>, start: int, end: int): (r: seq<Client>)
    ensures |r| <= |s|
  {
    var n := |s|;
    var from := if start < 0 then Max(n + start, 0) else Min(start, n);
    var to := if end < 0 then Max(n + end, 0) else Min(end, n);
    if from < to then s[from..to] else []
  }

  /** The records `updateTable` shows on page `page`. */
  function PageItems(s: seq<Client>, page: int): (r: seq<Client>)
    ensures page >= 1 ==>
              var start := (page - 1) * ITEMS_PER_PAGE;
              && |r| == Min(ITEMS_PER_PAGE, Max(0, |s| - start))
              && (forall i :: 0 <= i < |r| ==> r[i] == s[start + i])
              && (r == [] <==> start >= |s|)
    ensures page == 0 ==> r == []
    ensures page < 0 ==>
              // a negative start counts back from the end: page -1 is the ten records
              // ending ten before the last
              var from := Max(|s| + (page - 1) * ITEMS_PER_PAGE, 0);
              var to := Max(|s| + page * ITEMS_PER_PAGE, 0);
              r == s[from..to]
  {
    var start := (page - 1) * ITEMS_PER_PAGE;
    JsSlice(s, start, start + ITEMS_PER_PAGE)
  }

  /** `Math.ceil(totalItems / itemsPerPage)`: the fewest pages that hold every record. */
  function TotalPages(totalItems: nat): (r: nat)
    ensures r * ITEMS_PER_PAGE >= totalItems
    ensures r == 0 || (r - 1) * ITEMS_PER_PAGE < totalItems
  {
    (totalItems + ITEMS_PER_PAGE - 1) / ITEMS_PER_PAGE
  }

  /** Pages 1 to k, one after the other. */
  function PagesUpTo(s: seq<Client>, k: nat): seq<Client>
    decreases k
  {
    if k == 0 then [] else PagesUpTo(s, k - 1) + PageItems(s, k)
  }

  lemma {:induction false} PagesUpToPrefix(s: seq<Client>, k: nat)
    ensures PagesUpTo(s, k) == s[..Min(k * ITEMS_PER_PAGE, |s|)]
    decreases k
  {
    if k > 0 {
      PagesUpToPrefix(s, k - 1);
      var lo := Min((k - 1) * ITEMS_PER_PAGE, |s|);
      var hi := Min(k * ITEMS_PER_PAGE, |s|);
      var page := PageItems(s, k);
      assert page == s[lo..hi];
      assert s[..lo] + s[lo..hi] == s[..hi];
    }
  }

  /** Every record is shown on exactly one page: the pages in order make up the collection. */
  lemma PagesCover(s: seq<Client>)
    ensures PagesUpTo(s, TotalPages(|s|)) == s
  {
    PagesUpToPrefix(s, TotalPages(|s|));
  }

  // ---------------------------------------------------------------------------
  // Pagination controls

  /** One `<li>` of the pagination bar. */
  datatype Control = Prev | PageLink(number: int, active: bool) | Next

  /** The numbered links 1..k, the one equal to the current page marked active. */
  function PageLinks(k: nat, currentPage: int): (r: seq<Control>)
    ensures |r| == k
  {
    seq(k, i requires 0 <= i < k => PageLink(i + 1, i + 1 == currentPage))
  }

  /** What `renderPagination` draws. */
  function Controls(totalItems: nat, currentPage: int): seq<Control> {
    var totalPages := TotalPages(totalItems);
    (if currentPage > 1 then [Prev] else []) +
    PageLinks(totalPages, currentPage) +
    (if currentPage < totalPages then [Next] else [])
  }

  /** `renderPagination`: appends the controls one by one. */
  method RenderPagination(totalItems: nat, currentPage: int) returns (controls: seq<Control>)
    ensures controls == Controls(totalItems, currentPage)
  {
    var totalPages := TotalPages(totalItems);
    controls := [];
    if currentPage > 1 {
      controls := controls + [Prev];
    }
    ghost var head := controls;
    var i := 1;
    while i <= totalPages
      invariant 1 <= i <= totalPages + 1
      invariant controls == head + PageLinks(i - 1, currentPage)
    {
      assert PageLinks(i, currentPage) == PageLinks(i - 1, currentPage) + [PageLink(i, i == currentPage)];
      controls := controls + [PageLink(i, i == currentPage)];
      i := i + 1;
    }
    if currentPage < totalPages {
      controls := controls + [Next];
    }
  }

  /** The page numbers of the numbered links, in order. */
  function PageNumbers(cs: seq<Control>): seq<int>
    decreases |cs|
  {
    if |cs| == 0 then []
    else (if cs[0].PageLink? then [cs[0].number] else []) + PageNumbers(cs[1..])
  }

  lemma {:induction false} PageNumbersAppend(a: seq<Control>, b: seq<Control>)
    ensures PageNumbers(a + b) == PageNumbers(a) + PageNumbers(b)
    decreases |a|
  {
    if |a| == 0 {
      assert a + b == b;
    } else {
      var ab := a + b;
      assert ab[1..] == a[1..] + b;
      PageNumbersAppend(a[1..], b);
      var h := if a[0].PageLink? then [a[0].number] else [];
      calc {
        PageNumbers(ab);
        h + PageNumbers(a[1..] + b);
        h + (PageNumbers(a[1..]) + PageNumbers(b));
        (h + PageNumbers(a[1..])) + PageNumbers(b);
      }
    }
  }

  lemma {:induction false} PageLinksNumbers(k: nat, currentPage: int)
    ensures PageNumbers(PageLinks(k, currentPage)) == seq(k, i requires 0 <= i < k => i + 1)
    decreases k
  {
    if k > 0 {
      PageLinksNumbers(k - 1, currentPage);
      assert PageLinks(k, currentPage) == PageLinks(k - 1, currentPage) + [PageLink(k, k == currentPage)];
      PageNumbersAppend(PageLinks(k - 1, currentPage), [PageLink(k, k == currentPage)]);
      assert [PageLink(k, k == currentPage)][1..] == [];
    }
  }

  /** The shape of the pagination bar: Previous first exactly when the current page is past
      the first, Next last exactly when it is before the last, and in between the links
      1..totalPages in ascending order, a link active exactly when it is the current page. */
  lemma ControlsShape(totalItems: nat, currentPage: int)
    ensures var r, totalPages := Controls(totalItems, currentPage), TotalPages(totalItems);
            && (Prev in r <==> currentPage > 1)
            && (Next in r <==> currentPage < totalPages)
            && (currentPage > 1 ==> r[0] == Prev)
            && (currentPage < totalPages ==> r[|r| - 1] == Next)
            && PageNumbers(r) == seq(totalPages, i requires 0 <= i < totalPages => i + 1)
            && (forall c :: c in r && c.PageLink? ==> (c.active <==> c.number == currentPage))
            && ((exists c :: c in r && c.PageLink? && c.active) <==> 1 <= currentPage <= totalPages)
  {
    var totalPages := TotalPages(totalItems);
    var pre: seq<Control> := if currentPage > 1 then [Prev] else [];
    var links := PageLinks(totalPages, currentPage);
    var post: seq<Control> := if currentPage < totalPages then [Next] else [];
    var r := Controls(totalItems, currentPage);
    assert r == pre + links + post;
    PageNumbersAppend(pre + links, post);
    PageNumbersAppend(pre, links);
    PageLinksNumbers(totalPages, currentPage);
    assert PageNumbers(pre) == [] && PageNumbers(post) == [];
    if 1 <= currentPage <= totalPages {
      assert links[currentPage - 1] in r;
    }
  }

  /** No records means no numbered links. A page beyond 1, which a search that matches
      nothing leaves in place, still draws a lone Previous, and a negative page a lone Next. */
  lemma NoControlsWhenEmpty(currentPage: int)
    ensures Controls(0, currentPage) ==
              (if currentPage > 1 then [Prev] else []) + (if currentPage < 0 then [Next] else [])
  {
    assert PageLinks(0, currentPage) == [];
  }

  // ---------------------------------------------------------------------------
  // Navigation

  /** A click inside the pagination bar: whether it hit an `<a>`, the `parseInt` of its
      parent's `data-page` (None for NaN), and its parent's id. */
  datatype Click = Click(onAnchor: bool, dataPage: Option<int>, parentId: string)

  /** A number parsed from `data-page` is truthy unless it is NaN or 0. */
  predicate Truthy(page: Option<int>) {
    page.Some? && page.value != 0
  }

  /** The page `handlePagination` moves to. */
  function NextPage(click: Click, currentPage: int): int {
    if !click.onAnchor then currentPage
    else if Truthy(click.dataPage) then click.dataPage.value
    else if click.parentId == "prev-btn" && currentPage > 1 then currentPage - 1
    else if click.parentId == "next-btn" then currentPage + 1
    else currentPage
  }

  /** The four outcomes of a click: a truthy page number is taken as it is, Previous goes
      back one page but never below page 1, Next goes forward one page with no upper
      bound, and anything else leaves the page where it was. */
  lemma NavigationCases(click: Click, currentPage: int)
    ensures var r := NextPage(click, currentPage);
            && (click.onAnchor && Truthy(click.dataPage) ==> r == click.dataPage.value)
            && (click.onAnchor && !Truthy(click.dataPage) && click.parentId == "prev-btn" ==>
                  r == (if currentPage > 1 then currentPage - 1 else currentPage))
            && (currentPage >= 1 && click.onAnchor && !Truthy(click.dataPage) && click.parentId == "prev-btn" ==>
                  r >= 1)
            && (click.onAnchor && !Truthy(click.dataPage) && click.parentId == "next-btn" ==>
                  r == currentPage + 1)
            && ((!click.onAnchor ||
                 (!Truthy(click.dataPage) && click.parentId != "prev-btn" && click.parentId != "next-btn"))
                ==> r == currentPage)
  {
  }

  /** The click on the link inside a control: Previous and Next carry no `data-page`
      attribute, numbered items carry no id. */
  function ClickOn(c: Control): Click {
    match c
    case Prev => Click(true, None, "prev-btn")
    case PageLink(i, _) => Click(true, Some(i), "")
    case Next => Click(true, None, "next-btn")
  }

  /** A click on a drawn control never leaves the range of pages: it lands on page 1 or
      later, and on the last page or earlier unless the current page was already beyond it. */
  lemma NavigationStaysInRange(totalItems: nat, currentPage: int, c: Control)
    requires currentPage >= 1
    requires c in Controls(totalItems, currentPage)
    ensures var r, totalPages := NextPage(ClickOn(c), currentPage), TotalPages(totalItems);
            && 1 <= r
            && (r <= totalPages || r < currentPage)
            && (c.PageLink? ==> r <= totalPages)
  {
    ControlsShape(totalItems, currentPage);
    if c.PageLink? {
      var links := PageLinks(TotalPages(totalItems), currentPage);
      assert c in links;
    }
  }

  /** A numbered link always leads to a page that shows records. */
  lemma PageLinkShowsRecords(s: seq<Client>, currentPage: int, c: Control)
    requires c in Controls(|s|, currentPage) && c.PageLink?
    ensures PageItems(s, NextPage(ClickOn(c), currentPage)) != []
  {
    var links := PageLinks(TotalPages(|s|), currentPage);
    ControlsShape(|s|, currentPage);
    assert c in links;
  }

  /** A current page beyond the last, as a narrowing search leaves it, shows nothing, has
      no Next control and no active link. */
  lemma StrandedPage(s: seq<Client>, currentPage: int)
    requires currentPage > TotalPages(|s|) && currentPage >= 1
    ensures PageItems(s, currentPage) == []
    ensures Next !in Controls(|s|, currentPage)
    ensures forall c :: c in Controls(|s|, currentPage) && c.PageLink? ==> !c.active
  {
    ControlsShape(|s|, currentPage);
  }

  /** Twenty-five records make three pages of 10, 10 and 5; page 1 shows the first ten
      and no previous link, page 3 the last five and no next link. */
  lemma TwentyFiveRecords(s: seq<Client>)
    requires |s| == 25
    ensures TotalPages(|s|) == 3
    ensures PageItems(s, 1) == s[..10] && PageItems(s, 3) == s[20..]
    ensures PageItems(s, -1) == s[5..15]
    ensures Controls(|s|, 1) == [PageLink(1, true), PageLink(2, false), PageLink(3, false), Next]
    ensures Controls(|s|, 3) == [Prev, PageLink(1, false), PageLink(2, false), PageLink(3, true)]
  {
    assert PageLinks(3, 1) == [PageLink(1, true), PageLink(2, false), PageLink(3, false)];
    assert PageLinks(3, 3) == [PageLink(1, false), PageLink(2, false), PageLink(3, true)];
  }
}
