/** The listing paginator of the scraper: page 1 of a search is fetched, its job-card links are
    read, and when the page shows pagination buttons the remaining pages up to the last
    advertised page, capped by an optional limit, are fetched in order. The browser fetch is a
    function parameter `load`: `load(p)` is the rendered page `p`, or `None` when loading it
    timed out or failed. */
module Pagination {
  import opened Wrappers
  import Text

  /** A job reference: the relative path a card's title anchor points to. */
  type Link = string

  /** A job card of a listing page: the href of its title anchor, when the card has one. */
  datatype Card = Card(titleHref: Option<Link>)

  /** A rendered listing page: its job cards and the texts of its pagination number buttons,
      both in document order. */
  datatype ListingPage = ListingPage(cards: seq<Card>, pageButtons: seq<string>)

  /** The hrefs of the cards that have a title anchor with an href, in card order. */
  function CardLinks(cards: seq<Card>): seq<Link>
  {
    if |cards| == 0 then []
    else
      var rest := CardLinks(cards[..|cards| - 1]);
      match cards[|cards| - 1].titleHref
      case Some(href) => rest + [href]
      case None => rest
  }

  lemma CardLinksSnoc(cards: seq<Card>, card: Card)
    ensures CardLinks(cards + [card])
      == CardLinks(cards) + (if card.titleHref.Some? then [card.titleHref.value] else [])
  {
    assert (cards + [card])[..|cards|] == cards;
  }

  /** At most one link per card. */
  lemma {:induction false} CardLinksBound(cards: seq<Card>)
    ensures |CardLinks(cards)| <= |cards|
  {
    if |cards| > 0 {
      CardLinksBound(cards[..|cards| - 1]);
    }
  }

  /** A link is returned exactly when some card's title anchor carries it. */
  lemma {:induction false} CardLinksMembers(cards: seq<Card>, link: Link)
    ensures link in CardLinks(cards) <==> exists i :: 0 <= i < |cards| && cards[i].titleHref == Some(link)
  {
    if |cards| > 0 {
      var init := cards[..|cards| - 1];
      CardLinksMembers(init, link);
      assert forall i :: 0 <= i < |init| ==> init[i] == cards[i];
      if exists i :: 0 <= i < |cards| && cards[i].titleHref == Some(link) {
        var i :| 0 <= i < |cards| && cards[i].titleHref == Some(link);
        if i < |init| {
          assert init[i].titleHref == Some(link);
        }
      }
    }
  }

  /** Cards without a titled link are skipped and the others keep their order: the links of
      two runs of cards are the links of each, one after the other. */
  lemma {:induction false} CardLinksAppend(a: seq<Card>, b: seq<Card>)
    ensures CardLinks(a + b) == CardLinks(a) + CardLinks(b)
    decreases |b|
  {
    if |b| == 0 {
      assert a + b == a;
    } else {
      var init := b[..|b| - 1];
      var last := b[|b| - 1];
      assert a + b == (a + init) + [last];
      assert b == init + [last];
      CardLinksSnoc(a + init, last);
      CardLinksSnoc(init, last);
      CardLinksAppend(a, init);
    }
  }

  /** `get_job_link_page(raw_page)`: nothing for a missing page, otherwise the titled links of
      its cards, gathered card by card. */
  method GetJobLinkPage(rawPage: Option<ListingPage>) returns (links: seq<Link>)
    ensures rawPage.None? ==> links == []
    ensures rawPage.Some? ==> links == CardLinks(rawPage.value.cards)
  {
    if rawPage.None? {
      return [];
    }
    var jobs := rawPage.value.cards;
    links := [];
    var i := 0;
    while i < |jobs|
      invariant 0 <= i <= |jobs|
      invariant links == CardLinks(jobs[..i])
    {
      var jobLink := jobs[i].titleHref;
      CardLinksSnoc(jobs[..i], jobs[i]);
      assert jobs[..i + 1] == jobs[..i] + [jobs[i]];
      if jobLink.Some? {
        links := links + [jobLink.value];
      }
      i := i + 1;
    }
    assert jobs[..i] == jobs;
  }

  /** The links `get_job_link_page` reads from a fetch result. */
  function PageLinks(page: Option<ListingPage>): seq<Link>
  {
    if page.None? then [] else CardLinks(page.value.cards)
  }

  /** `max_page_num`: the limit when one is given and it is below the last advertised page,
      otherwise the last advertised page. It is the smaller of the two. */
  function PageCap(lastPage: int, limit: Option<int>): (cap: int)
    ensures cap <= lastPage
    ensures limit.Some? ==> cap <= limit.value
    ensures cap == lastPage || (limit.Some? && cap == limit.value)
  {
    if limit.Some? && limit.value < lastPage then limit.value else lastPage
  }

  /** The numbers `from, from + 1, ..., to` (empty when `to < from`), as `range(from, to + 1)`. */
  function PageNumbers(from: int, to: int): (r: seq<int>)
    ensures |r| == if to < from then 0 else to - from + 1
    ensures forall k :: 0 <= k < |r| ==> r[k] == from + k
    decreases if to < from then 0 else to - from + 1
  {
    if to < from then [] else PageNumbers(from, to - 1) + [to]
  }

  /** The links of pages `from..to`, page by page, a failed page adding nothing. */
  function LinksFromPages(load: int -> Option<ListingPage>, from: int, to: int): seq<Link>
    decreases if to < from then 0 else to - from + 1
  {
    if to < from then [] else LinksFromPages(load, from, to - 1) + PageLinks(load(to))
  }

  /** The pages of a run can be taken in two consecutive parts. */
  lemma {:induction false} LinksFromPagesSplit(load: int -> Option<ListingPage>, from: int, mid: int, to: int)
    requires from - 1 <= mid <= to
    ensures LinksFromPages(load, from, to) == LinksFromPages(load, from, mid) + LinksFromPages(load, mid + 1, to)
    decreases if mid < to then to - mid else 0
  {
    if mid < to {
      LinksFromPagesSplit(load, from, mid, to - 1);
      assert LinksFromPages(load, mid + 1, to) == LinksFromPages(load, mid + 1, to - 1) + PageLinks(load(to));
    } else {
      assert LinksFromPages(load, mid + 1, to) == [];
    }
  }

  /** A page that fails to load is skipped and the pages around it still count. */
  lemma FailedPageSkipped(load: int -> Option<ListingPage>, from: int, k: int, to: int)
    requires from <= k <= to && load(k).None?
    ensures LinksFromPages(load, from, to) == LinksFromPages(load, from, k - 1) + LinksFromPages(load, k + 1, to)
  {
    var left := LinksFromPages(load, from, k - 1);
    var right := LinksFromPages(load, k + 1, to);
    LinksFromPagesSplit(load, from, k, to);
    assert LinksFromPages(load, from, k) == left + PageLinks(load(k));
    assert PageLinks(load(k)) == [];
    assert left + [] == left;
  }

  /** A link is gathered from pages `from..to` exactly when one of those pages loaded and shows it. */
  lemma {:induction false} LinksFromPagesMembers(load: int -> Option<ListingPage>, from: int, to: int, link: Link)
    ensures link in LinksFromPages(load, from, to)
      <==> (exists p :: from <= p <= to && load(p).Some? && link in CardLinks(load(p).value.cards))
    decreases if to < from then 0 else to - from + 1
  {
    if from <= to {
      LinksFromPagesMembers(load, from, to - 1, link);
      var before := LinksFromPages(load, from, to - 1);
      assert LinksFromPages(load, from, to) == before + PageLinks(load(to));
      if link in PageLinks(load(to)) {
        assert load(to).Some? && link in CardLinks(load(to).value.cards);
      }
      if p :| from <= p <= to && load(p).Some? && link in CardLinks(load(p).value.cards) {
        if p == to {
          assert link in PageLinks(load(to));
        } else {
          assert link in before;
        }
      }
    }
  }

  /** The number of the last pagination button, as `int(next_page_button[-1].get_text())`;
      `None` is the `ValueError` of a text that is not a numeral. */
  function LastPageNumber(first: ListingPage): Option<int>
    requires |first.pageButtons| > 0
  {
    Text.ParseInt(first.pageButtons[|first.pageButtons| - 1])
  }

  /** What `collect_job_links` returns for a search whose pages `load` describes. */
  function CollectedLinks(load: int -> Option<ListingPage>, limit: Option<int>): (r: seq<Link>)
    ensures load(1).None? ==> r == []
    ensures load(1).Some? ==>
              var firstLinks := CardLinks(load(1).value.cards);
              |firstLinks| <= |r| && r[..|firstLinks|] == firstLinks
  {
    match load(1)
    case None => []
    case Some(first) =>
      if |first.pageButtons| == 0 then CardLinks(first.cards)
      else match LastPageNumber(first)
        case None => CardLinks(first.cards)
        case Some(lastPage) => CardLinks(first.cards) + LinksFromPages(load, 2, PageCap(lastPage, limit))
  }

  /** The page numbers `collect_job_links` asks the browser for, in order. */
  function RequestedPages(load: int -> Option<ListingPage>, limit: Option<int>): (r: seq<int>)
    ensures |r| >= 1 && r[0] == 1
  {
    match load(1)
    case None => [1]
    case Some(first) =>
      if |first.pageButtons| == 0 then [1]
      else match LastPageNumber(first)
        case None => [1]
        case Some(lastPage) => [1] + PageNumbers(2, PageCap(lastPage, limit))
  }

  /** The page loop of `collect_job_links`: pages `from..to` are requested in turn and the links
      of each page that loaded are appended; a failed page adds nothing. */
  method FetchPages(load: int -> Option<ListingPage>, from: int, to: int)
    returns (links: seq<Link>, requested: seq<int>)
    ensures links == LinksFromPages(load, from, to)
    ensures requested == PageNumbers(from, to)
  {
    links, requested := [], [];
    var pageNum := from;
    while pageNum <= to
      invariant from <= pageNum && (pageNum <= to + 1 || pageNum == from)
      invariant links == LinksFromPages(load, from, pageNum - 1)
      invariant requested == PageNumbers(from, pageNum - 1)
    {
      var page := load(pageNum);
      requested := requested + [pageNum];
      if page.Some? {
        var pageLinks := GetJobLinkPage(page);
        links := links + pageLinks;
      }
      pageNum := pageNum + 1;
    }
  }

  /** `collect_job_links(browser, job_title, limit)`: returns the links gathered and the page
      numbers requested, in request order. */
  method CollectJobLinks(load: int -> Option<ListingPage>, limit: Option<int>)
    returns (allJobsLink: seq<Link>, requested: seq<int>)
    ensures allJobsLink == CollectedLinks(load, limit)
    ensures requested == RequestedPages(load, limit)
  {
    var firstRawPage := load(1);
    requested := [1];
    if firstRawPage.None? {
      return [], requested;
    }
    allJobsLink := GetJobLinkPage(firstRawPage);
    var first := firstRawPage.value;
    if |first.pageButtons| == 0 {
      return;
    }
    var lastPage := LastPageNumber(first);
    if lastPage.None? {
      return;
    }
    var maxPageNum := PageCap(lastPage.value, limit);
    var pageLinks, pages := FetchPages(load, 2, maxPageNum);
    allJobsLink := allJobsLink + pageLinks;
    requested := requested + pages;
  }

  /** If page 1 fails to load, nothing is collected and no other page is requested. */
  lemma FirstPageFails(load: int -> Option<ListingPage>, limit: Option<int>)
    requires load(1).None?
    ensures CollectedLinks(load, limit) == [] && RequestedPages(load, limit) == [1]
  {
  }

  /** A last pagination button whose text is not a numeral ends the search after page 1: the
      result is page 1's links and no other page is requested. */
  lemma UnreadableLastPage(load: int -> Option<ListingPage>, limit: Option<int>)
    requires load(1).Some? && |load(1).value.pageButtons| > 0 && LastPageNumber(load(1).value).None?
    ensures CollectedLinks(load, limit) == CardLinks(load(1).value.cards)
    ensures RequestedPages(load, limit) == [1]
  {
  }

  /** Without pagination buttons on page 1 the result is exactly page 1's links. */
  lemma SinglePage(load: int -> Option<ListingPage>, limit: Option<int>)
    requires load(1).Some? && |load(1).value.pageButtons| == 0
    ensures CollectedLinks(load, limit) == CardLinks(load(1).value.cards)
    ensures RequestedPages(load, limit) == [1]
  {
  }

  /** The pages requested are always 1, 2, ..., n for some n >= 1: page 1 first and always, then
      each page once in ascending order. No page beyond the last advertised page is requested,
      nor beyond the limit when one is given (page 1 apart). */
  lemma RequestedRange(load: int -> Option<ListingPage>, limit: Option<int>)
    ensures var r := RequestedPages(load, limit);
      && |r| >= 1
      && (forall k :: 0 <= k < |r| ==> r[k] == k + 1)
      && (load(1).Some? && |load(1).value.pageButtons| > 0 && LastPageNumber(load(1).value).Some? ==>
            forall k :: 1 <= k < |r| ==>
              (r[k] <= LastPageNumber(load(1).value).value && (limit.Some? ==> r[k] <= limit.value)))
  {
    var r := RequestedPages(load, limit);
    if load(1).Some? && |load(1).value.pageButtons| > 0 && LastPageNumber(load(1).value).Some? {
      var cap := PageCap(LastPageNumber(load(1).value).value, limit);
      var tail := PageNumbers(2, cap);
      assert r == [1] + tail;
      assert forall k :: 1 <= k < |r| ==> r[k] == tail[k - 1];
    }
  }

  /** The collected links are page 1's links followed by the links of every later page that
      loaded, up to the cap and in page order. */
  lemma CollectedFromPages(load: int -> Option<ListingPage>, limit: Option<int>, link: Link)
    requires load(1).Some? && |load(1).value.pageButtons| > 0 && LastPageNumber(load(1).value).Some?
    ensures var cap := PageCap(LastPageNumber(load(1).value).value, limit);
      link in CollectedLinks(load, limit)
      <==> (|| link in CardLinks(load(1).value.cards)
            || exists p :: 2 <= p <= cap && load(p).Some? && link in CardLinks(load(p).value.cards))
  {
    var cap := PageCap(LastPageNumber(load(1).value).value, limit);
    LinksFromPagesMembers(load, 2, cap, link);
  }

  /** Ten advertised pages and a limit of 3: exactly pages 1, 2 and 3 are requested. */
  lemma CapScenario(load: int -> Option<ListingPage>)
    requires load(1).Some? && |load(1).value.pageButtons| > 0 && LastPageNumber(load(1).value) == Some(10)
    ensures RequestedPages(load, Some(3)) == [1, 2, 3]
  {
    assert PageCap(10, Some(3)) == 3;
    assert PageNumbers(2, 3) == [2, 3];
  }
}
