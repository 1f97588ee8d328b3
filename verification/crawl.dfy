/** A whole crawl over a finite web: the seeds are read, then requests are served one at a time,
    each fetched page is parsed and its requests are queued. The web is a map from URL to the page
    data found there; a URL missing from the map is a failed download and yields nothing. Scrapy's
    scheduler order and its own duplicate filter are not modelled: requests are served first in,
    first out, and the guarantees below come from the spider's visited set alone. */
module Crawl {

  import opened Options
  import opened Text
  import opened Spider

  /** Every URL a page links to in a way the spider could request. */
  function Links(page: PageData): set<Url> {
    Elems(page.anchors) + Elems(page.bodyUrls) + Elems(Candidates(page))
  }

  /** Every URL some page of the web links to. */
  ghost function WebLinks(web: map<Url, PageData>): (r: set<Url>)
    ensures forall u, p | p in web.Values && u in Links(p) :: u in r
  {
    set u, p | p in web.Values && u in Links(p) :: u
  }

  /** Everything `parse` requests is a link of the page it parsed. */
  lemma ParseRequestsAreLinks(st: SpiderState, req: Request, page: PageData, domain: Url -> string)
    ensures forall i | 0 <= i < |Parse(st, req, page, domain).requests| :: Parse(st, req, page, domain).requests[i].url in Links(page)
  {
    var r := Parse(st, req, page, domain);
    forall i | 0 <= i < |r.requests|
      ensures r.requests[i].url in Links(page)
    {
      var u := r.requests[i].url;
      assert u !in st.visited;
      assert u in r.state.visited;
      ParseNewlyVisited(st, req, page, domain, u);
    }
  }

  /** A URL that `parse` newly marks visited is an anchor, a body URL or a pagination candidate. */
  lemma ParseNewlyVisited(st: SpiderState, req: Request, page: PageData, domain: Url -> string, u: Url)
    requires u !in st.visited && u in Parse(st, req, page, domain).state.visited
    ensures u in Links(page)
  {
    var (v1, a) := Follow(st.visited, page.anchors, st.allowedDomains, domain);
    var (v2, b) := Follow(v1, page.bodyUrls, st.allowedDomains, domain);
    var cands := Candidates(page);
    var i := FirstUnvisited(cands, v2);
    if u in Elems(a) {
      var k :| 0 <= k < |a| && a[k] == u;
      assert u in page.anchors;
    } else if u in Elems(b) {
      var k :| 0 <= k < |b| && b[k] == u;
      assert u in page.bodyUrls;
    } else {
      assert u == cands[i];
      assert u in Elems(cands);
    }
  }

  /** `u` is a link of a page the crawl fetched: of the page of one of its items. */
  ghost predicate LinkedFrom(u: Url, items: seq<Item>, web: map<Url, PageData>) {
    exists j | 0 <= j < |items| && items[j].url in web :: u in Links(web[items[j].url])
  }

  /** Reads the seeds and serves every request they lead to. No URL is ever requested twice,
      the spider's visited set is exactly the set of requested URLs, every requested URL is a seed
      or a link of a fetched page, and each item comes from a fetched, requested page. */
  method CrawlWeb(seeds: Option<seq<Url>>, web: map<Url, PageData>, domain: Url -> string)
    returns (st: SpiderState, log: seq<Request>, items: seq<Item>)
    ensures Distinct(RequestUrls(log))
    ensures st.visited == Elems(RequestUrls(log))
    ensures forall i | 0 <= i < |log| :: (seeds.Some? && log[i].url in seeds.value) || LinkedFrom(log[i].url, items, web)
    ensures forall i | 0 <= i < |items| :: items[i].url in st.visited && items[i].url in web
    ensures seeds.None? ==> log == [] && items == []
  {
    var start := StartRequests(FreshInitial(), seeds, domain);
    if seeds.None? {
      st, log, items := start.0, [], [];
      return;
    }
    StartInvariant(seeds.value, web, domain);
    st, log, items := Drain(start.0, start.1, start.1, [], web, domain, WebLinks(web), Elems(seeds.value));
  }

  /** Right after seeding, the queue and the log are the seed requests and the invariant holds
      with the seeds as the URLs requested without a fetched page behind them. */
  lemma StartInvariant(urls: seq<Url>, web: map<Url, PageData>, domain: Url -> string)
    ensures var start := StartRequests(FreshInitial(), Some(urls), domain);
      CrawlInvariant(start.0, start.1, start.1, [], web, Elems(urls))
  {
    var start := StartRequests(FreshInitial(), Some(urls), domain);
    assert forall i | 0 <= i < |start.1| :: start.1[i].url in Elems(urls);
  }

  /** What holds between two served requests: the log never repeats a URL and is exactly the
      visited set, every queued URL is visited, every logged URL is a seed or a link of a fetched
      page, and every item comes from a fetched, visited page. */
  ghost predicate CrawlInvariant(st: SpiderState, queue: seq<Request>, log: seq<Request>, items: seq<Item>,
                                 web: map<Url, PageData>, seeds: set<Url>) {
    && Distinct(RequestUrls(log))
    && st.visited == Elems(RequestUrls(log))
    && (forall i | 0 <= i < |queue| :: queue[i].url in st.visited)
    && (forall i | 0 <= i < |log| :: log[i].url in seeds || LinkedFrom(log[i].url, items, web))
    && (forall i | 0 <= i < |items| :: items[i].url in st.visited && items[i].url in web)
  }

  /** The serving loop: takes the oldest queued request, fetches its page if the web has one,
      parses it and queues what `parse` requested, until the queue is empty. */
  method Drain(st0: SpiderState, log0: seq<Request>, queue0: seq<Request>, items0: seq<Item>,
               web: map<Url, PageData>, domain: Url -> string, ghost universe: set<Url>, ghost seeds: set<Url>)
    returns (st: SpiderState, log: seq<Request>, items: seq<Item>)
    requires forall u, p | p in web.Values && u in Links(p) :: u in universe
    requires CrawlInvariant(st0, queue0, log0, items0, web, seeds)
    ensures CrawlInvariant(st, [], log, items, web, seeds)
  {
    st, log, items := st0, log0, items0;
    var queue := queue0;
    while queue != []
      invariant CrawlInvariant(st, queue, log, items, web, seeds)
      decreases |universe - st.visited|, |queue|
    {
      st, queue, log, items := ServeNext(st, queue, log, items, web, domain, universe, seeds);
    }
  }

  /** Serves the oldest queued request. Either one more URL of the web has been visited, or the
      queue got shorter. */
  method ServeNext(st: SpiderState, queue: seq<Request>, log: seq<Request>, items: seq<Item>,
                   web: map<Url, PageData>, domain: Url -> string, ghost universe: set<Url>, ghost seeds: set<Url>)
    returns (st': SpiderState, queue': seq<Request>, log': seq<Request>, items': seq<Item>)
    requires queue != []
    requires forall u, p | p in web.Values && u in Links(p) :: u in universe
    requires CrawlInvariant(st, queue, log, items, web, seeds)
    ensures CrawlInvariant(st', queue', log', items', web, seeds)
    ensures |universe - st'.visited| < |universe - st.visited|
      || (|universe - st'.visited| == |universe - st.visited| && |queue'| < |queue|)
  {
    var req := queue[0];
    assert req.url in st.visited;
    if req.url in web {
      assert web[req.url] in web.Values;
      st', queue', log', items' := ServeFetched(st, queue[1..], log, items, req, web, domain, universe, seeds);
    } else {
      st', queue', log', items' := st, queue[1..], log, items;
    }
  }

  /** Serves a request whose page the web holds: the page is parsed, its requests are queued and
      logged, and its item is kept. */
  method ServeFetched(st: SpiderState, rest: seq<Request>, log: seq<Request>, items: seq<Item>, req: Request,
                      web: map<Url, PageData>, domain: Url -> string, ghost universe: set<Url>, ghost seeds: set<Url>)
    returns (st': SpiderState, queue': seq<Request>, log': seq<Request>, items': seq<Item>)
    requires req.url in web && req.url in st.visited && web[req.url] in web.Values
    requires forall u, p | p in web.Values && u in Links(p) :: u in universe
    requires CrawlInvariant(st, rest, log, items, web, seeds)
    ensures CrawlInvariant(st', queue', log', items', web, seeds)
    ensures |universe - st'.visited| < |universe - st.visited|
      || (|universe - st'.visited| == |universe - st.visited| && |queue'| <= |rest|)
  {
    var page := web[req.url];
    var r := Serve(st, req, page, domain);
    forall i | 0 <= i < |r.requests|
      ensures r.requests[i].url in universe
    {
      assert r.requests[i].url in Links(page);
    }
    st', queue', log', items' := r.state, rest + r.requests, log + r.requests, items + [r.item];
    Served(st, rest, log, items, req, web, universe, seeds, r);
  }

  /** The bookkeeping of one served request keeps the invariant, and visits a new URL of the
      universe unless it requested nothing. */
  lemma Served(st: SpiderState, rest: seq<Request>, log: seq<Request>, items: seq<Item>, req: Request,
               web: map<Url, PageData>, universe: set<Url>, seeds: set<Url>, r: ParseResult)
    requires req.url in web && req.url in st.visited
    requires CrawlInvariant(st, rest, log, items, web, seeds)
    requires r.state.visited == st.visited + Elems(RequestUrls(r.requests))
    requires Distinct(RequestUrls(r.requests))
    requires forall i | 0 <= i < |r.requests| :: r.requests[i].url !in st.visited && r.requests[i].url in universe
    requires forall i | 0 <= i < |r.requests| :: r.requests[i].url in Links(web[req.url])
    requires r.item.url == req.url
    ensures CrawlInvariant(r.state, rest + r.requests, log + r.requests, items + [r.item], web, seeds)
    ensures |universe - r.state.visited| < |universe - st.visited|
      || (|universe - r.state.visited| == |universe - st.visited| && |rest + r.requests| <= |rest|)
  {
    LogGrows(log, r.requests, st.visited);
    assert st.visited <= r.state.visited;
    if r.requests != [] {
      var u := r.requests[0].url;
      assert u in Elems(RequestUrls(r.requests)) by { assert RequestUrls(r.requests)[0] == u; }
      FewerUnvisited(universe, st.visited, r.state.visited, u);
    } else {
      assert RequestUrls(r.requests) == [];
      assert r.state.visited == st.visited;
    }
    var queue := rest + r.requests;
    forall i | 0 <= i < |queue|
      ensures queue[i].url in r.state.visited
    {
      if i >= |rest| {
        assert RequestUrls(r.requests)[i - |rest|] == queue[i].url;
      }
    }
    var log' := log + r.requests;
    var items' := items + [r.item];
    assert items'[|items|] == r.item;
    forall i | 0 <= i < |log'|
      ensures log'[i].url in seeds || LinkedFrom(log'[i].url, items', web)
    {
      if i >= |log| {
        assert log'[i] == r.requests[i - |log|];
      } else if log[i].url !in seeds {
        LinkedFromGrows(log[i].url, items, r.item, web);
      }
    }
    forall i | 0 <= i < |items'|
      ensures items'[i].url in r.state.visited && items'[i].url in web
    {
      if i == |items| {
        assert items'[i] == r.item;
      }
    }
  }

  /** A link of a fetched page stays one when another item is added. */
  lemma LinkedFromGrows(u: Url, items: seq<Item>, item: Item, web: map<Url, PageData>)
    requires LinkedFrom(u, items, web)
    ensures LinkedFrom(u, items + [item], web)
  {
    var j :| 0 <= j < |items| && items[j].url in web && u in Links(web[items[j].url]);
    assert (items + [item])[j] == items[j];
  }

  /** One served request: `parse` on the fetched page, seen through what the crawl relies on. */
  method Serve(st: SpiderState, req: Request, page: PageData, domain: Url -> string) returns (r: ParseResult)
    ensures r.state.visited == st.visited + Elems(RequestUrls(r.requests))
    ensures Distinct(RequestUrls(r.requests))
    ensures forall i | 0 <= i < |r.requests| :: r.requests[i].url !in st.visited && r.requests[i].url in Links(page)
    ensures st.visited <= r.state.visited
    ensures forall i | 0 <= i < |r.requests| :: r.requests[i].url in r.state.visited
    ensures r.item.url == req.url
  {
    r := Parse(st, req, page, domain);
    ParseRequestsAreLinks(st, req, page, domain);
    forall i | 0 <= i < |r.requests|
      ensures r.requests[i].url in r.state.visited
    {
      assert RequestUrls(r.requests)[i] == r.requests[i].url;
    }
  }

  /** Visiting one more URL of `universe` leaves fewer of it unvisited. */
  lemma FewerUnvisited(universe: set<Url>, before: set<Url>, after: set<Url>, u: Url)
    requires before <= after && u in universe && u in after && u !in before
    ensures |universe - after| < |universe - before|
  {
    SubsetSize(universe - after, (universe - before) - {u});
  }

  lemma {:induction false} SubsetSize(a: set<Url>, b: set<Url>)
    requires a <= b
    ensures |a| <= |b|
    decreases |b|
  {
    if a != {} {
      var x :| x in a;
      SubsetSize(a - {x}, b - {x});
    }
  }

  /** Appending fresh, distinct requests to a log of distinct requests keeps it distinct. */
  lemma LogGrows(log: seq<Request>, added: seq<Request>, visited: set<Url>)
    requires Distinct(RequestUrls(log)) && visited == Elems(RequestUrls(log))
    requires Distinct(RequestUrls(added))
    requires forall i | 0 <= i < |added| :: added[i].url !in visited
    ensures Distinct(RequestUrls(log + added))
    ensures Elems(RequestUrls(log + added)) == visited + Elems(RequestUrls(added))
  {
    var all := RequestUrls(log + added);
    assert all == RequestUrls(log) + RequestUrls(added);
    forall i, j | 0 <= i < j < |all|
      ensures all[i] != all[j]
    {
      if j >= |log| && i < |log| {
        assert all[i] in Elems(RequestUrls(log));
        assert all[j] == added[j - |log|].url;
      } else if i >= |log| {
        assert all[i] == RequestUrls(added)[i - |log|] && all[j] == RequestUrls(added)[j - |log|];
      }
    }
  }
}
