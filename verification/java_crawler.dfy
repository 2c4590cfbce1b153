/** `crawl_category` of `scrapers-ai/scrape_java_pages.py`: the same walk as the
    set-returning crawler, but it returns nothing and accumulates into the module-level
    `visited` and `pages` sets. The model threads those two sets (and the fetch log)
    through the calls and shows the walk computes what the set-returning one does. */
module JavaCrawler {
  import opened Seqs
  import opened StringOrder
  import opened WikiGraph
  import opened FeatureCrawler

  /** The module-level state: `visited`, `pages`, and the URLs fetched so far. */
  datatype CrawlState = CrawlState(visited: set<string>, pages: set<string>, fetched: seq<string>)

  /** The crawl's start page. */
  const StartUrl := "https://minecraft.wiki/w/Category:Java_Edition"

  /** `crawl_category(url)`: return at once when visited; otherwise mark it and fetch it;
      on success add the kept article links to `pages`, then crawl the subcategories and
      the next page. */
  function JavaCrawl(web: Web, url: string, st: CrawlState): (r: CrawlState)
    ensures st.visited <= r.visited
    ensures url in r.visited
    decreases |web.Keys - st.visited|, 0, 0
  {
    if url in st.visited then st
    else
      var marked := st.(visited := st.visited + {url}, fetched := st.fetched + [url]);
      if url !in web then marked
      else
        UnvisitedShrinks(web, st.visited, url);
        JavaCrawlList(web, Children(web[url]), marked.(pages := marked.pages + ArticleLinks(web[url].articles)))
  }

  /** The subcategory and next-page calls, in order. */
  function JavaCrawlList(web: Web, urls: seq<string>, st: CrawlState): (r: CrawlState)
    ensures st.visited <= r.visited
    decreases |web.Keys - st.visited|, 1, |urls|
  {
    if |urls| == 0 then st
    else
      var first := JavaCrawl(web, urls[0], st);
      UnvisitedMonotone(web, st.visited, first.visited);
      JavaCrawlList(web, urls[1..], first)
  }

  /** The accumulating walk leaves `visited` as the set-returning crawl does, adds exactly
      that crawl's links to `pages`, and fetches the same URLs in the same order. */
  lemma {:induction false} SameAsFeatureCrawl(web: Web, url: string, st: CrawlState)
    ensures var c := Crawl(web, url, st.visited);
      JavaCrawl(web, url, st) == CrawlState(c.visited, st.pages + c.links, st.fetched + c.fetched)
    decreases |web.Keys - st.visited|, 0, 1
  {
    if url !in st.visited && url in web {
      SameAsFeatureCrawlPage(web, url, st);
    } else if url !in st.visited {
      assert st.pages + {} == st.pages;
    } else {
      assert st.pages + {} == st.pages && st.fetched + [] == st.fetched;
    }
  }

  /** The case of a page that fetches. */
  lemma {:induction false} SameAsFeatureCrawlPage(web: Web, url: string, st: CrawlState)
    requires url !in st.visited && url in web
    ensures var c := Crawl(web, url, st.visited);
      JavaCrawl(web, url, st) == CrawlState(c.visited, st.pages + c.links, st.fetched + c.fetched)
    decreases |web.Keys - st.visited|, 0, 0
  {
    var links := ArticleLinks(web[url].articles);
    var start := CrawlState(st.visited + {url}, st.pages + links, st.fetched + [url]);
    var kids := Children(web[url]);
    UnvisitedShrinks(web, st.visited, url);
    JavaCrawlUnfold(web, url, st);
    CrawlUnfold(web, url, st.visited);
    SameAsFeatureCrawlList(web, kids, start);
    PageAccumulate(st, url, links, CrawlList(web, kids, st.visited + {url}));
  }

  /** A page that fetches: mark it, log the fetch, add its links, then walk its children. */
  lemma JavaCrawlUnfold(web: Web, url: string, st: CrawlState)
    requires url !in st.visited && url in web
    ensures JavaCrawl(web, url, st) == JavaCrawlList(web, Children(web[url]),
      CrawlState(st.visited + {url}, st.pages + ArticleLinks(web[url].articles), st.fetched + [url]))
  {
  }

  /** Adding a page's links and fetch before a sub-crawl's is adding the page's result. */
  lemma PageAccumulate(st: CrawlState, url: string, links: set<string>, c: CrawlResult)
    ensures CrawlState(c.visited, (st.pages + links) + c.links, (st.fetched + [url]) + c.fetched)
         == CrawlState(c.visited, st.pages + (links + c.links), st.fetched + ([url] + c.fetched))
  {
    assert (st.fetched + [url]) + c.fetched == st.fetched + ([url] + c.fetched);
  }

  lemma {:induction false} SameAsFeatureCrawlList(web: Web, urls: seq<string>, st: CrawlState)
    ensures var c := CrawlList(web, urls, st.visited);
      JavaCrawlList(web, urls, st) == CrawlState(c.visited, st.pages + c.links, st.fetched + c.fetched)
    decreases |web.Keys - st.visited|, 2, 2 * |urls| + 1
  {
    if |urls| > 0 {
      SameAsFeatureCrawlCons(web, urls, st);
    } else {
      assert st.pages + {} == st.pages && st.fetched + [] == st.fetched;
    }
  }

  /** The case of a non-empty list. */
  lemma {:induction false} SameAsFeatureCrawlCons(web: Web, urls: seq<string>, st: CrawlState)
    requires |urls| > 0
    ensures var c := CrawlList(web, urls, st.visited);
      JavaCrawlList(web, urls, st) == CrawlState(c.visited, st.pages + c.links, st.fetched + c.fetched)
    decreases |web.Keys - st.visited|, 2, 2 * |urls|
  {
    var first := JavaCrawl(web, urls[0], st);
    var c1 := Crawl(web, urls[0], st.visited);
    SameAsFeatureCrawl(web, urls[0], st);
    UnvisitedMonotone(web, st.visited, first.visited);
    var c2 := CrawlList(web, urls[1..], c1.visited);
    SameAsFeatureCrawlList(web, urls[1..], first);
    Accumulate(st, c1, c2, first, JavaCrawlList(web, urls[1..], first));
  }

  /** Accumulating two crawls one after the other accumulates their combination. */
  lemma Accumulate(st: CrawlState, c1: CrawlResult, c2: CrawlResult, mid: CrawlState, last: CrawlState)
    requires mid == CrawlState(c1.visited, st.pages + c1.links, st.fetched + c1.fetched)
    requires last == CrawlState(c2.visited, mid.pages + c2.links, mid.fetched + c2.fetched)
    ensures last == CrawlState(c2.visited, st.pages + (c1.links + c2.links), st.fetched + (c1.fetched + c2.fetched))
  {
    assert st.fetched + c1.fetched + c2.fetched == st.fetched + (c1.fetched + c2.fetched);
  }

  /** Starting from a state, an already-visited URL changes nothing; an unvisited one is
      fetched next; a failed fetch only marks the URL visited; `visited` and `pages` only
      grow; no URL is fetched twice; every URL added to `pages` is a kept article link of
      a successfully fetched page, so none is blacklisted. */
  lemma JavaCrawlFacts(web: Web, url: string, st: CrawlState)
    ensures url in st.visited ==> JavaCrawl(web, url, st) == st
    ensures url !in st.visited && url !in web ==>
      JavaCrawl(web, url, st) == CrawlState(st.visited + {url}, st.pages, st.fetched + [url])
    ensures st.visited <= JavaCrawl(web, url, st).visited && st.pages <= JavaCrawl(web, url, st).pages
    ensures var r := JavaCrawl(web, url, st);
      && |r.fetched| >= |st.fetched| && r.fetched[..|st.fetched|] == st.fetched
      && (url !in st.visited ==> |r.fetched| > |st.fetched| && r.fetched[|st.fetched|] == url)
      && FreshLog(st.visited, r.fetched[|st.fetched|..])
      && (forall u | u in r.pages && u !in st.pages :: !Blacklisted(u))
  {
    var r := JavaCrawl(web, url, st);
    var c := Crawl(web, url, st.visited);
    SameAsFeatureCrawl(web, url, st);
    CrawlFetchesOnce(web, url, st.visited);
    assert r.fetched[..|st.fetched|] == st.fetched;
    assert r.fetched[|st.fetched|..] == c.fetched;
    forall u | u in r.pages && u !in st.pages
      ensures !Blacklisted(u)
    {
      CrawlLinksClean(web, url, st.visited, u);
    }
  }

  /** `main`: crawl from the start page with empty `visited` and `pages`, then save
      `sorted(pages)`: the links the set-returning crawl finds, each once, in order. */
  method JavaMain(web: Web) returns (pagesList: seq<string>)
    ensures StrictlySorted(pagesList)
    ensures forall u :: u in pagesList <==> u in CategoryLinks(web, StartUrl)
    ensures forall u | u in pagesList :: !Blacklisted(u)
  {
    var st := JavaCrawl(web, StartUrl, CrawlState({}, {}, []));
    SameAsFeatureCrawl(web, StartUrl, CrawlState({}, {}, []));
    pagesList := SortSet(st.pages);
    forall u | u in pagesList
      ensures !Blacklisted(u)
    {
      CrawlLinksClean(web, StartUrl, {}, u);
    }
  }
}
