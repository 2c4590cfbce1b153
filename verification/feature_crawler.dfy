/** `crawl_category` of `backend/scrapers/scrape_main_features.py`: a depth-first walk of
    category pages that returns the set of article URLs it finds. The shared `visited` set
    is threaded through the calls; each call also reports the URLs it fetched, in order. */
module FeatureCrawler {
  import opened Wrappers
  import opened Seqs
  import opened StringOrder
  import opened WikiGraph

  /** What one call leaves behind: its links, the grown visited set and its fetch log. */
  datatype CrawlResult = CrawlResult(links: set<string>, visited: set<string>, fetched: seq<string>)

  /** `crawl_category(url, visited)`: nothing when the URL was visited; otherwise mark it,
      fetch it (a failed fetch yields nothing), and unite the page's kept article links
      with the crawls of its subcategories and next page. */
  function Crawl(web: Web, url: string, visited: set<string>): (r: CrawlResult)
    ensures visited <= r.visited
    decreases |web.Keys - visited|, 0, 0
  {
    if url in visited then CrawlResult({}, visited, [])
    else
      var marked := visited + {url};
      if url !in web then CrawlResult({}, marked, [url])
      else
        var page := web[url];
        UnvisitedShrinks(web, visited, url);
        var sub := CrawlList(web, Children(page), marked);
        CrawlResult(ArticleLinks(page.articles) + sub.links, sub.visited, [url] + sub.fetched)
  }

  /** The crawls of a list of URLs, in order, each one seeing the visited set the
      previous ones left, their links united. */
  function CrawlList(web: Web, urls: seq<string>, visited: set<string>): (r: CrawlResult)
    ensures visited <= r.visited
    decreases |web.Keys - visited|, 1, |urls|
  {
    if |urls| == 0 then CrawlResult({}, visited, [])
    else
      var first := Crawl(web, urls[0], visited);
      UnvisitedMonotone(web, visited, first.visited);
      var rest := CrawlList(web, urls[1..], first.visited);
      CrawlResult(first.links + rest.links, rest.visited, first.fetched + rest.fetched)
  }

  // ----- The visited set -----

  /** After a call the URL is visited, and the visited set grew by exactly the URLs the
      call fetched. */
  lemma {:induction false} CrawlLog(web: Web, url: string, visited: set<string>)
    ensures var r := Crawl(web, url, visited);
      && url in r.visited
      && forall u :: u in r.visited <==> u in visited || u in r.fetched
    decreases |web.Keys - visited|, 0, 0
  {
    if url !in visited && url in web {
      UnvisitedShrinks(web, visited, url);
      CrawlListLog(web, Children(web[url]), visited + {url});
    }
  }

  /** After the calls for a list every URL in it is visited, and the visited set grew by
      exactly the URLs fetched. */
  lemma {:induction false} CrawlListLog(web: Web, urls: seq<string>, visited: set<string>)
    ensures var r := CrawlList(web, urls, visited);
      && (forall u | u in urls :: u in r.visited)
      && forall u :: u in r.visited <==> u in visited || u in r.fetched
    decreases |web.Keys - visited|, 1, |urls|
  {
    if |urls| > 0 {
      var first := Crawl(web, urls[0], visited);
      CrawlLog(web, urls[0], visited);
      UnvisitedMonotone(web, visited, first.visited);
      CrawlListLog(web, urls[1..], first.visited);
      assert forall u | u in urls :: u == urls[0] || u in urls[1..];
    }
  }

  // ----- Each URL is fetched at most once -----

  /** The fetch log has no repeats and nothing in it was visited before the call. */
  ghost predicate FreshLog(visited: set<string>, fetched: seq<string>) {
    Distinct(fetched) && forall i | 0 <= i < |fetched| :: fetched[i] !in visited
  }

  lemma FreshLogAppend(visited: set<string>, a: seq<string>, mid: set<string>, b: seq<string>)
    requires FreshLog(visited, a) && FreshLog(mid, b)
    requires forall u :: u in mid <==> u in visited || u in a
    ensures FreshLog(visited, a + b)
  {
    var r := a + b;
    forall i, j | 0 <= i < j < |r|
      ensures r[i] != r[j]
    {
      if j >= |a| && i < |a| {
        assert r[i] in a && r[j] == b[j - |a|];
      } else if i >= |a| {
        assert r[i] == b[i - |a|] && r[j] == b[j - |a|];
      }
    }
    forall i | 0 <= i < |r|
      ensures r[i] !in visited
    {
      if i >= |a| {
        assert r[i] == b[i - |a|];
      }
    }
  }

  /** A visited URL triggers no fetch; an unvisited one is fetched first; within one
      traversal no URL is fetched twice or after it was visited. */
  lemma {:induction false} CrawlFetchesOnce(web: Web, url: string, visited: set<string>)
    ensures var r := Crawl(web, url, visited);
      && FreshLog(visited, r.fetched)
      && (url in visited ==> r == CrawlResult({}, visited, []))
      && (url !in visited ==> |r.fetched| > 0 && r.fetched[0] == url)
    decreases |web.Keys - visited|, 0, 0
  {
    if url !in visited && url in web {
      var marked := visited + {url};
      UnvisitedShrinks(web, visited, url);
      CrawlListFetchesOnce(web, Children(web[url]), marked);
      FreshLogAppend(visited, [url], marked, CrawlList(web, Children(web[url]), marked).fetched);
    }
  }

  lemma {:induction false} CrawlListFetchesOnce(web: Web, urls: seq<string>, visited: set<string>)
    ensures FreshLog(visited, CrawlList(web, urls, visited).fetched)
    decreases |web.Keys - visited|, 1, |urls|
  {
    if |urls| > 0 {
      var first := Crawl(web, urls[0], visited);
      CrawlFetchesOnce(web, urls[0], visited);
      CrawlLog(web, urls[0], visited);
      UnvisitedMonotone(web, visited, first.visited);
      CrawlListFetchesOnce(web, urls[1..], first.visited);
      FreshLogAppend(visited, first.fetched, first.visited, CrawlList(web, urls[1..], first.visited).fetched);
    }
  }

  // ----- The links found -----

  /** `u` is a kept article link of a successfully fetched page in the log. */
  ghost predicate FoundIn(web: Web, fetched: seq<string>, u: string) {
    exists i | 0 <= i < |fetched| :: fetched[i] in web && u in ArticleLinks(web[fetched[i]].articles)
  }

  lemma FoundInAppend(web: Web, a: seq<string>, b: seq<string>, u: string)
    ensures FoundIn(web, a + b, u) <==> FoundIn(web, a, u) || FoundIn(web, b, u)
  {
    var r := a + b;
    if FoundIn(web, r, u) {
      var i :| 0 <= i < |r| && r[i] in web && u in ArticleLinks(web[r[i]].articles);
      if i >= |a| {
        assert r[i] == b[i - |a|];
      }
    }
    if FoundIn(web, a, u) {
      var i :| 0 <= i < |a| && a[i] in web && u in ArticleLinks(web[a[i]].articles);
      assert r[i] == a[i];
    }
    if FoundIn(web, b, u) {
      var i :| 0 <= i < |b| && b[i] in web && u in ArticleLinks(web[b[i]].articles);
      assert r[|a| + i] == b[i];
    }
  }

  lemma FoundInSingle(web: Web, url: string, u: string)
    requires url in web
    ensures FoundIn(web, [url], u) <==> u in ArticleLinks(web[url].articles)
  {
    if u in ArticleLinks(web[url].articles) {
      assert [url][0] == url;
    }
  }

  /** The links are exactly the kept article links of the pages fetched successfully:
      a failed fetch contributes nothing. */
  lemma {:induction false} CrawlLinks(web: Web, url: string, visited: set<string>, u: string)
    ensures u in Crawl(web, url, visited).links <==> FoundIn(web, Crawl(web, url, visited).fetched, u)
    decreases |web.Keys - visited|, 0, 0
  {
    if url !in visited {
      var marked := visited + {url};
      if url in web {
        UnvisitedShrinks(web, visited, url);
        var sub := CrawlList(web, Children(web[url]), marked);
        CrawlListLinks(web, Children(web[url]), marked, u);
        FoundInAppend(web, [url], sub.fetched, u);
        FoundInSingle(web, url, u);
      } else {
        assert !FoundIn(web, [url], u);
      }
    }
  }

  lemma {:induction false} CrawlListLinks(web: Web, urls: seq<string>, visited: set<string>, u: string)
    ensures u in CrawlList(web, urls, visited).links <==> FoundIn(web, CrawlList(web, urls, visited).fetched, u)
    decreases |web.Keys - visited|, 1, |urls|
  {
    if |urls| > 0 {
      var first := Crawl(web, urls[0], visited);
      CrawlLinks(web, urls[0], visited, u);
      UnvisitedMonotone(web, visited, first.visited);
      var rest := CrawlList(web, urls[1..], first.visited);
      CrawlListLinks(web, urls[1..], first.visited, u);
      FoundInAppend(web, first.fetched, rest.fetched, u);
    }
  }

  /** No returned link contains a blacklist marker. */
  lemma CrawlLinksClean(web: Web, url: string, visited: set<string>, u: string)
    requires u in Crawl(web, url, visited).links
    ensures !Blacklisted(u)
  {
    var r := Crawl(web, url, visited);
    CrawlLinks(web, url, visited, u);
    var i :| 0 <= i < |r.fetched| && r.fetched[i] in web && u in ArticleLinks(web[r.fetched[i]].articles);
    ArticleLinksClean(web[r.fetched[i]].articles, u);
  }

  // ----- Which pages are reached -----

  /** Every subcategory and next page of a fetched page ends up visited, blacklisted or
      not. */
  ghost predicate Closed(web: Web, fetched: seq<string>, visited: set<string>) {
    forall i, c | 0 <= i < |fetched| && fetched[i] in web && c in Children(web[fetched[i]]) :: c in visited
  }

  lemma ClosedAppend(web: Web, a: seq<string>, b: seq<string>, va: set<string>, vb: set<string>)
    requires Closed(web, a, va) && Closed(web, b, vb) && va <= vb
    ensures Closed(web, a + b, vb)
  {
    var r := a + b;
    forall i, c | 0 <= i < |r| && r[i] in web && c in Children(web[r[i]])
      ensures c in vb
    {
      if i >= |a| {
        assert r[i] == b[i - |a|];
      } else {
        assert r[i] == a[i];
      }
    }
  }

  lemma {:induction false} CrawlClosed(web: Web, url: string, visited: set<string>)
    ensures var r := Crawl(web, url, visited); Closed(web, r.fetched, r.visited)
    decreases |web.Keys - visited|, 0, 0
  {
    if url !in visited && url in web {
      var marked := visited + {url};
      UnvisitedShrinks(web, visited, url);
      var sub := CrawlList(web, Children(web[url]), marked);
      CrawlListClosed(web, Children(web[url]), marked);
      CrawlListLog(web, Children(web[url]), marked);
      ClosedAppend(web, [url], sub.fetched, sub.visited, sub.visited);
    }
  }

  lemma {:induction false} CrawlListClosed(web: Web, urls: seq<string>, visited: set<string>)
    ensures var r := CrawlList(web, urls, visited); Closed(web, r.fetched, r.visited)
    decreases |web.Keys - visited|, 1, |urls|
  {
    if |urls| > 0 {
      var first := Crawl(web, urls[0], visited);
      CrawlClosed(web, urls[0], visited);
      UnvisitedMonotone(web, visited, first.visited);
      var rest := CrawlList(web, urls[1..], first.visited);
      CrawlListClosed(web, urls[1..], first.visited);
      ClosedAppend(web, first.fetched, rest.fetched, first.visited, rest.visited);
    }
  }

  /** Every fetched URL is a start URL or a child of a page fetched before it. */
  ghost predicate Reached(web: Web, starts: seq<string>, fetched: seq<string>) {
    forall i | 0 <= i < |fetched| ::
      fetched[i] in starts || exists j | 0 <= j < i :: fetched[j] in web && fetched[i] in Children(web[fetched[j]])
  }

  lemma ReachedAppend(web: Web, starts: seq<string>, a: seq<string>, aStarts: seq<string>, b: seq<string>, bStarts: seq<string>)
    requires Reached(web, aStarts, a) && Reached(web, bStarts, b)
    requires forall u | u in aStarts :: u in starts
    requires forall u | u in bStarts :: u in starts
    ensures Reached(web, starts, a + b)
  {
    var r := a + b;
    forall i | 0 <= i < |r| && r[i] !in starts
      ensures exists j | 0 <= j < i :: r[j] in web && r[i] in Children(web[r[j]])
    {
      if i < |a| {
        var j :| 0 <= j < i && a[j] in web && a[i] in Children(web[a[j]]);
        assert r[j] == a[j] && r[i] == a[i];
      } else {
        assert r[i] == b[i - |a|];
        var j :| 0 <= j < i - |a| && b[j] in web && b[i - |a|] in Children(web[b[j]]);
        assert r[|a| + j] == b[j];
      }
    }
  }

  lemma {:induction false} CrawlReached(web: Web, url: string, visited: set<string>)
    ensures Reached(web, [url], Crawl(web, url, visited).fetched)
    decreases |web.Keys - visited|, 0, 0
  {
    if url !in visited && url in web {
      UnvisitedShrinks(web, visited, url);
      CrawlUnfold(web, url, visited);
      CrawlListReached(web, Children(web[url]), visited + {url});
      ReachedCons(web, url, CrawlList(web, Children(web[url]), visited + {url}).fetched);
    }
  }

  /** A page that fetches: mark it, log the fetch, then crawl its children. */
  lemma CrawlUnfold(web: Web, url: string, visited: set<string>)
    requires url !in visited && url in web
    ensures var sub := CrawlList(web, Children(web[url]), visited + {url});
      Crawl(web, url, visited) == CrawlResult(ArticleLinks(web[url].articles) + sub.links, sub.visited, [url] + sub.fetched)
  {
  }

  /** Fetching a page and then URLs reached from its children reaches all of them from
      the page. */
  lemma ReachedCons(web: Web, url: string, sub: seq<string>)
    requires url in web && Reached(web, Children(web[url]), sub)
    ensures Reached(web, [url], [url] + sub)
  {
    var r := [url] + sub;
    forall i | 0 <= i < |r| && r[i] != url
      ensures exists j | 0 <= j < i :: r[j] in web && r[i] in Children(web[r[j]])
    {
      assert r[i] == sub[i - 1];
      if r[i] in Children(web[url]) {
        assert r[0] == url;
      } else {
        var j :| 0 <= j < i - 1 && sub[j] in web && sub[i - 1] in Children(web[sub[j]]);
        assert r[j + 1] == sub[j];
      }
    }
  }

  lemma {:induction false} CrawlListReached(web: Web, urls: seq<string>, visited: set<string>)
    ensures Reached(web, urls, CrawlList(web, urls, visited).fetched)
    decreases |web.Keys - visited|, 1, |urls|
  {
    if |urls| > 0 {
      var first := Crawl(web, urls[0], visited);
      CrawlReached(web, urls[0], visited);
      UnvisitedMonotone(web, visited, first.visited);
      var rest := CrawlList(web, urls[1..], first.visited);
      CrawlListReached(web, urls[1..], first.visited);
      ReachedAppend(web, urls, first.fetched, [urls[0]], rest.fetched, urls[1..]);
    }
  }

  /** Every subcategory and next page of a fetched page is fetched too unless it was
      visited before the call; no blacklist filter applies to them. From an empty visited
      set, the fetched pages are exactly the pages reachable from the start. */
  lemma CrawlFollowsChildren(web: Web, url: string, visited: set<string>, i: nat, c: string)
    requires var r := Crawl(web, url, visited); i < |r.fetched| && r.fetched[i] in web
    requires c in Children(web[Crawl(web, url, visited).fetched[i]])
    ensures c in visited || c in Crawl(web, url, visited).fetched
  {
    CrawlClosed(web, url, visited);
    CrawlLog(web, url, visited);
  }

  // ----- `main` -----

  /** The categories `main` crawls, each from its category page. */
  const CategoryUrls: seq<(string, string)> := [
    ("blocks", "https://minecraft.wiki/w/Category:Blocks"),
    ("items", "https://minecraft.wiki/w/Category:Items"),
    ("entities", "https://minecraft.wiki/w/Category:Entities"),
    ("mobs", "https://minecraft.wiki/w/Category:Mobs"),
    ("biomes", "https://minecraft.wiki/w/Category:Biomes"),
    ("gameplay", "https://minecraft.wiki/w/Category:Gameplay")
  ]

  /** The links `main` stores for a category: a crawl from a fresh visited set. */
  function CategoryLinks(web: Web, url: string): set<string> {
    Crawl(web, url, {}).links
  }

  /** The entry `main` stores for a category: under its name, the category's links,
      each once, in increasing order. */
  ghost predicate StoredFor(web: Web, category: (string, string), entry: (string, seq<string>)) {
    && entry.0 == category.0
    && StrictlySorted(entry.1)
    && forall u :: u in entry.1 <==> u in CategoryLinks(web, category.1)
  }

  /** `main`: each category is crawled with a fresh visited set and its links are stored
      as a sorted list under the category's name. */
  method CrawlCategories(web: Web, categories: seq<(string, string)>) returns (results: seq<(string, seq<string>)>)
    ensures |results| == |categories|
    ensures forall i | 0 <= i < |results| :: StoredFor(web, categories[i], results[i])
  {
    results := [];
    for i := 0 to |categories|
      invariant |results| == i
      invariant forall k | 0 <= k < i :: StoredFor(web, categories[k], results[k])
    {
      var sorted := SortSet(CategoryLinks(web, categories[i].1));
      results := results + [(categories[i].0, sorted)];
    }
  }

  /** `main` over `CATEGORY_URLS`: one entry per category, in the listing's order, under
      pairwise different names; each holds the category's links, sorted, none of them
      blacklisted. */
  method FeatureMain(web: Web) returns (results: seq<(string, seq<string>)>)
    ensures |results| == |CategoryUrls| == 6
    ensures forall i | 0 <= i < |results| :: StoredFor(web, CategoryUrls[i], results[i])
    ensures forall i, j | 0 <= i < j < |results| :: results[i].0 != results[j].0
    ensures forall i, u | 0 <= i < |results| && u in results[i].1 :: !Blacklisted(u)
  {
    results := CrawlCategories(web, CategoryUrls);
    forall i, u | 0 <= i < |results| && u in results[i].1
      ensures !Blacklisted(u)
    {
      CrawlLinksClean(web, CategoryUrls[i].1, {}, u);
    }
  }
}
