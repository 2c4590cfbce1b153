/** The category pages both crawlers walk. A page is what the crawlers read from it,
    with every href already resolved against the wiki's base URL: the article anchors of
    the category listing, the subcategory anchors and the "next page" anchor. The web is a
    finite map; a URL that is not a key is a failed fetch. */
module WikiGraph {
  import opened Wrappers
  import opened Text

  /** The anchors of one category page. An article anchor with a missing or empty href
      is `None` or `Some("")`. */
  datatype CategoryPage = CategoryPage(articles: seq<Option<string>>, subcats: seq<string>, next: Option<string>)

  /** The pages that fetch successfully. */
  type Web = map<string, CategoryPage>

  /** The namespace markers whose URLs are not articles. */
  const Blacklist: seq<string> := ["Category:", "Template:", "File:", "Talk:", "User:", "Help:", "Module:"]

  /** `any(b in full_url for b in BLACKLIST)`. */
  predicate Blacklisted(url: string) {
    exists k | 0 <= k < |Blacklist| :: Contains(url, Blacklist[k])
  }

  /** An anchor the article loop keeps: it has a non-empty href that is not blacklisted. */
  predicate KeptArticle(anchor: Option<string>) {
    anchor.Some? && anchor.value != "" && !Blacklisted(anchor.value)
  }

  /** The article loop over `.mw-category-group a`: the set of kept article URLs. */
  function ArticleLinks(anchors: seq<Option<string>>): (r: set<string>)
    ensures forall u :: u in r <==> exists i | 0 <= i < |anchors| :: KeptArticle(anchors[i]) && anchors[i].value == u
  {
    if |anchors| == 0 then {}
    else
      var rest := ArticleLinks(anchors[1..]);
      assert forall i | 1 <= i < |anchors| :: anchors[i] == anchors[1..][i - 1];
      (if KeptArticle(anchors[0]) then {anchors[0].value} else {}) + rest
  }

  /** No kept article URL contains a blacklist marker. */
  lemma ArticleLinksClean(anchors: seq<Option<string>>, u: string)
    requires u in ArticleLinks(anchors)
    ensures u != "" && !Blacklisted(u)
    ensures forall k | 0 <= k < |Blacklist| :: !Contains(u, Blacklist[k])
  {
  }

  /** The pages the crawl recurses into after the article loop: the subcategories in
      order, then the next page if there is one. No blacklist filter applies here. */
  function Children(page: CategoryPage): (r: seq<string>)
    ensures |r| == |page.subcats| + (if page.next.Some? then 1 else 0)
    ensures forall u :: u in r <==> u in page.subcats || page.next == Some(u)
  {
    page.subcats + (if page.next.Some? then [page.next.value] else [])
  }

  /** A set contained in another is no larger. */
  lemma {:induction false} SubsetCard<T>(a: set<T>, b: set<T>)
    requires a <= b
    ensures |a| <= |b|
    decreases |b|
  {
    if a != {} {
      var x :| x in a;
      SubsetCard(a - {x}, b - {x});
    }
  }

  /** Marking a new page visited shrinks the unvisited part of the web. */
  lemma UnvisitedShrinks(web: Web, visited: set<string>, url: string)
    requires url in web && url !in visited
    ensures |web.Keys - (visited + {url})| < |web.Keys - visited|
  {
    var before, after := web.Keys - visited, web.Keys - (visited + {url});
    assert after + {url} == before;
  }

  /** Visiting more pages never grows the unvisited part of the web. */
  lemma UnvisitedMonotone(web: Web, visited: set<string>, more: set<string>)
    requires visited <= more
    ensures |web.Keys - more| <= |web.Keys - visited|
  {
    SubsetCard(web.Keys - more, web.Keys - visited);
  }

  /** A category URL is blacklisted, so the article filter rejects it. */
  lemma CategoryUrlBlacklisted()
    ensures Blacklisted("https://minecraft.wiki/w/Category:Blocks")
    ensures "https://minecraft.wiki/w/Category:Blocks" !in ArticleLinks([Some("https://minecraft.wiki/w/Category:Blocks")])
  {
    var u := "https://minecraft.wiki/w/Category:Blocks";
    assert OccursAt(u, Blacklist[0], 25);
  }
}
