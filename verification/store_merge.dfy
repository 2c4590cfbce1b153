/** The document store update of `scrapers-ai/scrape_content.py`: every URL listed in the
    features file, category by category, is scraped unless its URL is already known; the
    saved collection is the existing documents followed by the new ones. Fetching and HTML
    parsing are an oracle from a URL to the parts of the page the extractor reads. */
module StoreMerge {
  import opened Wrappers
  import opened Text
  import opened CleanText

  /** A scraped wiki page as saved in `documents.json`. */
  datatype Document = Document(title: string, url: string, content: string, category: Option<string>)

  /** What the extractor reads from a fetched page: the text of the `firstHeading` header
      and the text of the `mw-parser-output` division after pruning, each absent when the
      element is missing. */
  datatype FetchedPage = FetchedPage(heading: Option<string>, body: Option<string>)

  /** The title used when the page has no heading. */
  const UnknownTitle := "Unknown Title"

  /** The outcome of requesting a URL: `None` when the request fails. */
  type Fetch = string -> Option<FetchedPage>

  /** `extract_main_content(url)`: `None` when the fetch fails or the page has no content
      division; otherwise the stripped heading (or the placeholder title), the URL and the
      cleaned content. */
  function ExtractMainContent(url: string, fetch: Fetch): (r: Option<Document>)
    ensures r.Some? <==> fetch(url).Some? && fetch(url).value.body.Some?
    ensures r.Some? ==> r.value.url == url && r.value.category.None?
  {
    match fetch(url)
    case None => None
    case Some(page) =>
      if page.body.None? then None
      else
        var title := if page.heading.Some? then Strip(page.heading.value) else UnknownTitle;
        Some(Document(title, url, Clean(page.body.value), None))
  }

  /** A document's title and content are in normal form: the title has no surrounding
      whitespace and the content is whitespace-normalized text. */
  lemma ExtractedShape(url: string, fetch: Fetch)
    requires ExtractMainContent(url, fetch).Some?
    ensures var d := ExtractMainContent(url, fetch).value;
      && Normalized(d.content)
      && (|d.title| > 0 ==> !IsSpace(d.title[0]) && !IsSpace(d.title[|d.title| - 1]))
      && (fetch(url).value.heading.None? ==> d.title == UnknownTitle)
  {
    CleanShape(fetch(url).value.body.value);
  }

  predicate Extracts(url: string, fetch: Fetch) {
    ExtractMainContent(url, fetch).Some?
  }

  /** `{doc["url"] for doc in documents}`. */
  function UrlSet(docs: seq<Document>): set<string> {
    set i | 0 <= i < |docs| :: docs[i].url
  }

  /** The loop state: `existing_urls` and `new_docs`. */
  datatype MergeState = MergeState(known: set<string>, newDocs: seq<Document>)

  /** One listed URL: skipped when known; otherwise extracted, and on success tagged with
      the category, appended and marked known. */
  function MergeUrl(st: MergeState, category: string, url: string, fetch: Fetch): MergeState {
    if url in st.known then st
    else match ExtractMainContent(url, fetch)
      case None => st
      case Some(doc) => MergeState(st.known + {url}, st.newDocs + [doc.(category := Some(category))])
  }

  /** The inner loop over the URLs of one category. */
  function MergeUrls(st: MergeState, category: string, urls: seq<string>, fetch: Fetch): MergeState
    decreases |urls|
  {
    if |urls| == 0 then st else MergeUrls(MergeUrl(st, category, urls[0], fetch), category, urls[1..], fetch)
  }

  /** The outer loop over `features.items()`, in order. */
  function MergeFeatures(st: MergeState, features: seq<(string, seq<string>)>, fetch: Fetch): MergeState
    decreases |features|
  {
    if |features| == 0 then st
    else MergeFeatures(MergeUrls(st, features[0].0, features[0].1, fetch), features[1..], fetch)
  }

  /** The run of `main`: nothing is saved (`None`) when the features file is empty;
      otherwise the saved collection. */
  function Main(documents: seq<Document>, features: seq<(string, seq<string>)>, fetch: Fetch): (r: Option<seq<Document>>)
    ensures r.None? <==> |features| == 0
  {
    if |features| == 0 then None
    else Some(documents + MergeFeatures(MergeState(UrlSet(documents), []), features, fetch).newDocs)
  }

  // ----- What the loop keeps -----

  /** The new documents have pairwise distinct URLs, none of them initially known, and the
      known set is the initial one plus exactly those URLs. */
  ghost predicate Invariant(st: MergeState, initial: set<string>) {
    && st.known == initial + UrlSet(st.newDocs)
    && (forall i, j | 0 <= i < j < |st.newDocs| :: st.newDocs[i].url != st.newDocs[j].url)
    && (forall i | 0 <= i < |st.newDocs| :: st.newDocs[i].url !in initial)
  }

  /** The URLs listed under some category. */
  ghost predicate Listed(features: seq<(string, seq<string>)>, url: string) {
    exists k | 0 <= k < |features| :: url in features[k].1
  }

  /** A new document is what the extractor returned for its URL, tagged with a category
      under which that URL is listed. */
  ghost predicate TaggedFrom(doc: Document, features: seq<(string, seq<string>)>, fetch: Fetch) {
    && doc.category.Some?
    && ExtractMainContent(doc.url, fetch) == Some(doc.(category := None))
    && (exists k | 0 <= k < |features| :: features[k].0 == doc.category.value && doc.url in features[k].1)
  }

  lemma UrlSetSnoc(docs: seq<Document>, d: Document)
    ensures UrlSet(docs + [d]) == UrlSet(docs) + {d.url}
  {
    var r := docs + [d];
    forall u | u in UrlSet(r)
      ensures u in UrlSet(docs) + {d.url}
    {
      var i :| 0 <= i < |r| && r[i].url == u;
      if i < |docs| {
        assert docs[i].url == u;
      }
    }
    forall u | u in UrlSet(docs)
      ensures u in UrlSet(r)
    {
      var i :| 0 <= i < |docs| && docs[i].url == u;
      assert r[i].url == u;
    }
    assert r[|docs|].url == d.url;
  }

  /** One URL keeps the invariant, only appends, and marks the URL known exactly when it is
      extracted or was known already. */
  lemma MergeUrlStep(st: MergeState, initial: set<string>, category: string, url: string, fetch: Fetch)
    requires Invariant(st, initial)
    ensures var r := MergeUrl(st, category, url, fetch);
      && Invariant(r, initial)
      && r.known == st.known + (if Extracts(url, fetch) then {url} else {})
      && Appends(st.newDocs, r.newDocs)
      && (forall i | |st.newDocs| <= i < |r.newDocs| ::
            r.newDocs[i].url == url && r.newDocs[i].category == Some(category)
            && ExtractMainContent(url, fetch) == Some(r.newDocs[i].(category := None)))
  {
    var r := MergeUrl(st, category, url, fetch);
    if url !in st.known && Extracts(url, fetch) {
      var doc := ExtractMainContent(url, fetch).value;
      UrlSetSnoc(st.newDocs, doc.(category := Some(category)));
      assert r.newDocs[..|st.newDocs|] == st.newDocs;
    } else {
      assert r.newDocs[..|st.newDocs|] == st.newDocs;
    }
  }

  /** A document the merge added for `category`: its URL is one of the category's URLs
      and it is that URL's extracted content, tagged with the category. */
  ghost predicate AddedUnder(d: Document, category: string, urls: seq<string>, fetch: Fetch) {
    && d.url in urls && d.category == Some(category)
    && ExtractMainContent(d.url, fetch) == Some(d.(category := None))
  }

  /** `b` is `a` with more documents appended. */
  predicate Appends(a: seq<Document>, b: seq<Document>) {
    |b| >= |a| && b[..|a|] == a
  }

  lemma AppendsTrans(a: seq<Document>, b: seq<Document>, c: seq<Document>)
    requires Appends(a, b) && Appends(b, c)
    ensures Appends(a, c)
    ensures forall i | |a| <= i < |b| :: c[i] == b[i]
  {
    assert c[..|a|] == c[..|b|][..|a|];
    forall i | |a| <= i < |b|
      ensures c[i] == b[i]
    {
      assert c[..|b|][i] == c[i];
    }
  }

  /** The URLs of one category: the known set gains exactly the extractable ones, the new
      documents only grow, and each added one comes from this category's list. */
  lemma {:induction false} MergeUrlsStep(st: MergeState, initial: set<string>, category: string, urls: seq<string>, fetch: Fetch)
    requires Invariant(st, initial)
    ensures var r := MergeUrls(st, category, urls, fetch);
      && Invariant(r, initial)
      && (forall u :: u in r.known <==> u in st.known || (u in urls && Extracts(u, fetch)))
      && Appends(st.newDocs, r.newDocs)
      && (forall i | |st.newDocs| <= i < |r.newDocs| :: AddedUnder(r.newDocs[i], category, urls, fetch))
    decreases |urls|
  {
    if |urls| > 0 {
      var mid := MergeUrl(st, category, urls[0], fetch);
      MergeUrlStep(st, initial, category, urls[0], fetch);
      MergeUrlsStep(mid, initial, category, urls[1..], fetch);
      var r := MergeUrls(mid, category, urls[1..], fetch);
      AppendsTrans(st.newDocs, mid.newDocs, r.newDocs);
      AddedUnderCons(st.newDocs, mid.newDocs, r.newDocs, category, urls, fetch);
      assert forall u :: u in urls <==> u == urls[0] || u in urls[1..];
    }
  }

  /** The documents added for the first URL and those added for the rest were all added
      under the whole list. */
  lemma AddedUnderCons(a: seq<Document>, b: seq<Document>, c: seq<Document>,
                       category: string, urls: seq<string>, fetch: Fetch)
    requires |urls| > 0 && Appends(a, b) && Appends(b, c)
    requires forall i | |a| <= i < |b| :: c[i] == b[i]
    requires forall i | |a| <= i < |b| ::
      b[i].url == urls[0] && b[i].category == Some(category)
      && ExtractMainContent(urls[0], fetch) == Some(b[i].(category := None))
    requires forall i | |b| <= i < |c| :: AddedUnder(c[i], category, urls[1..], fetch)
    ensures forall i | |a| <= i < |c| :: AddedUnder(c[i], category, urls, fetch)
  {
    forall i | |a| <= i < |c|
      ensures AddedUnder(c[i], category, urls, fetch)
    {
      if i < |b| {
        assert c[i] == b[i];
      } else {
        assert c[i].url in urls[1..];
      }
    }
  }

  /** All categories: the same facts, each new document tagged from the listing. */
  lemma {:induction false} MergeFeaturesStep(st: MergeState, initial: set<string>, features: seq<(string, seq<string>)>, fetch: Fetch)
    requires Invariant(st, initial)
    ensures var r := MergeFeatures(st, features, fetch);
      && Invariant(r, initial)
      && (forall u :: u in r.known <==> u in st.known || (Listed(features, u) && Extracts(u, fetch)))
      && Appends(st.newDocs, r.newDocs)
      && (forall i | |st.newDocs| <= i < |r.newDocs| :: TaggedFrom(r.newDocs[i], features, fetch))
    decreases |features|
  {
    if |features| > 0 {
      var mid := MergeUrls(st, features[0].0, features[0].1, fetch);
      MergeUrlsStep(st, initial, features[0].0, features[0].1, fetch);
      MergeFeaturesStep(mid, initial, features[1..], fetch);
      var r := MergeFeatures(mid, features[1..], fetch);
      AppendsTrans(st.newDocs, mid.newDocs, r.newDocs);
      forall i | |st.newDocs| <= i < |r.newDocs|
        ensures TaggedFrom(r.newDocs[i], features, fetch)
      {
        if i < |mid.newDocs| {
          assert r.newDocs[i] == mid.newDocs[i];
          assert AddedUnder(mid.newDocs[i], features[0].0, features[0].1, fetch);
          assert features[0].0 == r.newDocs[i].category.value && r.newDocs[i].url in features[0].1;
        } else {
          var d := r.newDocs[i];
          var k :| 0 <= k < |features[1..]| && features[1..][k].0 == d.category.value && d.url in features[1..][k].1;
          assert features[k + 1] == features[1..][k];
        }
      }
      forall u
        ensures Listed(features, u) <==> u in features[0].1 || Listed(features[1..], u)
      {
        if Listed(features, u) {
          var k :| 0 <= k < |features| && u in features[k].1;
          if k > 0 {
            assert features[1..][k - 1] == features[k];
          }
        }
        if Listed(features[1..], u) {
          var k :| 0 <= k < |features[1..]| && u in features[1..][k].1;
          assert features[k + 1] == features[1..][k];
        }
      }
    }
  }

  // ----- Properties of a run -----

  /** A run that saves keeps the existing documents unchanged and in order, followed by
      new documents whose URLs are pairwise distinct and were not already present; a URL
      gets a new document exactly when it is listed, was not present and extracts; each new
      document is the extractor's result tagged with a category listing its URL. */
  lemma MergeSpec(documents: seq<Document>, features: seq<(string, seq<string>)>, fetch: Fetch, saved: seq<Document>)
    requires Main(documents, features, fetch) == Some(saved)
    ensures |saved| >= |documents| && saved[..|documents|] == documents
    ensures var added := saved[|documents|..];
      && (forall i, j | 0 <= i < j < |added| :: added[i].url != added[j].url)
      && (forall i | 0 <= i < |added| :: added[i].url !in UrlSet(documents))
      && (forall i | 0 <= i < |added| :: TaggedFrom(added[i], features, fetch))
    ensures forall u :: u in UrlSet(saved[|documents|..]) <==>
      (u !in UrlSet(documents) && Listed(features, u) && Extracts(u, fetch))
  {
    var init := MergeState(UrlSet(documents), []);
    MergeFeaturesStep(init, UrlSet(documents), features, fetch);
    var r := MergeFeatures(init, features, fetch);
    assert saved[..|documents|] == documents;
    assert saved[|documents|..] == r.newDocs;
  }

  /** A document with a URL puts that URL in the URL set. */
  lemma InUrlSet(docs: seq<Document>, i: nat)
    requires i < |docs|
    ensures docs[i].url in UrlSet(docs)
  {
  }

  /** A collection of documents with no URL is empty. */
  lemma NoUrlsNoDocuments(docs: seq<Document>)
    requires UrlSet(docs) == {}
    ensures docs == []
  {
    if |docs| > 0 {
      InUrlSet(docs, 0);
    }
  }

  /** When every listed URL is already present or fails to extract, the run adds nothing
      and saves the existing collection unchanged. */
  lemma NothingToAdd(documents: seq<Document>, features: seq<(string, seq<string>)>, fetch: Fetch)
    requires |features| > 0
    requires forall u | Listed(features, u) && Extracts(u, fetch) :: u in UrlSet(documents)
    ensures Main(documents, features, fetch) == Some(documents)
  {
    var saved := Main(documents, features, fetch).value;
    MergeSpec(documents, features, fetch, saved);
    var added := saved[|documents|..];
    assert UrlSet(added) == {} by {
      forall u | u in UrlSet(added)
        ensures false
      {
      }
    }
    NoUrlsNoDocuments(added);
    assert saved == saved[..|documents|] + added;
    assert saved == documents;
  }

  /** If every listed URL is already present, the run adds zero documents. */
  lemma AllPresentAddsNothing(documents: seq<Document>, features: seq<(string, seq<string>)>, fetch: Fetch)
    requires |features| > 0
    requires forall k, u | 0 <= k < |features| && u in features[k].1 :: u in UrlSet(documents)
    ensures Main(documents, features, fetch) == Some(documents)
  {
    NothingToAdd(documents, features, fetch);
  }

  /** Running again on the saved collection, with the same features and the same pages,
      adds nothing. */
  lemma RerunAddsNothing(documents: seq<Document>, features: seq<(string, seq<string>)>, fetch: Fetch, saved: seq<Document>)
    requires Main(documents, features, fetch) == Some(saved)
    ensures Main(saved, features, fetch) == Some(saved)
  {
    MergeSpec(documents, features, fetch, saved);
    forall u | Listed(features, u) && Extracts(u, fetch)
      ensures u in UrlSet(saved)
    {
      if u in UrlSet(documents) {
        var i :| 0 <= i < |documents| && documents[i].url == u;
        assert saved[i] == documents[i];
      } else {
        var added := saved[|documents|..];
        assert u in UrlSet(added);
        var i :| 0 <= i < |added| && added[i].url == u;
        assert saved[|documents| + i] == added[i];
      }
    }
    NothingToAdd(saved, features, fetch);
  }

  /** A failed extraction adds nothing and leaves the URL unknown, so a later run over
      the saved collection attempts it again and adds it once the page extracts. */
  lemma FailedExtractionRetried(documents: seq<Document>, features: seq<(string, seq<string>)>,
                                first: Fetch, later: Fetch, saved: seq<Document>, url: string)
    requires Main(documents, features, first) == Some(saved)
    requires Listed(features, url) && url !in UrlSet(documents)
    requires !Extracts(url, first) && Extracts(url, later)
    ensures url !in UrlSet(saved)
    ensures url in UrlSet(Main(saved, features, later).value[|saved|..])
  {
    MergeSpec(documents, features, first, saved);
    MergeSpec(saved, features, later, Main(saved, features, later).value);
  }
}
