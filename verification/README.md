# Minecraft RAG bot: ingestion, scraping, crawling and prompt assembly in Dafny

This project models the pure core of a retrieval-augmented Minecraft question-answering bot:

- **Ingestion** (`load_data.py`):
  - token-window chunking, `token_chunk_text`;
  - sentence packing with character overlap, `chunk_text`;
  - chunk records with `url#chunk<i>` ids, `chunk_documents`;
  - the token-budget batcher, `create_token_safe_batches`;
  - the fixed-size slicing and progress labels of `upsert_chunks`.
- **Document store merge** (`scrapers-ai/scrape_content.py`): whitespace normalisation (`clean_text`), the page extractor as an oracle, and the dedup-by-URL merge loop of `main`.
- **Category crawler**, written twice:
  - the set-returning `crawl_category` and per-category `main` of `backend/scrapers/scrape_main_features.py`;
  - the global-accumulator crawler and sorted output of `scrapers-ai/scrape_java_pages.py`.

  The second one is proved to compute exactly what the first does.
- **Context and prompt assembly** (`get_answer.py`): `get_top_text` with its exceptions, and the fill of `prompt_template`.

Tokens, the tokenizer's `encode`/`decode`, the per-chunk token count, the HTTP fetch plus HTML parsing of a wiki page, and the wiki's category graph are all parameters of the model. The category graph is a finite map from URL to page, and a URL outside the map is a failed fetch.

Modules, one file each:

- `Wrappers` (`Option`, `Result`), `Seqs` (flatten, min/max) and `Strides` (window offsets and counts) are shared helpers.
- `Text` covers Python whitespace, `strip`, `join`, substring tests and decimal formatting.
- `StringOrder` covers Python's string order and `sorted` over a set.
- `TokenChunker`, `SentenceChunker`, `ChunkRecords`, `Batcher` and `UpsertGroups` model `load_data.py`.
- `CleanText` and `StoreMerge` model `scrapers-ai/scrape_content.py`.
- `WikiGraph` holds the page graph and the blacklist.
- `FeatureCrawler` and `JavaCrawler` are the two crawlers.
- `QueryContext` models `get_answer.py`.

The prompt asks for a refusal when the context lacks the answer. A query that retrieves fewer than five matches never reaches the prompt, though: `get_top_text(results, 5)` indexes `vectors[i]` for every `i < 5` and raises `IndexError` (`QueryContext.FewerThanFiveRaises`).

## Model

| member | source | states |
|---|---|---|
| TokenChunker.TokenChunks | load_data.py:53-58 | with at least one token the loop needs `max_tokens > overlap`; empty input gives no window; otherwise there are StrideCount(n, step) windows and window `i` is the clipped slice of `max_tokens` tokens from `i*step` |
| TokenChunker.TokenChunkText | load_data.py:48-60 | `token_chunk_text` returns one decoded string per token window, in window order |
| TokenChunker.TokenChunkLoop | load_data.py:51-60 | the `while start < len(tokens)` loop, statement by statement, produces exactly the windows of `TokenChunks` |
| TokenChunker.WindowShape | load_data.py:54-58 | for n tokens there are ceil(n/step) windows; window `i` is `tokens[i*step .. min(i*step+max_tokens, n)]` and holds between 1 and `max_tokens` tokens |
| TokenChunker.WindowsCover | load_data.py:54-58 | every token index lies inside some window |
| TokenChunker.LastWindowEndsAtEnd | load_data.py:53-58 | the last window ends at token n |
| TokenChunker.ConsecutiveWindowsOverlap | load_data.py:54-58 | the part of window `i` after its first `step` tokens begins window `i+1`; a full window shares exactly `overlap` tokens with its successor |
| TokenChunker.WindowsReassemble | load_data.py:54-58 | keeping the first `step` tokens of every window but the last, plus the whole last window, gives back the token sequence: nothing is lost or reordered |
| TokenChunker.Example2500Tokens | load_data.py:48-58 | 2500 tokens in windows of 1000 overlapping by 200 give 4 windows of 1000, 1000, 900 and 100 tokens |
| SentenceChunker.SplitSentences | load_data.py:27 | `re.split(r'(?<=[.!?]) +', text)` gives at least one piece; every piece but the last ends in `.`, `!` or `?`; no piece contains a split point |
| SentenceChunker.SplitKeepsText | load_data.py:27 | splitting removes only spaces: every other character survives, in order |
| SentenceChunker.SplitCons | load_data.py:27 | at the first split point the text is the first piece, the run of spaces the pattern consumes, and the rest, which is split in turn |
| SentenceChunker.PyTail | load_data.py:40 | Python's `cur[-overlap:]`: the last `overlap` characters for a positive overlap, and the whole string for overlap 0 |
| SentenceChunker.PackSentence | load_data.py:35-40 | a chunk is closed exactly when `len(current)+len(sentence) > max_chars`; the closed chunk is the stripped current text; the next current text is the overlap tail, a space and the sentence; otherwise the sentence is appended after a space |
| SentenceChunker.PackAllKeepsChunks | load_data.py:31-40 | chunks are only appended, at most one per sentence |
| SentenceChunker.PackAllEndsWithLast | load_data.py:31-40 | after the loop the current text ends with a space and the last sentence |
| SentenceChunker.TrailingChunkEmitted | load_data.py:42-43 | with at least one sentence the current text is non-empty at the end, so the trailing chunk is always emitted |
| SentenceChunker.EmptyTextGivesOneEmptyChunk | load_data.py:25-45 | `chunk_text("")` returns one empty chunk |
| SentenceChunker.ChunkLengthBound | load_data.py:35-43 | with a positive overlap every chunk is at most `max(max_chars+1, overlap+1+longest sentence)` long; `max_chars` alone does not bound it |
| SentenceChunker.LongFirstSentence | load_data.py:35-43 | a single sentence longer than `max_chars` gives an empty first chunk and then a chunk longer than `max_chars` |
| SentenceChunker.PackLongFirst | load_data.py:35-40 | packing a first sentence longer than `max_chars` closes the empty initial chunk and seeds the next with a space and the sentence |
| ChunkRecords.ChunkIdRoundTrip | load_data.py:80 | a chunk id `url#chunk<i>` determines its URL and index: parsing it gives both back |
| ChunkRecords.ChunkIdInjective | load_data.py:80 | two chunk ids are equal only for the same URL and index |
| ChunkRecords.RecordsFrom | load_data.py:73-85 | every record comes from some window at or after `i`, and every non-blank window at or after `i` gives a record |
| ChunkRecords.RecordIdsDistinct | load_data.py:73-85 | the records of one document have pairwise different ids |
| ChunkRecords.ChunkDocuments | load_data.py:63-87 | the output holds exactly the records of every document's non-blank windows |
| ChunkRecords.RecordCharacterization | load_data.py:67-85 | a record is in the output iff it is the record of window `k` of some document: id `url#chunk<k>`, the window text, `document_url` the URL, and title and category with defaults `""` and `"miscellaneous"` |
| ChunkRecords.RecordSource | load_data.py:67-85 | every output record is the record of a non-blank window of some document |
| ChunkRecords.RecordIncluded | load_data.py:67-85 | the record of every non-blank window of every document is in the output |
| ChunkRecords.FieldsOfRecord | load_data.py:75-85 | the record of window `k` has a non-blank text, an id that parses back to its URL and `k`, the document's URL, and title and category with their defaults |
| ChunkRecords.RecordFields | load_data.py:75-85 | every record has a non-blank text, an id that parses back to its `document_url` and a window index, and comes from some input document |
| ChunkRecords.RecordIdsOfDocument | load_data.py:80 | every record id of a document starts with that document's URL |
| ChunkRecords.ChunkIdsUnique | load_data.py:63-87 | when no two documents share a URL, all record ids in the output are distinct |
| Batcher.CreateTokenSafeBatches | load_data.py:95-121 | concatenating the batches gives exactly the input; every batch is non-empty; a chunk over the budget sits alone; every other batch holds fitting chunks whose total is within the budget; a batch was closed only because the next chunk would overflow it |
| Batcher.AddChunkStep | load_data.py:100-116 | one iteration keeps the loop invariant and consumes exactly the one chunk, in order |
| Batcher.CloseThenAlone | load_data.py:104-113 | a chunk over the budget arriving with an open batch closes that batch and then goes alone in its own batch, keeping the invariant |
| Batcher.CloseThenStart | load_data.py:104-107 | a fitting chunk that overflows the open batch closes it and starts the next batch alone, keeping the invariant |
| Batcher.Alone | load_data.py:109-113 | a chunk over the budget with no open batch goes alone in its own batch, keeping the invariant |
| Batcher.Extend | load_data.py:115-116 | a chunk that fits joins the open batch and adds its count to the running total, keeping the invariant |
| Batcher.Advance | load_data.py:100-116 | after k chunks the state is sound and holds exactly those k chunks in order, and one more iteration extends that to k+1 |
| Batcher.Finished | load_data.py:118-121 | after all chunks, appending the open batch yields well-formed, greedy batches, oversized chunks alone, whose concatenation is the input |
| Batcher.OversizedAlone | load_data.py:109-113 | in well-formed batches a chunk over the budget is always alone |
| Batcher.GreedySnoc | load_data.py:103-107 | closing a batch because the next chunk does not fit keeps the packing greedy |
| UpsertGroups.UpsertGroups | load_data.py:175 | `range(0, n, batch_size)` raises for a zero step and is empty for a negative step |
| UpsertGroups.GroupsConserve | load_data.py:175-177 | the groups concatenate to the input; there are ceil(n/size) of them; all but the last are full; the last holds 1 to `size` items; group `k` is the slice from `k*size` |
| UpsertGroups.GroupsShape | load_data.py:175-177 | there are ceil(n/size) groups, all but the last full and the last holding 1 to `size` items |
| UpsertGroups.GroupSlices | load_data.py:175-177 | group `k` starts inside the input and is the slice `[k*size : k*size+size]`, clipped at the end |
| UpsertGroups.UpsertChunks | load_data.py:172-188 | the slicing loop sends exactly the groups of `range` and slicing, raising for a zero size and sending nothing for a negative one; with a positive size the groups concatenate to the input and slice `k` is announced as batch k+1 out of the floor `n // size`, a total that equals the number of slices iff the size divides `n` |
| UpsertGroups.SliceLoop | load_data.py:175-177 | the `range` loop for a positive step produces each slice in order and announces slice `k` as batch k+1 out of `int(n/size)`, the floor of the quotient |
| UpsertGroups.AsWrittenLabelOverruns | load_data.py:176 | as written, 100 chunks in groups of 96 make two groups, and the second is announced as "batch #2 out of 1" |
| UpsertGroups.AsWrittenTotalExactIff | load_data.py:176 | as written, the announced total equals the number of groups iff the group size divides the input length |
| UpsertGroups.LabelsCountGroups | load_data.py:176 | with the ceiling total, the group starting at `k*size` is announced as batch k+1 out of the number of groups |
| CleanText.CleanShape | scrapers-ai/scrape_content.py:11-13 | `clean_text` output has no newline, no leading or trailing whitespace, no whitespace but single spaces, and the same words as its input |
| CleanText.CleanKeepsText | scrapers-ai/scrape_content.py:13 | deleting whitespace from the input and from the output gives the same string |
| CleanText.CleanIdempotent | scrapers-ai/scrape_content.py:13 | `clean_text(clean_text(s)) == clean_text(s)` |
| CleanText.WordsIgnoreNewlines | scrapers-ai/scrape_content.py:13 | replacing newlines with spaces before `split()` does not change the words |
| CleanText.WordsOfJoin | scrapers-ai/scrape_content.py:13 | splitting single-space-joined words gives the words back |
| CleanText.WordsKeepText | scrapers-ai/scrape_content.py:13 | the words of `split()` concatenate to the string's non-whitespace characters |
| StoreMerge.ExtractMainContent | scrapers-ai/scrape_content.py:15-45 | the extractor returns a document iff the fetch succeeds and the page has a content element; the document carries the requested URL and no category yet |
| StoreMerge.ExtractedShape | scrapers-ai/scrape_content.py:26-39 | the content is `clean_text` output; the title has no surrounding whitespace and is "Unknown Title" when the page has no heading |
| StoreMerge.Main | scrapers-ai/scrape_content.py:56-92 | nothing is saved iff the features listing is empty |
| StoreMerge.MergeSpec | scrapers-ai/scrape_content.py:63-89 | the saved collection is the existing documents, unchanged and in order, then new documents with pairwise distinct URLs not present before; a URL gets a document iff it is listed, not present and extracts; each new document is the extractor's result tagged with a category that lists its URL |
| StoreMerge.MergeUrlStep | scrapers-ai/scrape_content.py:74-83 | one listed URL keeps the merge invariant, only appends, and becomes known iff it was known or extracts |
| StoreMerge.MergeUrlsStep | scrapers-ai/scrape_content.py:73-83 | the URLs of one category: the earlier new documents stay unchanged, the known set gains exactly the extractable URLs, and each added document is the extractor's result for one of the category's URLs, tagged with the category |
| StoreMerge.MergeFeaturesStep | scrapers-ai/scrape_content.py:71-83 | over all categories the known set gains exactly the listed, extractable URLs and each new document is tagged from the listing |
| StoreMerge.NothingToAdd | scrapers-ai/scrape_content.py:71-87 | when every listed URL that extracts is already present, the saved collection equals the existing one |
| StoreMerge.AllPresentAddsNothing | scrapers-ai/scrape_content.py:74-76 | when every listed URL already exists, the run adds zero documents |
| StoreMerge.RerunAddsNothing | scrapers-ai/scrape_content.py:65-87 | running again on the saved collection with the same listing and pages adds nothing |
| StoreMerge.FailedExtractionRetried | scrapers-ai/scrape_content.py:79-83 | a failed extraction adds nothing and leaves the URL unknown, so a later run attempts it again and adds it once it extracts |
| WikiGraph.ArticleLinks | backend/scrapers/scrape_main_features.py:47-54 | a URL is kept iff some article anchor has it as a non-empty href that contains no blacklist token |
| WikiGraph.ArticleLinksClean | backend/scrapers/scrape_main_features.py:17 | no kept article URL is empty or contains any of the seven blacklist tokens |
| WikiGraph.Children | backend/scrapers/scrape_main_features.py:56-65 | the crawl recurses into every subcategory, then the next page if there is one, with no blacklist filter |
| WikiGraph.UnvisitedShrinks | backend/scrapers/scrape_main_features.py:33-35 | marking a new page visited strictly shrinks the unvisited part of the finite web, which is the termination measure |
| WikiGraph.CategoryUrlBlacklisted | backend/scrapers/scrape_main_features.py:17 | a category page URL contains `Category:` and is never kept as an article |
| FeatureCrawler.Crawl | backend/scrapers/scrape_main_features.py:31-67 | `visited` only grows; the recursion terminates because each call returns at once or visits a new page |
| FeatureCrawler.CrawlLog | backend/scrapers/scrape_main_features.py:33-42 | after a call the URL is visited, even when its fetch failed, and the visited set grew by exactly the URLs fetched |
| FeatureCrawler.CrawlListLog | backend/scrapers/scrape_main_features.py:56-65 | after the subcategory and next-page calls every one of those URLs is visited |
| FeatureCrawler.CrawlFetchesOnce | backend/scrapers/scrape_main_features.py:33-40 | a visited URL returns the empty set with no fetch; an unvisited one is fetched first; within a traversal no URL is fetched twice or after it was visited |
| FeatureCrawler.CrawlLinks | backend/scrapers/scrape_main_features.py:44-67 | the links are exactly the kept article links of the pages fetched successfully; a failed fetch contributes nothing |
| FeatureCrawler.CrawlLinksClean | backend/scrapers/scrape_main_features.py:52-54 | no returned link contains a blacklist token |
| FeatureCrawler.CrawlClosed | backend/scrapers/scrape_main_features.py:56-65 | every subcategory and next page of a fetched page ends up visited, blacklisted or not |
| FeatureCrawler.CrawlReached | backend/scrapers/scrape_main_features.py:56-65 | every fetched URL is the start URL or a child of a page fetched before it |
| FeatureCrawler.CrawlFollowsChildren | backend/scrapers/scrape_main_features.py:56-65 | every child of a fetched page was visited before the call or is fetched during it |
| FeatureCrawler.CrawlCategories | backend/scrapers/scrape_main_features.py:70-78 | each category is crawled from a fresh visited set and stored under its name as its links, each once, in increasing order |
| FeatureCrawler.FeatureMain | backend/scrapers/scrape_main_features.py:70-78 | `main` over the six entries of `CATEGORY_URLS` (lines 8-15), in order, stores one entry per category under pairwise different names; each entry holds that category's crawl links, sorted, none blacklisted |
| JavaCrawler.JavaCrawl | scrapers-ai/scrape_java_pages.py:15-41 | `visited` only grows and the URL ends up visited |
| JavaCrawler.SameAsFeatureCrawl | scrapers-ai/scrape_java_pages.py:15-41 | the accumulating crawl leaves `visited` as the set-returning crawl does, adds exactly that crawl's links to `pages`, and fetches the same URLs in the same order |
| JavaCrawler.JavaCrawlFacts | scrapers-ai/scrape_java_pages.py:17-42 | a visited URL changes nothing; a failed fetch only marks the URL visited; `visited` and `pages` only grow; no URL is fetched twice; nothing added to `pages` contains a blacklist token |
| JavaCrawler.JavaMain | scrapers-ai/scrape_java_pages.py:56-63 | the saved list is strictly sorted, holds exactly the links the crawl from the Java Edition category finds, and none is blacklisted |
| StringOrder.SortSet | scrapers-ai/scrape_java_pages.py:61 | `sorted(pages)`: a strictly increasing list with exactly the set's elements |
| StringOrder.LexLessTotal | scrapers-ai/scrape_java_pages.py:61 | Python's string order is total on distinct strings |
| QueryContext.GetTopText | get_answer.py:75-84 | `get_top_text` raises `IndexError` when k exceeds the number of matches and `TypeError` when one of the 2k pieces is missing; otherwise it returns the k matches' text then recipe, in rank order, joined by the separator; k = 0 gives "" |
| QueryContext.FewerThanFiveRaises | get_answer.py:113-115 | with fewer than five matches (none included) the script's `get_top_text(results, 5)` raises `IndexError` |
| QueryContext.TopTextExtends | get_answer.py:81-84 | reading one more match appends a separator, its text, a separator and its recipe to the context: no leading or trailing separator |
| QueryContext.OneMatch | get_answer.py:81-84 | one match gives its text and recipe around a single separator |
| QueryContext.MissingFieldRaises | get_answer.py:82-84 | a missing `text` or `recipe` among the first k matches makes the join raise `TypeError` |
| QueryContext.Format | get_answer.py:90-93 | `str.format` raises iff some field of the template has no argument |
| QueryContext.PromptShape | get_answer.py:18-45 | for any instruction text before `{context}`, the prompt is the template's text with the context and the question inserted verbatim at their placeholders; each can be read back at its offset |
| QueryContext.PromptInjective | get_answer.py:90-93 | prompts for contexts of equal length are equal only for the same context and question |
| QueryContext.MissingArgumentRaises | get_answer.py:90-93 | filling the template with `context` alone raises `KeyError` naming `question` |

## Left out

- Network and parsing are left out: the HTTP requests, BeautifulSoup parsing, DOM pruning in `extract_main_content`, `urljoin` resolution, `time.sleep`, `dotenv`, and JSON reading and writing (`load_json`, `json.dump`). Fetches and parsed pages are oracles, and hrefs are taken as already resolved.
- `urljoin(BASE_URL, a.get("href"))` on a subcategory anchor with no href resolves to the base URL, which is then crawled. The model's subcategory URLs are the resolved strings, so this case is one more URL in the list.
- `next_link["href"]` raises `KeyError` when the next-page anchor has no href. This is left out: the model's next page is a resolved URL or absent.
- The tokenizer is abstract: tiktoken `encode`, `decode` and `count_tokens` are parameters, and no encode/decode round trip is claimed.
- OpenAI and Pinecone calls are left out: `embed_and_upsert` (its batches are `Batcher.CreateTokenSafeBatches`), `upsert_records`, `embed_query`, `get_similar_vectors` and the completion call of `generate_response`. Embedding vectors are floats and are not modelled.
- Of the printing in `upsert_chunks`, only the progress label is modelled, as the pair (batch number, total) the loop would print. The error message, the other prints and the exception handlers of `upsert_chunks` and `embed_and_upsert` are left out.
- In the module-level scripts and `main` functions, only the data flow is modelled.
- `main.py`, the frontend and the two recipe parsers are left out. They are not part of the ingestion or answering pipeline.
- SentenceChunker.ChunkLengthBound: stated for a positive overlap only. With overlap 0, `cur[-0:]` carries the whole current text into the next chunk, so chunks keep growing.
- QueryContext.PromptTemplate: the instruction text before `{context}` is a parameter `head`. Its wording is not reproduced, and the prompt lemmas hold for every head. The head is treated as literal text, which matches the source because that text contains no brace.
- TokenChunker.TokenChunks: the case `max_tokens <= overlap` with a non-empty token list is excluded by the precondition. The source loops forever there.

## Findings

| source | as written | input that shows it | evidently intended | confidence | as-written member | corrected member |
|---|---|---|---|---|---|---|
| load_data.py:176 | the progress total is `int(len(chunked_documents)/batch_size)`, the floor of the quotient | 100 chunks with `batch_size` 96: two groups are sent, announced as "batch #1 out of 1" and "batch #2 out of 1" | the total is the number of groups, the ceiling of the quotient | not executed | UpsertGroups.AsWrittenLabelOverruns | UpsertGroups.LabelsCountGroups |
