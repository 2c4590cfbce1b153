/** `chunk_documents` of `load_data.py`: every document's text is cut into token windows
    of 1000 tokens overlapping by 200, and every window that is not blank becomes a chunk
    record whose id is `url#chunk<i>`. */
module ChunkRecords {
  import opened Wrappers
  import opened Text
  import TokenChunker

  /** A document as read from `documents.json`; any field may be missing. */
  datatype SourceDocument = SourceDocument(
    title: Option<string>, url: Option<string>, content: Option<string>, category: Option<string>)

  /** One chunk record: the unit that is embedded and stored in the vector index. */
  datatype ChunkRecord = ChunkRecord(
    id: string, text: string, title: string, category: string, documentUrl: string)

  /** The window size and overlap `chunk_documents` uses (the defaults of `token_chunk_text`). */
  const WindowTokens: nat := 1000
  const WindowOverlap: nat := 200

  /** The category given to documents that have none. */
  const DefaultCategory := "miscellaneous"

  /** The id of chunk `i` of the document at `url`. */
  function ChunkId(url: string, i: nat): string {
    url + "#chunk" + Decimal(i)
  }

  /** Index of the last occurrence of `c` in `s`, or -1. */
  function LastIndexOf(s: string, c: char): (k: int)
    ensures -1 <= k < |s|
    ensures k >= 0 ==> s[k] == c
    ensures forall m | k < m < |s| :: s[m] != c
  {
    if |s| == 0 then -1
    else if s[|s| - 1] == c then |s| - 1
    else LastIndexOf(s[..|s| - 1], c)
  }

  /** Recovers the document URL and chunk index from a chunk id: the URL is everything
      before the last `#`, which must be followed by `chunk` and decimal digits. */
  function ParseChunkId(id: string): Option<(string, nat)> {
    var h := LastIndexOf(id, '#');
    if h < 0 || |id| < h + 7 || id[h + 1..h + 6] != "chunk" then None
    else
      var digits := id[h + 6..];
      if forall m | 0 <= m < |digits| :: IsDigit(digits[m]) then Some((id[..h], DecimalValue(digits)))
      else None
  }

  /** The last `c` of `prefix + [c] + suffix` is the one after `prefix` when `suffix`
      holds no `c`. */
  lemma {:induction false} LastIndexAfter(prefix: string, c: char, suffix: string)
    requires forall m | 0 <= m < |suffix| :: suffix[m] != c
    ensures LastIndexOf(prefix + [c] + suffix, c) == |prefix|
  {
    var s := prefix + [c] + suffix;
    if |suffix| > 0 {
      var shorter := suffix[..|suffix| - 1];
      assert s[|s| - 1] == suffix[|suffix| - 1];
      assert s[..|s| - 1] == prefix + [c] + shorter;
      LastIndexAfter(prefix, c, shorter);
    } else {
      assert s[|s| - 1] == c;
    }
  }

  /** A character absent from two strings is absent from their concatenation. */
  lemma NoneOfAppend(a: string, b: string, c: char)
    requires forall m | 0 <= m < |a| :: a[m] != c
    requires forall m | 0 <= m < |b| :: b[m] != c
    ensures forall m | 0 <= m < |a + b| :: (a + b)[m] != c
  {
  }

  /** `ParseChunkId` at a known last `#` followed by `chunk` and digits. */
  lemma ParseAt(id: string, h: nat, digits: string)
    requires LastIndexOf(id, '#') == h && h + 6 <= |id|
    requires id[h + 1..h + 6] == "chunk" && id[h + 6..] == digits
    requires |digits| > 0 && forall m | 0 <= m < |digits| :: IsDigit(digits[m])
    ensures ParseChunkId(id) == Some((id[..h], DecimalValue(digits)))
  {
  }

  /** `#chunk` followed by digits holds its `#` only at the start. */
  lemma ChunkSuffixNoHash(digits: string)
    requires forall m | 0 <= m < |digits| :: IsDigit(digits[m])
    ensures forall m | 0 <= m < |"chunk" + digits| :: ("chunk" + digits)[m] != '#'
  {
    var w := "chunk";
    assert w == ['c', 'h', 'u', 'n', 'k'];
    NoneOfAppend(w, digits, '#');
  }

  /** A chunk id is its URL, a `#` and the rest of the suffix. */
  lemma ChunkIdShape(url: string, digits: string)
    ensures url + "#chunk" + digits == url + ['#'] + ("chunk" + digits)
  {
    assert "#chunk" == ['#'] + "chunk";
  }

  /** In a URL followed by `#chunk` and digits, the last `#` is the one after the URL. */
  lemma HashPosition(url: string, digits: string)
    requires forall m | 0 <= m < |digits| :: IsDigit(digits[m])
    ensures LastIndexOf(url + "#chunk" + digits, '#') == |url|
  {
    ChunkSuffixNoHash(digits);
    ChunkIdShape(url, digits);
    LastIndexAfter(url, '#', "chunk" + digits);
  }

  /** Where the URL, `chunk` and the digits sit in a chunk id. */
  lemma ChunkIdSlices(url: string, digits: string)
    ensures var id := url + "#chunk" + digits;
      && |id| == |url| + 6 + |digits|
      && id[..|url|] == url
      && id[|url| + 1..|url| + 6] == "chunk"
      && id[|url| + 6..] == digits
  {
  }

  /** An id made of a URL, `#chunk` and at least one decimal digit parses back to the URL
      and the digits' value. */
  lemma ParseChunkSuffix(url: string, digits: string)
    requires |digits| > 0 && forall m | 0 <= m < |digits| :: IsDigit(digits[m])
    ensures ParseChunkId(url + "#chunk" + digits) == Some((url, DecimalValue(digits)))
  {
    HashPosition(url, digits);
    ChunkIdSlices(url, digits);
    ParseAt(url + "#chunk" + digits, |url|, digits);
  }

  /** A chunk id determines its document URL and chunk index. */
  lemma ChunkIdRoundTrip(url: string, i: nat)
    ensures ParseChunkId(ChunkId(url, i)) == Some((url, i))
  {
    ParseChunkSuffix(url, Decimal(i));
    DecimalRoundTrip(i);
  }

  /** Two chunks have the same id only if they come from the same URL and index. */
  lemma ChunkIdInjective(url1: string, i1: nat, url2: string, i2: nat)
    requires ChunkId(url1, i1) == ChunkId(url2, i2)
    ensures url1 == url2 && i1 == i2
  {
    ChunkIdRoundTrip(url1, i1);
    ChunkIdRoundTrip(url2, i2);
  }

  /** The record for chunk `i` of `doc`, with the source's defaults for missing fields. */
  function MakeRecord(doc: SourceDocument, i: nat, text: string): ChunkRecord {
    var url := doc.url.GetOr("");
    ChunkRecord(ChunkId(url, i), text, doc.title.GetOr(""), doc.category.GetOr(DefaultCategory), url)
  }

  /** The decoded token windows of a document's `content` (empty when it has none). */
  function DocumentChunks<T>(doc: SourceDocument, encode: string -> seq<T>, decode: seq<T> -> string): seq<string> {
    TokenChunker.TokenChunkText(doc.content.GetOr(""), encode, decode, WindowTokens, WindowOverlap)
  }

  /** `record` is what `chunk_documents` makes of window `k` of `doc`. */
  predicate RecordOf(doc: SourceDocument, chunks: seq<string>, k: int, record: ChunkRecord) {
    0 <= k < |chunks| && !IsBlank(chunks[k]) && record == MakeRecord(doc, k, chunks[k])
  }

  /** The `for i, chunk in enumerate(text_chunks)` loop from index `i` on: blank windows
      are skipped, every other window becomes one record, in window order. */
  function RecordsFrom(doc: SourceDocument, chunks: seq<string>, i: nat): (r: seq<ChunkRecord>)
    ensures forall rec | rec in r :: exists k | i <= k :: RecordOf(doc, chunks, k, rec)
    ensures forall k | i <= k < |chunks| && !IsBlank(chunks[k]) :: MakeRecord(doc, k, chunks[k]) in r
    decreases |chunks| - i
  {
    if i >= |chunks| then []
    else
      var rest := RecordsFrom(doc, chunks, i + 1);
      if Strip(chunks[i]) == "" then rest
      else
        assert RecordOf(doc, chunks, i, MakeRecord(doc, i, chunks[i]));
        [MakeRecord(doc, i, chunks[i])] + rest
  }

  /** No record in `rest` has the id `url#chunk<i>` when all of them come from later
      windows. */
  lemma {:induction false} LaterIdsDiffer(doc: SourceDocument, chunks: seq<string>, i: nat, rest: seq<ChunkRecord>)
    requires forall rec | rec in rest :: exists k | i + 1 <= k :: RecordOf(doc, chunks, k, rec)
    ensures forall rec | rec in rest :: rec.id != ChunkId(doc.url.GetOr(""), i)
  {
    forall rec | rec in rest
      ensures rec.id != ChunkId(doc.url.GetOr(""), i)
    {
      var k :| i + 1 <= k && RecordOf(doc, chunks, k, rec);
      if rec.id == ChunkId(doc.url.GetOr(""), i) {
        ChunkIdInjective(doc.url.GetOr(""), k, doc.url.GetOr(""), i);
      }
    }
  }

  /** The ids of the records, in order, have no repetition. */
  predicate IdsDistinct(r: seq<ChunkRecord>) {
    forall a, b | 0 <= a < b < |r| :: r[a].id != r[b].id
  }

  lemma {:induction false} ConsIdsDistinct(head: ChunkRecord, rest: seq<ChunkRecord>)
    requires IdsDistinct(rest)
    requires forall rec | rec in rest :: rec.id != head.id
    ensures IdsDistinct([head] + rest)
  {
    var r := [head] + rest;
    forall a, b | 0 <= a < b < |r|
      ensures r[a].id != r[b].id
    {
      assert r[b] == rest[b - 1];
      if a > 0 {
        assert r[a] == rest[a - 1];
      }
    }
  }

  /** Records of one document have pairwise different ids. */
  lemma {:induction false} RecordIdsDistinct(doc: SourceDocument, chunks: seq<string>, i: nat)
    ensures IdsDistinct(RecordsFrom(doc, chunks, i))
    decreases |chunks| - i
  {
    if i < |chunks| {
      var rest := RecordsFrom(doc, chunks, i + 1);
      RecordIdsDistinct(doc, chunks, i + 1);
      if !IsBlank(chunks[i]) {
        LaterIdsDiffer(doc, chunks, i, rest);
        ConsIdsDistinct(MakeRecord(doc, i, chunks[i]), rest);
      }
    }
  }

  /** The records `chunk_documents` makes for one document. */
  function DocumentRecords<T>(doc: SourceDocument, encode: string -> seq<T>, decode: seq<T> -> string): seq<ChunkRecord> {
    RecordsFrom(doc, DocumentChunks(doc, encode, decode), 0)
  }

  /** `chunk_documents(documents)`: the records of every document, document by document. */
  function ChunkDocuments<T>(docs: seq<SourceDocument>, encode: string -> seq<T>, decode: seq<T> -> string): (r: seq<ChunkRecord>)
    ensures forall rec | rec in r :: exists d | 0 <= d < |docs| :: rec in DocumentRecords(docs[d], encode, decode)
    ensures forall d, rec | 0 <= d < |docs| && rec in DocumentRecords(docs[d], encode, decode) :: rec in r
  {
    if |docs| == 0 then []
    else
      var rest := ChunkDocuments(docs[1..], encode, decode);
      var r := DocumentRecords(docs[0], encode, decode) + rest;
      assert forall d | 1 <= d < |docs| :: docs[d] == docs[1..][d - 1];
      r
  }

  /** A record belongs to the output exactly when it is the record of a non-blank window
      of some document: id `url#chunk<k>` for window `k`, the window's text, the document's
      URL, and the title and category with their defaults. */
  lemma RecordCharacterization<T>(docs: seq<SourceDocument>, encode: string -> seq<T>, decode: seq<T> -> string,
                                  rec: ChunkRecord)
    ensures rec in ChunkDocuments(docs, encode, decode) <==>
      exists d, k | 0 <= d < |docs| :: RecordOf(docs[d], DocumentChunks(docs[d], encode, decode), k, rec)
  {
    if rec in ChunkDocuments(docs, encode, decode) {
      RecordSource(docs, encode, decode, rec);
    }
    if exists d, k | 0 <= d < |docs| :: RecordOf(docs[d], DocumentChunks(docs[d], encode, decode), k, rec) {
      var d, k :| 0 <= d < |docs| && RecordOf(docs[d], DocumentChunks(docs[d], encode, decode), k, rec);
      RecordIncluded(docs, encode, decode, d, k, rec);
    }
  }

  /** Every output record is the record of a non-blank window of some document. */
  lemma RecordSource<T>(docs: seq<SourceDocument>, encode: string -> seq<T>, decode: seq<T> -> string,
                        rec: ChunkRecord)
    requires rec in ChunkDocuments(docs, encode, decode)
    ensures exists d, k | 0 <= d < |docs| :: RecordOf(docs[d], DocumentChunks(docs[d], encode, decode), k, rec)
  {
    var d :| 0 <= d < |docs| && rec in DocumentRecords(docs[d], encode, decode);
    var chunks := DocumentChunks(docs[d], encode, decode);
    DocumentRecord(docs[d], chunks, rec);
    var k :| RecordOf(docs[d], chunks, k, rec);
  }

  /** The record of every non-blank window of every document is in the output. */
  lemma RecordIncluded<T>(docs: seq<SourceDocument>, encode: string -> seq<T>, decode: seq<T> -> string,
                          d: int, k: int, rec: ChunkRecord)
    requires 0 <= d < |docs| && RecordOf(docs[d], DocumentChunks(docs[d], encode, decode), k, rec)
    ensures rec in ChunkDocuments(docs, encode, decode)
  {
    DocumentRecord(docs[d], DocumentChunks(docs[d], encode, decode), rec);
  }

  /** A record is among a document's records exactly when it is the record of one of its
      non-blank windows. */
  lemma DocumentRecord(doc: SourceDocument, chunks: seq<string>, rec: ChunkRecord)
    ensures rec in RecordsFrom(doc, chunks, 0) <==> exists k :: RecordOf(doc, chunks, k, rec)
  {
    if exists k :: RecordOf(doc, chunks, k, rec) {
      var k :| RecordOf(doc, chunks, k, rec);
      assert MakeRecord(doc, k, chunks[k]) in RecordsFrom(doc, chunks, 0);
    }
  }

  /** Every record carries a non-blank text and its document's URL, and its id is that URL
      followed by `#chunk` and a window index. */
  lemma RecordFields<T>(docs: seq<SourceDocument>, encode: string -> seq<T>, decode: seq<T> -> string,
                        rec: ChunkRecord)
    requires rec in ChunkDocuments(docs, encode, decode)
    ensures !IsBlank(rec.text)
    ensures exists k: nat :: ParseChunkId(rec.id) == Some((rec.documentUrl, k))
    ensures exists d | 0 <= d < |docs| ::
      && rec.documentUrl == docs[d].url.GetOr("")
      && rec.title == docs[d].title.GetOr("")
      && rec.category == docs[d].category.GetOr(DefaultCategory)
  {
    RecordSource(docs, encode, decode, rec);
    var d, k :| 0 <= d < |docs| && RecordOf(docs[d], DocumentChunks(docs[d], encode, decode), k, rec);
    FieldsOfRecord(docs[d], DocumentChunks(docs[d], encode, decode), k, rec);
  }

  /** The fields of the record of window `k`. */
  lemma FieldsOfRecord(doc: SourceDocument, chunks: seq<string>, k: int, rec: ChunkRecord)
    requires RecordOf(doc, chunks, k, rec)
    ensures !IsBlank(rec.text)
    ensures k >= 0 && ParseChunkId(rec.id) == Some((rec.documentUrl, k))
    ensures rec.documentUrl == doc.url.GetOr("") && rec.title == doc.title.GetOr("")
    ensures rec.category == doc.category.GetOr(DefaultCategory)
  {
    ChunkIdRoundTrip(rec.documentUrl, k);
  }

  lemma {:induction false} AppendIdsDistinct(a: seq<ChunkRecord>, b: seq<ChunkRecord>)
    requires IdsDistinct(a) && IdsDistinct(b)
    requires forall x, y | x in a && y in b :: x.id != y.id
    ensures IdsDistinct(a + b)
  {
    var r := a + b;
    forall i, j | 0 <= i < j < |r|
      ensures r[i].id != r[j].id
    {
      if j < |a| {
        assert r[i] == a[i] && r[j] == a[j];
      } else if i >= |a| {
        assert r[i] == b[i - |a|] && r[j] == b[j - |a|];
      } else {
        assert r[i] in a && r[j] in b;
      }
    }
  }

  /** The ids of a document's records all start with its URL. */
  lemma RecordIdsOfDocument<T>(doc: SourceDocument, encode: string -> seq<T>, decode: seq<T> -> string, rec: ChunkRecord)
    requires rec in DocumentRecords(doc, encode, decode)
    ensures exists k: nat :: rec.id == ChunkId(doc.url.GetOr(""), k)
  {
    var k :| 0 <= k && RecordOf(doc, DocumentChunks(doc, encode, decode), k, rec);
  }

  /** When no two documents share a URL, every chunk record id in the output is unique,
      so upserting the records never overwrites one chunk with another. */
  lemma {:induction false} ChunkIdsUnique<T>(docs: seq<SourceDocument>, encode: string -> seq<T>, decode: seq<T> -> string)
    requires forall d1, d2 | 0 <= d1 < d2 < |docs| :: docs[d1].url.GetOr("") != docs[d2].url.GetOr("")
    ensures IdsDistinct(ChunkDocuments(docs, encode, decode))
  {
    if |docs| > 0 {
      var first := DocumentRecords(docs[0], encode, decode);
      var rest := ChunkDocuments(docs[1..], encode, decode);
      ChunkIdsUnique(docs[1..], encode, decode);
      RecordIdsDistinct(docs[0], DocumentChunks(docs[0], encode, decode), 0);
      forall x, y | x in first && y in rest
        ensures x.id != y.id
      {
        var d :| 0 <= d < |docs[1..]| && y in DocumentRecords(docs[1..][d], encode, decode);
        RecordIdsOfDocument(docs[0], encode, decode, x);
        RecordIdsOfDocument(docs[1..][d], encode, decode, y);
        var kx: nat :| x.id == ChunkId(docs[0].url.GetOr(""), kx);
        var ky: nat :| y.id == ChunkId(docs[1..][d].url.GetOr(""), ky);
        assert docs[1..][d] == docs[d + 1];
        if x.id == y.id {
          ChunkIdInjective(docs[0].url.GetOr(""), kx, docs[d + 1].url.GetOr(""), ky);
        }
      }
      AppendIdsDistinct(first, rest);
    }
  }
}
