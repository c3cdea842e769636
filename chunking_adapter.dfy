/**
 * `iter_page_chunks_for_kb`: every page the corpus loader yields is chunked,
 * and each chunk becomes a `PageChunk` whose metadata is the page's base
 * metadata overridden by the page and chunk positions and by fields drawn
 * from the contract's HTML metadata.
 */
module ChunkingAdapter {
  import opened Wrappers
  import opened Strings
  import opened Values
  import opened Chunking
  import opened CorpusLoader

  /** The keys the chunk metadata sets over the base metadata, in order. */
  const OverrideKeys: seq<string> := ["page_number", "chunk_index", "community", "year", "contract_title", "html_metadata"]

  /** The entries the chunk metadata writes over the base metadata, in the order it writes them. */
  function Overrides(pageNumber: int, chunkIndex: int, community: Value, year: Value, title: Value, html: Dict<Value>): Dict<Value> {
    [("page_number", Int(pageNumber)),
     ("chunk_index", Int(chunkIndex)),
     ("community", community),
     ("year", year),
     ("contract_title", title),
     ("html_metadata", Object(html))]
  }

  /**
   * `{**base_metadata, "page_number": ..., ...}`: each HTML field falls back to
   * its Spanish name when the English one is missing or falsy.
   */
  function ChunkMetadata(base: Dict<Value>, pageNumber: int, chunkIndex: int, html: Dict<Value>): Dict<Value> {
    SetAll(base, Overrides(pageNumber, chunkIndex,
                           Or(GetValue(html, "community"), GetValue(html, "autonomia")),
                           Or(GetValue(html, "year"), GetValue(html, "anio")),
                           Or(GetValue(html, "title"), GetValue(html, "titulo")),
                           html))
  }

  /** The contract's HTML metadata; a missing or empty one is the empty dictionary. */
  function HtmlMeta(load: string -> Option<Dict<Value>>, contractId: string): Dict<Value> {
    load(contractId).GetOr([])
  }

  /** The chunk records of one page, indexed from 0 in chunk order. */
  function PageChunks(page: LoadedPage, html: Dict<Value>, config: ChunkingConfig): (cs: seq<PageChunk>)
    ensures |cs| == |ChunkPageText(page.text, config)|
  {
    var texts := ChunkPageText(page.text, config);
    seq(|texts|, k requires 0 <= k < |texts| =>
      PageChunk(page.contractId, page.docType, page.pageNumber, k, texts[k],
                ChunkMetadata(page.baseMetadata, page.pageNumber, k, html)))
  }

  /** The chunks of every page in order. */
  function AllPageChunks(pages: seq<LoadedPage>, load: string -> Option<Dict<Value>>, config: ChunkingConfig): seq<PageChunk> {
    if pages == [] then []
    else
      var page := pages[|pages| - 1];
      AllPageChunks(pages[..|pages| - 1], load, config) + PageChunks(page, HtmlMeta(load, page.contractId), config)
  }

  // ===========================================================================
  // the generator, as a loop that collects what it yields

  /**
   * `iter_page_chunks_for_kb` over the pages the loader yields; `load` is the
   * cached HTML metadata lookup. The default configuration is `DefaultConfig`.
   */
  method IterPageChunksForKb(pages: seq<LoadedPage>, load: string -> Option<Dict<Value>>, config: ChunkingConfig)
    returns (chunks: seq<PageChunk>)
    ensures chunks == AllPageChunks(pages, load, config)
  {
    chunks := [];
    for i := 0 to |pages|
      invariant chunks == AllPageChunks(pages[..i], load, config)
    {
      var page := pages[i];
      var html := HtmlMeta(load, page.contractId);
      var texts := ChunkPageText(page.text, config);
      var pageChunks := ChunksOfPage(page, html, config, texts);
      chunks := chunks + pageChunks;
      assert pages[..i + 1][..i] == pages[..i];
    }
    assert pages[..|pages|] == pages;
  }

  /** The `enumerate` loop over one page's chunk texts. */
  method ChunksOfPage(page: LoadedPage, html: Dict<Value>, config: ChunkingConfig, texts: seq<string>)
    returns (cs: seq<PageChunk>)
    requires texts == ChunkPageText(page.text, config)
    ensures cs == PageChunks(page, html, config)
  {
    cs := [];
    for idx := 0 to |texts|
      invariant cs == PageChunks(page, html, config)[..idx]
    {
      var metadata := ChunkMetadata(page.baseMetadata, page.pageNumber, idx, html);
      cs := cs + [PageChunk(page.contractId, page.docType, page.pageNumber, idx, texts[idx], metadata)];
      TakeSnoc(PageChunks(page, html, config), idx);
    }
  }

  // ===========================================================================
  // properties

  lemma OverrideKeysDistinct()
    ensures forall i, j | 0 <= i < j < |OverrideKeys| :: OverrideKeys[i] != OverrideKeys[j]
  {
    var ks := OverrideKeys;
    assert |ks[0]| == 11 && |ks[1]| == 11 && |ks[2]| == 9 && |ks[3]| == 4 && |ks[4]| == 14 && |ks[5]| == 13;
    assert ks[0][0] == 'p' && ks[1][0] == 'c';
  }

  lemma KeysAre(d: Dict<Value>, ks: seq<string>)
    requires |d| == |ks| && forall i | 0 <= i < |d| :: d[i].0 == ks[i]
    ensures Keys(d) == ks
    ensures (forall i, j | 0 <= i < j < |ks| :: ks[i] != ks[j]) ==> UniqueKeys(d)
  {
  }

  /** The overrides write the six keys once each, in order. */
  lemma OverridesKeys(pageNumber: int, chunkIndex: int, community: Value, year: Value, title: Value, html: Dict<Value>)
    ensures UniqueKeys(Overrides(pageNumber, chunkIndex, community, year, title, html))
    ensures Keys(Overrides(pageNumber, chunkIndex, community, year, title, html)) == OverrideKeys
  {
    var o := Overrides(pageNumber, chunkIndex, community, year, title, html);
    assert forall i | 0 <= i < |o| :: o[i].0 == OverrideKeys[i];
    KeysAre(o, OverrideKeys);
    OverrideKeysDistinct();
  }

  /** Each overridden key reads the value written for it. */
  lemma OverriddenRead(base: Dict<Value>, pageNumber: int, chunkIndex: int, community: Value, year: Value, title: Value,
                       html: Dict<Value>, i: nat)
    requires UniqueKeys(base) && i < |OverrideKeys|
    ensures var o := Overrides(pageNumber, chunkIndex, community, year, title, html);
      Get(SetAll(base, o), OverrideKeys[i]) == Some(o[i].1)
  {
    var o := Overrides(pageNumber, chunkIndex, community, year, title, html);
    OverridesKeys(pageNumber, chunkIndex, community, year, title, html);
    SetAllGet(base, o, OverrideKeys[i]);
    IndexOfAt(o, OverrideKeys[i], i);
  }

  /** Every key that is not overridden reads as in the base metadata; keys stay unique. */
  lemma NotOverriddenRead(base: Dict<Value>, pageNumber: int, chunkIndex: int, community: Value, year: Value, title: Value,
                          html: Dict<Value>, key: string)
    requires UniqueKeys(base) && key !in OverrideKeys
    ensures var m := SetAll(base, Overrides(pageNumber, chunkIndex, community, year, title, html));
      UniqueKeys(m) && Get(m, key) == Get(base, key)
  {
    OverridesKeys(pageNumber, chunkIndex, community, year, title, html);
    SetAllGet(base, Overrides(pageNumber, chunkIndex, community, year, title, html), key);
  }

  /** Every key the chunk does not write reads as in the base metadata; keys stay unique. */
  lemma ChunkMetadataKept(base: Dict<Value>, pageNumber: int, chunkIndex: int, html: Dict<Value>, key: string)
    requires UniqueKeys(base) && key !in OverrideKeys
    ensures UniqueKeys(ChunkMetadata(base, pageNumber, chunkIndex, html))
    ensures Get(ChunkMetadata(base, pageNumber, chunkIndex, html), key) == Get(base, key)
  {
    NotOverriddenRead(base, pageNumber, chunkIndex,
                      Or(GetValue(html, "community"), GetValue(html, "autonomia")),
                      Or(GetValue(html, "year"), GetValue(html, "anio")),
                      Or(GetValue(html, "title"), GetValue(html, "titulo")), html, key);
  }

  /**
   * The chunk metadata: the positions, the fields drawn from the HTML metadata
   * with their fallbacks, the HTML metadata itself, and every other key as the
   * base metadata has it.
   */
  lemma ChunkMetadataFields(base: Dict<Value>, pageNumber: int, chunkIndex: int, html: Dict<Value>)
    requires UniqueKeys(base)
    ensures var m := ChunkMetadata(base, pageNumber, chunkIndex, html);
      && Get(m, "page_number") == Some(Int(pageNumber))
      && Get(m, "chunk_index") == Some(Int(chunkIndex))
      && Get(m, "community") == Some(Or(GetValue(html, "community"), GetValue(html, "autonomia")))
      && Get(m, "year") == Some(Or(GetValue(html, "year"), GetValue(html, "anio")))
      && Get(m, "contract_title") == Some(Or(GetValue(html, "title"), GetValue(html, "titulo")))
      && Get(m, "html_metadata") == Some(Object(html))
  {
    var community := Or(GetValue(html, "community"), GetValue(html, "autonomia"));
    var year := Or(GetValue(html, "year"), GetValue(html, "anio"));
    var title := Or(GetValue(html, "title"), GetValue(html, "titulo"));
    OverriddenRead(base, pageNumber, chunkIndex, community, year, title, html, 0);
    OverriddenRead(base, pageNumber, chunkIndex, community, year, title, html, 1);
    OverriddenRead(base, pageNumber, chunkIndex, community, year, title, html, 2);
    OverriddenRead(base, pageNumber, chunkIndex, community, year, title, html, 3);
    OverriddenRead(base, pageNumber, chunkIndex, community, year, title, html, 4);
    OverriddenRead(base, pageNumber, chunkIndex, community, year, title, html, 5);
  }

  /** The loader's identity keys are not among the chunk's overrides. */
  lemma IdentityKeysKept()
    ensures "contract_id" !in OverrideKeys && "doc_type" !in OverrideKeys
  {
    var ks := OverrideKeys;
    assert |ks[0]| == 11 && |ks[1]| == 11 && |ks[2]| == 9 && |ks[3]| == 4 && |ks[4]| == 14 && |ks[5]| == 13;
    assert ks[0][0] == 'p' && ks[1][1] == 'h';
    assert "contract_id"[1] == 'o';
  }

  /** On one page, chunk `k` holds the `k`-th chunk text and the page's identity. */
  lemma PageChunksIndexed(page: LoadedPage, html: Dict<Value>, config: ChunkingConfig, k: nat)
    requires k < |ChunkPageText(page.text, config)|
    ensures var c := PageChunks(page, html, config)[k];
      && c.chunkIndex == k && c.text == ChunkPageText(page.text, config)[k]
      && c.contractId == page.contractId && c.docType == page.docType && c.pageNumber == page.pageNumber
  {
  }

  /**
   * Every chunk built from the loader's pages keeps the contract id and the
   * document type of its page in its metadata, and its id splits back into them.
   */
  lemma {:induction false} LoadedChunksKeepIdentity(lines: seq<Option<CorpusRecord>>, parse: string -> Option<PliegoObject>,
                                                    load: string -> Option<Dict<Value>>, config: ChunkingConfig)
    ensures forall c | c in AllPageChunks(LoadPages(lines, parse), load, config) ::
      && c.docType in DocTypes
      && Get(c.metadata, "contract_id") == Some(Str(c.contractId))
      && Get(c.metadata, "doc_type") == Some(Str(c.docType))
      && var parts := SplitSep(c.Id()); |parts| == 4 && parts[0] == c.contractId && parts[1] == c.docType
  {
    var pages := LoadPages(lines, parse);
    LoadedPagesWellFormed(lines, parse);
    PagesKeepIdentity(pages, load, config);
  }

  lemma {:induction false} PagesKeepIdentity(pages: seq<LoadedPage>, load: string -> Option<Dict<Value>>, config: ChunkingConfig)
    requires forall q | q in pages ::
      && UniqueKeys(q.baseMetadata) && q.docType in DocTypes && Separable(q.contractId)
      && Get(q.baseMetadata, "contract_id") == Some(Str(q.contractId))
      && Get(q.baseMetadata, "doc_type") == Some(Str(q.docType))
    ensures forall c | c in AllPageChunks(pages, load, config) ::
      && c.docType in DocTypes
      && Get(c.metadata, "contract_id") == Some(Str(c.contractId))
      && Get(c.metadata, "doc_type") == Some(Str(c.docType))
      && var parts := SplitSep(c.Id()); |parts| == 4 && parts[0] == c.contractId && parts[1] == c.docType
  {
    if pages != [] {
      var page := pages[|pages| - 1];
      PagesKeepIdentity(pages[..|pages| - 1], load, config);
      var html := HtmlMeta(load, page.contractId);
      var cs := PageChunks(page, html, config);
      IdentityKeysKept();
      forall k | 0 <= k < |cs|
        ensures Get(cs[k].metadata, "contract_id") == Some(Str(page.contractId))
        ensures Get(cs[k].metadata, "doc_type") == Some(Str(page.docType))
        ensures var parts := SplitSep(cs[k].Id()); |parts| == 4 && parts[0] == page.contractId && parts[1] == page.docType
      {
        PageChunkIdRoundTrip(cs[k]);
        ChunkMetadataKept(page.baseMetadata, page.pageNumber, k, html, "contract_id");
        ChunkMetadataKept(page.baseMetadata, page.pageNumber, k, html, "doc_type");
      }
    }
  }

  /** A chunk's id splits back into its contract id and document type. */
  lemma ChunkIdRoundTrip(page: LoadedPage, html: Dict<Value>, config: ChunkingConfig, k: nat)
    requires k < |ChunkPageText(page.text, config)|
    requires Separable(page.contractId) && page.docType in DocTypes
    ensures var parts := SplitSep(PageChunks(page, html, config)[k].Id());
      |parts| == 4 && parts[0] == page.contractId && parts[1] == page.docType
  {
    PageChunkIdRoundTrip(PageChunks(page, html, config)[k]);
  }
}
