/**
 * `iter_embedding_records`: for each contract directory, the admin and then
 * the technical document, each page of it, each chunk of each page, one
 * record with an id, the chunk text and a metadata dictionary. Directory
 * listing and JSON decoding are inputs here.
 */
module CorpusBuilder {
  import opened Wrappers
  import opened Strings
  import opened Values
  import opened Chunking
  import opened CorpusLoader

  /** One page object of a document file; a missing `page` is `None`, a missing `text` is "". */
  datatype PageObject = PageObject(page: Option<int>, text: string)

  /** A document file's JSON: a list of page objects, or any other value as `str` renders it. */
  datatype DocData = PageList(pages: seq<PageObject>) | Other(rendered: string)

  /**
   * A directory entry under the contracts directory: its name, whether it is a
   * directory, its HTML metadata (the empty dictionary when the file is missing
   * or malformed) and its document files by name.
   */
  datatype ContractDir = ContractDir(name: string, isDir: bool, htmlMeta: Dict<Value>, files: map<string, DocData>)

  /** A document the builder looks for: file name, document type and search scope. */
  datatype DocFile = DocFile(filename: string, docType: string, scope: string)

  /** The admin document is processed before the technical one. */
  const DocFiles: seq<DocFile> := [
    DocFile("pliego_admin_text.json", "pliego_admin", "admin"),
    DocFile("pliego_tecnico_text.json", "pliego_tecnico", "tecnico")
  ]

  datatype EmbeddingRecord = EmbeddingRecord(id: string, text: string, metadata: Dict<Value>)

  /** The pages of a document: a list as it is, anything else as one page without a number. */
  function PagesOf(doc: DocData): (pages: seq<PageObject>)
    ensures doc.Other? ==> pages == [PageObject(None, doc.rendered)]
  {
    match doc
    case PageList(pages) => pages
    case Other(rendered) => [PageObject(None, rendered)]
  }

  /** The record id fields: contract, type, the page when there is one, and the chunk. */
  function IdParts(contractId: string, docType: string, page: Option<int>, chunkIndex: int): seq<string> {
    [contractId, docType] + (if page.Some? then ["p" + Pad3(page.value)] else []) + ["c" + Pad3(chunkIndex)]
  }

  /** The HTML metadata with every key prefixed by "meta_". */
  function Prefixed(html: Dict<Value>): (r: Dict<Value>)
    ensures |r| == |html|
    ensures forall i | 0 <= i < |html| :: r[i] == (MetaPrefix + html[i].0, html[i].1)
  {
    if html == [] then [] else [(MetaPrefix + html[0].0, html[0].1)] + Prefixed(html[1..])
  }

  const MetaPrefix: string := "meta_"

  /** The six fixed metadata fields of a chunk record. */
  function FixedMetadata(contractId: string, file: DocFile, page: Option<int>, chunkIndex: int): Dict<Value> {
    [("contract_id", Str(contractId)),
     ("document_type", Str(file.docType)),
     ("page", if page.Some? then Int(page.value) else Null),
     ("chunk_index", Int(chunkIndex)),
     ("source_file", Str(file.filename)),
     ("search_scope", Str(file.scope))]
  }

  /** A chunk's metadata: the fixed fields, then the prefixed HTML metadata. */
  function Metadata(contractId: string, file: DocFile, page: Option<int>, chunkIndex: int, html: Dict<Value>): Dict<Value> {
    FixedMetadata(contractId, file, page, chunkIndex) + Prefixed(html)
  }

  /** The record of chunk `k` of a page. */
  function ChunkRecord(contractId: string, file: DocFile, page: Option<int>, html: Dict<Value>,
                       k: int, chunk: string): EmbeddingRecord {
    EmbeddingRecord(Join(IdSep, IdParts(contractId, file.docType, page, k)), chunk,
                    Metadata(contractId, file, page, k, html))
  }

  /** The records of one page's chunks, indexed from 0 in chunk order. */
  function ChunkRecords(contractId: string, file: DocFile, page: Option<int>, html: Dict<Value>,
                        chunks: seq<string>): (rs: seq<EmbeddingRecord>)
    ensures |rs| == |chunks|
  {
    seq(|chunks|, k requires 0 <= k < |chunks| => ChunkRecord(contractId, file, page, html, k, chunks[k]))
  }

  /** A page with missing, empty or blank text gives no record; any other page its chunks'. */
  function PageRecords(contractId: string, file: DocFile, html: Dict<Value>, p: PageObject): seq<EmbeddingRecord> {
    if p.text == [] || IsBlank(p.text) then []
    else ChunkRecords(contractId, file, p.page, html, ChunkPageText(p.text, DefaultConfig))
  }

  function PagesRecords(contractId: string, file: DocFile, html: Dict<Value>, pages: seq<PageObject>): seq<EmbeddingRecord> {
    if pages == [] then []
    else PagesRecords(contractId, file, html, pages[..|pages| - 1])
         + PageRecords(contractId, file, html, pages[|pages| - 1])
  }

  /** The records of one document file of a contract; none when the file is missing. */
  function FileRecords(c: ContractDir, file: DocFile): seq<EmbeddingRecord> {
    if file.filename in c.files then PagesRecords(c.name, file, c.htmlMeta, PagesOf(c.files[file.filename]))
    else []
  }

  function FilesRecords(c: ContractDir, files: seq<DocFile>): seq<EmbeddingRecord> {
    if files == [] then [] else FilesRecords(c, files[..|files| - 1]) + FileRecords(c, files[|files| - 1])
  }

  /** A contract's records: nothing for an entry that is not a directory. */
  function ContractRecords(c: ContractDir): seq<EmbeddingRecord> {
    if c.isDir then FilesRecords(c, DocFiles) else []
  }

  /** The records of every contract directory, in listing order. */
  function AllRecords(contracts: seq<ContractDir>): seq<EmbeddingRecord> {
    if contracts == [] then []
    else AllRecords(contracts[..|contracts| - 1]) + ContractRecords(contracts[|contracts| - 1])
  }

  lemma FilesRecordsSnoc(c: ContractDir, files: seq<DocFile>, d: nat)
    requires d < |files|
    ensures FilesRecords(c, files[..d + 1]) == FilesRecords(c, files[..d]) + FileRecords(c, files[d])
  {
    assert files[..d + 1][..d] == files[..d];
  }

  lemma AllRecordsSnoc(contracts: seq<ContractDir>, i: nat)
    requires i < |contracts|
    ensures AllRecords(contracts[..i + 1]) == AllRecords(contracts[..i]) + ContractRecords(contracts[i])
  {
    assert contracts[..i + 1][..i] == contracts[..i];
  }

  // ===========================================================================
  // the generator, as a loop that collects what it yields

  /** `iter_embedding_records` over the listed contract directories. */
  method IterEmbeddingRecords(contracts: seq<ContractDir>) returns (records: seq<EmbeddingRecord>)
    ensures records == AllRecords(contracts)
  {
    records := [];
    for ci := 0 to |contracts|
      invariant records == AllRecords(contracts[..ci])
    {
      var c := contracts[ci];
      if c.isDir {
        var contractRecords := ContractDirRecords(c);
        records := records + contractRecords;
      }
      AllRecordsSnoc(contracts, ci);
    }
    assert contracts[..|contracts|] == contracts;
  }

  /** The document-files loop for one contract directory. */
  method ContractDirRecords(c: ContractDir) returns (records: seq<EmbeddingRecord>)
    requires c.isDir
    ensures records == ContractRecords(c)
  {
    records := [];
    for d := 0 to |DocFiles|
      invariant records == FilesRecords(c, DocFiles[..d])
    {
      var file := DocFiles[d];
      if file.filename in c.files {
        var fileRecords := DocumentRecords(c.name, file, c.htmlMeta, PagesOf(c.files[file.filename]));
        records := records + fileRecords;
      }
      FilesRecordsSnoc(c, DocFiles, d);
    }
    assert DocFiles[..|DocFiles|] == DocFiles;
  }

  /** The pages loop for one document file. */
  method DocumentRecords(contractId: string, file: DocFile, html: Dict<Value>, pages: seq<PageObject>)
    returns (records: seq<EmbeddingRecord>)
    ensures records == PagesRecords(contractId, file, html, pages)
  {
    records := [];
    for pi := 0 to |pages|
      invariant records == PagesRecords(contractId, file, html, pages[..pi])
    {
      var pageObj := pages[pi];
      if !(pageObj.text == [] || IsBlank(pageObj.text)) {
        var pageRecords := PageChunkRecords(contractId, file, html, pageObj.page, ChunkPageText(pageObj.text, DefaultConfig));
        records := records + pageRecords;
      }
      TakeSnoc(pages, pi);
    }
    assert pages[..|pages|] == pages;
  }

  /** The chunks loop for one page: builds each record's id parts and metadata. */
  method PageChunkRecords(contractId: string, file: DocFile, html: Dict<Value>, page: Option<int>, chunks: seq<string>)
    returns (records: seq<EmbeddingRecord>)
    ensures records == ChunkRecords(contractId, file, page, html, chunks)
  {
    records := [];
    for k := 0 to |chunks|
      invariant records == ChunkRecords(contractId, file, page, html, chunks)[..k]
    {
      var parts := [contractId, file.docType];
      if page.Some? {
        parts := parts + ["p" + Pad3(page.value)];
      }
      parts := parts + ["c" + Pad3(k)];
      var recordId := Join(IdSep, parts);
      var metadata := FixedMetadata(contractId, file, page, k) + Prefixed(html);
      assert parts == IdParts(contractId, file.docType, page, k);
      records := records + [EmbeddingRecord(recordId, chunks[k], metadata)];
      TakeSnoc(ChunkRecords(contractId, file, page, html, chunks), k);
    }
  }

  // ===========================================================================
  // properties

  /** The id has the page field exactly when the page is known; the loader reads back contract and type. */
  lemma RecordIdShape(contractId: string, docType: string, page: Option<int>, k: int)
    requires NoSep(contractId) && (contractId == [] || contractId[|contractId| - 1] != ':')
    requires docType in DocTypes
    ensures SplitSep(Join(IdSep, IdParts(contractId, docType, page, k))) == IdParts(contractId, docType, page, k)
    ensures var parts := IdParts(contractId, docType, page, k);
      |parts| == (if page.Some? then 4 else 3) && parts[0] == contractId && parts[1] == docType
  {
    if page.Some? {
      IdWithPage(contractId, docType, page.value, k);
    } else {
      IdWithoutPage(contractId, docType, k);
    }
  }

  lemma IdWithPage(contractId: string, docType: string, page: int, k: int)
    requires NoSep(contractId) && (contractId == [] || contractId[|contractId| - 1] != ':')
    requires docType in DocTypes
    ensures SplitSep(Join(IdSep, IdParts(contractId, docType, Some(page), k))) == IdParts(contractId, docType, Some(page), k)
  {
    DocTypeNoColon(docType);
    FieldNoColon('p', page);
    FieldNoColon('c', k);
    assert IdParts(contractId, docType, Some(page), k) == [contractId, docType, "p" + Pad3(page), "c" + Pad3(k)];
    FourFieldsRoundTrip(contractId, docType, "p" + Pad3(page), "c" + Pad3(k));
  }

  lemma IdWithoutPage(contractId: string, docType: string, k: int)
    requires NoSep(contractId) && (contractId == [] || contractId[|contractId| - 1] != ':')
    requires docType in DocTypes
    ensures SplitSep(Join(IdSep, IdParts(contractId, docType, None, k))) == IdParts(contractId, docType, None, k)
  {
    DocTypeNoColon(docType);
    FieldNoColon('c', k);
    assert IdParts(contractId, docType, None, k) == [contractId, docType, "c" + Pad3(k)];
    ThreeFieldsRoundTrip(contractId, docType, "c" + Pad3(k));
  }

  /** Three fields joined by the separator split back into the same three. */
  lemma ThreeFieldsRoundTrip(a: string, b: string, c: string)
    requires NoSep(a) && (a == [] || a[|a| - 1] != ':')
    requires ':' !in b && ':' !in c
    ensures SplitSep(Join(IdSep, [a, b, c])) == [a, b, c]
  {
    NoColonNoSep(b);
    NoColonNoSep(c);
    var parts := [a, b, c];
    assert SplittableParts(parts) by {
      assert parts[0] == a && parts[1] == b && parts[2] == c;
    }
    SplitSepJoin(parts);
  }

  /** The fixed fields read as built. */
  lemma MetadataFixedFields(contractId: string, file: DocFile, page: Option<int>, k: int, html: Dict<Value>)
    ensures var m := Metadata(contractId, file, page, k, html);
      && Get(m, "contract_id") == Some(Str(contractId))
      && Get(m, "document_type") == Some(Str(file.docType))
      && Get(m, "page") == Some(if page.Some? then Int(page.value) else Null)
      && Get(m, "chunk_index") == Some(Int(k))
      && Get(m, "source_file") == Some(Str(file.filename))
      && Get(m, "search_scope") == Some(Str(file.scope))
  {
    var m := Metadata(contractId, file, page, k, html);
    IndexOfAt(m, "contract_id", 0);
    IndexOfAt(m, "document_type", 1);
    IndexOfAt(m, "page", 2);
    IndexOfAt(m, "chunk_index", 3);
    IndexOfAt(m, "source_file", 4);
    IndexOfAt(m, "search_scope", 5);
  }

  /** Every HTML metadata key reads back under its "meta_" name. */
  lemma MetadataHtmlKey(contractId: string, file: DocFile, page: Option<int>, k: int, html: Dict<Value>, key: string)
    ensures Get(Metadata(contractId, file, page, k, html), MetaPrefix + key) == Get(html, key)
  {
    var m := Metadata(contractId, file, page, k, html);
    var i := IndexOf(html, key);
    var mk := MetaPrefix + key;
    assert mk[0] == 'm' && mk[1] == 'e';
    forall j | 0 <= j < 6 + i ensures m[j].0 != mk {
      if j >= 6 {
        PrefixInjective(html[j - 6].0, key);
      }
    }
    if i < |html| {
      assert m[6 + i] == (MetaPrefix + html[i].0, html[i].1);
    }
    IndexOfAt(m, mk, 6 + i);
  }

  lemma PrefixInjective(a: string, b: string)
    requires a != b
    ensures MetaPrefix + a != MetaPrefix + b
  {
    assert (MetaPrefix + a)[5..] == a && (MetaPrefix + b)[5..] == b;
  }

  /** No HTML key can overwrite a fixed field: with unique HTML keys, all keys are unique. */
  lemma MetadataKeysUnique(contractId: string, file: DocFile, page: Option<int>, k: int, html: Dict<Value>)
    requires UniqueKeys(html)
    ensures UniqueKeys(Metadata(contractId, file, page, k, html))
  {
    var m := Metadata(contractId, file, page, k, html);
    forall i, j | 0 <= i < j < |m| ensures m[i].0 != m[j].0 {
      if j >= 6 {
        var mj := m[j].0;
        assert mj == MetaPrefix + html[j - 6].0;
        assert mj[0] == 'm' && mj[1] == 'e';
        if i >= 6 {
          PrefixInjective(html[i - 6].0, html[j - 6].0);
        }
      }
    }
  }

  /** On one page, record `k` holds chunk `k` and says so in its `chunk_index`. */
  lemma ChunkRecordsIndexed(contractId: string, file: DocFile, html: Dict<Value>, p: PageObject, k: nat)
    requires !IsBlank(p.text)
    requires k < |ChunkPageText(p.text, DefaultConfig)|
    ensures var rs := PageRecords(contractId, file, html, p);
      && |rs| == |ChunkPageText(p.text, DefaultConfig)|
      && rs[k].text == ChunkPageText(p.text, DefaultConfig)[k]
      && Get(rs[k].metadata, "chunk_index") == Some(Int(k))
      && Get(rs[k].metadata, "page") == Some(if p.page.Some? then Int(p.page.value) else Null)
  {
    MetadataFixedFields(contractId, file, p.page, k, html);
  }

  /** A page whose text is missing or blank yields no record. */
  lemma BlankPageNoRecords(contractId: string, file: DocFile, html: Dict<Value>, p: PageObject)
    requires IsBlank(p.text)
    ensures PageRecords(contractId, file, html, p) == []
  {
  }

  /** Every record of a document file carries that file's type. */
  lemma {:induction false} PagesRecordsType(contractId: string, file: DocFile, html: Dict<Value>, pages: seq<PageObject>)
    ensures forall r | r in PagesRecords(contractId, file, html, pages) ::
      Get(r.metadata, "document_type") == Some(Str(file.docType))
  {
    if pages != [] {
      PagesRecordsType(contractId, file, html, pages[..|pages| - 1]);
      var p := pages[|pages| - 1];
      if !(p.text == [] || IsBlank(p.text)) {
        ChunkRecordsType(contractId, file, p.page, html, ChunkPageText(p.text, DefaultConfig));
      }
    }
  }

  lemma ChunkRecordsType(contractId: string, file: DocFile, page: Option<int>, html: Dict<Value>, chunks: seq<string>)
    ensures forall r | r in ChunkRecords(contractId, file, page, html, chunks) ::
      Get(r.metadata, "document_type") == Some(Str(file.docType))
  {
    forall k | 0 <= k < |chunks| {
      MetadataFixedFields(contractId, file, page, k, html);
    }
  }

  /** A contract's admin records all come before its technical ones; a missing file adds nothing. */
  lemma AdminBeforeTecnico(c: ContractDir)
    requires c.isDir
    ensures ContractRecords(c) == FileRecords(c, DocFiles[0]) + FileRecords(c, DocFiles[1])
    ensures forall r | r in FileRecords(c, DocFiles[0]) :: Get(r.metadata, "document_type") == Some(Str("pliego_admin"))
    ensures forall r | r in FileRecords(c, DocFiles[1]) :: Get(r.metadata, "document_type") == Some(Str("pliego_tecnico"))
    ensures DocFiles[0].filename !in c.files ==> ContractRecords(c) == FileRecords(c, DocFiles[1])
  {
    var admin := FileRecords(c, DocFiles[0]);
    var tecnico := FileRecords(c, DocFiles[1]);
    assert DocFiles[..1] == [DocFiles[0]] && DocFiles[..1][..0] == [];
    assert FilesRecords(c, DocFiles[..1]) == admin;
    assert DocFiles[..|DocFiles| - 1] == DocFiles[..1];
    assert FilesRecords(c, DocFiles) == admin + tecnico;
    if DocFiles[0].filename in c.files {
      PagesRecordsType(c.name, DocFiles[0], c.htmlMeta, PagesOf(c.files[DocFiles[0].filename]));
    } else {
      assert admin == [];
    }
    if DocFiles[1].filename in c.files {
      PagesRecordsType(c.name, DocFiles[1], c.htmlMeta, PagesOf(c.files[DocFiles[1].filename]));
    }
  }
}
