# Tender-document knowledge base: a Dafny model of its text core

The repository scrapes the Madrid regional public-procurement portal. It
collects contract pages and downloads each contract's tender documents (the
administrative and technical *pliegos*). It extracts their text page by page
and cuts every page into chunks for retrieval. It then embeds a sample of
those chunks and stores them in a vector database.

This project models the parts of that pipeline that decide *what text ends up
where*, and proves what they promise:

- **Chunking engine** (`Chunking`):
  - whitespace normalisation;
  - the segmenter, where a blank line or a clause/article heading closes a
    segment;
  - the greedy packer, which fills chunks up to `max_chars` with segment
    overlap and merges a short last chunk once;
  - the page facade that composes them.

  The segmenter and the packer are imperative in the source. Here they are
  methods with loops, each proved equal to a specification function. The
  properties are lemmas about those functions.
- **Filename sanitiser** (`Files`).
- **Contract-metadata rules** (`Models`): the duration in months, the
  harmonised-regulation flag and the contract-id clean-up.
- **Page loader** (`CorpusLoader`): the `PageChunk.id` format, its `"::"`
  round trip, and the record and page filters.
- **Corpus builder** (`CorpusBuilder`): record ids, per-page chunk numbering
  and `meta_`-prefixed metadata. It is modelled as nested loops over
  already-loaded contract directories.
- **Knowledge-base adapter** (`ChunkingAdapter`): one chunk record per chunk of
  each page, with its metadata overrides and fallbacks.
- **PDF text extractor** (`PdfTextExtractor`): per-page normalisation and page
  numbering over an abstract reader.
- **Listing scraper** (`Html`): link extraction, as `re.findall` scans, and the
  pagination accumulator over an abstract fetch.
- **Detail scraper** (`Detail`): the contract-id lookup.
- **Pipeline driver** (`Pipeline`): sample selection, the embedding-dimension
  check and the 32-point upsert batching.

Three helper modules serve the rest:

- `Wrappers`: `Option` and `Result`.
- `Strings`: ASCII whitespace, strip, split and join, decimal digits, and
  the non-whitespace characters of a text (`NonWs`), which every whitespace
  rewrite in the model is proved to keep.
- `Values`: JSON-like values, with dictionaries as ordered key/value lists
  because Python dictionaries keep insertion order.

Modelling conventions:

- Text is `seq<char>`, and lengths are `|s|`, as Python's `len` on `str`.
- Lines are separated by `'\n'`.
- Whitespace is space, tab and newline.
- Digits are ASCII.
- The heading keywords match with explicit upper/lower pairs (C, L, A/Á, U, S,
  R, T, I/Í, O).
- `\w` below U+0100 is an ASCII letter or digit, `_`, or a Latin-1 character
  for which `str.isalnum()` holds: the Latin-1 letters, `ª`, `µ`, `º`, the
  superscript digits `¹²³` and the fractions `¼½¾`.

## Model

| member | source | states |
|---|---|---|
| Chunking.IsHeading | project/src/embeddings/chunking.py:30-40 | defines the heading test: after optional leading whitespace, one of the keywords CLÁUSULA/CLAUSULA or ARTÍCULO/ARTICULO in either case, followed by the end of the line or a character that is not `\w`; its properties are the heading lemmas below |
| Chunking.HeadingUnindented | project/src/embeddings/chunking.py:33-37 | on a line that does not start with whitespace, the line is a heading exactly when it begins with a keyword followed by the end or a non-word character |
| Chunking.HeadingIndented | project/src/embeddings/chunking.py:33 | any run of leading whitespace leaves the verdict unchanged |
| Chunking.ClausulaHeading | project/src/embeddings/chunking.py:34 | "CLÁUSULA 1" is a heading |
| Chunking.ArticuloHeading | project/src/embeddings/chunking.py:36-39 | "artículo 2", in lower case, is a heading |
| Chunking.IndentedArticuloHeading | project/src/embeddings/chunking.py:33-39 | "  artículo 2", indented, is a heading |
| Chunking.ClausulasNotHeading | project/src/embeddings/chunking.py:37 | "CLAUSULAS" is not a heading: the keyword runs on into a letter, so there is no word boundary |
| Chunking.ArticuloUnderscoreNotHeading | project/src/embeddings/chunking.py:37 | "ARTICULO_3" is not a heading: `_` is a word character |
| Chunking.SuperscriptNotHeading | project/src/embeddings/chunking.py:37 | "CLAUSULA²" is not a heading: a superscript digit is a word character |
| Chunking.KeywordLaterNotHeading | project/src/embeddings/chunking.py:33 | "Ver cláusula 3" is not a heading: the keyword must open the line |
| Chunking.LineGroups | project/src/embeddings/chunking.py:98-115 | defines the segmenter's line groups: blank lines are dropped, and a non-blank right-stripped line opens a new group when it is first, follows a blank line or is a heading, and otherwise extends the last group; its properties are the LineGroups lemmas below |
| Strings.LStripWsPrefix | project/src/embeddings/chunking.py:33 | left-stripping looks through any run of whitespace in front of a text |
| Chunking.NormalizeWhitespace | project/src/embeddings/chunking.py:57-60 | the result has no tab, no two consecutive spaces, no run of three newlines and no leading or trailing whitespace; it keeps every non-whitespace character of the input, in order; and it is empty exactly when the input is blank |
| Chunking.NormalizeIdempotent | project/src/embeddings/chunking.py:57-60 | normalising twice gives the same text as normalising once |
| Chunking.ReplaceTabs | project/src/embeddings/chunking.py:58 | every tab becomes a space and every other character is kept, at the same position, so the non-whitespace text is unchanged |
| Chunking.CollapseSpaces | project/src/embeddings/chunking.py:59 | the result has no double space, keeps the first character, is empty only for empty input, and adds no character |
| Chunking.CollapseNewlines | project/src/embeddings/chunking.py:60 | the result has no triple newline, keeps the first character and introduces no double space |
| Chunking.ReplaceTabsIdentity | project/src/embeddings/chunking.py:58 | a text without tabs is left unchanged |
| Chunking.CollapseSpacesKeepsText | project/src/embeddings/chunking.py:59 | collapsing removes only spaces: the non-whitespace characters are kept, in order |
| Chunking.CollapseSpacesPrefix | project/src/embeddings/chunking.py:59 | text with no double space that does not end in a space comes through unchanged, ahead of whatever follows it |
| Chunking.CollapseSpacesRun | project/src/embeddings/chunking.py:59 | a run of spaces followed by a non-space (or the end) becomes exactly one space |
| Chunking.SpaceRunBecomesOne | project/src/embeddings/chunking.py:59 | one replacement: the text before a maximal run of spaces is kept, the run becomes one space, and the rest is collapsed in turn |
| Chunking.CollapseSpacesIdentity | project/src/embeddings/chunking.py:59 | a text without double spaces is left unchanged |
| Chunking.CollapseNewlinesKeepsText | project/src/embeddings/chunking.py:60 | collapsing removes only newlines: the non-whitespace characters are kept, in order |
| Chunking.CollapseNewlinesPrefix | project/src/embeddings/chunking.py:60 | text with no triple newline that does not end in a newline comes through unchanged, ahead of whatever follows it |
| Chunking.CollapseNewlinesRun | project/src/embeddings/chunking.py:60 | a run of three or more newlines followed by a non-newline (or the end) becomes exactly two; a run of one or two is kept |
| Chunking.NewlineRunCapped | project/src/embeddings/chunking.py:60 | one replacement: the text before a maximal run of newlines is kept, the run is capped at two, and the rest is collapsed in turn |
| Chunking.CollapseNewlinesIdentity | project/src/embeddings/chunking.py:60 | a text without triple newlines is left unchanged |
| Chunking.SplitIntoSegments | project/src/embeddings/chunking.py:83-117 | the loop over lines with its flush returns exactly the specification segments of the page |
| Chunking.WalkLines | project/src/embeddings/chunking.py:91-115 | the line loop returns the segment texts of the line groups |
| Chunking.SegmentsOf | project/src/embeddings/chunking.py:83-85 | there are no segments exactly when the page is blank (equivalently, when the normalised text is empty), and every segment is non-empty, stripped and free of blank lines |
| Chunking.SegmentsKeepText | project/src/embeddings/chunking.py:83-117 | the segments, read in order, hold exactly the non-whitespace characters of the raw page, in order: segmentation drops and reorders no text |
| Chunking.SegTextsKeepText | project/src/embeddings/chunking.py:93-97 | the segment texts hold the non-whitespace characters of their groups' lines, in order |
| Chunking.NonBlankLinesKeepText | project/src/embeddings/chunking.py:99-103 | right-trimming the lines and dropping the blank ones keeps all non-whitespace characters, in order |
| Chunking.TextSegments | project/src/embeddings/chunking.py:91-117 | on a stripped text, every segment is good, and there are no segments exactly when the text is empty |
| Chunking.SegmentsKeepLines | project/src/embeddings/chunking.py:98-115 | segment i holds the lines of group i, trimmed at its ends; the groups together are exactly the non-blank right-stripped lines, in order |
| Chunking.LineGroupsFlatten | project/src/embeddings/chunking.py:98-115 | concatenating the groups gives the non-blank right-stripped lines, each once and in order |
| Chunking.LineGroupsOpenings | project/src/embeddings/chunking.py:101-112 | the first line of each group is exactly a line that opens one: the first non-blank line, a line after a blank line, or a heading |
| Chunking.LineGroupsShape | project/src/embeddings/chunking.py:91-105 | every group is non-empty with good lines, and there are no groups exactly when there are no non-blank lines |
| Chunking.LineGroupsEmpty | project/src/embeddings/chunking.py:83-85 | there are no groups exactly when no line is non-blank |
| Chunking.LineGroupsNonEmpty | project/src/embeddings/chunking.py:91-96 | no group is empty |
| Chunking.SplitBlank | project/src/embeddings/chunking.py:101-105 | a blank line flushes the buffer and leaves it empty |
| Chunking.SplitHeading | project/src/embeddings/chunking.py:107-112 | a heading with a non-empty buffer flushes it and becomes the first line of the new buffer |
| Chunking.SplitExtend | project/src/embeddings/chunking.py:107-112 | any other non-blank line, or a heading with an empty buffer, is appended to the buffer |
| Chunking.SplitFlushed | project/src/embeddings/chunking.py:115 | the final flush yields the segment texts of all groups |
| Chunking.FlushLast | project/src/embeddings/chunking.py:91-96 | flushing the last group appends its segment text |
| Chunking.SegTextLines | project/src/embeddings/chunking.py:91-96 | a flushed segment is its lines, trimmed at the ends and joined by newlines; its lines are those lines, and it is a good segment |
| Chunking.SegTextsAt | project/src/embeddings/chunking.py:91-96 | segment i is the flushed text of group i |
| Chunking.StripNormalForm | project/src/embeddings/chunking.py:57-60 | stripping keeps the normal form |
| Chunking.BuildChunksFromSegments | project/src/embeddings/chunking.py:146-194 | the packing loop, the final close and the in-place merge return exactly the specification chunks |
| Chunking.ChunksOf | project/src/embeddings/chunking.py:149-192 | no segments give no chunks; otherwise every chunk is non-empty and stripped, there are at most as many chunks as segments, and good segments give at least one chunk |
| Chunking.Pack | project/src/embeddings/chunking.py:155-179 | defines the buffers of the greedy pass: a segment joins the current buffer unless the buffer is non-empty and the joined length would exceed max_chars, in which case a new buffer starts with the overlap and that segment; its properties are the Pack lemmas below |
| Chunking.PackGrow | project/src/embeddings/chunking.py:177-179 | a segment that fits is appended to the last buffer, and every earlier buffer is unchanged |
| Chunking.PackClose | project/src/embeddings/chunking.py:165-177 | a segment that does not fit closes the buffer and opens a new one: the overlap, then that segment |
| Chunking.PackCount | project/src/embeddings/chunking.py:149-150 | there are no buffers exactly when there are no segments, and never more buffers than segments |
| Chunking.PackOwnNonEmpty | project/src/embeddings/chunking.py:155-179 | every buffer adds at least one new segment, and the first buffer carries nothing over |
| Chunking.PackOverlap | project/src/embeddings/chunking.py:170-177 | each buffer after the first begins with the overlap of the previous buffer's contents |
| Chunking.Overlap | project/src/embeddings/chunking.py:170-176 | the overlap is the last min(k, \|buffer\|) segments of the buffer, and empty when k <= 0 |
| Chunking.PackFlatten | project/src/embeddings/chunking.py:155-179 | the new segments of the buffers, concatenated, are exactly the input segments: none is split, dropped or reordered |
| Chunking.PackClosesOnOverflow | project/src/embeddings/chunking.py:155-168 | a buffer is closed only when adding the next segment, with the separator, would exceed max_chars |
| Chunking.PackFits | project/src/embeddings/chunking.py:155-161 | each segment added to an open buffer kept its joined length within max_chars |
| Chunking.PackDrawsFrom | project/src/embeddings/chunking.py:155-179 | every segment in any buffer is one of the input segments |
| Chunking.JoinedLengthIsLength | project/src/embeddings/chunking.py:155-161 | the length the loop computes is the length of the joined text |
| Chunking.PreMergeChunks | project/src/embeddings/chunking.py:163-185 | every chunk before the merge is non-empty and stripped, with at most one chunk per buffer |
| Chunking.PreMergeKeepsAll | project/src/embeddings/chunking.py:163-185 | when every buffer has good segments, no chunk is dropped as empty: the chunks are the joined buffers |
| Chunking.JoinStripped | project/src/embeddings/chunking.py:165-168 | joining good segments gives a non-empty stripped text |
| Chunking.MergeTail | project/src/embeddings/chunking.py:187-192 | the merge removes at most one chunk, and removes one exactly when there are at least two chunks and the last is shorter than min_chars |
| Chunking.MergeOnce | project/src/embeddings/chunking.py:187-192 | with at least two chunks and a last chunk shorter than min_chars, there is one chunk fewer, earlier chunks are kept, and the new last chunk is prev + "\n\n" + last; otherwise nothing changes |
| Chunking.MergeTailKeepsShape | project/src/embeddings/chunking.py:187-192 | the merge keeps every chunk non-empty and stripped, never adds a chunk, and never empties a non-empty list |
| Chunking.PackKeepsSomething | project/src/embeddings/chunking.py:163-185 | good segments give at least one chunk before the merge |
| Chunking.ChunksAreJoinedBuffers | project/src/embeddings/chunking.py:146-192 | for good segments, the chunks are the merge of the joined buffers |
| Chunking.PackedClose | project/src/embeddings/chunking.py:165-177 | a close appends the stripped buffer text and restarts the buffer with the overlap and the segment |
| Chunking.PackedFit | project/src/embeddings/chunking.py:177-179 | a segment that fits, or any segment with an empty buffer, is appended |
| Chunking.PackedDone | project/src/embeddings/chunking.py:182-192 | after the loop the buffer is non-empty, and closing it and merging gives the specification chunks |
| Chunking.ChunkPageText | project/src/embeddings/chunking.py:221-224 | there are no chunks exactly when the page is blank (equivalently, when the normalised page is empty); otherwise the chunks are the packer's output on the page's segments, all non-empty and stripped, and at most one per segment |
| Chunking.SingleSegmentOneChunk | project/src/embeddings/chunking.py:146-192 | a single segment becomes a single chunk equal to it |
| Chunking.SingleLinePageOneChunk | project/src/embeddings/chunking.py:221-224 | a page whose normalised text has no line break becomes one chunk, the normalised text |
| Chunking.PackTwoOverflowing | project/src/embeddings/chunking.py:165-177 | two segments that do not fit together make two buffers, and the second carries the overlap |
| Chunking.PackThreeOverflowing | project/src/embeddings/chunking.py:165-177 | three segments with overflowing neighbours make three buffers, each carrying the overlap of the previous one |
| Chunking.OverlapRepeatsSegments | project/src/embeddings/chunking.py:170-177 | with overlap 1, segments a, b, c that overflow pairwise give the chunks a, a+b and b+c: each segment is repeated in the next chunk |
| Chunking.MergeCanExceedMax | project/src/embeddings/chunking.py:187-192 | the merge is not re-checked against max_chars: the merged chunk can be longer than max_chars |
| Chunking.MergeNotRepeated | project/src/embeddings/chunking.py:187-192 | the merge happens once: the final chunk can still be shorter than min_chars after it |
| Files.SafeFilename | project/src/scraper/files.py:12-16 | None or "" gives "unknown"; the result is never empty, uses only ASCII letters, digits, '.', '_' and '-', and neither starts nor ends with '_' |
| Files.ReplaceRuns | project/src/scraper/files.py:16 | the substitution leaves only allowed characters, never lengthens the text, and keeps a text with an allowed first character non-empty |
| Files.MaximalRunOneUnderscore | project/src/scraper/files.py:16 | a maximal run of disallowed characters between allowed text becomes a single '_' |
| Files.ReplaceRunsPrefix | project/src/scraper/files.py:16 | allowed characters are kept in order |
| Files.ReplaceRunsAllowed | project/src/scraper/files.py:16 | a text of allowed characters is unchanged by the substitution |
| Files.StripUnderscores | project/src/scraper/files.py:16 | the result is the slice of the input that starts right after its leading underscores, and every character after that slice is '_'; it neither starts nor ends with '_', and it is empty exactly when the input is only underscores |
| Files.SafeFilenameTrimsEnds | project/src/scraper/files.py:16 | a name made of allowed characters, not starting or ending with '_', with runs of disallowed characters in front of it and behind it, sanitises to exactly that core |
| Files.ReplaceRunsAround | project/src/scraper/files.py:16 | the substitution turns a leading and a trailing run of disallowed characters into one '_' each and keeps the allowed core between them |
| Files.CoreThenRun | project/src/scraper/files.py:16 | allowed text followed by a run of disallowed characters becomes that text plus one '_' |
| Files.StripAround | project/src/scraper/files.py:16 | stripping removes exactly the underscores around a core that neither starts nor ends with '_' |
| Files.SafeFilenameIdempotent | project/src/scraper/files.py:12-16 | sanitising a sanitised name changes nothing |
| Files.SafeNameKept | project/src/scraper/files.py:12-16 | a name that is already safe is returned unchanged |
| Files.NothingAllowedIsUnknown | project/src/scraper/files.py:16 | a name made only of disallowed characters and underscores falls back to "unknown" |
| Models.ParseDurationMonths | project/src/contracts/models.py:34-42 | None or "" gives None; a text without a digit gives None; otherwise the result is the value of the first maximal run of digits |
| Models.FirstDigitRunUnique | project/src/contracts/models.py:41 | the first maximal run of digits is unique, so the value is well defined |
| Models.DurationIgnoresRest | project/src/contracts/models.py:41-42 | text after the first digit run, once a non-digit ends it, does not change the result |
| Models.DurationOfDigits | project/src/contracts/models.py:41-42 | a text of digits gives its own value |
| Models.Harmonized | project/src/contracts/models.py:98-99 | the flag is true exactly when the value is present and its trimmed, lower-cased form is one of "sí", "si", "yes", "y"; a missing key gives false |
| Models.HarmonizedAccepts | project/src/contracts/models.py:98-99 | " SÍ " and "Yes" are accepted |
| Models.HarmonizedRejects | project/src/contracts/models.py:98-99 | "No" and a missing value are rejected |
| Models.NormalizeContractId | project/src/contracts/models.py:153-159 | a missing or blank id gives "unknown"; otherwise the result is the stripped id; it is never empty and always stripped |
| Models.NormalizeContractIdIdempotent | project/src/contracts/models.py:153-159 | normalising twice gives the same id as normalising once |
| CorpusLoader.PageChunk.Id | project/src/knowledge_base/corpus_loader.py:20-28 | the id is contract id, doc type, "p" + page and "c" + chunk, joined by "::" |
| CorpusLoader.Pad3 | project/src/knowledge_base/corpus_loader.py:26-27 | a number 0..999 becomes exactly three digits with its value; larger numbers keep all their digits; a negative number gets a sign, and its digits are zero-padded so that sign and digits fill three characters (`-5` becomes "-05") |
| CorpusLoader.IdFieldWidth | project/src/knowledge_base/corpus_loader.py:26-27 | for 0..999 the page field is "p" plus three digits |
| CorpusLoader.PageChunkIdRoundTrip | project/src/knowledge_base/corpus_loader.py:23-25 | for a contract id with no "::" inside and no trailing ':', and a doc type that is a pliego type: splitting the id on "::" gives four parts, and parts 0 and 1 are the contract id and the doc type, as the loader reads them back |
| CorpusLoader.SplitSep | project/src/knowledge_base/corpus_loader.py:70 | `str.split("::")` always gives at least one piece |
| CorpusLoader.JoinSplitSep | project/src/knowledge_base/corpus_loader.py:70 | joining the pieces with "::" gives the id back, and no piece contains "::" |
| CorpusLoader.SplitSepFirst | project/src/knowledge_base/corpus_loader.py:70-75 | when the id has a "::", the piece before the first one has no "::" and no trailing ':' |
| CorpusLoader.BaseMetadataKeys | project/src/knowledge_base/corpus_loader.py:92-97 | the base metadata's four keys are distinct |
| CorpusLoader.SplitSepJoin | project/src/knowledge_base/corpus_loader.py:70 | splitting on "::" undoes joining with "::" when no field contains "::" or ends in ':' |
| CorpusLoader.FourFieldsRoundTrip | project/src/knowledge_base/corpus_loader.py:70-75 | a four-field id splits back into its fields |
| CorpusLoader.RecordSkipped | project/src/knowledge_base/corpus_loader.py:70-83 | a record whose id has fewer than 2 parts, whose doc type is not a pliego, or whose text is empty yields no pages |
| CorpusLoader.KeptPages | project/src/knowledge_base/corpus_loader.py:99-112 | the filter yields at most one page per page of the document |
| CorpusLoader.RecordPages | project/src/knowledge_base/corpus_loader.py:69-112 | defines the pages of one record: none when the id has fewer than two "::" pieces, the doc type is not a pliego type, the text is empty or it does not decode; otherwise the kept pages with the record's contract id, doc type and base metadata; see RecordSkipped and RecordPagesWellFormed |
| CorpusLoader.LoadPages | project/src/knowledge_base/corpus_loader.py:57-112 | defines the loader's output: the pages of every decoded line, in file order; see LoadPagesAppend and LoadedPagesWellFormed |
| CorpusLoader.KeptPagesMembers | project/src/knowledge_base/corpus_loader.py:99-112 | a page is yielded exactly when it has a page number and non-blank text, with the record's contract id, doc type and base metadata |
| CorpusLoader.KeptPagesAppend | project/src/knowledge_base/corpus_loader.py:99-112 | pages are yielded in page order |
| CorpusLoader.LoadPagesAppend | project/src/knowledge_base/corpus_loader.py:57-112 | pages are yielded in record order |
| CorpusLoader.LoadedPagesWellFormed | project/src/knowledge_base/corpus_loader.py:57-112 | every yielded page has a pliego doc type, non-blank text and a contract id that splits back out of a chunk id; its base metadata has distinct keys and records its contract id and doc type |
| CorpusLoader.RecordPagesWellFormed | project/src/knowledge_base/corpus_loader.py:69-112 | the same, for the pages of one record |
| CorpusBuilder.IterEmbeddingRecords | project/src/embeddings/corpus_builder.py:64-144 | the loop over contract directories returns the records of every contract, in order |
| CorpusBuilder.ContractDirRecords | project/src/embeddings/corpus_builder.py:86-144 | the loop over the two document files returns the contract's records |
| CorpusBuilder.DocumentRecords | project/src/embeddings/corpus_builder.py:107-144 | the loop over pages returns the records of every page |
| CorpusBuilder.PageChunkRecords | project/src/embeddings/corpus_builder.py:120-144 | the loop over chunks returns one record per chunk |
| CorpusBuilder.PagesOf | project/src/embeddings/corpus_builder.py:99-102 | non-list document data is a single page with no page number |
| CorpusBuilder.Prefixed | project/src/embeddings/corpus_builder.py:137 | every HTML metadata key is prefixed with "meta_", in order, with its value |
| CorpusBuilder.IdParts | project/src/embeddings/corpus_builder.py:121-126 | defines the record id fields: contract id, document type, "p" and the padded page when there is a page, and "c" and the padded chunk index; see RecordIdShape |
| CorpusBuilder.Metadata | project/src/embeddings/corpus_builder.py:129-138 | defines a record's metadata: the six fixed fields, then the HTML metadata with prefixed keys; see MetadataFixedFields, MetadataHtmlKey and MetadataKeysUnique |
| CorpusBuilder.RecordIdShape | project/src/embeddings/corpus_builder.py:121-127 | the id has four "::" fields with a page and three without, contract id and doc type first, and splitting it on "::" gives its fields back |
| CorpusBuilder.ChunkRecordsIndexed | project/src/embeddings/corpus_builder.py:115-144 | a page gives one record per chunk; record k has chunk k's text, chunk index k and the page |
| CorpusBuilder.BlankPageNoRecords | project/src/embeddings/corpus_builder.py:111-112 | a missing, empty or whitespace-only page gives no records |
| CorpusBuilder.MetadataFixedFields | project/src/embeddings/corpus_builder.py:129-135 | the six fixed fields read back as the contract id, document type, page, chunk index, file name and scope, whatever the HTML metadata holds |
| CorpusBuilder.MetadataHtmlKey | project/src/embeddings/corpus_builder.py:136-137 | each HTML metadata key reads back under "meta_" + key |
| CorpusBuilder.MetadataKeysUnique | project/src/embeddings/corpus_builder.py:129-138 | no key of the record's metadata is repeated, so no HTML key overwrites a fixed field |
| CorpusBuilder.ChunkRecordsType | project/src/embeddings/corpus_builder.py:129-131 | every record of a file carries that file's document type |
| CorpusBuilder.PagesRecordsType | project/src/embeddings/corpus_builder.py:107-138 | every record of a document carries its document type |
| CorpusBuilder.AdminBeforeTecnico | project/src/embeddings/corpus_builder.py:86-92 | a contract's records are the admin file's, then the technical file's; a missing file contributes nothing |
| ChunkingAdapter.IterPageChunksForKb | project/src/knowledge_base/chunking_adapter.py:31-68 | the loop over pages and chunks returns the chunk records of every page, in order |
| ChunkingAdapter.ChunksOfPage | project/src/knowledge_base/chunking_adapter.py:48-68 | the loop over one page's chunks returns that page's chunk records |
| ChunkingAdapter.PageChunks | project/src/knowledge_base/chunking_adapter.py:43-48 | a page gives exactly one record per chunk of its text |
| ChunkingAdapter.PageChunksIndexed | project/src/knowledge_base/chunking_adapter.py:48-68 | record k has chunk index k and chunk k's text, with the page's contract id, doc type and page number |
| ChunkingAdapter.HtmlMeta | project/src/knowledge_base/chunking_adapter.py:39 | defines the contract's HTML metadata: what the loader returns, or the empty dictionary when it returns nothing |
| ChunkingAdapter.ChunkMetadata | project/src/knowledge_base/chunking_adapter.py:50-60 | defines a chunk's metadata as the base metadata with the six overrides set; see ChunkMetadataFields and ChunkMetadataKept |
| ChunkingAdapter.ChunkMetadataFields | project/src/knowledge_base/chunking_adapter.py:50-60 | page number and chunk index override base keys; community, year and title take the English key, falling back to the Spanish key when it is missing or falsy; html_metadata is the HTML dictionary |
| ChunkingAdapter.ChunkMetadataKept | project/src/knowledge_base/chunking_adapter.py:50-51 | every other base key keeps its value |
| ChunkingAdapter.OverridesKeys | project/src/knowledge_base/chunking_adapter.py:52-59 | the six override keys are distinct and in the source's order |
| ChunkingAdapter.OverriddenRead | project/src/knowledge_base/chunking_adapter.py:50-60 | an override key reads back its override value |
| ChunkingAdapter.NotOverriddenRead | project/src/knowledge_base/chunking_adapter.py:50-51 | any other key reads back the base value |
| ChunkingAdapter.IdentityKeysKept | project/src/knowledge_base/chunking_adapter.py:50-60 | "contract_id" and "doc_type" are not overridden |
| ChunkingAdapter.PagesKeepIdentity | project/src/knowledge_base/chunking_adapter.py:31-68 | for pages with a pliego doc type, a contract id with no "::" and no trailing ':', and base metadata with distinct keys that records both: every chunk keeps the doc type, its metadata records its own contract id and doc type, and its id splits back into them |
| ChunkingAdapter.LoadedChunksKeepIdentity | project/src/knowledge_base/chunking_adapter.py:31-68 | the same for every chunk of the pages the loader yields, with no hypothesis: loaded pages always meet it |
| ChunkingAdapter.ChunkIdRoundTrip | project/src/knowledge_base/chunking_adapter.py:62-68 | for a page whose contract id has no "::" and no trailing ':' and whose doc type is a pliego type, a chunk's id splits back into the page's contract id and doc type |
| PdfTextExtractor.ExtractTextFromFile | project/src/extractor/pdf_text_extractor.py:85-112 | a reader that fails, or the first page that fails, is an error with no result; otherwise page i has number i and the normalised text of reader page i, and num_pages is the number of pages |
| PdfTextExtractor.NormalizePage | project/src/extractor/pdf_text_extractor.py:100-104 | the page text is stripped, no line ends in whitespace, and every non-whitespace character of the raw page is kept, in order |
| PdfTextExtractor.RStripAllKeepsText | project/src/extractor/pdf_text_extractor.py:101-102 | right-trimming every line keeps the non-whitespace characters of the lines, in order |
| PdfTextExtractor.NormalizeFixedPoint | project/src/extractor/pdf_text_extractor.py:100-104 | a page is unchanged exactly when it is stripped and no line ends in whitespace |
| PdfTextExtractor.NormalizeIdempotent | project/src/extractor/pdf_text_extractor.py:100-104 | normalising twice gives the same text as normalising once |
| PdfTextExtractor.PageEmptyIffBlank | project/src/extractor/pdf_text_extractor.py:94-104 | a page normalises to "" exactly when it has no text or only whitespace |
| PdfTextExtractor.ExtractedPagesClean | project/src/extractor/pdf_text_extractor.py:92-106 | every extracted page has its index as page number and normalised text, and a page without text is "" |
| PdfTextExtractor.FirstFailure | project/src/extractor/pdf_text_extractor.py:92-98 | every page before the first failing page extracts |
| Html.ExtractContractLinks | project/src/scraper/html.py:21-28 | the links are strictly ascending, so there are no duplicates |
| Html.ExtractContractLinksHolds | project/src/scraper/html.py:26-28 | the links are exactly the site URL plus each path the scan finds |
| Html.LinksAreValid | project/src/scraper/html.py:26-28 | every link is the site URL plus a path that starts with /contrato-publico/, has at least one more character and has no '"' |
| Html.MatchGivesLink | project/src/scraper/html.py:26-28 | every href="/contrato-publico/…" occurrence outside an earlier match contributes its URL |
| Html.FindAll | project/src/scraper/html.py:26-27 | every path the scan returns starts with /contrato-publico/, has at least one more character and contains no '"' |
| Html.FindAllSound | project/src/scraper/html.py:26-27 | every path found is the group of a match in the HTML |
| Html.FindAllComplete | project/src/scraper/html.py:26-27 | every match that does not start inside an earlier match is found |
| Html.OverlapOnlyAtHref | project/src/scraper/html.py:26-27 | a match can start inside an earlier match only when that earlier path ends in href=, right before its closing quote |
| Html.SortedUnique | project/src/scraper/html.py:28 | two strictly ascending lists with the same elements are equal, so the sorted list is determined by the set |
| Html.PaginateContractLinks | project/src/scraper/html.py:40-67 | the crawl visits the pages the stop rule allows and returns the strictly ascending union of their links |
| Html.Visits | project/src/scraper/html.py:51-63 | pages are visited from 0 upward, and none once max_pages is reached |
| Html.VisitsBound | project/src/scraper/html.py:51 | at most max_pages pages are visited |
| Html.VisitsNonEmptyBefore | project/src/scraper/html.py:61-63 | with stop_when_empty, every visited page before the last one yielded links |
| Html.VisitsStopsEarly | project/src/scraper/html.py:61-63 | stopping before max_pages happens only with stop_when_empty, right after an empty page |
| Html.UnionNext | project/src/scraper/html.py:57 | adding a page's links extends the union by that page |
| Html.SortedFromSet | project/src/scraper/html.py:67 | sorting the set gives a strictly ascending list of exactly its elements |
| Detail.GetContractIdFromMetadata | project/src/scraper/detail.py:78-86 | None exactly when no entry has a file-number key and a non-empty value; otherwise the non-empty value of such an entry |
| Detail.FirstIdEntryWins | project/src/scraper/detail.py:83-85 | the first accepted entry in order is returned, whatever follows |
| Detail.SkipsEmptyValue | project/src/scraper/detail.py:84 | a file-number key with a missing or empty value is skipped and the search goes on |
| Detail.LabelsAccepted | project/src/scraper/detail.py:84 | either label is accepted anywhere inside the key |
| Pipeline.SelectFirstContracts | project/main.py:37-55 | the result is the set of the first n distinct ids in line order, and has at most n elements |
| Pipeline.Dedup | project/main.py:43-52 | the collected ids are never more than the ids read, and some id is collected as soon as one is read |
| Pipeline.FirstDistinct | project/main.py:43-55 | the selection is a prefix of the distinct ids in line order, with at most n of them (none when n <= 0) |
| Pipeline.DedupDistinct | project/main.py:51-52 | the list of collected ids has no repeats |
| Pipeline.DedupElems | project/main.py:51-52 | every id read is collected, and nothing else |
| Pipeline.DedupPrefix | project/main.py:46-52 | ids collected from a prefix of the file are a prefix of those from the whole file |
| Pipeline.SelectsAllWhenFew | project/main.py:43-55 | with n > 0 and at most n distinct ids, all of them are selected |
| Pipeline.SelectionGrows | project/main.py:43-55 | reading more lines never loses a selected id |
| Pipeline.EmbedText | project/main.py:87-93 | the vector is accepted exactly when its length is 1536; otherwise the error records the length |
| Pipeline.VectorizeSampleKb | project/main.py:122-169 | only selected records are embedded; every batch in the loop has 32 points; the final flush has fewer than 32 (an empty one is not sent); on success the batches and the final flush are exactly the selected records' points in file order, and the total is their number; at a bad vector the run stops with its error and no final flush |
| Pipeline.BatchesSplitPoints | project/main.py:147-169 | batch i is points 32i to 32i+32, there are \|points\| / 32 batches, and the final flush is the rest |
| Pipeline.SelectedExactly | project/main.py:133-134 | a record is embedded exactly when its contract id is selected |
| Pipeline.SentVectorsHaveDim | project/main.py:136 | every upserted vector has 1536 entries |
| Pipeline.FirstBadRecord | project/main.py:133-136 | every selected record before the first bad one has a 1536-entry vector |
| Values.SetAllGet | project/src/knowledge_base/chunking_adapter.py:50-60 | a dictionary literal that spreads a base and then sets keys reads each set key's new value and every other key's base value, with no key repeated |

## Left out

- CorpusLoader.PageChunkIdRoundTrip holds only for a contract id with no "::" inside and no trailing ':'. The loader takes only the piece before the first "::" of a record id as the contract id (project/src/knowledge_base/corpus_loader.py:70-74), so it would not recover any other contract id from a chunk id. Every page the loader yields meets this condition (CorpusLoader.LoadedPagesWellFormed), so for loaded pages the round trip holds without a hypothesis (ChunkingAdapter.LoadedChunksKeepIdentity).
- Python default arguments are explicit. A `config` of `None` (or the adapter's `DEFAULT_CHUNK_CONFIG`) is `Chunking.DefaultConfig`, which the corpus builder passes. `paginate_contract_links`'s `max_pages=20` and `stop_when_empty=True` are the parameters `maxPages` and `stopWhenEmpty` of Html.PaginateContractLinks. `select_first_contracts`'s `n=3` is the parameter `n` of Pipeline.SelectFirstContracts.
- Network access is left out. Fetching a listing page is a function parameter of `Html.PaginateContractLinks`. `fetch_html` and `update_page` (URL query rewriting) are not modelled, and neither is `download_pdf`.
- `BASE_URL` comes from `scraper/config.py`, which is not part of this model. It is the `site` parameter of the link extraction.
- Html.PaginateContractLinks also returns the number of pages it visited. The source only prints that number, and the extra result is there so the contract can state which pages were visited.
- Printing, logging and `time.sleep` have no effect on results and are not modelled.
- Embedding vectors are lists of floats in the source. Here they are `seq<real>`, and only their length matters.
- `parse_amount` (floating point) and `parse_deadline` (`dateparser`) are not modelled.
- Models.Harmonized models the harmonized flag only. The other fields that `from_raw` copies are plain dictionary reads, and pydantic validation is left out.
- Python's Unicode corner cases are not modelled: extra line separators in `splitlines`, Unicode whitespace in `strip`, Unicode digits in `\d`, `\w` word characters above U+00FF (letters and digits of other scripts) and full case folding. The conventions above replace them. Chunking.IsHeading therefore treats a keyword followed by, say, a Greek letter as a heading, where Python's regex would not.
- JSON and `ast.literal_eval` decoding are left out. Records and parsed pliego objects are inputs, and a line or text field that fails to parse is an absent value. A record missing a field the source indexes directly (a `KeyError`) is not modelled.
- The corpus builder's directory listing, `exists` checks and JSON loading are left out. Contract directories arrive as values listing their files and decoded documents, and a missing or corrupt `html_metadata.json` is an empty dictionary.
- CorpusBuilder.IterEmbeddingRecords does not model the abort on a corrupt document file. `load_json` of a `pliego_*_text.json` file is not guarded (project/src/embeddings/corpus_builder.py:94), so a file that fails to decode raises and ends the whole run; here documents arrive already decoded.
- CorpusLoader.LoadPages does not model the exceptions raised on data that decodes but has the wrong shape (project/src/knowledge_base/corpus_loader.py:69, 91, 100-109). A JSON record or `literal_eval` result that is not a dictionary raises AttributeError at `.get`. A `page_number` that is a non-numeric string raises ValueError at `int()`. A float `page_number` is truncated by `int()`. Records and pliego objects are typed values here, and page numbers are integers.
- Models.ParseDurationMonths reads a digit run of any length. Python 3.11 and later raise ValueError when `int()` parses more than 4300 digits (project/src/contracts/models.py:41-42). That limit is an interpreter setting, not part of the parser's logic.
- CorpusLoader.Pad3 formats a number of any size. `:03d` raises ValueError beyond 4300 digits on Python 3.11 and later (project/src/knowledge_base/corpus_loader.py:26-27).
- CorpusBuilder.IdParts pads page and chunk numbers of any size, for the same reason (project/src/embeddings/corpus_builder.py:124-126).
- The HTML-metadata loader of the adapter (`load_contract_html_metadata`, cached, over the filesystem) is a function parameter.
- PyPDF2's page decoding is an input: a reader is a sequence of pages, each giving text, no text, or a failure. The error message text is not modelled.
- PdfTextExtractor.ExtractTextFromFile covers `extract_text_from_file` only. The bytes and path wrappers around it are not modelled.
- Pipeline.VectorizeSampleKb returns the upsert calls as batches instead of sending them to the vector store. `recreate_collection` and the count check after the loop are not modelled.
- Pipeline.EmbedText models only the dimension check on the vector the embedding service returns. The service itself is the parameter `embed` of the batching loop.
- Pipeline.SelectFirstContracts reads the contract ids of the lines as a sequence. JSON decoding and the `payload` lookup are left out.
- `extract_pliego_pdfs_from_soup` and `process_contract_detail` (BeautifulSoup), `html_metadata.py`, `storage.py`, `payload_loader.py`, `prepare_kb.py`, `build_embeddings.py` and the `wikiagent` course code are not part of this model.
