/**
 * The knowledge-base corpus loader: the `PageChunk` record and its id format,
 * Python's `"::"` split that reads an id back, and the record and page filter
 * of `iter_pliego_page_texts` over records that are already decoded.
 */
module CorpusLoader {
  import opened Wrappers
  import opened Strings
  import opened Values

  // ===========================================================================
  // f"{n:03d}"

  function Zeros(n: nat): (r: string)
    ensures |r| == n && AllDigits(r) && DecimalValue(r) == 0
  {
    if n == 0 then [] else Zeros(n - 1) + "0"
  }

  /** `s` left-padded with '0' to `width` characters; a longer `s` is kept whole. */
  function ZeroPad(s: string, width: nat): (r: string)
    ensures |r| == if |s| < width then width else |s|
  {
    if |s| < width then Zeros(width - |s|) + s else s
  }

  /** `f"{n:03d}"`: at least three characters, zero-padded after the sign, never truncated. */
  function Pad3(n: int): (r: string)
    ensures n >= 0 ==> AllDigits(r) && DecimalValue(r) == n
    ensures 0 <= n < 1000 ==> |r| == 3
    ensures n >= 1000 ==> r == Decimal(n)
    ensures n < 0 ==> r != [] && r[0] == '-' && AllDigits(r[1..]) && DecimalValue(r[1..]) == -n
    ensures n < 0 ==> |r| == if |Decimal(-n)| < 2 then 3 else 1 + |Decimal(-n)|
    ensures |r| >= 3
  {
    if n >= 0 then
      var d := Decimal(n);
      DecimalLength(n);
      PaddedValue(d, 3);
      ZeroPad(d, 3)
    else
      var d := Decimal(-n);
      PaddedValue(d, 2);
      var r := "-" + ZeroPad(d, 2);
      assert r[1..] == ZeroPad(d, 2);
      r
  }

  /** Padding with zeros keeps the digits and their value. */
  lemma PaddedValue(d: string, width: nat)
    requires AllDigits(d)
    ensures AllDigits(ZeroPad(d, width)) && DecimalValue(ZeroPad(d, width)) == DecimalValue(d)
  {
    if |d| < width {
      ZerosThenDigits(width - |d|, d);
    }
  }

  lemma {:induction false} ZerosThenDigits(n: nat, d: string)
    requires AllDigits(d)
    ensures AllDigits(Zeros(n) + d) && DecimalValue(Zeros(n) + d) == DecimalValue(d)
    decreases |d|
  {
    var z := Zeros(n);
    assert AllDigits(z + d);
    if d != [] {
      var init := d[..|d| - 1];
      ZerosThenDigits(n, init);
      assert (z + d)[..|z + d| - 1] == z + init;
    } else {
      assert z + d == z;
    }
  }

  // ===========================================================================
  // PageChunk and its id

  /** The document types the loader keeps. */
  const DocTypes: set<string> := {"pliego_admin", "pliego_tecnico"}

  /** The id separator. */
  const IdSep: string := "::"

  /** One chunk of one page of one document, as the knowledge base stores it. */
  datatype PageChunk = PageChunk(
    contractId: string,
    docType: string,
    pageNumber: int,
    chunkIndex: int,
    text: string,
    metadata: Dict<Value>)
  {
    /** `PageChunk.id`: contract, type, "p" and the padded page, "c" and the padded chunk index. */
    function Id(): (r: string)
      ensures r == Join(IdSep, [contractId, docType, "p" + Pad3(pageNumber), "c" + Pad3(chunkIndex)])
    {
      var p := "p" + Pad3(pageNumber);
      var c := "c" + Pad3(chunkIndex);
      JoinFour(contractId, docType, p, c);
      contractId + IdSep + docType + IdSep + p + IdSep + c
    }
  }

  lemma JoinFour(a: string, b: string, c: string, d: string)
    ensures Join(IdSep, [a, b, c, d]) == a + IdSep + b + IdSep + c + IdSep + d
  {
    assert [a, b, c, d][1..] == [b, c, d];
    assert [b, c, d][1..] == [c, d];
    assert [c, d][1..] == [d];
    var cd := c + IdSep + d;
    var bcd := b + IdSep + cd;
    assert Join(IdSep, [c, d]) == cd;
    assert Join(IdSep, [b, c, d]) == bcd;
    assert a + IdSep + bcd == a + IdSep + b + IdSep + c + IdSep + d;
  }

  /** For indices under 1000 the page and chunk fields are exactly a letter and three digits. */
  lemma IdFieldWidth(n: int)
    requires 0 <= n < 1000
    ensures |"p" + Pad3(n)| == 4 && AllDigits(Pad3(n))
  {
  }

  // ===========================================================================
  // str.split("::")

  /** A separator starts at `k`. */
  predicate SepAt(s: string, k: int) {
    0 <= k && k + 1 < |s| && s[k] == ':' && s[k + 1] == ':'
  }

  /** No separator anywhere in `s`. */
  predicate NoSep(s: string) {
    forall k | 0 <= k < |s| :: !SepAt(s, k)
  }

  /** The start of the first separator, or `|s|`. */
  function FindSep(s: string): (i: nat)
    ensures i <= |s|
    ensures forall k | 0 <= k < i :: !SepAt(s, k)
    ensures i < |s| ==> SepAt(s, i)
  {
    if |s| < 2 then |s|
    else if s[0] == ':' && s[1] == ':' then 0
    else
      var i := 1 + FindSep(s[1..]);
      assert forall k | 1 <= k < i :: SepAt(s, k) == SepAt(s[1..], k - 1);
      i
  }

  /** `s.split("::")`: the pieces between separators, found left to right. */
  function SplitSep(s: string): (r: seq<string>)
    ensures |r| >= 1
    decreases |s|
  {
    var i := FindSep(s);
    if i == |s| then [s] else [s[..i]] + SplitSep(s[i + 2..])
  }

  /** Joining the pieces of `s.split("::")` with "::" gives `s` back, and no piece holds a separator. */
  lemma {:induction false} JoinSplitSep(s: string)
    ensures Join(IdSep, SplitSep(s)) == s
    ensures forall p | p in SplitSep(s) :: NoSep(p)
    decreases |s|
  {
    var i := FindSep(s);
    if i == |s| {
      assert SplitSep(s) == [s];
    } else {
      var head := s[..i];
      var rest := s[i + 2..];
      JoinSplitSep(rest);
      var tail := SplitSep(rest);
      assert SplitSep(s) == [head] + tail;
      assert Join(IdSep, [head] + tail) == head + IdSep + Join(IdSep, tail) by {
        assert ([head] + tail)[1..] == tail;
      }
      assert s == head + IdSep + rest;
      assert NoSep(head) by {
        forall k | 0 <= k < |head| ensures !SepAt(head, k) {
          assert !SepAt(s, k);
        }
      }
    }
  }

  lemma {:induction false} FindSepAt(s: string, i: nat)
    requires i <= |s| && (forall k | 0 <= k < i :: !SepAt(s, k)) && (i < |s| ==> SepAt(s, i))
    ensures FindSep(s) == i
  {
    if |s| >= 2 && !(s[0] == ':' && s[1] == ':') {
      assert i > 0;
      forall k | 0 <= k < i - 1 ensures !SepAt(s[1..], k) {
        assert !SepAt(s, k + 1);
      }
      if i < |s| {
        assert SepAt(s, i);
      }
      FindSepAt(s[1..], i - 1);
    }
  }

  /** A piece without a separator that does not end in ':' is cut off exactly at the separator after it. */
  lemma FindSepConcat(x: string, y: string)
    requires NoSep(x) && (x == [] || x[|x| - 1] != ':')
    ensures FindSep(x + IdSep + y) == |x|
  {
    var s := x + IdSep + y;
    forall k | 0 <= k < |x| ensures !SepAt(s, k) {
      if k + 1 < |x| {
        assert !SepAt(x, k);
      }
    }
    assert SepAt(s, |x|);
    FindSepAt(s, |x|);
  }

  /** No separator inside and no ':' at the end: a separator that follows the piece cuts it back out exactly. */
  predicate Separable(s: string) {
    NoSep(s) && (s == [] || s[|s| - 1] != ':')
  }

  /** When a split finds a separator, its first piece is separable. */
  lemma SplitSepFirst(s: string)
    requires |SplitSep(s)| >= 2
    ensures Separable(SplitSep(s)[0])
  {
    var i := FindSep(s);
    var p := s[..i];
    assert i < |s| && SplitSep(s)[0] == p;
    forall k | 0 <= k < |p| ensures !SepAt(p, k) {
      assert !SepAt(s, k);
    }
    if p != [] {
      assert !SepAt(s, i - 1);
    }
  }

  /** Pieces fit for a round trip: no separator inside, and no ':' at the end of any but the last. */
  predicate SplittableParts(parts: seq<string>) {
    && (forall i | 0 <= i < |parts| :: NoSep(parts[i]))
    && (forall i | 0 <= i < |parts| - 1 :: parts[i] == [] || parts[i][|parts[i]| - 1] != ':')
  }

  /** Splitting a `"::"`-join gives the pieces back. */
  lemma {:induction false} SplitSepJoin(parts: seq<string>)
    requires |parts| >= 1 && SplittableParts(parts)
    ensures SplitSep(Join(IdSep, parts)) == parts
  {
    if |parts| == 1 {
      assert FindSep(parts[0]) == |parts[0]|;
    } else {
      var x := parts[0];
      var rest := Join(IdSep, parts[1..]);
      var s := x + IdSep + rest;
      assert Join(IdSep, parts) == s;
      FindSepConcat(x, rest);
      assert s[..|x|] == x && s[|x| + 2..] == rest;
      assert SplittableParts(parts[1..]) by {
        assert forall i | 0 <= i < |parts| - 1 :: parts[1..][i] == parts[i + 1];
      }
      SplitSepJoin(parts[1..]);
    }
  }

  /** A `PageChunk` id splits back into its contract id and document type. */
  lemma PageChunkIdRoundTrip(c: PageChunk)
    requires Separable(c.contractId) && c.docType in DocTypes
    ensures var parts := SplitSep(c.Id()); |parts| == 4 && parts[0] == c.contractId && parts[1] == c.docType
  {
    DocTypeNoColon(c.docType);
    FieldNoColon('p', c.pageNumber);
    FieldNoColon('c', c.chunkIndex);
    FourFieldsRoundTrip(c.contractId, c.docType, "p" + Pad3(c.pageNumber), "c" + Pad3(c.chunkIndex));
  }

  lemma DocTypeNoColon(docType: string)
    requires docType in DocTypes
    ensures ':' !in docType
  {
  }

  /** Four fields joined by the separator split back into the same four. */
  lemma FourFieldsRoundTrip(a: string, b: string, c: string, d: string)
    requires NoSep(a) && (a == [] || a[|a| - 1] != ':')
    requires ':' !in b && ':' !in c && ':' !in d
    ensures SplitSep(Join(IdSep, [a, b, c, d])) == [a, b, c, d]
  {
    NoColonNoSep(b);
    NoColonNoSep(c);
    NoColonNoSep(d);
    var parts := [a, b, c, d];
    assert SplittableParts(parts) by {
      assert parts[0] == a && parts[1] == b && parts[2] == c && parts[3] == d;
    }
    SplitSepJoin(parts);
  }

  /** An id field is a letter and a padded number: it holds no ':'. */
  lemma FieldNoColon(letter: char, n: int)
    requires letter != ':'
    ensures ':' !in [letter] + Pad3(n)
  {
    var r := Pad3(n);
    forall i | 0 <= i < |r| ensures r[i] != ':' {
      if n < 0 && i > 0 {
        assert r[i] == r[1..][i - 1];
      }
    }
  }

  /** A piece with no ':' at all has no separator and does not end in one. */
  lemma NoColonNoSep(s: string)
    requires ':' !in s
    ensures NoSep(s) && (s == [] || s[|s| - 1] != ':')
  {
    forall k | 0 <= k < |s| ensures !SepAt(s, k) {
      assert s[k] in s;
    }
  }

  // ===========================================================================
  // iter_pliego_page_texts, over decoded records

  /** A corpus line decoded as JSON: its `id` and `text` fields (missing ones read as ""). */
  datatype CorpusRecord = CorpusRecord(id: string, text: string)

  /** One page of the stringified document object; a missing `text` reads as "". */
  datatype RawPage = RawPage(pageNumber: Option<int>, text: string)

  /** The document object in a record's `text` field; missing `pages` read as none. */
  datatype PliegoObject = PliegoObject(source: Value, numPages: Value, pages: seq<RawPage>)

  /** A page the loader yields. */
  datatype LoadedPage = LoadedPage(
    contractId: string,
    docType: string,
    pageNumber: int,
    text: string,
    baseMetadata: Dict<Value>)

  /** A page is kept when it has a number and its text is not blank. */
  predicate KeepsPage(p: RawPage) {
    p.pageNumber.Some? && !IsBlank(p.text)
  }

  /** The metadata shared by every page of a document. */
  function BaseMetadata(obj: PliegoObject, contractId: string, docType: string): Dict<Value> {
    [("source_pdf", obj.source), ("num_pages", obj.numPages),
     ("contract_id", Str(contractId)), ("doc_type", Str(docType))]
  }

  /** The kept pages of one document, in page order. */
  function KeptPages(pages: seq<RawPage>, contractId: string, docType: string, base: Dict<Value>): (r: seq<LoadedPage>)
    ensures |r| <= |pages|
  {
    if pages == [] then []
    else
      var p := pages[|pages| - 1];
      KeptPages(pages[..|pages| - 1], contractId, docType, base)
      + if KeepsPage(p) then [LoadedPage(contractId, docType, p.pageNumber.value, p.text, base)] else []
  }

  /**
   * The pages one record yields: none when its id has fewer than two pieces,
   * its type is not a pliego type, its text is empty or cannot be decoded
   * (`parse` returns `None` where `literal_eval` raises).
   */
  function RecordPages(r: CorpusRecord, parse: string -> Option<PliegoObject>): seq<LoadedPage> {
    var parts := SplitSep(r.id);
    if |parts| < 2 then []
    else
      var contractId := parts[0];
      var docType := parts[1];
      if docType !in DocTypes || r.text == [] then []
      else
        match parse(r.text)
        case None => []
        case Some(obj) => KeptPages(obj.pages, contractId, docType, BaseMetadata(obj, contractId, docType))
  }

  /**
   * `iter_pliego_page_texts`: the pages of every record in file order. Blank
   * lines and lines that are not valid JSON are `None`.
   */
  function LoadPages(lines: seq<Option<CorpusRecord>>, parse: string -> Option<PliegoObject>): seq<LoadedPage> {
    if lines == [] then []
    else
      var last := lines[|lines| - 1];
      LoadPages(lines[..|lines| - 1], parse) + if last.Some? then RecordPages(last.value, parse) else []
  }

  /** The filter keeps page order: the pages of two runs of pages are those of each, in turn. */
  lemma {:induction false} KeptPagesAppend(a: seq<RawPage>, b: seq<RawPage>, contractId: string, docType: string, base: Dict<Value>)
    ensures KeptPages(a + b, contractId, docType, base)
         == KeptPages(a, contractId, docType, base) + KeptPages(b, contractId, docType, base)
    decreases |b|
  {
    if b == [] {
      assert a + b == a;
    } else {
      var init := b[..|b| - 1];
      assert (a + b)[..|a + b| - 1] == a + init;
      assert (a + b)[|a + b| - 1] == b[|b| - 1];
      KeptPagesAppend(a, init, contractId, docType, base);
    }
  }

  /** A page is yielded exactly when some raw page with a number and non-blank text gives it. */
  lemma {:induction false} KeptPagesMembers(pages: seq<RawPage>, contractId: string, docType: string, base: Dict<Value>, q: LoadedPage)
    ensures q in KeptPages(pages, contractId, docType, base) <==>
      exists k | 0 <= k < |pages| :: KeepsPage(pages[k])
        && q == LoadedPage(contractId, docType, pages[k].pageNumber.value, pages[k].text, base)
  {
    if pages != [] {
      var init := pages[..|pages| - 1];
      KeptPagesMembers(init, contractId, docType, base, q);
      assert forall k | 0 <= k < |init| :: init[k] == pages[k];
      var p := pages[|pages| - 1];
      if q in KeptPages(pages, contractId, docType, base) && q !in KeptPages(init, contractId, docType, base) {
        assert KeepsPage(p) && q == LoadedPage(contractId, docType, p.pageNumber.value, p.text, base);
      }
    }
  }

  /**
   * A yielded page: of a pliego type, with non-blank text, a contract id that
   * the id separator can cut back out, and base metadata with distinct keys
   * that carries its contract id and document type.
   */
  predicate WellFormedPage(q: LoadedPage) {
    && q.docType in DocTypes && !IsBlank(q.text) && Separable(q.contractId)
    && UniqueKeys(q.baseMetadata)
    && Get(q.baseMetadata, "contract_id") == Some(Str(q.contractId))
    && Get(q.baseMetadata, "doc_type") == Some(Str(q.docType))
  }

  /** Every page the loader yields is well formed. */
  lemma {:induction false} LoadedPagesWellFormed(lines: seq<Option<CorpusRecord>>, parse: string -> Option<PliegoObject>)
    ensures forall q | q in LoadPages(lines, parse) :: WellFormedPage(q)
  {
    if lines != [] {
      LoadedPagesWellFormed(lines[..|lines| - 1], parse);
      var last := lines[|lines| - 1];
      if last.Some? {
        RecordPagesWellFormed(last.value, parse);
      }
    }
  }

  lemma RecordPagesWellFormed(r: CorpusRecord, parse: string -> Option<PliegoObject>)
    ensures forall q | q in RecordPages(r, parse) :: WellFormedPage(q)
  {
    var parts := SplitSep(r.id);
    if |parts| >= 2 && parts[1] in DocTypes && r.text != [] && parse(r.text).Some? {
      var obj := parse(r.text).value;
      var cid := parts[0];
      var dt := parts[1];
      var base := BaseMetadata(obj, cid, dt);
      assert Get(base, "contract_id") == Some(Str(cid)) by {
        IndexOfAt(base, "contract_id", 2);
      }
      assert Get(base, "doc_type") == Some(Str(dt)) by {
        IndexOfAt(base, "doc_type", 3);
      }
      assert UniqueKeys(base) by {
        BaseMetadataKeys(obj, cid, dt);
      }
      assert Separable(cid) by {
        SplitSepFirst(r.id);
      }
      forall q | q in RecordPages(r, parse)
        ensures WellFormedPage(q)
      {
        KeptPagesMembers(obj.pages, cid, dt, base, q);
      }
    }
  }

  /** The base metadata has four distinct keys. */
  lemma BaseMetadataKeys(obj: PliegoObject, contractId: string, docType: string)
    ensures UniqueKeys(BaseMetadata(obj, contractId, docType))
  {
    var b := BaseMetadata(obj, contractId, docType);
    assert |b[0].0| == 10 && |b[1].0| == 9 && |b[2].0| == 11 && |b[3].0| == 8;
  }

  /** Records are read in file order: the pages of two runs of lines are those of each, in turn. */
  lemma {:induction false} LoadPagesAppend(a: seq<Option<CorpusRecord>>, b: seq<Option<CorpusRecord>>, parse: string -> Option<PliegoObject>)
    ensures LoadPages(a + b, parse) == LoadPages(a, parse) + LoadPages(b, parse)
    decreases |b|
  {
    if b == [] {
      assert a + b == a;
    } else {
      var init := b[..|b| - 1];
      assert (a + b)[..|a + b| - 1] == a + init;
      assert (a + b)[|a + b| - 1] == b[|b| - 1];
      LoadPagesAppend(a, init, parse);
    }
  }

  /** A record whose id does not have two pieces, or whose type is not a pliego type, yields nothing. */
  lemma RecordSkipped(r: CorpusRecord, parse: string -> Option<PliegoObject>)
    requires |SplitSep(r.id)| < 2 || SplitSep(r.id)[1] !in DocTypes || r.text == []
    ensures RecordPages(r, parse) == []
  {
  }
}
