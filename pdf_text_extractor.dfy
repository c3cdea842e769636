/**
 * `extract_text_from_file`: the text of each page of a PDF, numbered from 0
 * in reader order, with every line right-stripped and the page stripped. The
 * PDF library is an input: a reader is the sequence of its pages, each of
 * which either yields its text (possibly none) or fails.
 */
module PdfTextExtractor {
  import opened Wrappers
  import opened Strings

  datatype PageText = PageText(pageNumber: int, text: string)

  datatype PdfText = PdfText(source: string, numPages: int, pages: seq<PageText>)

  /** What the PDF library does with one page: text (`None` when it finds none), or an error. */
  datatype ReaderPage = Extracted(text: Option<string>) | ExtractFails

  /** Why extraction stopped: the reader could not be built, or page `index` failed. */
  datatype ExtractionError = ReadFailed | PageFailed(index: nat)

  // ===========================================================================
  // per-page normalisation

  function RStripAll(lines: seq<string>): (r: seq<string>)
    ensures |r| == |lines|
    ensures forall i | 0 <= i < |lines| :: r[i] == RStrip(lines[i])
  {
    if lines == [] then [] else [RStrip(lines[0])] + RStripAll(lines[1..])
  }

  /** `"\n".join(line.rstrip() for line in raw.splitlines()).strip()`. */
  function NormalizePage(raw: string): (r: string)
    ensures IsStripped(r)
    ensures AllNoTrailingWs(Lines(r))
    ensures NonWs(r) == NonWs(raw)
  {
    var lines := RStripAll(SplitLines(raw));
    var joined := Join("\n", lines);
    assert forall i | 0 <= i < |lines| :: '\n' !in lines[i] by {
      forall i | 0 <= i < |lines| ensures '\n' !in lines[i] {
        var l := SplitLines(raw)[i];
        assert l in SplitLines(raw);
        assert lines[i] == l[..|lines[i]|];
      }
    }
    JoinedClean(lines);
    StripKeepsClean(joined);
    CleanLines(Strip(joined));
    SplitLinesKeepText(raw);
    RStripAllKeepsText(SplitLines(raw));
    JoinKeepsText("\n", lines);
    StripKeepsText(joined);
    Strip(joined)
  }

  /** Right-trimming each line keeps the non-whitespace text of the lines. */
  lemma {:induction false} RStripAllKeepsText(lines: seq<string>)
    ensures NonWs(Flatten(RStripAll(lines))) == NonWs(Flatten(lines))
  {
    if lines != [] {
      var tail := lines[1..];
      RStripAllKeepsText(tail);
      assert RStripAll(lines) == [RStrip(lines[0])] + RStripAll(tail);
      FlattenCons(RStrip(lines[0]), RStripAll(tail));
      assert lines == [lines[0]] + tail;
      FlattenCons(lines[0], tail);
      NonWsConcat(RStrip(lines[0]), Flatten(RStripAll(tail)));
      NonWsConcat(lines[0], Flatten(tail));
      RStripKeepsText(lines[0]);
    }
  }

  /** No space or tab ends a line: each is followed by a character that is not a break. */
  predicate NoWsBeforeBreak(s: string) {
    forall i | 0 <= i < |s| && s[i] != '\n' && IsWs(s[i]) :: i + 1 < |s| && s[i + 1] != '\n'
  }

  /** Lines without trailing whitespace, joined by breaks, leave none before a break. */
  lemma {:induction false} JoinedClean(parts: seq<string>)
    requires forall i | 0 <= i < |parts| :: '\n' !in parts[i] && NoTrailingWs(parts[i])
    ensures NoWsBeforeBreak(Join("\n", parts))
  {
    if |parts| == 1 {
      PieceClean(parts[0]);
    } else if |parts| > 1 {
      var p := parts[0];
      var rest := Join("\n", parts[1..]);
      JoinedClean(parts[1..]);
      PieceClean(p);
      var s := p + "\n" + rest;
      assert Join("\n", parts) == s;
      assert s[|p|] == '\n';
      forall i | 0 <= i < |s| && s[i] != '\n' && IsWs(s[i]) ensures i + 1 < |s| && s[i + 1] != '\n' {
        if i < |p| {
          assert s[i] == p[i];
          if i + 1 < |p| {
            assert s[i + 1] == p[i + 1];
          }
        } else {
          assert i > |p| && s[i] == rest[i - |p| - 1];
          assert i + 1 < |s| ==> s[i + 1] == rest[i - |p|];
        }
      }
    }
  }

  /** One line without breaks and without trailing whitespace. */
  lemma PieceClean(p: string)
    requires '\n' !in p && NoTrailingWs(p)
    ensures NoWsBeforeBreak(p)
  {
    forall i | 0 <= i < |p| && p[i] != '\n' && IsWs(p[i]) ensures i + 1 < |p| && p[i + 1] != '\n' {
      if i + 1 < |p| {
        assert p[i + 1] in p;
      }
    }
  }

  /** Stripping keeps the property: it only drops whitespace at both ends. */
  lemma StripKeepsClean(s: string)
    requires NoWsBeforeBreak(s)
    ensures NoWsBeforeBreak(Strip(s))
  {
    StripSlice(s);
    var r := Strip(s);
    var k := |s| - |LStrip(s)|;
    forall i | 0 <= i < |r| && r[i] != '\n' && IsWs(r[i]) ensures i + 1 < |r| && r[i + 1] != '\n' {
      assert r[i] == s[k + i];
      if i + 1 < |r| {
        assert r[i + 1] == s[k + i + 1];
      }
    }
  }

  /** A text with no whitespace before a break splits into lines without trailing whitespace. */
  lemma {:induction false} CleanLines(s: string)
    requires NoWsBeforeBreak(s)
    ensures AllNoTrailingWs(Lines(s))
  {
    if s != [] {
      assert NoWsBeforeBreak(s[1..]) by {
        forall i | 0 <= i < |s[1..]| && s[1..][i] != '\n' && IsWs(s[1..][i])
          ensures i + 1 < |s[1..]| && s[1..][i + 1] != '\n'
        {
          assert s[1..][i] == s[i + 1];
        }
      }
      CleanLines(s[1..]);
      var rest := Lines(s[1..]);
      if s[0] != '\n' {
        var first := [s[0]] + rest[0];
        assert Lines(s) == [first] + rest[1..];
        if |s| > 1 && s[1] != '\n' {
          SplitOnFirst(s[1..], '\n');
        }
        if rest[0] != [] {
          assert first[|first| - 1] == rest[0][|rest[0]| - 1];
          assert NoTrailingWs(rest[0]);
        }
        assert NoTrailingWs(first);
        assert forall i | 1 <= i < |Lines(s)| :: Lines(s)[i] == rest[i];
      }
    }
  }

  /**
   * A page is left unchanged exactly when it is already stripped and no line
   * ends in whitespace; so normalising twice is normalising once.
   */
  lemma NormalizeFixedPoint(s: string)
    ensures NormalizePage(s) == s <==> IsStripped(s) && AllNoTrailingWs(Lines(s))
  {
    if IsStripped(s) && AllNoTrailingWs(Lines(s)) {
      if s != [] {
        SplitLinesNoTrailing(s);
        var lines := Lines(s);
        assert RStripAll(lines) == lines by {
          forall i | 0 <= i < |lines| ensures RStrip(lines[i]) == lines[i] {
            RStripIdentity(lines[i]);
          }
        }
        JoinSplitOn(s, '\n');
        StripIdentity(s);
      }
    }
  }

  lemma NormalizeIdempotent(raw: string)
    ensures NormalizePage(NormalizePage(raw)) == NormalizePage(raw)
  {
    NormalizeFixedPoint(NormalizePage(raw));
  }

  /** A page normalises to the empty text exactly when it has no text or only whitespace. */
  lemma PageEmptyIffBlank(raw: string)
    ensures NormalizePage(raw) == [] <==> IsBlank(raw)
  {
    NonWsEmpty(raw);
    NonWsEmpty(NormalizePage(raw));
  }

  // ===========================================================================
  // extract_text_from_file

  /** The text the library gives for a page that does not fail (`extract_text() or ""`). */
  function PageRaw(p: ReaderPage): string
    requires p.Extracted?
  {
    p.text.GetOr("")
  }

  /** The index of the first failing page, or `|pages|`. */
  function FirstFailure(pages: seq<ReaderPage>): (i: nat)
    ensures i <= |pages|
    ensures forall j | 0 <= j < i :: pages[j].Extracted?
    ensures i < |pages| ==> pages[i].ExtractFails?
  {
    if pages == [] then 0 else if pages[0].ExtractFails? then 0 else 1 + FirstFailure(pages[1..])
  }

  /**
   * `extract_text_from_file`: a reader that cannot be built, or the first page
   * whose extraction fails, is an error and no pages are returned; otherwise
   * page `i` carries number `i` and the normalised text of reader page `i`.
   */
  method ExtractTextFromFile(reader: Option<seq<ReaderPage>>, source: string) returns (r: Result<PdfText, ExtractionError>)
    ensures reader.None? ==> r == Failure(ReadFailed)
    ensures reader.Some? && FirstFailure(reader.value) < |reader.value| ==> r == Failure(PageFailed(FirstFailure(reader.value)))
    ensures reader.Some? && FirstFailure(reader.value) == |reader.value| ==>
      && r.Success?
      && r.value.source == source
      && r.value.numPages == |r.value.pages| == |reader.value|
      && forall i | 0 <= i < |reader.value| ::
           r.value.pages[i] == PageText(i, NormalizePage(PageRaw(reader.value[i])))
  {
    if reader.None? {
      return Failure(ReadFailed);
    }
    var readerPages := reader.value;
    var pages: seq<PageText> := [];
    for i := 0 to |readerPages|
      invariant |pages| == i
      invariant forall j | 0 <= j < i :: readerPages[j].Extracted?
      invariant forall j | 0 <= j < i :: pages[j] == PageText(j, NormalizePage(PageRaw(readerPages[j])))
    {
      var page := readerPages[i];
      if page.ExtractFails? {
        FirstFailureAt(readerPages, i);
        return Failure(PageFailed(i));
      }
      var rawText := page.text.GetOr("");
      var normalized := Strip(Join("\n", RStripAll(SplitLines(rawText))));
      pages := pages + [PageText(i, normalized)];
    }
    FirstFailureAt(readerPages, |readerPages|);
    r := Success(PdfText(source, |pages|, pages));
  }

  lemma {:induction false} FirstFailureAt(pages: seq<ReaderPage>, i: nat)
    requires i <= |pages|
    requires forall j | 0 <= j < i :: pages[j].Extracted?
    requires i < |pages| ==> pages[i].ExtractFails?
    ensures FirstFailure(pages) == i
  {
    if pages != [] && pages[0].Extracted? {
      FirstFailureAt(pages[1..], i - 1);
    }
  }

  /** Every page of a successful extraction is stripped and has no line ending in whitespace. */
  lemma ExtractedPagesClean(reader: seq<ReaderPage>, pdf: PdfText, i: nat)
    requires FirstFailure(reader) == |reader|
    requires |pdf.pages| == |reader| && i < |reader|
    requires forall j | 0 <= j < |reader| :: pdf.pages[j] == PageText(j, NormalizePage(PageRaw(reader[j])))
    ensures pdf.pages[i].pageNumber == i
    ensures IsStripped(pdf.pages[i].text) && AllNoTrailingWs(Lines(pdf.pages[i].text))
    ensures reader[i] == Extracted(None) ==> pdf.pages[i].text == []
  {
    if reader[i] == Extracted(None) {
      PageEmptyIffBlank([]);
    }
  }
}
