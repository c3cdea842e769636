/**
 * The page-text chunking engine: whitespace normalisation, the segmenter
 * (blank lines and clause/article headings close a segment), the greedy chunk
 * packer with segment overlap and the one-shot merge of a short last chunk,
 * and the page facade that composes them.
 *
 * Each imperative routine of the source is a method proved equal to a
 * specification function; the properties are lemmas about those functions.
 */
module Chunking {
  import opened Strings

  /** The configuration record; the source validates none of its fields. */
  datatype ChunkingConfig = ChunkingConfig(maxChars: int, minChars: int, overlapSegments: int)

  /** The record's defaults (max 1500, min 400, overlap 1), also used by both corpus builders. */
  const DefaultConfig := ChunkingConfig(1500, 400, 1)

  /** The separator between segments inside a chunk. */
  const Sep: string := "\n\n"

  function Min(a: int, b: int): int {
    if a <= b then a else b
  }

  // ===========================================================================
  // normalize_whitespace

  predicate NoTab(s: string) {
    '\t' !in s
  }

  predicate NoDoubleSpace(s: string) {
    forall i | 0 <= i < |s| - 1 :: !(s[i] == ' ' && s[i + 1] == ' ')
  }

  predicate NoTripleNewline(s: string) {
    forall i | 0 <= i < |s| - 2 :: !(s[i] == '\n' && s[i + 1] == '\n' && s[i + 2] == '\n')
  }

  /** `s.replace("\t", " ")`. */
  function ReplaceTabs(s: string): (r: string)
    ensures |r| == |s|
    ensures forall i | 0 <= i < |s| :: r[i] == if s[i] == '\t' then ' ' else s[i]
    ensures NonWs(r) == NonWs(s)
  {
    if s == [] then []
    else
      var rest := ReplaceTabs(s[1..]);
      var r := [if s[0] == '\t' then ' ' else s[0]] + rest;
      assert r[1..] == rest;
      r
  }

  /** `re.sub(r"[ ]{2,}", " ", s)`: every run of two or more spaces becomes one space. */
  function CollapseSpaces(s: string): (r: string)
    ensures NoDoubleSpace(r)
    ensures s == [] <==> r == []
    ensures s != [] ==> r[0] == s[0]
    ensures forall c | c in r :: c in s
  {
    if |s| >= 2 && s[0] == ' ' && s[1] == ' ' then CollapseSpaces(s[1..])
    else if s == [] then []
    else [s[0]] + CollapseSpaces(s[1..])
  }

  /** `re.sub(r"\n{3,}", "\n\n", s)`: every run of three or more newlines becomes two. */
  function CollapseNewlines(s: string): (r: string)
    ensures NoTripleNewline(r)
    ensures s == [] <==> r == []
    ensures s != [] ==> r[0] == s[0]
    ensures |s| >= 2 && !(s[0] == '\n' && s[1] == '\n') ==> |r| >= 2 && r[1] == s[1]
    ensures forall c | c in r :: c in s
    ensures NoDoubleSpace(s) ==> NoDoubleSpace(r)
  {
    if |s| >= 3 && s[0] == '\n' && s[1] == '\n' && s[2] == '\n' then CollapseNewlines(s[1..])
    else if s == [] then []
    else [s[0]] + CollapseNewlines(s[1..])
  }

  /**
   * `normalize_whitespace`: tabs become spaces, space runs and newline runs of
   * three or more collapse, and the ends are stripped.
   */
  function NormalizeWhitespace(text: string): (r: string)
    ensures NoTab(r) && NoDoubleSpace(r) && NoTripleNewline(r) && IsStripped(r)
    ensures NonWs(r) == NonWs(text)
    ensures r == [] <==> IsBlank(text)
  {
    var n := CollapseNewlines(CollapseSpaces(ReplaceTabs(text)));
    StripNormalForm(n);
    CollapseSpacesKeepsText(ReplaceTabs(text));
    CollapseNewlinesKeepsText(CollapseSpaces(ReplaceTabs(text)));
    StripKeepsText(n);
    NonWsEmpty(text);
    NonWsEmpty(Strip(n));
    Strip(n)
  }

  /** The space collapse removes only spaces: the non-whitespace text is kept. */
  lemma {:induction false} CollapseSpacesKeepsText(s: string)
    ensures NonWs(CollapseSpaces(s)) == NonWs(s)
  {
    if s != [] {
      CollapseSpacesKeepsText(s[1..]);
      if !(|s| >= 2 && s[0] == ' ' && s[1] == ' ') {
        var rest := CollapseSpaces(s[1..]);
        assert ([s[0]] + rest)[1..] == rest;
      }
    }
  }

  /** The newline collapse removes only newlines: the non-whitespace text is kept. */
  lemma {:induction false} CollapseNewlinesKeepsText(s: string)
    ensures NonWs(CollapseNewlines(s)) == NonWs(s)
  {
    if s != [] {
      CollapseNewlinesKeepsText(s[1..]);
      if !(|s| >= 3 && s[0] == '\n' && s[1] == '\n' && s[2] == '\n') {
        var rest := CollapseNewlines(s[1..]);
        assert ([s[0]] + rest)[1..] == rest;
      }
    }
  }

  /** Stripping keeps a text free of tabs, double spaces and triple newlines. */
  lemma StripNormalForm(n: string)
    requires NoTab(n) && NoDoubleSpace(n) && NoTripleNewline(n)
    ensures var r := Strip(n); NoTab(r) && NoDoubleSpace(r) && NoTripleNewline(r)
  {
    StripSlice(n);
    NormalFormSlice(n, |n| - |LStrip(n)|, |Strip(n)|);
  }

  lemma NormalFormSlice(s: string, k: nat, m: nat)
    requires k + m <= |s|
    requires NoTab(s) && NoDoubleSpace(s) && NoTripleNewline(s)
    ensures var w := s[k..k + m]; NoTab(w) && NoDoubleSpace(w) && NoTripleNewline(w)
  {
    var w := s[k..k + m];
    forall i | 0 <= i < |w| - 1 ensures !(w[i] == ' ' && w[i + 1] == ' ') {
      assert w[i] == s[k + i] && w[i + 1] == s[k + i + 1];
    }
    forall i | 0 <= i < |w| - 2 ensures !(w[i] == '\n' && w[i + 1] == '\n' && w[i + 2] == '\n') {
      assert w[i] == s[k + i] && w[i + 1] == s[k + i + 1] && w[i + 2] == s[k + i + 2];
    }
  }

  lemma {:induction false} ReplaceTabsIdentity(s: string)
    requires NoTab(s)
    ensures ReplaceTabs(s) == s
  {
  }

  lemma {:induction false} CollapseSpacesIdentity(s: string)
    requires NoDoubleSpace(s)
    ensures CollapseSpaces(s) == s
  {
    if s != [] {
      assert NoDoubleSpace(s[1..]) by {
        forall i | 0 <= i < |s[1..]| - 1 ensures !(s[1..][i] == ' ' && s[1..][i + 1] == ' ') {
          assert s[1..][i] == s[i + 1] && s[1..][i + 1] == s[i + 2];
        }
      }
      CollapseSpacesIdentity(s[1..]);
      assert [s[0]] + s[1..] == s;
    }
  }

  lemma {:induction false} CollapseNewlinesIdentity(s: string)
    requires NoTripleNewline(s)
    ensures CollapseNewlines(s) == s
  {
    if s != [] {
      assert NoTripleNewline(s[1..]) by {
        forall i | 0 <= i < |s[1..]| - 2
          ensures !(s[1..][i] == '\n' && s[1..][i + 1] == '\n' && s[1..][i + 2] == '\n')
        {
          assert s[1..][i] == s[i + 1] && s[1..][i + 1] == s[i + 2] && s[1..][i + 2] == s[i + 3];
        }
      }
      CollapseNewlinesIdentity(s[1..]);
      assert [s[0]] + s[1..] == s;
    }
  }

  lemma SeqAssoc(a: string, b: string, c: string)
    ensures a + (b + c) == a + b + c
  {
  }

  lemma NoDoubleSpaceTail(s: string)
    requires s != [] && NoDoubleSpace(s)
    ensures NoDoubleSpace(s[1..])
  {
    var tail := s[1..];
    forall i | 0 <= i < |tail| - 1 ensures !(tail[i] == ' ' && tail[i + 1] == ' ') {
      assert tail[i] == s[i + 1] && tail[i + 1] == s[i + 2];
    }
  }

  /** Where no run of two spaces starts, the collapse keeps the first character. */
  lemma CollapseSpacesKeepsHead(s: string)
    requires s != [] && !(|s| >= 2 && s[0] == ' ' && s[1] == ' ')
    ensures CollapseSpaces(s) == [s[0]] + CollapseSpaces(s[1..])
  {
  }

  /** Text with no double space that does not end in a space passes through the space collapse unchanged. */
  lemma {:induction false} CollapseSpacesPrefix(prefix: string, rest: string)
    requires NoDoubleSpace(prefix) && (prefix == [] || prefix[|prefix| - 1] != ' ')
    ensures CollapseSpaces(prefix + rest) == prefix + CollapseSpaces(rest)
  {
    if prefix == [] {
      assert prefix + rest == rest;
    } else {
      var s := prefix + rest;
      var tail := prefix[1..];
      assert s[1..] == tail + rest;
      assert |prefix| >= 2 ==> s[0] == prefix[0] && s[1] == prefix[1];
      CollapseSpacesKeepsHead(s);
      NoDoubleSpaceTail(prefix);
      CollapseSpacesPrefix(tail, rest);
      SeqAssoc([s[0]], tail, CollapseSpaces(rest));
      assert [s[0]] + tail == prefix;
    }
  }

  /** A run of spaces followed by anything but a space becomes a single space. */
  lemma {:induction false} CollapseSpacesRun(run: string, rest: string)
    requires run != [] && forall i | 0 <= i < |run| :: run[i] == ' '
    requires rest == [] || rest[0] != ' '
    ensures CollapseSpaces(run + rest) == " " + CollapseSpaces(rest)
  {
    var s := run + rest;
    assert s[1..] == run[1..] + rest;
    if |run| > 1 {
      CollapseSpacesRun(run[1..], rest);
    } else {
      assert s[1..] == rest;
      assert ([s[0]] + CollapseSpaces(rest)) == " " + CollapseSpaces(rest);
    }
  }

  /** One step of the space collapse: the text before a maximal run of spaces is kept, and the run becomes one space. */
  lemma SpaceRunBecomesOne(prefix: string, run: string, rest: string)
    requires NoDoubleSpace(prefix) && (prefix == [] || prefix[|prefix| - 1] != ' ')
    requires run != [] && forall i | 0 <= i < |run| :: run[i] == ' '
    requires rest == [] || rest[0] != ' '
    ensures CollapseSpaces(prefix + run + rest) == prefix + " " + CollapseSpaces(rest)
  {
    var tail := run + rest;
    assert prefix + run + rest == prefix + tail;
    CollapseSpacesPrefix(prefix, tail);
    CollapseSpacesRun(run, rest);
    SeqAssoc(prefix, " ", CollapseSpaces(rest));
  }

  lemma NoTripleNewlineTail(s: string)
    requires s != [] && NoTripleNewline(s)
    ensures NoTripleNewline(s[1..])
  {
    var tail := s[1..];
    forall i | 0 <= i < |tail| - 2
      ensures !(tail[i] == '\n' && tail[i + 1] == '\n' && tail[i + 2] == '\n')
    {
      assert tail[i] == s[i + 1] && tail[i + 1] == s[i + 2] && tail[i + 2] == s[i + 3];
    }
  }

  /** Where no run of three newlines starts, the collapse keeps the first character. */
  lemma CollapseNewlinesKeepsHead(s: string)
    requires s != [] && !(|s| >= 3 && s[0] == '\n' && s[1] == '\n' && s[2] == '\n')
    ensures CollapseNewlines(s) == [s[0]] + CollapseNewlines(s[1..])
  {
  }

  lemma HeadNotTripleNewline(prefix: string, rest: string)
    requires prefix != [] && NoTripleNewline(prefix) && prefix[|prefix| - 1] != '\n'
    ensures var s := prefix + rest; !(|s| >= 3 && s[0] == '\n' && s[1] == '\n' && s[2] == '\n')
  {
    var s := prefix + rest;
    if |prefix| >= 3 {
      assert s[0] == prefix[0] && s[1] == prefix[1] && s[2] == prefix[2];
    } else if |prefix| == 2 {
      assert s[1] == prefix[1];
    }
  }

  /** Text with no triple newline that does not end in a newline passes through the newline collapse unchanged. */
  lemma {:induction false} CollapseNewlinesPrefix(prefix: string, rest: string)
    requires NoTripleNewline(prefix) && (prefix == [] || prefix[|prefix| - 1] != '\n')
    ensures CollapseNewlines(prefix + rest) == prefix + CollapseNewlines(rest)
  {
    if prefix == [] {
      assert prefix + rest == rest;
    } else {
      var s := prefix + rest;
      var tail := prefix[1..];
      assert s[1..] == tail + rest;
      HeadNotTripleNewline(prefix, rest);
      CollapseNewlinesKeepsHead(s);
      NoTripleNewlineTail(prefix);
      CollapseNewlinesPrefix(tail, rest);
      SeqAssoc([s[0]], tail, CollapseNewlines(rest));
      assert [s[0]] + tail == prefix;
    }
  }

  /** A run of newlines followed by anything but a newline is cut to at most two newlines. */
  lemma {:induction false} CollapseNewlinesRun(run: string, rest: string)
    requires run != [] && forall i | 0 <= i < |run| :: run[i] == '\n'
    requires rest == [] || rest[0] != '\n'
    ensures CollapseNewlines(run + rest) == (if |run| >= 3 then "\n\n" else run) + CollapseNewlines(rest)
  {
    var s := run + rest;
    var tail := run[1..];
    assert s[1..] == tail + rest;
    if |run| >= 3 {
      assert s[0] == '\n' && s[1] == '\n' && s[2] == '\n';
      CollapseNewlinesRun(tail, rest);
      assert |run| == 3 ==> tail == "\n\n";
    } else if |run| == 2 {
      assert run == "\n\n" && tail == "\n";
      assert rest != [] ==> s[2] == rest[0];
      CollapseNewlinesKeepsHead(s);
      assert (tail + rest)[1..] == rest;
      assert rest != [] ==> (tail + rest)[1] == rest[0];
      CollapseNewlinesKeepsHead(tail + rest);
    } else {
      assert run == "\n" && s[1..] == rest;
      assert rest != [] ==> s[1] == rest[0];
      CollapseNewlinesKeepsHead(s);
    }
  }

  /** One step of the newline collapse: the text before a maximal run of newlines is kept, and the run keeps at most two. */
  lemma NewlineRunCapped(prefix: string, run: string, rest: string)
    requires NoTripleNewline(prefix) && (prefix == [] || prefix[|prefix| - 1] != '\n')
    requires run != [] && forall i | 0 <= i < |run| :: run[i] == '\n'
    requires rest == [] || rest[0] != '\n'
    ensures CollapseNewlines(prefix + run + rest) == prefix + (if |run| >= 3 then "\n\n" else run) + CollapseNewlines(rest)
  {
    var tail := run + rest;
    assert prefix + run + rest == prefix + tail;
    CollapseNewlinesPrefix(prefix, tail);
    CollapseNewlinesRun(run, rest);
    SeqAssoc(prefix, if |run| >= 3 then "\n\n" else run, CollapseNewlines(rest));
  }

  /** Normalising an already normalised text changes nothing. */
  lemma NormalizeIdempotent(text: string)
    ensures NormalizeWhitespace(NormalizeWhitespace(text)) == NormalizeWhitespace(text)
  {
    var s := NormalizeWhitespace(text);
    ReplaceTabsIdentity(s);
    CollapseSpacesIdentity(s);
    CollapseNewlinesIdentity(s);
    StripIdentity(s);
  }

  // ===========================================================================
  // _HEADING_REGEX: ^\s*(CL[AÁ]USULA|ART[ÍI]CULO)\b, case-insensitive

  /** Letter classes of the two keywords, each letter with its lower-case twin. */
  const ClausulaPattern: seq<set<char>> :=
    [{'C', 'c'}, {'L', 'l'}, {'A', 'a', 'Á', 'á'}, {'U', 'u'}, {'S', 's'}, {'U', 'u'}, {'L', 'l'}, {'A', 'a'}]
  const ArticuloPattern: seq<set<char>> :=
    [{'A', 'a'}, {'R', 'r'}, {'T', 't'}, {'Í', 'í', 'I', 'i'}, {'C', 'c'}, {'U', 'u'}, {'L', 'l'}, {'O', 'o'}]

  predicate MatchesClasses(s: string, pattern: seq<set<char>>) {
    |pattern| <= |s| && forall i | 0 <= i < |pattern| :: s[i] in pattern[i]
  }

  /**
   * `\w` up to U+00FF: ASCII letters and digits, `_`, and the Latin-1
   * characters for which `str.isalnum()` holds (the letters, the ordinal
   * indicators, the micro sign, the superscript digits and the vulgar fractions).
   */
  predicate IsWordChar(c: char) {
    || 'a' <= c <= 'z' || 'A' <= c <= 'Z' || '0' <= c <= '9' || c == '_'
    || ('À' <= c <= 'ÿ' && c != '×' && c != '÷')
    || c in {'ª', 'µ', 'º', '¹', '²', '³', '¼', '½', '¾'}
  }

  /** The heading test: optional leading whitespace, a keyword, then a word boundary. */
  predicate IsHeading(line: string) {
    var s := LStrip(line);
    && (MatchesClasses(s, ClausulaPattern) || MatchesClasses(s, ArticuloPattern))
    && (|s| == 8 || !IsWordChar(s[8]))
  }

  /** On a line that does not start with whitespace, the test reads the line itself. */
  lemma HeadingUnindented(s: string)
    requires s == [] || !IsWs(s[0])
    ensures IsHeading(s) <==>
      && (MatchesClasses(s, ClausulaPattern) || MatchesClasses(s, ArticuloPattern))
      && (|s| == 8 || !IsWordChar(s[8]))
  {
    LStripIdentity(s);
  }

  /** Leading whitespace does not change the verdict: the pattern begins with `\s*`. */
  lemma HeadingIndented(ws: string, s: string)
    requires forall i | 0 <= i < |ws| :: IsWs(ws[i])
    ensures IsHeading(ws + s) <==> IsHeading(s)
  {
    LStripWsPrefix(ws, s);
  }

  /** "CLÁUSULA 1" is a heading. */
  lemma ClausulaHeading()
    ensures IsHeading("CLÁUSULA 1")
  {
    var s := "CLÁUSULA 1";
    HeadingUnindented(s);
    assert MatchesClasses(s, ClausulaPattern);
    assert s[8] == ' ';
  }

  /** A lower-case "artículo 2" is a heading: the match ignores case. */
  lemma ArticuloHeading()
    ensures IsHeading("artículo 2")
  {
    var t := "artículo 2";
    HeadingUnindented(t);
    assert MatchesClasses(t, ArticuloPattern);
    assert t[8] == ' ';
  }

  /** An indented "  artículo 2" is a heading. */
  lemma IndentedArticuloHeading()
    ensures IsHeading("  artículo 2")
  {
    var s := "  artículo 2";
    var t := s[2..];
    assert LeadingWs(s) == 2 by {
      assert s[1..][1..] == t && LeadingWs(t) == 0;
    }
    assert LStrip(s) == t && t == "artículo 2";
    assert MatchesClasses(t, ArticuloPattern);
    assert t[8] == ' ';
  }

  /** A keyword that runs on into a word character is not a heading. */
  lemma ClausulasNotHeading()
    ensures !IsHeading("CLAUSULAS")
  {
    var s := "CLAUSULAS";
    HeadingUnindented(s);
    assert s[8] == 'S';
  }

  /** An underscore after the keyword is a word character, so no boundary follows it. */
  lemma ArticuloUnderscoreNotHeading()
    ensures !IsHeading("ARTICULO_3")
  {
    var s := "ARTICULO_3";
    HeadingUnindented(s);
    assert s[8] == '_';
  }

  /** A superscript digit is a word character to the regex, so no boundary follows the keyword. */
  lemma SuperscriptNotHeading()
    ensures !IsHeading("CLAUSULA²")
  {
    var s := "CLAUSULA²";
    HeadingUnindented(s);
    assert s[8] == '²';
  }

  /** The keyword must open the line: a keyword later in the line does not count. */
  lemma KeywordLaterNotHeading()
    ensures !IsHeading("Ver cláusula 3")
  {
    var s := "Ver cláusula 3";
    HeadingUnindented(s);
    assert s[0] !in ClausulaPattern[0] && s[0] !in ArticuloPattern[0];
  }

  /** Taking one more element appends it. */
  lemma TakeSnoc<T>(s: seq<T>, i: nat)
    requires i < |s|
    ensures s[..i + 1] == s[..i] + [s[i]]
  {
  }

  /** A non-empty sequence is its prefix followed by its last element. */
  lemma DropLast<T>(s: seq<T>)
    requires s != []
    ensures s == s[..|s| - 1] + [s[|s| - 1]]
  {
  }

  // ===========================================================================
  // split_into_segments: the reference grouping of lines

  /**
   * Line `line`, read after the lines `prev`, opens a new segment: it is the
   * first line, it follows a blank line, or it is a heading.
   */
  predicate OpensGroup(prev: seq<string>, line: string) {
    prev == [] || IsBlank(RStrip(prev[|prev| - 1])) || IsHeading(line)
  }

  /**
   * The segments of a page as groups of right-trimmed lines: blank lines are
   * dropped, and every other line either opens a new group or extends the last.
   */
  function LineGroups(lines: seq<string>): (groups: seq<seq<string>>)
  {
    if lines == [] then []
    else
      var prev := lines[..|lines| - 1];
      var line := RStrip(lines[|lines| - 1]);
      var groups := LineGroups(prev);
      if IsBlank(line) then groups
      else if OpensGroup(prev, line) || groups == [] then groups + [[line]]
      else groups[..|groups| - 1] + [groups[|groups| - 1] + [line]]
  }

  /** The right-trimmed non-blank lines, in order. */
  function NonBlankLines(lines: seq<string>): seq<string> {
    if lines == [] then []
    else
      var line := RStrip(lines[|lines| - 1]);
      NonBlankLines(lines[..|lines| - 1]) + if IsBlank(line) then [] else [line]
  }

  /** The right-trimmed lines that open a segment, in order. */
  function OpeningLines(lines: seq<string>): seq<string> {
    if lines == [] then []
    else
      var prev := lines[..|lines| - 1];
      var line := RStrip(lines[|lines| - 1]);
      OpeningLines(prev) + if !IsBlank(line) && OpensGroup(prev, line) then [line] else []
  }

  /** The lines of one segment: non-blank, right-trimmed, single lines. */
  predicate GoodLine(l: string) {
    !IsBlank(l) && NoTrailingWs(l) && '\n' !in l
  }

  /** A well-formed group: non-empty, good lines, and only its first line may be a heading. */
  predicate GoodGroup(g: seq<string>) {
    && g != []
    && (forall j | 0 <= j < |g| :: GoodLine(g[j]))
    && (forall j | 1 <= j < |g| :: !IsHeading(g[j]))
  }

  /** The first line of each non-empty group, in order. */
  function Firsts(groups: seq<seq<string>>): seq<string> {
    if groups == [] then []
    else
      var last := groups[|groups| - 1];
      Firsts(groups[..|groups| - 1]) + if last == [] then [] else [last[0]]
  }

  /** Every group is well formed, and there is a group as soon as there is a non-blank line. */
  lemma LineGroupsShape(lines: seq<string>)
    requires forall l | l in lines :: '\n' !in l
    ensures forall g | g in LineGroups(lines) :: GoodGroup(g)
    ensures LineGroups(lines) == [] <==> NonBlankLines(lines) == []
  {
    LineGroupsGood(lines);
    LineGroupsEmpty(lines);
  }

  lemma {:induction false} LineGroupsGood(lines: seq<string>)
    requires forall l | l in lines :: '\n' !in l
    ensures forall g | g in LineGroups(lines) :: GoodGroup(g)
  {
    if lines != [] {
      var prev := lines[..|lines| - 1];
      var raw := lines[|lines| - 1];
      var line := RStrip(raw);
      assert forall l | l in prev :: '\n' !in l;
      LineGroupsGood(prev);
      var groups := LineGroups(prev);
      if !IsBlank(line) {
        assert '\n' !in line by {
          assert raw in lines;
          assert forall i | 0 <= i < |line| :: line[i] == raw[i];
        }
        if OpensGroup(prev, line) || groups == [] {
          assert GoodGroup([line]);
        } else {
          var init := groups[..|groups| - 1];
          var last := groups[|groups| - 1];
          assert last in groups;
          GoodGroupSnoc(last, line);
          var g := last + [line];
          assert LineGroups(lines) == init + [g];
          forall h | h in init + [g] ensures GoodGroup(h) {
            if h != g {
              assert h in groups;
            }
          }
        }
      }
    }
  }

  /** A good group stays good when a good non-heading line is appended. */
  lemma GoodGroupSnoc(g: seq<string>, line: string)
    requires GoodGroup(g) && GoodLine(line) && !IsHeading(line)
    ensures GoodGroup(g + [line])
  {
  }

  lemma {:induction false} LineGroupsEmpty(lines: seq<string>)
    ensures LineGroups(lines) == [] <==> NonBlankLines(lines) == []
  {
    if lines != [] {
      LineGroupsEmpty(lines[..|lines| - 1]);
    }
  }

  /** No line is lost, duplicated or reordered: the groups concatenate to the non-blank lines. */
  lemma {:induction false} LineGroupsFlatten(lines: seq<string>)
    ensures Flatten(LineGroups(lines)) == NonBlankLines(lines)
  {
    if lines != [] {
      var prev := lines[..|lines| - 1];
      var line := RStrip(lines[|lines| - 1]);
      var groups := LineGroups(prev);
      LineGroupsFlatten(prev);
      if !IsBlank(line) {
        assert NonBlankLines(lines) == NonBlankLines(prev) + [line];
        if OpensGroup(prev, line) || groups == [] {
          assert LineGroups(lines) == groups + [[line]];
          FlattenAppend(groups, [line]);
        } else {
          var init := groups[..|groups| - 1];
          var last := groups[|groups| - 1];
          assert LineGroups(lines) == init + [last + [line]];
          DropLast(groups);
          FlattenAppend(init, last);
          FlattenAppend(init, last + [line]);
        }
      }
    }
  }

  /** Appending one raw line to the walk, as the reference grouping reads it. */
  lemma LineGroupsSnoc(lines: seq<string>, raw: string)
    ensures var line := RStrip(raw); var groups := LineGroups(lines);
      LineGroups(lines + [raw]) ==
        if IsBlank(line) then groups
        else if OpensGroup(lines, line) || groups == [] then groups + [[line]]
        else groups[..|groups| - 1] + [groups[|groups| - 1] + [line]]
  {
    assert (lines + [raw])[..|lines|] == lines;
  }

  /** Every group holds at least one line. */
  lemma {:induction false} LineGroupsNonEmpty(lines: seq<string>)
    ensures forall i | 0 <= i < |LineGroups(lines)| :: LineGroups(lines)[i] != []
  {
    if lines != [] {
      LineGroupsNonEmpty(lines[..|lines| - 1]);
    }
  }

  /** A non-blank last line leaves at least one group. */
  lemma LineGroupsAfterLine(lines: seq<string>)
    requires lines != [] && !IsBlank(RStrip(lines[|lines| - 1]))
    ensures LineGroups(lines) != []
  {
  }

  /** A segment starts exactly at the lines that open a group: first, after a blank line, or a heading. */
  lemma {:induction false} LineGroupsOpenings(lines: seq<string>)
    ensures Firsts(LineGroups(lines)) == OpeningLines(lines)
  {
    if lines != [] {
      var prev := lines[..|lines| - 1];
      var line := RStrip(lines[|lines| - 1]);
      LineGroupsOpenings(prev);
      var groups := LineGroups(prev);
      var opening := OpeningLines(prev);
      if IsBlank(line) {
        assert LineGroups(lines) == groups;
        assert OpeningLines(lines) == opening;
      } else if OpensGroup(prev, line) {
        var now := groups + [[line]];
        assert LineGroups(lines) == now;
        assert now[..|groups|] == groups;
        assert Firsts(now) == Firsts(groups) + [line];
        assert OpeningLines(lines) == opening + [line];
      } else {
        LineGroupsAfterLine(prev);
        LineGroupsNonEmpty(prev);
        var now := groups[..|groups| - 1] + [groups[|groups| - 1] + [line]];
        assert LineGroups(lines) == now;
        FirstsExtendLast(groups, line);
        assert Firsts(now) == opening;
        assert OpeningLines(lines) == opening;
      }
    }
  }

  /** Extending the last, non-empty group leaves the first lines unchanged. */
  lemma FirstsExtendLast(groups: seq<seq<string>>, line: string)
    requires groups != [] && groups[|groups| - 1] != []
    ensures Firsts(groups[..|groups| - 1] + [groups[|groups| - 1] + [line]]) == Firsts(groups)
  {
    var init := groups[..|groups| - 1];
    var last := groups[|groups| - 1];
    var now := init + [last + [line]];
    assert now[..|init|] == init;
    assert (last + [line])[0] == last[0];
  }

  // ===========================================================================
  // split_into_segments: segment texts

  /** One segment's text: its lines joined with '\n', then stripped. */
  function SegText(group: seq<string>): string {
    Strip(Join("\n", group))
  }

  /** The texts of the groups, in order. */
  function SegTexts(groups: seq<seq<string>>): seq<string> {
    if groups == [] then [] else SegTexts(groups[..|groups| - 1]) + [SegText(groups[|groups| - 1])]
  }

  /** One text per group, each from its own group. */
  lemma {:induction false} SegTextsAt(groups: seq<seq<string>>)
    ensures |SegTexts(groups)| == |groups|
    ensures forall i | 0 <= i < |groups| :: SegTexts(groups)[i] == SegText(groups[i])
  {
    if groups != [] {
      var init := groups[..|groups| - 1];
      SegTextsAt(init);
      forall i | 0 <= i < |groups| ensures SegTexts(groups)[i] == SegText(groups[i]) {
        if i < |init| {
          assert groups[i] == init[i];
        }
      }
    }
  }

  /** The line groups of a page after normalisation. */
  function PageGroups(pageText: string): seq<seq<string>> {
    LineGroups(SplitLines(NormalizeWhitespace(pageText)))
  }

  /** No line of `s` is blank. */
  predicate NoBlankLine(s: string) {
    forall l | l in Lines(s) :: !IsBlank(l)
  }

  predicate GoodSegment(s: string) {
    s != [] && IsStripped(s) && NoBlankLine(s)
  }

  /** The first line of a group, left-trimmed, followed by the others unchanged. */
  function TrimHead(g: seq<string>): seq<string>
    requires g != []
  {
    [LStrip(g[0])] + g[1..]
  }

  /** A group's text keeps every line, trimming only the start of the first. */
  lemma SegTextLines(g: seq<string>)
    requires g != [] && forall j | 0 <= j < |g| :: GoodLine(g[j])
    ensures SegText(g) == Join("\n", TrimHead(g))
    ensures Lines(SegText(g)) == TrimHead(g)
    ensures GoodSegment(SegText(g))
  {
    var h := TrimHead(g);
    TrimHeadGood(g);
    SegTextIsJoin(g);
    SplitOnJoin(h, '\n');
    assert h[0] in h;
    JoinFirst("\n", h);
  }

  /** Left-trimming the first line of a group keeps every line good. */
  lemma TrimHeadGood(g: seq<string>)
    requires g != [] && forall j | 0 <= j < |g| :: GoodLine(g[j])
    ensures forall p | p in TrimHead(g) :: GoodLine(p)
  {
    var h := TrimHead(g);
    assert GoodLine(g[0]);
    LStripNotBlank(g[0]);
    var l := h[0];
    assert '\n' !in l by {
      forall i | 0 <= i < |l| ensures l[i] != '\n' {
        assert l[i] == g[0][|g[0]| - |l| + i];
      }
    }
    forall p | p in h ensures GoodLine(p) {
      if p != l {
        var j :| 1 <= j < |g| && p == g[j];
      }
    }
  }

  /** Stripping a group's joined text only trims the start of its first line. */
  lemma SegTextIsJoin(g: seq<string>)
    requires g != [] && forall j | 0 <= j < |g| :: GoodLine(g[j])
    ensures SegText(g) == Join("\n", TrimHead(g))
  {
    var h := TrimHead(g);
    TrimHeadGood(g);
    var jg := Join("\n", g);
    var jh := Join("\n", h);
    assert GoodLine(g[0]);
    if |g| > 1 {
      var rest := "\n" + Join("\n", g[1..]);
      assert jg == g[0] + rest;
      LStripConcat(g[0], rest);
      assert h[1..] == g[1..];
      assert jh == h[0] + rest;
    }
    assert LStrip(jg) == jh;
    assert h[|h| - 1] in h;
    JoinLast("\n", h);
    RStripIdentity(jh);
    StripIsRStripLStrip(jg);
  }

  /**
   * `split_into_segments` as a function: normalise, then the stripped texts of
   * the line groups. An empty normalised text has no segments.
   */
  function SegmentsOf(pageText: string): (segments: seq<string>)
    ensures forall s | s in segments :: GoodSegment(s)
    ensures segments == [] <==> NormalizeWhitespace(pageText) == []
    ensures segments == [] <==> IsBlank(pageText)
  {
    TextSegments(NormalizeWhitespace(pageText))
  }

  /** The segments of an already normalised text. */
  function TextSegments(text: string): (segments: seq<string>)
    requires IsStripped(text)
    ensures forall s | s in segments :: GoodSegment(s)
    ensures segments == [] <==> text == []
  {
    if text == [] then []
    else
      TextGroupsGood(text);
      SegTextsAt(LineGroups(SplitLines(text)));
      SegTexts(LineGroups(SplitLines(text)))
  }

  /** A stripped non-empty text has at least one group, and every group's text is a good segment. */
  lemma TextGroupsGood(text: string)
    requires text != [] && IsStripped(text)
    ensures LineGroups(SplitLines(text)) != []
    ensures forall g | g in LineGroups(SplitLines(text)) :: GoodSegment(SegText(g))
  {
    var lines := SplitLines(text);
    var groups := LineGroups(lines);
    LineGroupsShape(lines);
    assert groups != [] by {
      SplitLinesNoTrailing(text);
      SplitOnFirst(text, '\n');
      RStripNotBlank(lines[0]);
      NonBlankLinesHas(lines, 0);
    }
    forall g | g in groups ensures GoodSegment(SegText(g)) {
      SegTextLines(g);
    }
  }

  /**
   * Segmentation loses no text: the segments of a page, read in order, hold
   * exactly the non-whitespace characters of the raw page, in order.
   */
  lemma SegmentsKeepText(pageText: string)
    ensures NonWs(Flatten(SegmentsOf(pageText))) == NonWs(pageText)
  {
    var text := NormalizeWhitespace(pageText);
    if text == [] {
      NonWsEmpty(pageText);
    } else {
      var lines := SplitLines(text);
      var groups := LineGroups(lines);
      SegTextsKeepText(groups);
      LineGroupsFlatten(lines);
      NonBlankLinesKeepText(lines);
      SplitLinesKeepText(text);
    }
  }

  lemma {:induction false} SegTextsKeepText(groups: seq<seq<string>>)
    ensures NonWs(Flatten(SegTexts(groups))) == NonWs(Flatten(Flatten(groups)))
  {
    if groups != [] {
      var init := groups[..|groups| - 1];
      var g := groups[|groups| - 1];
      var t := SegText(g);
      SegTextsKeepText(init);
      assert SegTexts(groups) == SegTexts(init) + [t];
      FlattenAppend(SegTexts(init), t);
      NonWsConcat(Flatten(SegTexts(init)), t);
      SegTextKeepsText(g);
      assert groups == init + [g];
      FlattenAppend(init, g);
      FlattenConcat(Flatten(init), g);
      NonWsConcat(Flatten(Flatten(init)), Flatten(g));
    }
  }

  lemma SegTextKeepsText(group: seq<string>)
    ensures NonWs(SegText(group)) == NonWs(Flatten(group))
  {
    StripKeepsText(Join("\n", group));
    JoinKeepsText("\n", group);
  }

  lemma {:induction false} NonBlankLinesKeepText(lines: seq<string>)
    ensures NonWs(Flatten(NonBlankLines(lines))) == NonWs(Flatten(lines))
  {
    if lines != [] {
      var prev := lines[..|lines| - 1];
      var last := lines[|lines| - 1];
      var line := RStrip(last);
      NonBlankLinesKeepText(prev);
      assert lines == prev + [last];
      FlattenAppend(prev, last);
      NonWsConcat(Flatten(prev), last);
      RStripKeepsText(last);
      if IsBlank(line) {
        NonWsEmpty(line);
        assert NonWs(last) == [];
        assert NonBlankLines(lines) == NonBlankLines(prev) + [];
        assert NonBlankLines(prev) + [] == NonBlankLines(prev);
        assert NonWs(Flatten(prev)) + [] == NonWs(Flatten(prev));
      } else {
        FlattenAppend(NonBlankLines(prev), line);
        NonWsConcat(Flatten(NonBlankLines(prev)), line);
      }
    }
  }

  lemma {:induction false} NonBlankLinesHas(lines: seq<string>, i: nat)
    requires i < |lines| && !IsBlank(RStrip(lines[i]))
    ensures NonBlankLines(lines) != []
  {
    if i < |lines| - 1 {
      NonBlankLinesHas(lines[..|lines| - 1], i);
    }
  }

  /**
   * Every segment is exactly its group's lines, with only the first line
   * left-trimmed, and the groups concatenate to the page's non-blank lines.
   */
  lemma SegmentsKeepLines(pageText: string)
    requires NormalizeWhitespace(pageText) != []
    ensures var segments := SegmentsOf(pageText); var groups := PageGroups(pageText);
      && |segments| == |groups|
      && (forall i | 0 <= i < |groups| :: groups[i] != [] && Lines(segments[i]) == TrimHead(groups[i]))
      && Flatten(groups) == NonBlankLines(SplitLines(NormalizeWhitespace(pageText)))
  {
    var lines := SplitLines(NormalizeWhitespace(pageText));
    LineGroupsShape(lines);
    LineGroupsFlatten(lines);
    var groups := PageGroups(pageText);
    SegTextsAt(groups);
    forall i | 0 <= i < |groups| ensures groups[i] != [] && Lines(SegmentsOf(pageText)[i]) == TrimHead(groups[i]) {
      assert groups[i] in groups;
      SegTextLines(groups[i]);
    }
  }

  /** The closure `flush_segment`: append the buffered lines' stripped text, if any. */
  function Flush(segments: seq<string>, currentLines: seq<string>): seq<string> {
    if currentLines == [] then segments
    else
      var segment := Strip(Join("\n", currentLines));
      if segment != [] then segments + [segment] else segments
  }

  /**
   * The state of the line walk after the first `i` lines: the groups closed so
   * far are the segments, and the buffer is the last group while it is open.
   */
  ghost predicate SplitUpTo(lines: seq<string>, i: nat, currentLines: seq<string>, segments: seq<string>)
    requires i <= |lines|
  {
    var groups := LineGroups(lines[..i]);
    && (currentLines == [] <==> (i == 0 || IsBlank(RStrip(lines[i - 1]))))
    && if currentLines == [] then segments == SegTexts(groups)
       else groups != [] && currentLines == groups[|groups| - 1] && segments == SegTexts(groups[..|groups| - 1])
  }

  /** Flushing the open last group yields the texts of all groups. */
  lemma FlushLast(groups: seq<seq<string>>, segments: seq<string>)
    requires groups != [] && GoodGroup(groups[|groups| - 1])
    requires segments == SegTexts(groups[..|groups| - 1])
    ensures Flush(segments, groups[|groups| - 1]) == SegTexts(groups)
  {
    SegTextLines(groups[|groups| - 1]);
  }

  /** Closing the buffer's group, if any, when the state is read as complete. */
  lemma SplitFlushed(lines: seq<string>, i: nat, currentLines: seq<string>, segments: seq<string>)
    requires i <= |lines| && SplitUpTo(lines, i, currentLines, segments)
    requires forall l | l in lines :: '\n' !in l
    ensures Flush(segments, currentLines) == SegTexts(LineGroups(lines[..i]))
  {
    var groups := LineGroups(lines[..i]);
    if currentLines != [] {
      assert forall l | l in lines[..i] :: '\n' !in l;
      LineGroupsShape(lines[..i]);
      assert groups[|groups| - 1] in groups;
      FlushLast(groups, segments);
    }
  }

  /** A blank line closes the open group. */
  lemma SplitBlank(lines: seq<string>, i: nat, currentLines: seq<string>, segments: seq<string>)
    requires i < |lines| && SplitUpTo(lines, i, currentLines, segments)
    requires forall l | l in lines :: '\n' !in l
    requires IsBlank(RStrip(lines[i]))
    ensures SplitUpTo(lines, i + 1, [], Flush(segments, currentLines))
  {
    var prev := lines[..i];
    assert LineGroups(lines[..i + 1]) == LineGroups(prev) by {
      TakeSnoc(lines, i);
      LineGroupsSnoc(prev, lines[i]);
    }
    SplitFlushed(lines, i, currentLines, segments);
  }

  /** A heading after buffered lines closes their group and opens its own. */
  lemma SplitHeading(lines: seq<string>, i: nat, currentLines: seq<string>, segments: seq<string>)
    requires i < |lines| && SplitUpTo(lines, i, currentLines, segments)
    requires forall l | l in lines :: '\n' !in l
    requires !IsBlank(RStrip(lines[i])) && IsHeading(RStrip(lines[i])) && currentLines != []
    ensures SplitUpTo(lines, i + 1, [RStrip(lines[i])], Flush(segments, currentLines))
  {
    var prev := lines[..i];
    var groups := LineGroups(prev);
    var now := groups + [[RStrip(lines[i])]];
    assert LineGroups(lines[..i + 1]) == now by {
      TakeSnoc(lines, i);
      LineGroupsSnoc(prev, lines[i]);
    }
    assert Flush(segments, currentLines) == SegTexts(groups) by {
      SplitFlushed(lines, i, currentLines, segments);
    }
    assert now[..|groups|] == groups;
  }

  /** Any other non-blank line joins the buffer, opening a group when the buffer is empty. */
  lemma SplitExtend(lines: seq<string>, i: nat, currentLines: seq<string>, segments: seq<string>)
    requires i < |lines| && SplitUpTo(lines, i, currentLines, segments)
    requires !IsBlank(RStrip(lines[i])) && !(IsHeading(RStrip(lines[i])) && currentLines != [])
    ensures SplitUpTo(lines, i + 1, currentLines + [RStrip(lines[i])], segments)
  {
    var prev := lines[..i];
    var groups := LineGroups(prev);
    var line := RStrip(lines[i]);
    if currentLines == [] {
      var now := groups + [[line]];
      assert LineGroups(lines[..i + 1]) == now by {
        assert OpensGroup(prev, line) by {
          if i > 0 {
            assert prev[|prev| - 1] == lines[i - 1];
          }
        }
        TakeSnoc(lines, i);
        LineGroupsSnoc(prev, lines[i]);
      }
      assert currentLines + [line] == [line];
      assert now[..|groups|] == groups;
    } else {
      var init := groups[..|groups| - 1];
      var now := init + [currentLines + [line]];
      assert LineGroups(lines[..i + 1]) == now by {
        assert !OpensGroup(prev, line) by {
          assert prev[|prev| - 1] == lines[i - 1];
        }
        TakeSnoc(lines, i);
        LineGroupsSnoc(prev, lines[i]);
      }
      assert now[..|init|] == init;
    }
  }

  /** `split_into_segments`: normalise, then walk the lines. */
  method SplitIntoSegments(pageText: string) returns (segments: seq<string>)
    ensures segments == SegmentsOf(pageText)
  {
    var text := NormalizeWhitespace(pageText);
    if text == [] {
      return [];
    }
    segments := WalkLines(SplitLines(text));
  }

  /** The loop of `split_into_segments`, with its buffer of current lines. */
  method WalkLines(lines: seq<string>) returns (segments: seq<string>)
    requires forall l | l in lines :: '\n' !in l
    ensures segments == SegTexts(LineGroups(lines))
  {
    segments := [];
    var currentLines: seq<string> := [];
    for i := 0 to |lines|
      invariant SplitUpTo(lines, i, currentLines, segments)
    {
      var line := RStrip(lines[i]);
      if Strip(line) == [] {
        SplitBlank(lines, i, currentLines, segments);
        segments := Flush(segments, currentLines);
        currentLines := [];
        continue;
      }
      if IsHeading(line) && currentLines != [] {
        SplitHeading(lines, i, currentLines, segments);
        segments := Flush(segments, currentLines);
        currentLines := [line];
      } else {
        SplitExtend(lines, i, currentLines, segments);
        currentLines := currentLines + [line];
      }
    }
    SplitFlushed(lines, |lines|, currentLines, segments);
    assert lines[..|lines|] == lines;
    segments := Flush(segments, currentLines);
  }

  // ===========================================================================
  // build_chunks_from_segments: the reference packing

  /** A packing buffer: the segments carried over from the previous buffer, then its own. */
  datatype Buffer = Buffer(carried: seq<string>, own: seq<string>) {
    function Contents(): seq<string> {
      carried + own
    }
  }

  /** `current_segments[-k:]` when `k > 0`, and nothing otherwise: the last min(k, n) segments. */
  function Overlap(buffer: seq<string>, k: int): (r: seq<string>)
    ensures k <= 0 ==> r == []
    ensures k > 0 ==> |r| == Min(k, |buffer|)
    ensures r == buffer[|buffer| - |r|..]
  {
    if k > 0 then (if k >= |buffer| then buffer else buffer[|buffer| - k..]) else []
  }

  /**
   * The length of `parts` joined with `Sep`, counted without building the string:
   * the parts' own lengths plus two characters per separator.
   */
  function JoinedLength(parts: seq<string>): nat {
    if |parts| == 0 then 0
    else if |parts| == 1 then |parts[0]|
    else |parts[0]| + |Sep| + JoinedLength(parts[1..])
  }

  /** The counted length is the length of the joined text, which is what the source measures. */
  lemma {:induction false} JoinedLengthIsLength(parts: seq<string>)
    ensures JoinedLength(parts) == |Join(Sep, parts)|
  {
    if |parts| > 1 {
      JoinedLengthIsLength(parts[1..]);
    }
  }

  /**
   * The buffers of the greedy pass: a segment joins the current buffer unless the
   * buffer is non-empty and the join would exceed `maxChars`; then the buffer is
   * closed and the next one starts with the overlap and that segment.
   */
  function Pack(segments: seq<string>, config: ChunkingConfig): seq<Buffer> {
    if segments == [] then []
    else
      var buffers := Pack(segments[..|segments| - 1], config);
      var seg := segments[|segments| - 1];
      if buffers == [] then [Buffer([], [seg])]
      else
        var current := buffers[|buffers| - 1];
        if JoinedLength(current.Contents() + [seg]) > config.maxChars
        then buffers + [Buffer(Overlap(current.Contents(), config.overlapSegments), [seg])]
        else buffers[..|buffers| - 1] + [Buffer(current.carried, current.own + [seg])]
  }

  function OwnParts(buffers: seq<Buffer>): seq<seq<string>> {
    if buffers == [] then [] else OwnParts(buffers[..|buffers| - 1]) + [buffers[|buffers| - 1].own]
  }

  /** One step of the packing: how the buffers change when one more segment arrives. */
  lemma PackSnoc(prefix: seq<string>, seg: string, config: ChunkingConfig)
    ensures var bs := Pack(prefix, config);
      Pack(prefix + [seg], config) ==
        if bs == [] then [Buffer([], [seg])]
        else if JoinedLength(bs[|bs| - 1].Contents() + [seg]) > config.maxChars
        then bs + [Buffer(Overlap(bs[|bs| - 1].Contents(), config.overlapSegments), [seg])]
        else bs[..|bs| - 1] + [Buffer(bs[|bs| - 1].carried, bs[|bs| - 1].own + [seg])]
  {
    assert (prefix + [seg])[..|prefix|] == prefix;
  }

  /** A segment that fits grows the last buffer and leaves the closed ones alone. */
  lemma PackGrow(prefix: seq<string>, seg: string, config: ChunkingConfig)
    requires Pack(prefix, config) != []
    requires JoinedLength(Pack(prefix, config)[|Pack(prefix, config)| - 1].Contents() + [seg]) <= config.maxChars
    ensures var bs := Pack(prefix, config); var bs' := Pack(prefix + [seg], config);
      && |bs'| == |bs|
      && bs'[..|bs'| - 1] == bs[..|bs| - 1]
      && bs'[|bs'| - 1] == Buffer(bs[|bs| - 1].carried, bs[|bs| - 1].own + [seg])
      && bs'[|bs'| - 1].Contents() == bs[|bs| - 1].Contents() + [seg]
  {
    var bs := Pack(prefix, config);
    var n := |bs| - 1;
    var grown := Buffer(bs[n].carried, bs[n].own + [seg]);
    assert (prefix + [seg])[..|prefix|] == prefix;
    assert Pack(prefix + [seg], config) == bs[..n] + [grown];
    assert (bs[..n] + [grown])[..n] == bs[..n];
  }

  /** A segment that does not fit closes the last buffer and opens one after the overlap. */
  lemma PackClose(prefix: seq<string>, seg: string, config: ChunkingConfig)
    requires Pack(prefix, config) != []
    requires JoinedLength(Pack(prefix, config)[|Pack(prefix, config)| - 1].Contents() + [seg]) > config.maxChars
    ensures var bs := Pack(prefix, config);
      Pack(prefix + [seg], config)
        == bs + [Buffer(Overlap(bs[|bs| - 1].Contents(), config.overlapSegments), [seg])]
  {
    assert (prefix + [seg])[..|prefix|] == prefix;
  }

  /** There is a buffer as soon as there is a segment, and never more buffers than segments. */
  lemma {:induction false} PackCount(segments: seq<string>, config: ChunkingConfig)
    ensures var bs := Pack(segments, config);
      && (bs == [] <==> segments == [])
      && |bs| <= |segments|
  {
    if segments != [] {
      PackCount(segments[..|segments| - 1], config);
    }
  }

  /** Every buffer owns at least one segment, and the first carries nothing over. */
  lemma {:induction false} PackOwnNonEmpty(segments: seq<string>, config: ChunkingConfig)
    ensures var bs := Pack(segments, config);
      && (forall j | 0 <= j < |bs| :: bs[j].own != [])
      && (bs != [] ==> bs[0].carried == [])
  {
    if segments != [] {
      var prefix := segments[..|segments| - 1];
      var seg := segments[|segments| - 1];
      PackOwnNonEmpty(prefix, config);
      var buffers := Pack(prefix, config);
      if buffers != [] {
        var n := |buffers| - 1;
        var current := buffers[n];
        if JoinedLength(current.Contents() + [seg]) > config.maxChars {
          var bs := buffers + [Buffer(Overlap(current.Contents(), config.overlapSegments), [seg])];
          assert Pack(segments, config) == bs;
          forall j | 0 <= j < |bs| ensures bs[j].own != [] {
            if j < n + 1 {
              assert bs[j] == buffers[j];
            }
          }
        } else {
          var bs := buffers[..n] + [Buffer(current.carried, current.own + [seg])];
          assert Pack(segments, config) == bs;
          forall j | 0 <= j < |bs| ensures bs[j].own != [] {
            if j < n {
              assert bs[j] == buffers[j];
            }
          }
          if n == 0 {
            assert bs[0].carried == current.carried;
          } else {
            assert bs[0] == buffers[0];
          }
        }
      }
    }
  }

  /** Each buffer after the first starts with the overlap of the buffer before it. */
  lemma PackOverlap(segments: seq<string>, config: ChunkingConfig)
    ensures var bs := Pack(segments, config);
      forall j | 1 <= j < |bs| :: bs[j].carried == Overlap(bs[j - 1].Contents(), config.overlapSegments)
  {
    var bs := Pack(segments, config);
    forall j | 1 <= j < |bs| ensures bs[j].carried == Overlap(bs[j - 1].Contents(), config.overlapSegments) {
      PackOverlapAt(segments, config, j);
    }
  }

  lemma {:induction false} PackOverlapAt(segments: seq<string>, config: ChunkingConfig, j: nat)
    requires 1 <= j < |Pack(segments, config)|
    ensures var bs := Pack(segments, config);
      bs[j].carried == Overlap(bs[j - 1].Contents(), config.overlapSegments)
  {
    var prefix := segments[..|segments| - 1];
    var seg := segments[|segments| - 1];
    var buffers := Pack(prefix, config);
    var n := |buffers| - 1;
    var current := buffers[n];
    if JoinedLength(current.Contents() + [seg]) > config.maxChars {
      var bs := buffers + [Buffer(Overlap(current.Contents(), config.overlapSegments), [seg])];
      assert Pack(segments, config) == bs;
      assert bs[j - 1] == buffers[j - 1];
      if j <= n {
        PackOverlapAt(prefix, config, j);
        assert bs[j] == buffers[j];
      }
    } else {
      var bs := buffers[..n] + [Buffer(current.carried, current.own + [seg])];
      assert Pack(segments, config) == bs;
      PackOverlapAt(prefix, config, j);
      assert bs[j - 1] == buffers[j - 1];
      assert bs[j].carried == buffers[j].carried;
    }
  }

  /** Every segment is placed whole exactly once: the buffers' own parts concatenate to the input. */
  lemma {:induction false} PackFlatten(segments: seq<string>, config: ChunkingConfig)
    ensures Flatten(OwnParts(Pack(segments, config))) == segments
  {
    if segments != [] {
      var prefix := segments[..|segments| - 1];
      var seg := segments[|segments| - 1];
      DropLast(segments);
      PackFlatten(prefix, config);
      var buffers := Pack(prefix, config);
      if buffers == [] {
        var bs := [Buffer([], [seg])];
        assert Pack(segments, config) == bs;
        assert bs[..0] == [];
        assert OwnParts(bs) == [[seg]];
      } else {
        var n := |buffers| - 1;
        var current := buffers[n];
        if JoinedLength(current.Contents() + [seg]) > config.maxChars {
          var bs := buffers + [Buffer(Overlap(current.Contents(), config.overlapSegments), [seg])];
          assert Pack(segments, config) == bs;
          assert bs[..|buffers|] == buffers;
          assert OwnParts(bs) == OwnParts(buffers) + [[seg]];
          FlattenAppend(OwnParts(buffers), [seg]);
        } else {
          var init := buffers[..n];
          var bs := init + [Buffer(current.carried, current.own + [seg])];
          assert Pack(segments, config) == bs;
          DropLast(buffers);
          assert bs[..|init|] == init;
          assert OwnParts(buffers) == OwnParts(init) + [current.own];
          assert OwnParts(bs) == OwnParts(init) + [current.own + [seg]];
          FlattenAppend(OwnParts(init), current.own);
          FlattenAppend(OwnParts(init), current.own + [seg]);
        }
      }
    }
  }

  /** Buffer `j` was closed because adding the next buffer's first own segment would exceed `maxChars`. */
  predicate ClosedOnOverflow(bs: seq<Buffer>, j: nat, maxChars: int)
    requires j + 1 < |bs|
  {
    bs[j + 1].own != [] && JoinedLength(bs[j].Contents() + [bs[j + 1].own[0]]) > maxChars
  }

  /** The first `t` own segments of `b`, after its carried ones, fit within `maxChars`. */
  predicate FitsUpTo(b: Buffer, t: nat, maxChars: int)
    requires t <= |b.own|
  {
    JoinedLength(b.carried + b.own[..t]) <= maxChars
  }

  /** The packing is greedy (1): a buffer is closed only when the next segment does not fit. */
  lemma PackClosesOnOverflow(segments: seq<string>, config: ChunkingConfig)
    ensures var bs := Pack(segments, config);
      forall j | 0 <= j < |bs| - 1 :: ClosedOnOverflow(bs, j, config.maxChars)
  {
    var bs := Pack(segments, config);
    forall j | 0 <= j < |bs| - 1 ensures ClosedOnOverflow(bs, j, config.maxChars) {
      PackClosedAt(segments, config, j);
    }
  }

  lemma {:induction false} PackClosedAt(segments: seq<string>, config: ChunkingConfig, j: nat)
    requires j + 1 < |Pack(segments, config)|
    ensures ClosedOnOverflow(Pack(segments, config), j, config.maxChars)
  {
    var prefix := segments[..|segments| - 1];
    var seg := segments[|segments| - 1];
    var buffers := Pack(prefix, config);
    var n := |buffers| - 1;
    var current := buffers[n];
    if JoinedLength(current.Contents() + [seg]) > config.maxChars {
      var started := Buffer(Overlap(current.Contents(), config.overlapSegments), [seg]);
      var bs := buffers + [started];
      assert Pack(segments, config) == bs;
      assert bs[j] == buffers[j];
      if j < n {
        PackClosedAt(prefix, config, j);
        assert bs[j + 1] == buffers[j + 1];
      } else {
        assert bs[j + 1] == started;
      }
    } else {
      var grown := Buffer(current.carried, current.own + [seg]);
      var bs := buffers[..n] + [grown];
      assert Pack(segments, config) == bs;
      PackClosedAt(prefix, config, j);
      assert bs[j] == buffers[j];
      if j + 1 < n {
        assert bs[j + 1] == buffers[j + 1];
      } else {
        assert bs[j + 1] == grown;
        assert buffers[j + 1].own[0] == grown.own[0];
      }
    }
  }

  /** The packing is greedy (2): every own segment after a buffer's first fitted when it was added. */
  lemma PackFits(segments: seq<string>, config: ChunkingConfig)
    ensures var bs := Pack(segments, config);
      forall j, t | 0 <= j < |bs| && 2 <= t <= |bs[j].own| :: FitsUpTo(bs[j], t, config.maxChars)
  {
    var bs := Pack(segments, config);
    forall j, t | 0 <= j < |bs| && 2 <= t <= |bs[j].own| ensures FitsUpTo(bs[j], t, config.maxChars) {
      PackFitsAt(segments, config, j, t);
    }
  }

  lemma {:induction false} PackFitsAt(segments: seq<string>, config: ChunkingConfig, j: nat, t: nat)
    requires j < |Pack(segments, config)| && 2 <= t <= |Pack(segments, config)[j].own|
    ensures FitsUpTo(Pack(segments, config)[j], t, config.maxChars)
  {
    var prefix := segments[..|segments| - 1];
    var seg := segments[|segments| - 1];
    var buffers := Pack(prefix, config);
    if buffers != [] {
      var n := |buffers| - 1;
      var current := buffers[n];
      if JoinedLength(current.Contents() + [seg]) > config.maxChars {
        var started := Buffer(Overlap(current.Contents(), config.overlapSegments), [seg]);
        var bs := buffers + [started];
        assert Pack(segments, config) == bs;
        assert bs[|buffers|] == started;
        assert j < |buffers|;
        assert bs[j] == buffers[j];
        PackFitsAt(prefix, config, j, t);
      } else {
        var grown := Buffer(current.carried, current.own + [seg]);
        var bs := buffers[..n] + [grown];
        assert Pack(segments, config) == bs;
        if j < n {
          assert bs[j] == buffers[j];
          PackFitsAt(prefix, config, j, t);
        } else {
          assert bs[j] == grown;
          if t < |grown.own| {
            PackFitsAt(prefix, config, n, t);
          }
          FitsGrown(current, seg, t, config.maxChars);
        }
      }
    }
  }

  /** Growing a buffer that fitted, by a segment that fits, keeps every prefix fitting. */
  lemma FitsGrown(b: Buffer, seg: string, t: nat, maxChars: int)
    requires 2 <= t <= |b.own| + 1
    requires t <= |b.own| ==> FitsUpTo(b, t, maxChars)
    requires JoinedLength(b.Contents() + [seg]) <= maxChars
    ensures FitsUpTo(Buffer(b.carried, b.own + [seg]), t, maxChars)
  {
    var g := Buffer(b.carried, b.own + [seg]);
    if t <= |b.own| {
      assert g.own[..t] == b.own[..t];
    } else {
      assert g.carried + g.own[..t] == b.Contents() + [seg];
    }
  }

  /** Every segment of every buffer is one of the input segments. */
  lemma {:induction false} PackDrawsFrom(segments: seq<string>, config: ChunkingConfig)
    ensures forall b, x | b in Pack(segments, config) && x in b.Contents() :: x in segments
  {
    if segments != [] {
      var prefix := segments[..|segments| - 1];
      var seg := segments[|segments| - 1];
      PackDrawsFrom(prefix, config);
      var buffers := Pack(prefix, config);
      assert forall x | x in prefix :: x in segments;
      if buffers != [] {
        var current := buffers[|buffers| - 1];
        assert current in buffers;
        var o := Overlap(current.Contents(), config.overlapSegments);
        assert forall x | x in o :: x in current.Contents();
      }
    }
  }

  // ===========================================================================
  // build_chunks_from_segments: chunk texts and the final merge

  /** A buffer's chunk text: its segments joined with a blank line, then stripped. */
  function ChunkText(b: Buffer): string {
    Strip(Join(Sep, b.Contents()))
  }

  /** The chunk texts of the buffers, leaving out those that strip to nothing. */
  function PreMergeChunks(buffers: seq<Buffer>): (r: seq<string>)
    ensures |r| <= |buffers|
    ensures forall c | c in r :: c != [] && IsStripped(c)
  {
    if buffers == [] then []
    else
      var text := ChunkText(buffers[|buffers| - 1]);
      PreMergeChunks(buffers[..|buffers| - 1]) + if text != [] then [text] else []
  }

  /** The buffers joined with a blank line, untrimmed. */
  function JoinedBuffers(buffers: seq<Buffer>): seq<string> {
    if buffers == [] then []
    else JoinedBuffers(buffers[..|buffers| - 1]) + [Join(Sep, buffers[|buffers| - 1].Contents())]
  }

  /** Segments as the segmenter produces them: non-empty and stripped. */
  predicate GoodSegments(segments: seq<string>) {
    forall s | s in segments :: s != [] && IsStripped(s)
  }

  lemma JoinStripped(parts: seq<string>)
    requires parts != [] && GoodSegments(parts)
    ensures Join(Sep, parts) != [] && IsStripped(Join(Sep, parts))
  {
    assert parts[0] in parts && parts[|parts| - 1] in parts;
    JoinFirst(Sep, parts);
    JoinLast(Sep, parts);
  }

  /** With well-formed segments, no buffer is dropped and none is trimmed. */
  lemma {:induction false} PreMergeKeepsAll(buffers: seq<Buffer>)
    requires forall b | b in buffers :: b.Contents() != [] && GoodSegments(b.Contents())
    ensures PreMergeChunks(buffers) == JoinedBuffers(buffers)
  {
    if buffers != [] {
      var last := buffers[|buffers| - 1];
      assert last in buffers;
      PreMergeKeepsAll(buffers[..|buffers| - 1]);
      JoinStripped(last.Contents());
      StripIdentity(Join(Sep, last.Contents()));
    }
  }

  /** The one-shot merge: a last chunk under `minChars` joins the one before it. */
  function MergeTail(chunks: seq<string>, minChars: int): (r: seq<string>)
    ensures |chunks| - 1 <= |r| <= |chunks|
    ensures |r| < |chunks| <==> |chunks| >= 2 && |chunks[|chunks| - 1]| < minChars
  {
    if |chunks| >= 2 && |chunks[|chunks| - 1]| < minChars
    then chunks[..|chunks| - 2] + [chunks[|chunks| - 2] + Sep + chunks[|chunks| - 1]]
    else chunks
  }

  lemma MergeTailKeepsShape(chunks: seq<string>, minChars: int)
    requires forall c | c in chunks :: c != [] && IsStripped(c)
    ensures var r := MergeTail(chunks, minChars);
      && (forall c | c in r :: c != [] && IsStripped(c))
      && |r| <= |chunks|
      && (chunks != [] ==> r != [])
  {
    var n := |chunks|;
    if n >= 2 && |chunks[n - 1]| < minChars {
      var prev := chunks[n - 2];
      var last := chunks[n - 1];
      assert prev in chunks && last in chunks;
      var m := prev + Sep + last;
      assert m[0] == prev[0] && m[|m| - 1] == last[|last| - 1];
      assert IsStripped(m);
      var r := chunks[..n - 2] + [m];
      forall c | c in r ensures c != [] && IsStripped(c) {
        if c != m {
          assert c in chunks[..n - 2];
          assert c in chunks;
        }
      }
    }
  }

  /**
   * `build_chunks_from_segments` as a function: the merged chunk texts of the
   * greedy packing. Every chunk is non-empty and stripped, there are never more
   * chunks than segments, and segments always give at least one chunk.
   */
  function ChunksOf(segments: seq<string>, config: ChunkingConfig): (chunks: seq<string>)
    ensures forall c | c in chunks :: c != [] && IsStripped(c)
    ensures |chunks| <= |segments|
    ensures segments == [] ==> chunks == []
    ensures segments != [] && GoodSegments(segments) ==> chunks != []
  {
    if segments == [] then []
    else
      var buffers := Pack(segments, config);
      PackCount(segments, config);
      var pre := PreMergeChunks(buffers);
      MergeTailKeepsShape(pre, config.minChars);
      PackKeepsSomething(segments, config);
      MergeTail(pre, config.minChars)
  }

  lemma PackKeepsSomething(segments: seq<string>, config: ChunkingConfig)
    ensures segments != [] && GoodSegments(segments) ==> PreMergeChunks(Pack(segments, config)) != []
  {
    if segments != [] && GoodSegments(segments) {
      var bs := Pack(segments, config);
      PackCount(segments, config);
      PackOwnNonEmpty(segments, config);
      PackDrawsFrom(segments, config);
      var last := bs[|bs| - 1];
      assert last in bs;
      assert GoodSegments(last.Contents());
      JoinStripped(last.Contents());
      StripIdentity(Join(Sep, last.Contents()));
    }
  }

  /**
   * With well-formed segments, the chunks are exactly the buffers joined with a
   * blank line (nothing dropped or trimmed), followed by the one-shot merge.
   */
  lemma ChunksAreJoinedBuffers(segments: seq<string>, config: ChunkingConfig)
    requires segments != [] && GoodSegments(segments)
    ensures ChunksOf(segments, config) == MergeTail(JoinedBuffers(Pack(segments, config)), config.minChars)
  {
    var bs := Pack(segments, config);
    PackDrawsFrom(segments, config);
    PackOwnNonEmpty(segments, config);
    forall b | b in bs ensures b.Contents() != [] && GoodSegments(b.Contents()) {
      var j :| 0 <= j < |bs| && bs[j] == b;
    }
    PreMergeKeepsAll(bs);
  }

  /**
   * The merge runs at most once: with at least two pre-merge chunks and a last
   * one under `minChars` there is exactly one chunk fewer, ending in
   * `prev + "\n\n" + last`; otherwise nothing changes.
   */
  lemma MergeOnce(chunks: seq<string>, minChars: int)
    ensures var r := MergeTail(chunks, minChars); var n := |chunks|;
      if n >= 2 && |chunks[n - 1]| < minChars
      then |r| == n - 1 && r[..n - 2] == chunks[..n - 2] && r[n - 2] == chunks[n - 2] + Sep + chunks[n - 1]
      else r == chunks
  {
  }

  /**
   * The state of the packing loop after the first `i` segments: the current
   * buffer is the last buffer of the packing so far, and the chunks are the
   * texts of the buffers closed before it.
   */
  ghost predicate PackedUpTo(segments: seq<string>, i: nat, config: ChunkingConfig,
                             current: seq<string>, chunks: seq<string>)
    requires i <= |segments|
  {
    if i == 0 then current == [] && chunks == []
    else
      var bs := Pack(segments[..i], config);
      && bs != []
      && current != []
      && current == bs[|bs| - 1].Contents()
      && chunks == PreMergeChunks(bs[..|bs| - 1])
  }

  /** `chunks` extended with `text` when it is non-empty, as the source does at every close. */
  function AppendNonEmpty(chunks: seq<string>, text: string): seq<string> {
    if text != [] then chunks + [text] else chunks
  }

  /** A segment that does not fit closes the current buffer; the next one starts with the overlap. */
  lemma PackedClose(segments: seq<string>, i: nat, config: ChunkingConfig,
                    current: seq<string>, chunks: seq<string>)
    requires i < |segments| && PackedUpTo(segments, i, config, current, chunks)
    requires current != [] && JoinedLength(current + [segments[i]]) > config.maxChars
    ensures PackedUpTo(segments, i + 1, config,
                       Overlap(current, config.overlapSegments) + [segments[i]],
                       AppendNonEmpty(chunks, Strip(Join(Sep, current))))
  {
    var prefix := segments[..i];
    var bs := Pack(prefix, config);
    assert i != 0;
    assert bs != [] && current == bs[|bs| - 1].Contents() && chunks == PreMergeChunks(bs[..|bs| - 1]);
    TakeSnoc(segments, i);
    CloseState(prefix, segments[i], config, current, chunks);
  }

  /** The close step of the packing loop, stated on the buffers alone. */
  lemma CloseState(prefix: seq<string>, seg: string, config: ChunkingConfig,
                   current: seq<string>, chunks: seq<string>)
    requires Pack(prefix, config) != []
    requires current == Pack(prefix, config)[|Pack(prefix, config)| - 1].Contents()
    requires chunks == PreMergeChunks(Pack(prefix, config)[..|Pack(prefix, config)| - 1])
    requires JoinedLength(current + [seg]) > config.maxChars
    ensures var bs' := Pack(prefix + [seg], config);
      && bs' != []
      && bs'[|bs'| - 1].Contents() == Overlap(current, config.overlapSegments) + [seg]
      && PreMergeChunks(bs'[..|bs'| - 1]) == AppendNonEmpty(chunks, Strip(Join(Sep, current)))
  {
    var bs := Pack(prefix, config);
    var bs' := bs + [Buffer(Overlap(current, config.overlapSegments), [seg])];
    assert bs'[..|bs'| - 1] == bs;
    PackClose(prefix, seg, config);
  }

  /** A segment that fits, or the first segment, joins the current buffer. */
  lemma PackedFit(segments: seq<string>, i: nat, config: ChunkingConfig,
                  current: seq<string>, chunks: seq<string>)
    requires i < |segments| && PackedUpTo(segments, i, config, current, chunks)
    requires current == [] || JoinedLength(current + [segments[i]]) <= config.maxChars
    ensures PackedUpTo(segments, i + 1, config, current + [segments[i]], chunks)
  {
    if i == 0 {
      PackedFirst(segments, config);
    } else {
      PackedGrow(segments, i, config, current, chunks);
    }
  }

  /** The first segment opens the first buffer. */
  lemma PackedFirst(segments: seq<string>, config: ChunkingConfig)
    requires segments != []
    ensures PackedUpTo(segments, 1, config, [segments[0]], [])
  {
    assert segments[..1] == [] + [segments[0]];
    PackSnoc([], segments[0], config);
  }

  /** A later segment that fits extends the last buffer's own segments. */
  lemma PackedGrow(segments: seq<string>, i: nat, config: ChunkingConfig,
                   current: seq<string>, chunks: seq<string>)
    requires 0 < i < |segments| && PackedUpTo(segments, i, config, current, chunks)
    requires JoinedLength(current + [segments[i]]) <= config.maxChars
    ensures PackedUpTo(segments, i + 1, config, current + [segments[i]], chunks)
  {
    var prefix := segments[..i];
    TakeSnoc(segments, i);
    PackGrow(prefix, segments[i], config);
  }

  /** Closing the last buffer completes the pre-merge chunk list. */
  lemma PackedDone(segments: seq<string>, config: ChunkingConfig, current: seq<string>, chunks: seq<string>)
    requires segments != [] && PackedUpTo(segments, |segments|, config, current, chunks)
    ensures current != []
    ensures MergeTail(AppendNonEmpty(chunks, Strip(Join(Sep, current))), config.minChars)
            == ChunksOf(segments, config)
  {
    assert segments[..|segments|] == segments;
    var bs := Pack(segments, config);
    assert current == bs[|bs| - 1].Contents() && chunks == PreMergeChunks(bs[..|bs| - 1]);
    assert AppendNonEmpty(chunks, ChunkText(bs[|bs| - 1])) == PreMergeChunks(bs);
  }

  /** `build_chunks_from_segments`: the loop over segments with its segment buffer. */
  method BuildChunksFromSegments(segments: seq<string>, config: ChunkingConfig) returns (chunks: seq<string>)
    ensures chunks == ChunksOf(segments, config)
  {
    if segments == [] {
      return [];
    }
    chunks := [];
    var currentSegments: seq<string> := [];
    for i := 0 to |segments|
      invariant PackedUpTo(segments, i, config, currentSegments, chunks)
    {
      var seg := segments[i];
      JoinedLengthIsLength(currentSegments + [seg]);
      if currentSegments != [] && |Join(Sep, currentSegments + [seg])| > config.maxChars {
        PackedClose(segments, i, config, currentSegments, chunks);
        var chunkText := Strip(Join(Sep, currentSegments));
        if chunkText != [] {
          chunks := chunks + [chunkText];
        }
        currentSegments := Overlap(currentSegments, config.overlapSegments) + [seg];
      } else {
        PackedFit(segments, i, config, currentSegments, chunks);
        currentSegments := currentSegments + [seg];
      }
    }
    PackedDone(segments, config, currentSegments, chunks);
    ghost var pre := AppendNonEmpty(chunks, Strip(Join(Sep, currentSegments)));
    if currentSegments != [] {
      var chunkText := Strip(Join(Sep, currentSegments));
      if chunkText != [] {
        chunks := chunks + [chunkText];
      }
    }
    assert chunks == pre;
    var n := |chunks|;
    if n >= 2 && |chunks[n - 1]| < config.minChars {
      var prev := chunks[n - 2];
      var last := chunks[n - 1];
      chunks := chunks[n - 2 := prev + Sep + last];
      chunks := chunks[..n - 1];
      ReplaceThenPop(pre, prev + Sep + last);
    }
  }

  /** `xs[-2] = v` followed by `xs.pop()`. */
  lemma ReplaceThenPop<T>(xs: seq<T>, v: T)
    requires |xs| >= 2
    ensures xs[|xs| - 2 := v][..|xs| - 1] == xs[..|xs| - 2] + [v]
  {
  }

  // ===========================================================================
  // chunk_page_text

  /**
   * `chunk_page_text`: segment the page, then pack. A page whose normalised
   * text is empty gives no chunk, and any other page gives at least one.
   */
  function ChunkPageText(pageText: string, config: ChunkingConfig): (chunks: seq<string>)
    ensures chunks == [] <==> NormalizeWhitespace(pageText) == []
    ensures chunks == [] <==> IsBlank(pageText)
    ensures forall c | c in chunks :: c != [] && IsStripped(c)
    ensures |chunks| <= |SegmentsOf(pageText)|
    ensures SegmentsOf(pageText) != [] ==> chunks == ChunksOf(SegmentsOf(pageText), config)
  {
    var segments := SegmentsOf(pageText);
    if segments == [] then [] else ChunksOf(segments, config)
  }

  // ===========================================================================
  // consequences

  lemma JoinTwo(x: string, y: string)
    ensures Join(Sep, [x, y]) == x + Sep + y
  {
    assert [x, y][1..] == [y];
  }

  lemma JoinThree(x: string, y: string, z: string)
    ensures Join(Sep, [x, y, z]) == x + Sep + (y + Sep + z)
  {
    assert [x, y, z][1..] == [y, z];
    JoinTwo(y, z);
  }

  /** A single segment, however long, becomes exactly one chunk holding all of it. */
  lemma SingleSegmentOneChunk(seg: string, config: ChunkingConfig)
    requires seg != [] && IsStripped(seg)
    ensures ChunksOf([seg], config) == [seg]
  {
    PackSnoc([], seg, config);
    assert [] + [seg] == [seg];
    var bs := Pack([seg], config);
    assert bs == [Buffer([], [seg])];
    assert bs[..0] == [];
    StripIdentity(seg);
  }

  lemma PackOne(a: string, config: ChunkingConfig)
    ensures Pack([a], config) == [Buffer([], [a])]
  {
    assert [] + [a] == [a];
    PackSnoc([], a, config);
  }

  /** The buffers of two segments when the second overflows the first buffer. */
  lemma PackTwoOverflowing(a: string, b: string, config: ChunkingConfig)
    requires |a| + 2 + |b| > config.maxChars
    ensures Pack([a, b], config) == [Buffer([], [a]), Buffer(Overlap([a], config.overlapSegments), [b])]
  {
    assert [a] + [b] == [a, b];
    PackOne(a, config);
    assert Buffer([], [a]).Contents() + [b] == [a, b];
    assert [a, b][1..] == [b];
    PackClose([a], b, config);
  }

  /** The buffers of three segments when each of the last two overflows its buffer. */
  lemma PackThreeOverflowing(a: string, b: string, c: string, config: ChunkingConfig)
    requires |a| + 2 + |b| > config.maxChars && |b| + 2 + |c| > config.maxChars
    ensures var o1 := Overlap([a], config.overlapSegments);
      Pack([a, b, c], config)
      == [Buffer([], [a]), Buffer(o1, [b]), Buffer(Overlap(o1 + [b], config.overlapSegments), [c])]
  {
    assert [a, b] + [c] == [a, b, c];
    var o1 := Overlap([a], config.overlapSegments);
    var contents := o1 + [b] + [c];
    assert Buffer(o1, [b]).Contents() + [c] == contents;
    assert JoinedLength(contents) > config.maxChars by {
      if o1 == [] {
        assert contents == [b, c] && contents[1..] == [c];
      } else {
        assert contents == [a, b, c] && contents[1..] == [b, c] && contents[1..][1..] == [c];
      }
    }
    PackTwoOverflowing(a, b, config);
    PackClose([a, b], c, config);
  }

  lemma JoinedBuffersThree(x: Buffer, y: Buffer, z: Buffer)
    ensures JoinedBuffers([x, y, z])
      == [Join(Sep, x.Contents()), Join(Sep, y.Contents()), Join(Sep, z.Contents())]
  {
    assert [x, y, z][..2] == [x, y];
    assert [x, y][..1] == [x];
    assert [x][..0] == [];
    assert JoinedBuffers([x]) == [Join(Sep, x.Contents())];
    assert JoinedBuffers([x, y]) == [Join(Sep, x.Contents()), Join(Sep, y.Contents())];
  }

  /**
   * Three long segments with overlap 1 give the chunks [a], [a, b], [b, c]:
   * each boundary repeats the closed buffer's last segment.
   */
  lemma OverlapRepeatsSegments(a: string, b: string, c: string, config: ChunkingConfig)
    requires GoodSegments([a, b, c])
    requires config.overlapSegments == 1
    requires |a| + 2 + |b| > config.maxChars && |b| + 2 + |c| > config.maxChars
    requires |b| + 2 + |c| >= config.minChars
    ensures ChunksOf([a, b, c], config) == [a, a + Sep + b, b + Sep + c]
  {
    assert [a] + [b] == [a, b] && [a, b][1..] == [b] && [b] + [c] == [b, c] && [] + [a] == [a];
    var x, y, z := Buffer([], [a]), Buffer([a], [b]), Buffer([b], [c]);
    JoinedBuffersThree(x, y, z);
    JoinTwo(a, b);
    JoinTwo(b, c);
    assert JoinedBuffers([x, y, z]) == [a, a + Sep + b, b + Sep + c];
    PackThreeOverflowing(a, b, c, config);
    assert Pack([a, b, c], config) == [x, y, z];
    ChunksAreJoinedBuffers([a, b, c], config);
  }

  /**
   * No upper bound: when the last chunk is short, the merge builds a chunk
   * longer than `maxChars` and does not check it.
   */
  lemma MergeCanExceedMax(a: string, b: string, config: ChunkingConfig)
    requires GoodSegments([a, b])
    requires config.overlapSegments == 0
    requires |a| + 2 + |b| > config.maxChars && |b| < config.minChars
    ensures ChunksOf([a, b], config) == [a + Sep + b]
    ensures |ChunksOf([a, b], config)[0]| > config.maxChars
  {
    assert [Buffer([], [a]), Buffer([], [b])][..1][..0] == [];
    PackTwoOverflowing(a, b, config);
    var bs := Pack([a, b], config);
    assert bs == [Buffer([], [a]), Buffer([], [b])];
    ChunksAreJoinedBuffers([a, b], config);
    assert JoinedBuffers(bs) == [a, b];
  }

  /**
   * The merge is not repeated: after it runs, the last chunk may still be under
   * `minChars` with another chunk before it.
   */
  lemma MergeNotRepeated(a: string, b: string, c: string, config: ChunkingConfig)
    requires GoodSegments([a, b, c])
    requires config.overlapSegments == 0
    requires |a| + 2 + |b| > config.maxChars && |b| + 2 + |c| > config.maxChars
    requires |b| + 2 + |c| < config.minChars
    ensures ChunksOf([a, b, c], config) == [a, b + Sep + c]
    ensures |ChunksOf([a, b, c], config)[1]| < config.minChars
  {
    assert [] + [a] == [a] && [] + [b] == [b] && [] + [c] == [c];
    var x, y, z := Buffer([], [a]), Buffer([], [b]), Buffer([], [c]);
    JoinedBuffersThree(x, y, z);
    assert JoinedBuffers([x, y, z]) == [a, b, c];
    PackThreeOverflowing(a, b, c, config);
    assert Pack([a, b, c], config) == [x, y, z];
    ChunksAreJoinedBuffers([a, b, c], config);
  }

  /** A page whose normalised text is one line gives exactly that line as its only chunk. */
  lemma SingleLinePageOneChunk(pageText: string, config: ChunkingConfig)
    requires NormalizeWhitespace(pageText) != [] && '\n' !in NormalizeWhitespace(pageText)
    ensures ChunkPageText(pageText, config) == [NormalizeWhitespace(pageText)]
  {
    var t := NormalizeWhitespace(pageText);
    OneLineOneSegment(t);
    SingleSegmentOneChunk(t, config);
  }

  /** A stripped single line is its own only segment. */
  lemma OneLineOneSegment(t: string)
    requires t != [] && IsStripped(t) && '\n' !in t
    ensures TextSegments(t) == [t]
  {
    SplitOnNoSep(t, '\n');
    assert SplitLines(t) == [t];
    RStripIdentity(t);
    assert [t][..0] == [];
    assert LineGroups([t]) == [[t]];
    assert [[t]][..0] == [];
    assert Join("\n", [t]) == t;
    StripIdentity(t);
    assert SegText([t]) == t;
    assert SegTexts([[t]]) == [t];
  }
}
