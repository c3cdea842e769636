/**
 * Text primitives shared by the model: Python's `strip`, `rstrip`, `"sep".join`,
 * `str.split`, `str.splitlines`, `in` on strings, decimal digits and `lower`.
 *
 * Assumptions, stated once for the whole model: whitespace is ASCII space, tab
 * and newline; a line break is '\n' only; a digit is an ASCII digit.
 */
module Strings {

  /** Whitespace as `str.strip`/`str.isspace` see it in this model. */
  predicate IsWs(c: char) {
    c == ' ' || c == '\t' || c == '\n'
  }

  /** Every character is whitespace (`not s.strip()`). */
  predicate IsBlank(s: string) {
    forall i | 0 <= i < |s| :: IsWs(s[i])
  }

  /** Neither the first nor the last character is whitespace. */
  predicate IsStripped(s: string) {
    s == [] || (!IsWs(s[0]) && !IsWs(s[|s| - 1]))
  }

  /** The last character, if any, is not whitespace. */
  predicate NoTrailingWs(s: string) {
    s == [] || !IsWs(s[|s| - 1])
  }

  /** The number of leading whitespace characters. */
  function LeadingWs(s: string): (n: nat)
    ensures n <= |s|
    ensures forall i | 0 <= i < n :: IsWs(s[i])
    ensures n < |s| ==> !IsWs(s[n])
  {
    if s != [] && IsWs(s[0]) then 1 + LeadingWs(s[1..]) else 0
  }

  /** The index at which the trailing whitespace begins. */
  function TrailingWsStart(s: string): (n: nat)
    ensures n <= |s|
    ensures forall i | n <= i < |s| :: IsWs(s[i])
    ensures n > 0 ==> !IsWs(s[n - 1])
  {
    if s != [] && IsWs(s[|s| - 1]) then TrailingWsStart(s[..|s| - 1]) else |s|
  }

  /** `s.lstrip()`: the suffix left after dropping leading whitespace. */
  function LStrip(s: string): (r: string)
    ensures |r| <= |s| && r == s[|s| - |r|..]
    ensures r == [] || !IsWs(r[0])
    ensures forall i | 0 <= i < |s| - |r| :: IsWs(s[i])
  {
    s[LeadingWs(s)..]
  }

  /** `s.rstrip()`: the prefix left after dropping trailing whitespace. */
  function RStrip(s: string): (r: string)
    ensures |r| <= |s| && r == s[..|r|]
    ensures NoTrailingWs(r)
    ensures forall i | |r| <= i < |s| :: IsWs(s[i])
  {
    s[..TrailingWsStart(s)]
  }

  /** `s.strip()`: a slice of `s` without whitespace at either end. */
  function Strip(s: string): (r: string)
    ensures IsStripped(r)
    ensures r == [] <==> IsBlank(s)
  {
    var k := LeadingWs(s);
    var l := s[k..];
    var n := TrailingWsStart(l);
    assert l[..n] == s[k..k + n];
    assert n > 0 ==> l[0] == s[k];
    assert IsBlank(s) ==> k == |s|;
    assert k < |s| ==> n > 0;
    l[..n]
  }

  /** The stripped text is the slice of `s` that starts after its leading whitespace. */
  lemma StripSlice(s: string)
    ensures var k := |s| - |LStrip(s)|; k + |Strip(s)| <= |s| && Strip(s) == s[k..k + |Strip(s)|]
  {
    var k := LeadingWs(s);
    var l := s[k..];
    var n := TrailingWsStart(l);
    assert l[..n] == s[k..k + n];
  }

  lemma StripIsRStripLStrip(s: string)
    ensures Strip(s) == RStrip(LStrip(s))
  {
  }

  /** Left-stripping looks through any run of whitespace in front. */
  lemma {:induction false} LStripWsPrefix(ws: string, s: string)
    requires forall i | 0 <= i < |ws| :: IsWs(ws[i])
    ensures LStrip(ws + s) == LStrip(s)
    decreases |ws|
  {
    if ws == [] {
      assert ws + s == s;
    } else {
      var rest := ws[1..] + s;
      assert (ws + s)[1..] == rest;
      LStripWsPrefix(ws[1..], s);
    }
  }

  lemma LStripIdentity(s: string)
    requires s == [] || !IsWs(s[0])
    ensures LStrip(s) == s
  {
  }

  lemma RStripIdentity(s: string)
    requires NoTrailingWs(s)
    ensures RStrip(s) == s
  {
  }

  lemma StripIdentity(s: string)
    requires IsStripped(s)
    ensures Strip(s) == s
  {
  }

  /** The leading-whitespace count is the first non-whitespace index. */
  lemma LeadingWsAt(s: string, k: nat)
    requires k <= |s| && (forall i | 0 <= i < k :: IsWs(s[i])) && (k < |s| ==> !IsWs(s[k]))
    ensures LeadingWs(s) == k
  {
  }

  /** A non-blank string keeps its own leading part under `lstrip` of a longer text. */
  lemma LStripConcat(x: string, y: string)
    requires !IsBlank(x)
    ensures LStrip(x + y) == LStrip(x) + y
  {
    var k := LeadingWs(x);
    assert k < |x|;
    LeadingWsAt(x + y, k);
    assert (x + y)[k..] == x[k..] + y;
  }

  lemma LStripNotBlank(s: string)
    requires !IsBlank(s)
    ensures !IsBlank(LStrip(s)) && LStrip(s) != []
    ensures NoTrailingWs(s) ==> NoTrailingWs(LStrip(s))
  {
    var i :| 0 <= i < |s| && !IsWs(s[i]);
    var r := LStrip(s);
    assert i >= |s| - |r|;
    assert r[i - (|s| - |r|)] == s[i];
  }

  lemma RStripNotBlank(s: string)
    requires s != [] && !IsWs(s[0])
    ensures RStrip(s) != [] && !IsBlank(RStrip(s))
  {
    var r := RStrip(s);
    assert r != [];
    assert !IsWs(r[0]);
  }

  // ---------------------------------------------------------------------------
  // join and split

  /** `sep.join(parts)`. */
  function Join(sep: string, parts: seq<string>): string
  {
    if |parts| == 0 then []
    else if |parts| == 1 then parts[0]
    else parts[0] + sep + Join(sep, parts[1..])
  }

  lemma {:induction false} JoinFirst(sep: string, parts: seq<string>)
    requires |parts| >= 1 && parts[0] != []
    ensures Join(sep, parts) != [] && Join(sep, parts)[0] == parts[0][0]
  {
  }

  lemma {:induction false} JoinLast(sep: string, parts: seq<string>)
    requires |parts| >= 1 && parts[|parts| - 1] != []
    ensures var j := Join(sep, parts); var l := parts[|parts| - 1];
      j != [] && j[|j| - 1] == l[|l| - 1]
  {
    if |parts| > 1 {
      JoinLast(sep, parts[1..]);
    }
  }

  lemma {:induction false} JoinAppend(sep: string, parts: seq<string>, x: string)
    requires parts != []
    ensures Join(sep, parts + [x]) == Join(sep, parts) + sep + x
  {
    if |parts| == 1 {
      assert parts + [x] == [parts[0], x];
    } else {
      assert (parts + [x])[1..] == parts[1..] + [x];
      JoinAppend(sep, parts[1..], x);
    }
  }

  /** `s.split(c)` for a one-character separator: never empty, pieces free of `c`. */
  function SplitOn(s: string, c: char): (r: seq<string>)
    ensures |r| >= 1
    ensures forall p | p in r :: c !in p
  {
    if s == [] then [[]]
    else
      var rest := SplitOn(s[1..], c);
      if s[0] == c then [[]] + rest else [[s[0]] + rest[0]] + rest[1..]
  }

  lemma {:induction false} SplitOnNoSep(s: string, c: char)
    requires c !in s
    ensures SplitOn(s, c) == [s]
  {
    if s != [] {
      assert s[0] != c && c !in s[1..];
      SplitOnNoSep(s[1..], c);
      assert [s[0]] + s[1..] == s;
    }
  }

  lemma {:induction false} SplitOnConcat(x: string, c: char, y: string)
    requires c !in x
    ensures SplitOn(x + [c] + y, c) == [x] + SplitOn(y, c)
  {
    if x == [] {
      assert ([c] + y)[1..] == y;
    } else {
      assert (x + [c] + y)[1..] == x[1..] + [c] + y;
      assert x[0] != c && c !in x[1..];
      SplitOnConcat(x[1..], c, y);
      assert [x[0]] + x[1..] == x;
    }
  }

  /** Splitting a join on its one-character separator gives back the parts. */
  lemma {:induction false} SplitOnJoin(parts: seq<string>, c: char)
    requires |parts| >= 1
    requires forall p | p in parts :: c !in p
    ensures SplitOn(Join([c], parts), c) == parts
  {
    if |parts| == 1 {
      SplitOnNoSep(parts[0], c);
    } else {
      SplitOnJoin(parts[1..], c);
      SplitOnConcat(parts[0], c, Join([c], parts[1..]));
    }
  }

  /** Joining the pieces of a split gives back the string. */
  lemma {:induction false} JoinSplitOn(s: string, c: char)
    ensures Join([c], SplitOn(s, c)) == s
  {
    if s != [] {
      JoinSplitOn(s[1..], c);
      var rest := SplitOn(s[1..], c);
      if s[0] != c {
        var r := [[s[0]] + rest[0]] + rest[1..];
        if |rest| > 1 {
          assert rest == [rest[0]] + rest[1..];
          assert Join([c], rest) == rest[0] + [c] + Join([c], rest[1..]);
          assert r[1..] == rest[1..];
        }
      }
    }
  }

  /** The first piece of a split starts with the first character when that is not `c`. */
  lemma SplitOnFirst(s: string, c: char)
    requires s != [] && s[0] != c
    ensures SplitOn(s, c)[0] != [] && SplitOn(s, c)[0][0] == s[0]
  {
  }

  /** The lines of `s` as `s.split("\n")` gives them. */
  function Lines(s: string): seq<string> {
    SplitOn(s, '\n')
  }

  /** `s.splitlines()` for '\n' line breaks: no final empty piece after a trailing break. */
  function SplitLines(s: string): (r: seq<string>)
    ensures forall l | l in r :: '\n' !in l
    ensures s == [] <==> r == []
  {
    if s == [] then []
    else
      var p := Lines(s);
      if s[|s| - 1] == '\n' then
        assert |p| >= 2 by { SplitOnTrailing(s); }
        p[..|p| - 1]
      else p
  }

  lemma {:induction false} SplitOnTrailing(s: string)
    requires s != [] && s[|s| - 1] == '\n'
    ensures |SplitOn(s, '\n')| >= 2 && SplitOn(s, '\n')[|SplitOn(s, '\n')| - 1] == []
  {
    if |s| > 1 {
      SplitOnTrailing(s[1..]);
    }
  }

  /** A text that does not end with a line break is split into the same lines by both. */
  lemma SplitLinesNoTrailing(s: string)
    requires s != [] && s[|s| - 1] != '\n'
    ensures SplitLines(s) == Lines(s)
  {
  }

  /** Every element of `parts` has no trailing whitespace. */
  predicate AllNoTrailingWs(parts: seq<string>) {
    forall i | 0 <= i < |parts| :: NoTrailingWs(parts[i])
  }

  /** `sep` occurs in `s` (Python's `sep in s`). */
  predicate Contains(s: string, sep: string)
    decreases |s|
  {
    sep <= s || (s != [] && Contains(s[1..], sep))
  }

  // ---------------------------------------------------------------------------
  // concatenation and the non-whitespace text

  /** Concatenation of a sequence of sequences, in order. */
  function Flatten<T>(xss: seq<seq<T>>): seq<T> {
    if xss == [] then [] else Flatten(xss[..|xss| - 1]) + xss[|xss| - 1]
  }

  lemma FlattenAppend<T>(xss: seq<seq<T>>, xs: seq<T>)
    ensures Flatten(xss + [xs]) == Flatten(xss) + xs
  {
    assert (xss + [xs])[..|xss|] == xss;
  }

  lemma {:induction false} FlattenConcat<T>(xss: seq<seq<T>>, yss: seq<seq<T>>)
    ensures Flatten(xss + yss) == Flatten(xss) + Flatten(yss)
    decreases |yss|
  {
    if yss == [] {
      assert xss + yss == xss;
    } else {
      var init := yss[..|yss| - 1];
      var last := yss[|yss| - 1];
      assert yss == init + [last];
      assert xss + yss == (xss + init) + [last];
      FlattenConcat(xss, init);
      FlattenAppend(xss + init, last);
      FlattenAppend(init, last);
    }
  }

  lemma FlattenCons<T>(xs: seq<T>, xss: seq<seq<T>>)
    ensures Flatten([xs] + xss) == xs + Flatten(xss)
  {
    FlattenConcat([xs], xss);
    FlattenAppend([], xs);
    assert [] + [xs] == [xs];
  }

  /** The characters of `s` that are not whitespace, in order: the text a whitespace rewrite must keep. */
  function NonWs(s: string): string {
    if s == [] then [] else (if IsWs(s[0]) then [] else [s[0]]) + NonWs(s[1..])
  }

  lemma {:induction false} NonWsConcat(a: string, b: string)
    ensures NonWs(a + b) == NonWs(a) + NonWs(b)
  {
    if a == [] {
      assert a + b == b;
    } else {
      assert (a + b)[1..] == a[1..] + b;
      NonWsConcat(a[1..], b);
    }
  }

  /** A text has no non-whitespace character exactly when it is blank. */
  lemma {:induction false} NonWsEmpty(s: string)
    ensures NonWs(s) == [] <==> IsBlank(s)
  {
    if s != [] {
      NonWsEmpty(s[1..]);
      if IsWs(s[0]) && IsBlank(s[1..]) {
        forall i | 1 <= i < |s|
          ensures IsWs(s[i])
        {
          assert s[i] == s[1..][i - 1];
        }
      }
    }
  }

  lemma RStripKeepsText(s: string)
    ensures NonWs(RStrip(s)) == NonWs(s)
  {
    var n := TrailingWsStart(s);
    assert s == s[..n] + s[n..];
    NonWsConcat(s[..n], s[n..]);
    NonWsEmpty(s[n..]);
  }

  lemma StripKeepsText(s: string)
    ensures NonWs(Strip(s)) == NonWs(s)
  {
    var k := LeadingWs(s);
    var l := s[k..];
    var n := TrailingWsStart(l);
    assert s == s[..k] + (l[..n] + l[n..]);
    NonWsConcat(s[..k], l[..n] + l[n..]);
    NonWsConcat(l[..n], l[n..]);
    NonWsEmpty(s[..k]);
    NonWsEmpty(l[n..]);
  }

  /** Joining with a blank separator keeps the non-whitespace text of the parts. */
  lemma {:induction false} JoinKeepsText(sep: string, parts: seq<string>)
    requires IsBlank(sep)
    ensures NonWs(Join(sep, parts)) == NonWs(Flatten(parts))
  {
    if |parts| == 1 {
      var none: seq<string> := [];
      FlattenAppend(none, parts[0]);
      assert parts == none + [parts[0]];
      assert Flatten(parts) == parts[0];
    } else if |parts| > 1 {
      JoinKeepsText(sep, parts[1..]);
      assert Join(sep, parts) == (parts[0] + sep) + Join(sep, parts[1..]);
      NonWsConcat(parts[0] + sep, Join(sep, parts[1..]));
      NonWsConcat(parts[0], sep);
      NonWsEmpty(sep);
      assert parts == [parts[0]] + parts[1..];
      FlattenCons(parts[0], parts[1..]);
      NonWsConcat(parts[0], Flatten(parts[1..]));
    }
  }

  /** `splitlines` drops only line breaks: the lines hold all of the text's non-whitespace characters. */
  lemma SplitLinesKeepText(s: string)
    ensures NonWs(Flatten(SplitLines(s))) == NonWs(s)
  {
    if s != [] {
      var p := Lines(s);
      JoinSplitOn(s, '\n');
      JoinKeepsText(['\n'], p);
      if s[|s| - 1] == '\n' {
        SplitOnTrailing(s);
        var init := p[..|p| - 1];
        assert SplitLines(s) == init && p == init + [[]];
        FlattenAppend(init, []);
        assert Flatten(init) + [] == Flatten(init);
      }
    }
  }

  // ---------------------------------------------------------------------------
  // digits and numbers

  predicate IsDigit(c: char) {
    '0' <= c <= '9'
  }

  predicate AllDigits(s: string) {
    forall i | 0 <= i < |s| :: IsDigit(s[i])
  }

  function DigitValue(c: char): nat
    requires IsDigit(c)
  {
    c as int - '0' as int
  }

  function DigitChar(d: nat): (c: char)
    requires d < 10
    ensures IsDigit(c) && DigitValue(c) == d
  {
    ('0' as int + d) as char
  }

  /** `int(s)` for a string of decimal digits. */
  function DecimalValue(s: string): nat
    requires AllDigits(s)
  {
    if s == [] then 0 else DecimalValue(s[..|s| - 1]) * 10 + DigitValue(s[|s| - 1])
  }

  /** `str(n)` for a natural number. */
  function Decimal(n: nat): (r: string)
    ensures r != [] && AllDigits(r)
    ensures DecimalValue(r) == n
    ensures n < 10 <==> |r| == 1
  {
    if n < 10 then [DigitChar(n)]
    else
      var r := Decimal(n / 10) + [DigitChar(n % 10)];
      assert r[..|r| - 1] == Decimal(n / 10);
      r
  }

  /** The number of digits of `n` grows with `n`: under 1000 there are at most three. */
  lemma {:induction false} DecimalLength(n: nat)
    ensures n < 1000 <==> |Decimal(n)| <= 3
    ensures n < 100 <==> |Decimal(n)| <= 2
  {
    if n >= 10 {
      DecimalLength(n / 10);
    }
  }

  /** `c.lower()` for ASCII and Latin-1 capitals; other characters are unchanged. */
  function LowerChar(c: char): char {
    if 'A' <= c <= 'Z' || ('À' <= c <= 'Þ' && c != '×')
    then (c as int + 32) as char
    else c
  }

  function Lower(s: string): (r: string)
    ensures |r| == |s|
    ensures forall i | 0 <= i < |s| :: r[i] == LowerChar(s[i])
  {
    if s == [] then [] else [LowerChar(s[0])] + Lower(s[1..])
  }
}
