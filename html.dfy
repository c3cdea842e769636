/**
 * The listing-page scraper: `extract_contract_links` finds every
 * `href="/contrato-publico/…"` attribute, prefixes the site URL and returns
 * the distinct URLs in ascending order; `paginate_contract_links` visits
 * pages 0, 1, … and returns the sorted union of their links. Fetching a page
 * is an input, and so is the site URL the links are prefixed with.
 */
module Html {

  // ===========================================================================
  // the regular expression `href="(/contrato-publico/[^"]+)"`, as `re.findall` scans

  const Href: string := "href=\""
  const PathPrefix: string := "/contrato-publico/"

  /** `t` occurs in `s` at index `k`. */
  predicate OccursAt(s: string, k: nat, t: string) {
    k + |t| <= |s| && s[k..k + |t|] == t
  }

  /** The index of the first `"` at or after `j`, or `|s|`. */
  function QuoteFrom(s: string, j: nat): (q: nat)
    requires j <= |s|
    ensures j <= q <= |s|
    ensures forall i | j <= i < q :: s[i] != '"'
    ensures q < |s| ==> s[q] == '"'
    decreases |s| - j
  {
    if j == |s| || s[j] == '"' then j else QuoteFrom(s, j + 1)
  }

  /**
   * The pattern matches at `k`: the opening text, then at least one character
   * other than `"` (the greedy class stops at the first `"`), then a `"`.
   */
  predicate MatchAt(s: string, k: nat) {
    && OccursAt(s, k, Href + PathPrefix)
    && var q := QuoteFrom(s, k + |Href + PathPrefix|);
       q < |s| && q > k + |Href + PathPrefix|
  }

  /** The index of the closing `"` of the match at `k`. */
  function MatchEnd(s: string, k: nat): (q: nat)
    requires MatchAt(s, k)
    ensures k + |Href + PathPrefix| < q < |s| && s[q] == '"'
  {
    QuoteFrom(s, k + |Href + PathPrefix|)
  }

  /** The captured group of the match at `k`: the path between the quotes. */
  function PathAt(s: string, k: nat): string
    requires MatchAt(s, k)
  {
    s[k + |Href|..MatchEnd(s, k)]
  }

  /** A path the pattern can capture: the prefix, at least one more character, and no `"`. */
  predicate ValidPath(p: string) {
    |p| > |PathPrefix| && p[..|PathPrefix|] == PathPrefix && '"' !in p
  }

  /** `re.findall` from index `i`: after a match the scan resumes behind its closing quote. */
  function FindAll(s: string, i: nat): (paths: seq<string>)
    requires i <= |s|
    ensures forall p | p in paths :: ValidPath(p)
    decreases |s| - i
  {
    if i == |s| then []
    else if MatchAt(s, i) then
      PathAtValid(s, i);
      [PathAt(s, i)] + FindAll(s, MatchEnd(s, i) + 1)
    else FindAll(s, i + 1)
  }

  lemma PathAtValid(s: string, k: nat)
    requires MatchAt(s, k)
    ensures ValidPath(PathAt(s, k))
  {
    var p := PathAt(s, k);
    var o := Href + PathPrefix;
    assert p[..|PathPrefix|] == s[k + |Href|..k + |o|] == o[|Href|..];
    OpeningChars(s, k);
    forall i | 0 <= i < |p| ensures p[i] != '"' {
      assert p[i] == s[k + |Href| + i];
    }
  }

  /** Every reported path comes from a match at or after `i`. */
  lemma {:induction false} FindAllSound(s: string, i: nat, p: string)
    requires i <= |s| && p in FindAll(s, i)
    ensures exists k: nat | i <= k && MatchAt(s, k) :: PathAt(s, k) == p
    decreases |s| - i
  {
    if MatchAt(s, i) && p == PathAt(s, i) {
    } else if MatchAt(s, i) {
      FindAllSound(s, MatchEnd(s, i) + 1, p);
    } else {
      FindAllSound(s, i + 1, p);
    }
  }

  /**
   * Every match at or after `i` is reported unless an earlier match reaches
   * over its start.
   */
  lemma {:induction false} FindAllComplete(s: string, i: nat, k: nat)
    requires i <= k < |s| && MatchAt(s, k)
    requires forall m: nat | i <= m < k && MatchAt(s, m) :: MatchEnd(s, m) < k
    ensures PathAt(s, k) in FindAll(s, i)
    decreases k - i
  {
    if i < k {
      if MatchAt(s, i) {
        FindAllComplete(s, MatchEnd(s, i) + 1, k);
      } else {
        FindAllComplete(s, i + 1, k);
      }
    }
  }

  /**
   * The characters of the opening text at `k`: it starts with the only `h`
   * in it, and its only `"` is the one after `href=`.
   */
  lemma OpeningChars(s: string, k: nat)
    requires OccursAt(s, k, Href + PathPrefix)
    ensures s[k] == 'h' && s[k + |Href| - 1] == '"'
    ensures forall j | k < j < k + |Href + PathPrefix| :: s[j] != 'h'
    ensures forall j | k <= j < k + |Href + PathPrefix| && j != k + |Href| - 1 :: s[j] != '"'
    ensures s[k..k + |Href| - 1] == Href[..|Href| - 1]
  {
    var o := Href + PathPrefix;
    assert |o| == 24;
    forall j | k <= j < k + |o| ensures s[j] == o[j - k] {
      assert s[k..k + |o|][j - k] == s[j];
    }
    assert s[k..k + |Href| - 1] == s[k..k + |o|][..|Href| - 1];
  }

  /**
   * Matches can overlap only in one way: the earlier path ends in `href=`, and
   * its closing quote is the quote of the later `href="`.
   */
  lemma OverlapOnlyAtHref(s: string, m: nat, k: nat)
    requires m < k && MatchAt(s, m) && MatchAt(s, k) && k <= MatchEnd(s, m)
    ensures MatchEnd(s, m) == k + |Href| - 1
    ensures PathAt(s, m)[|PathAt(s, m)| - (|Href| - 1)..] == Href[..|Href| - 1]
  {
    var q := MatchEnd(s, m);
    OpeningChars(s, m);
    OpeningChars(s, k);
    assert k >= m + |Href + PathPrefix|;
    var p := PathAt(s, m);
    assert p[|p| - 5..] == s[q - 5..q];
  }

  // ===========================================================================
  // Python's string order, and sorted sets

  /** `a < b` on Python strings: lexicographic by code point, a proper prefix first. */
  predicate Less(a: string, b: string) {
    if a == [] then b != []
    else if b == [] then false
    else if a[0] != b[0] then a[0] < b[0]
    else Less(a[1..], b[1..])
  }

  lemma {:induction false} LessIrreflexive(a: string)
    ensures !Less(a, a)
  {
    if a != [] {
      LessIrreflexive(a[1..]);
    }
  }

  lemma {:induction false} LessTransitive(a: string, b: string, c: string)
    requires Less(a, b) && Less(b, c)
    ensures Less(a, c)
  {
    if a != [] && a[0] == b[0] && b[0] == c[0] {
      LessTransitive(a[1..], b[1..], c[1..]);
    }
  }

  lemma {:induction false} LessTotal(a: string, b: string)
    requires a != b
    ensures Less(a, b) != Less(b, a)
  {
    if a != [] && b != [] && a[0] == b[0] {
      assert a == [a[0]] + a[1..] && b == [b[0]] + b[1..];
      LessTotal(a[1..], b[1..]);
    }
  }

  /** The strings a sequence holds. */
  function Elems(xs: seq<string>): set<string> {
    set x | x in xs
  }

  /** Ascending without repeats: what `sorted` of a set gives. */
  predicate StrictlyIncreasing(xs: seq<string>) {
    forall i, j | 0 <= i < j < |xs| :: Less(xs[i], xs[j])
  }

  /** Two ascending sequences without repeats that hold the same strings are equal. */
  lemma {:induction false} SortedUnique(xs: seq<string>, ys: seq<string>)
    requires StrictlyIncreasing(xs) && StrictlyIncreasing(ys) && Elems(xs) == Elems(ys)
    ensures xs == ys
  {
    assert xs != [] ==> xs[0] in Elems(xs);
    assert ys != [] ==> ys[0] in Elems(ys);
    if xs != [] && ys != [] {
      assert xs[0] in Elems(ys);
      assert ys[0] in Elems(xs);
      if xs[0] != ys[0] {
        var i :| 0 <= i < |ys| && ys[i] == xs[0];
        var j :| 0 <= j < |xs| && xs[j] == ys[0];
        LessIrreflexive(xs[0]);
        LessTransitive(xs[0], xs[j], xs[0]);
      }
      assert Elems(xs[1..]) == Elems(ys[1..]) by {
        forall z ensures z in xs[1..] <==> z in ys[1..] {
          if z in xs[1..] {
            var i :| 1 <= i < |xs| && xs[i] == z;
            LessIrreflexive(z);
            assert z in Elems(xs);
            var j :| 0 <= j < |ys| && ys[j] == z;
            assert j != 0;
            assert ys[1..][j - 1] == z;
          }
          if z in ys[1..] {
            var i :| 1 <= i < |ys| && ys[i] == z;
            LessIrreflexive(z);
            assert z in Elems(ys);
            var j :| 0 <= j < |xs| && xs[j] == z;
            assert j != 0;
            assert xs[1..][j - 1] == z;
          }
        }
      }
      SortedUnique(xs[1..], ys[1..]);
    }
  }

  /** `x` inserted into an ascending sequence, unless it is there already. */
  function Insert(x: string, xs: seq<string>): (r: seq<string>)
    requires StrictlyIncreasing(xs)
    ensures StrictlyIncreasing(r)
    ensures Elems(r) == Elems(xs) + {x}
  {
    if xs == [] then [x]
    else if x == xs[0] then xs
    else if Less(x, xs[0]) then
      assert StrictlyIncreasing([x] + xs) by {
        forall i, j | 0 <= i < j < |xs| + 1 ensures Less(([x] + xs)[i], ([x] + xs)[j]) {
          if i == 0 && j > 1 {
            LessTransitive(x, xs[0], xs[j - 1]);
          }
        }
      }
      [x] + xs
    else
      LessTotal(x, xs[0]);
      var rest := Insert(x, xs[1..]);
      assert StrictlyIncreasing([xs[0]] + rest) by {
        forall j | 0 <= j < |rest| ensures Less(xs[0], rest[j]) {
          assert rest[j] in Elems(rest);
        }
      }
      ElemsCons(xs[0], xs[1..]);
      ElemsCons(xs[0], rest);
      assert [xs[0]] + xs[1..] == xs;
      [xs[0]] + rest
  }

  lemma ElemsCons(x: string, xs: seq<string>)
    ensures Elems([x] + xs) == {x} + Elems(xs)
  {
    assert forall y | y in [x] + xs :: y == x || y in xs;
  }

  lemma ElemsSnoc(xs: seq<string>, x: string)
    ensures Elems(xs + [x]) == Elems(xs) + {x}
  {
    assert forall y | y in xs + [x] :: y == x || y in xs;
  }

  /** `sorted(set(xs))`, built by insertion. */
  function SortedSet(xs: seq<string>): (r: seq<string>)
    ensures StrictlyIncreasing(r)
    ensures Elems(r) == Elems(xs)
  {
    if xs == [] then [] else Insert(xs[|xs| - 1], SortedSet(xs[..|xs| - 1]))
  }

  // ===========================================================================
  // extract_contract_links

  function Prefix(site: string, paths: seq<string>): (urls: seq<string>)
    ensures |urls| == |paths|
    ensures forall i | 0 <= i < |paths| :: urls[i] == site + paths[i]
  {
    if paths == [] then [] else [site + paths[0]] + Prefix(site, paths[1..])
  }

  /** `extract_contract_links`: the distinct `site + path` URLs of the matches, ascending. */
  function ExtractContractLinks(html: string, site: string): (links: seq<string>)
    ensures StrictlyIncreasing(links)
  {
    SortedSet(Prefix(site, FindAll(html, 0)))
  }

  /** The links are exactly the site URL followed by each path the scan reports. */
  lemma ExtractContractLinksHolds(html: string, site: string)
    ensures forall u | u in ExtractContractLinks(html, site) :: exists p | p in FindAll(html, 0) :: u == site + p
    ensures forall p | p in FindAll(html, 0) :: site + p in ExtractContractLinks(html, site)
  {
    var paths := FindAll(html, 0);
    var urls := Prefix(site, paths);
    var links := ExtractContractLinks(html, site);
    assert Elems(links) == Elems(urls);
    forall u | u in links ensures exists p | p in paths :: u == site + p {
      assert u in Elems(urls);
      var i :| 0 <= i < |urls| && urls[i] == u;
      assert paths[i] in paths;
    }
    forall p | p in paths ensures site + p in links {
      var i :| 0 <= i < |paths| && paths[i] == p;
      assert urls[i] in Elems(urls);
    }
  }

  /** Every link is the site URL followed by a path the pattern accepts. */
  lemma LinksAreValid(html: string, site: string, u: string)
    requires u in ExtractContractLinks(html, site)
    ensures |u| > |site| && u[..|site|] == site && ValidPath(u[|site|..])
  {
    ExtractContractLinksHolds(html, site);
    var p :| p in FindAll(html, 0) && u == site + p;
    assert u[..|site|] == site && u[|site|..] == p;
  }

  /** An `href="/contrato-publico/…"` that no earlier match reaches over gives its link. */
  lemma MatchGivesLink(html: string, site: string, k: nat)
    requires k < |html| && MatchAt(html, k)
    requires forall m: nat | m < k && MatchAt(html, m) :: MatchEnd(html, m) < k
    ensures site + PathAt(html, k) in ExtractContractLinks(html, site)
  {
    FindAllComplete(html, 0, k);
    ExtractContractLinksHolds(html, site);
  }

  // ===========================================================================
  // paginate_contract_links

  /** The links of each listing page; `fetch` stands for fetching the URL of page `p`. */
  function PageLinks(fetch: nat -> string, site: string): (nat -> seq<string>) {
    (p: nat) => ExtractContractLinks(fetch(p), site)
  }

  /**
   * The number of pages the crawl visits from `page` on, given the links of
   * each page: it stops after `maxPages` pages, or right after a page without
   * links when `stopWhenEmpty`.
   */
  function Visits(links: nat -> seq<string>, maxPages: int, stopWhenEmpty: bool, page: nat): (n: nat)
    ensures page <= n
    ensures page >= maxPages ==> n == page
    decreases maxPages - page
  {
    if page >= maxPages then page
    else if stopWhenEmpty && |links(page)| == 0 then page + 1
    else Visits(links, maxPages, stopWhenEmpty, page + 1)
  }

  /** `seen` is the union of the links of pages `0 .. n - 1`. */
  predicate UnionOfPages(seen: set<string>, links: nat -> seq<string>, n: nat) {
    && (forall p: nat, u | p < n && u in links(p) :: u in seen)
    && (forall u | u in seen :: exists p: nat | p < n :: u in links(p))
  }

  lemma UnionNext(seen: set<string>, links: nat -> seq<string>, n: nat)
    requires UnionOfPages(seen, links, n)
    ensures UnionOfPages(seen + Elems(links(n)), links, n + 1)
  {
    forall u | u in seen + Elems(links(n)) ensures exists p: nat | p < n + 1 :: u in links(p) {
      if u !in seen {
        assert u in links(n);
      }
    }
  }

  /**
   * `paginate_contract_links`: the sorted union of the links of the pages
   * visited, and how many pages that was (`VisitsBound`, `VisitsNonEmptyBefore`
   * and `VisitsStopsEarly` say when it stops).
   */
  method PaginateContractLinks(fetch: nat -> string, site: string, maxPages: int, stopWhenEmpty: bool)
    returns (links: seq<string>, visited: nat)
    ensures visited == Visits(PageLinks(fetch, site), maxPages, stopWhenEmpty, 0)
    ensures StrictlyIncreasing(links)
    ensures UnionOfPages(Elems(links), PageLinks(fetch, site), visited)
  {
    ghost var pages := PageLinks(fetch, site);
    var seen: set<string> := {};
    visited := 0;
    while visited < maxPages
      invariant Visits(pages, maxPages, stopWhenEmpty, visited) == Visits(pages, maxPages, stopWhenEmpty, 0)
      invariant UnionOfPages(seen, pages, visited)
      decreases maxPages - visited
    {
      var pageLinks := ExtractContractLinks(fetch(visited), site);
      assert pageLinks == pages(visited);
      UnionNext(seen, pages, visited);
      seen := seen + Elems(pageLinks);
      visited := visited + 1;
      if stopWhenEmpty && |pageLinks| == 0 {
        break;
      }
    }
    links := SortedFromSet(seen);
  }

  /** The crawl visits at most `maxPages` pages, and none when that is not positive. */
  lemma {:induction false} VisitsBound(links: nat -> seq<string>, maxPages: int, stopWhenEmpty: bool, page: nat)
    ensures Visits(links, maxPages, stopWhenEmpty, page) <= if maxPages < page then page else maxPages
    decreases maxPages - page
  {
    if page < maxPages && !(stopWhenEmpty && |links(page)| == 0) {
      VisitsBound(links, maxPages, stopWhenEmpty, page + 1);
    }
  }

  /** When `stopWhenEmpty`, every page before the last one visited had links. */
  lemma {:induction false} VisitsNonEmptyBefore(links: nat -> seq<string>, maxPages: int, page: nat, p: nat)
    requires page <= p && p + 1 < Visits(links, maxPages, true, page)
    ensures |links(p)| > 0
    decreases maxPages - page
  {
    if p > page {
      VisitsNonEmptyBefore(links, maxPages, page + 1, p);
    }
  }

  /** The crawl stops short of `maxPages` only right after a page without links, and only when `stopWhenEmpty`. */
  lemma {:induction false} VisitsStopsEarly(links: nat -> seq<string>, maxPages: int, stopWhenEmpty: bool, page: nat)
    requires Visits(links, maxPages, stopWhenEmpty, page) < maxPages
    ensures var n := Visits(links, maxPages, stopWhenEmpty, page);
      stopWhenEmpty && n > page && |links(n - 1)| == 0
    decreases maxPages - page
  {
    if !(stopWhenEmpty && |links(page)| == 0) {
      VisitsStopsEarly(links, maxPages, stopWhenEmpty, page + 1);
    }
  }

  /** `sorted(seen)`: repeatedly takes the least remaining string. */
  method SortedFromSet(s: set<string>) returns (r: seq<string>)
    ensures StrictlyIncreasing(r)
    ensures Elems(r) == s
  {
    r := [];
    var remaining := s;
    while remaining != {}
      invariant StrictlyIncreasing(r)
      invariant Elems(r) + remaining == s
      invariant forall i, y | 0 <= i < |r| && y in remaining :: Less(r[i], y)
      decreases |remaining|
    {
      LeastExists(remaining);
      var m :| IsLeast(m, remaining);
      TakeLeast(r, remaining, s, m);
      r := r + [m];
      remaining := remaining - {m};
    }
  }

  /** Moving the least remaining string to the end of the output keeps the loop's invariant. */
  lemma TakeLeast(r: seq<string>, remaining: set<string>, s: set<string>, m: string)
    requires StrictlyIncreasing(r) && Elems(r) + remaining == s
    requires forall i, y | 0 <= i < |r| && y in remaining :: Less(r[i], y)
    requires IsLeast(m, remaining)
    ensures StrictlyIncreasing(r + [m]) && Elems(r + [m]) + (remaining - {m}) == s
    ensures forall i, y | 0 <= i < |r + [m]| && y in remaining - {m} :: Less((r + [m])[i], y)
  {
    ElemsSnoc(r, m);
    var r' := r + [m];
    forall i, j | 0 <= i < j < |r'| ensures Less(r'[i], r'[j]) {
      assert r'[i] == r[i];
      if j < |r| {
        assert r'[j] == r[j];
      }
    }
    forall i, y | 0 <= i < |r'| && y in remaining - {m} ensures Less(r'[i], y) {
      if i < |r| {
        assert r'[i] == r[i];
      }
    }
  }

  /** `m` is the least string of `s`. */
  predicate IsLeast(m: string, s: set<string>) {
    m in s && forall y | y in s :: y == m || Less(m, y)
  }

  /** A non-empty finite set of strings has a least element. */
  lemma LeastExists(s: set<string>)
    requires s != {}
    ensures exists m :: IsLeast(m, s)
    decreases |s|
  {
    var x :| x in s;
    var rest := s - {x};
    if rest == {} {
      forall y | y in s ensures y == x {
        assert y !in rest;
      }
      assert IsLeast(x, s);
    } else {
      LeastExists(rest);
      var m :| IsLeast(m, rest);
      LessTotal(m, x);
      if Less(m, x) {
        assert IsLeast(m, s);
      } else {
        forall y | y in s ensures y == x || Less(x, y) {
          if y != x && y != m {
            LessTransitive(x, m, y);
          }
        }
        assert IsLeast(x, s);
      }
    }
  }

}
