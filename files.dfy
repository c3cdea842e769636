/**
 * `safe_filename` from the scraper: every maximal run of characters outside
 * `[a-zA-Z0-9._-]` becomes one `_`, underscores are then stripped from both
 * ends, and an empty outcome (or an absent or empty name) becomes "unknown".
 */
module Files {
  import opened Wrappers

  /** The characters the file name may keep: ASCII letters, digits, `.`, `_` and `-`. */
  predicate Allowed(c: char) {
    ('a' <= c <= 'z') || ('A' <= c <= 'Z') || ('0' <= c <= '9') || c == '.' || c == '_' || c == '-'
  }

  predicate AllAllowed(s: string) {
    forall i | 0 <= i < |s| :: Allowed(s[i])
  }

  /**
   * `re.sub(r"[^a-zA-Z0-9._-]+", "_", s)`, read left to right: `inRun` says that
   * the character before `s` was already replaced, so the run has its `_`.
   */
  function ReplaceRuns(s: string, inRun: bool): (r: string)
    ensures AllAllowed(r)
    ensures |r| <= |s|
    ensures s != [] && (!inRun || Allowed(s[0])) ==> r != []
  {
    if s == [] then []
    else if Allowed(s[0]) then [s[0]] + ReplaceRuns(s[1..], false)
    else (if inRun then [] else "_") + ReplaceRuns(s[1..], true)
  }

  /** The number of leading `_`. */
  function LeadingUnderscores(s: string): (n: nat)
    ensures n <= |s|
    ensures forall i | 0 <= i < n :: s[i] == '_'
    ensures n < |s| ==> s[n] != '_'
  {
    if s != [] && s[0] == '_' then 1 + LeadingUnderscores(s[1..]) else 0
  }

  /** The index where the trailing `_` begin. */
  function TrailingUnderscoresStart(s: string): (n: nat)
    ensures n <= |s|
    ensures forall i | n <= i < |s| :: s[i] == '_'
    ensures n > 0 ==> s[n - 1] != '_'
  {
    if s != [] && s[|s| - 1] == '_' then TrailingUnderscoresStart(s[..|s| - 1]) else |s|
  }

  /** `s.strip("_")`: the slice of `s` between its leading and its trailing underscores. */
  function StripUnderscores(s: string): (r: string)
    ensures r == [] || (r[0] != '_' && r[|r| - 1] != '_')
    ensures forall c | c in r :: c in s
    ensures (forall i | 0 <= i < |s| :: s[i] == '_') <==> r == []
    ensures var k := LeadingUnderscores(s); k + |r| <= |s| && r == s[k..k + |r|]
    ensures forall i | LeadingUnderscores(s) + |r| <= i < |s| :: s[i] == '_'
  {
    var k := LeadingUnderscores(s);
    var l := s[k..];
    var n := TrailingUnderscoresStart(l);
    assert l[..n] == s[k..k + n];
    assert k < |s| ==> n > 0 && l[0] == s[k];
    l[..n]
  }

  const Unknown: string := "unknown"

  /** `safe_filename(name)`; `None` stands for an absent name. */
  function SafeFilename(name: Option<string>): (r: string)
    ensures r != []
    ensures AllAllowed(r)
    ensures r[0] != '_' && r[|r| - 1] != '_'
    ensures name == None || name == Some([]) ==> r == Unknown
  {
    if name == None || name.value == [] then Unknown
    else
      var replaced := ReplaceRuns(name.value, false);
      var stripped := StripUnderscores(replaced);
      assert AllAllowed(stripped) by {
        forall i | 0 <= i < |stripped| ensures Allowed(stripped[i]) {
          assert stripped[i] in replaced;
        }
      }
      if stripped == [] then Unknown else stripped
  }

  /**
   * Disallowed characters around a name are dropped whole: a run before and a
   * run after each become one `_`, which the strip then removes.
   */
  lemma SafeFilenameTrimsEnds(before: string, core: string, after: string)
    requires forall i | 0 <= i < |before| :: !Allowed(before[i])
    requires forall i | 0 <= i < |after| :: !Allowed(after[i])
    requires core != [] && AllAllowed(core) && core[0] != '_' && core[|core| - 1] != '_'
    ensures SafeFilename(Some(before + core + after)) == core
  {
    var lead := if before == [] then [] else "_";
    var tail := if after == [] then [] else "_";
    ReplaceRunsAround(before, core, after);
    StripAround(lead, core, tail);
  }

  /** Substituting a name with disallowed runs around an allowed core: each run becomes one `_`. */
  lemma ReplaceRunsAround(before: string, core: string, after: string)
    requires forall i | 0 <= i < |before| :: !Allowed(before[i])
    requires forall i | 0 <= i < |after| :: !Allowed(after[i])
    requires core != [] && AllAllowed(core)
    ensures ReplaceRuns(before + core + after, false)
         == (if before == [] then [] else "_") + core + (if after == [] then [] else "_")
  {
    CoreThenRun(core, after);
    if before == [] {
      assert before + core + after == core + after;
    } else {
      assert before + core + after == before + (core + after);
      ReplaceRunsRun(before, core + after, false);
      ReplaceRunsAfterRun(core + after);
    }
  }

  lemma CoreThenRun(core: string, after: string)
    requires forall i | 0 <= i < |after| :: !Allowed(after[i])
    requires AllAllowed(core)
    ensures ReplaceRuns(core + after, false) == core + (if after == [] then [] else "_")
  {
    ReplaceRunsPrefix(core, after);
    if after != [] {
      ReplaceRunsRun(after, [], false);
      assert after + [] == after;
    }
  }

  /** Stripping underscores removes exactly underscore-only text around a core that neither starts nor ends with one. */
  lemma StripAround(a: string, core: string, b: string)
    requires forall i | 0 <= i < |a| :: a[i] == '_'
    requires forall i | 0 <= i < |b| :: b[i] == '_'
    requires core != [] && core[0] != '_' && core[|core| - 1] != '_'
    ensures StripUnderscores(a + core + b) == core
  {
    var s := a + core + b;
    var r := StripUnderscores(s);
    LeadingUnderscoresOf(a, core + b);
    assert s == a + (core + b);
    assert s[|a|] == core[0] && s[|a| + |core| - 1] == core[|core| - 1];
    assert forall i | |a| + |core| <= i < |s| :: s[i] == '_';
    assert r == s[|a|..|a| + |r|];
    assert r[|r| - 1] == s[|a| + |r| - 1];
    assert |r| == |core|;
  }

  lemma {:induction false} LeadingUnderscoresOf(a: string, rest: string)
    requires forall i | 0 <= i < |a| :: a[i] == '_'
    requires rest != [] && rest[0] != '_'
    ensures LeadingUnderscores(a + rest) == |a|
  {
    if a == [] {
      assert a + rest == rest;
    } else {
      assert (a + rest)[1..] == a[1..] + rest;
      LeadingUnderscoresOf(a[1..], rest);
    }
  }

  /** A name made only of allowed characters passes the substitution unchanged. */
  lemma {:induction false} ReplaceRunsAllowed(s: string, inRun: bool)
    requires AllAllowed(s)
    ensures ReplaceRuns(s, inRun) == s
  {
    if s != [] {
      ReplaceRunsAllowed(s[1..], false);
    }
  }

  /** A run of disallowed characters gives one `_` (none if already inside a run). */
  lemma {:induction false} ReplaceRunsRun(run: string, rest: string, inRun: bool)
    requires run != [] && forall i | 0 <= i < |run| :: !Allowed(run[i])
    ensures ReplaceRuns(run + rest, inRun) == (if inRun then [] else "_") + ReplaceRuns(rest, true)
  {
    assert (run + rest)[1..] == run[1..] + rest;
    if |run| > 1 {
      ReplaceRunsRun(run[1..], rest, true);
    } else {
      assert run[1..] + rest == rest;
    }
  }

  /** After a run, a following allowed character (or the end) is copied as usual. */
  lemma ReplaceRunsAfterRun(rest: string)
    requires rest == [] || Allowed(rest[0])
    ensures ReplaceRuns(rest, true) == ReplaceRuns(rest, false)
  {
  }

  /**
   * The substitution as the regex defines it: allowed characters are kept in
   * order, and a maximal run of disallowed ones (one followed by the end or by
   * an allowed character) becomes exactly one `_`.
   */
  lemma MaximalRunOneUnderscore(prefix: string, run: string, rest: string)
    requires AllAllowed(prefix)
    requires run != [] && forall i | 0 <= i < |run| :: !Allowed(run[i])
    requires rest == [] || Allowed(rest[0])
    ensures ReplaceRuns(prefix + run + rest, false) == prefix + "_" + ReplaceRuns(rest, false)
  {
    ReplaceRunsPrefix(prefix, run + rest);
    ReplaceRunsRun(run, rest, false);
    ReplaceRunsAfterRun(rest);
    assert prefix + run + rest == prefix + (run + rest);
  }

  /** An allowed prefix is copied, and the text after it is read outside a run. */
  lemma {:induction false} ReplaceRunsPrefix(prefix: string, rest: string)
    requires AllAllowed(prefix)
    ensures ReplaceRuns(prefix + rest, false) == prefix + ReplaceRuns(rest, false)
  {
    if prefix != [] {
      assert (prefix + rest)[0] == prefix[0] && Allowed(prefix[0]);
      assert (prefix + rest)[1..] == prefix[1..] + rest;
      ReplaceRunsPrefix(prefix[1..], rest);
      var tail := ReplaceRuns(rest, false);
      assert ReplaceRuns(prefix + rest, false) == [prefix[0]] + (prefix[1..] + tail);
      assert [prefix[0]] + (prefix[1..] + tail) == prefix + tail;
    } else {
      assert prefix + rest == rest;
    }
  }

  /** Stripping underscores leaves a text that neither starts nor ends with one unchanged. */
  lemma StripUnderscoresIdentity(s: string)
    requires s == [] || (s[0] != '_' && s[|s| - 1] != '_')
    ensures StripUnderscores(s) == s
  {
    assert s[0..] == s;
  }

  /** Sanitising a sanitised name changes nothing. */
  lemma SafeFilenameIdempotent(name: Option<string>)
    ensures SafeFilename(Some(SafeFilename(name))) == SafeFilename(name)
  {
    var r := SafeFilename(name);
    ReplaceRunsAllowed(r, false);
    StripUnderscoresIdentity(r);
  }

  /** A name that is already safe is kept as it is. */
  lemma SafeNameKept(s: string)
    requires s != [] && AllAllowed(s) && s[0] != '_' && s[|s| - 1] != '_'
    ensures SafeFilename(Some(s)) == s
  {
    ReplaceRunsAllowed(s, false);
    StripUnderscoresIdentity(s);
  }

  /** A name with no allowed character other than `_` becomes "unknown". */
  lemma NothingAllowedIsUnknown(s: string)
    requires s != [] && forall i | 0 <= i < |s| :: !Allowed(s[i]) || s[i] == '_'
    ensures SafeFilename(Some(s)) == Unknown
  {
    OnlyUnderscores(s, false);
  }

  lemma {:induction false} OnlyUnderscores(s: string, inRun: bool)
    requires forall i | 0 <= i < |s| :: !Allowed(s[i]) || s[i] == '_'
    ensures forall i | 0 <= i < |ReplaceRuns(s, inRun)| :: ReplaceRuns(s, inRun)[i] == '_'
  {
    if s != [] {
      OnlyUnderscores(s[1..], !Allowed(s[0]));
    }
  }
}
