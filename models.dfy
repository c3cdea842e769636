/**
 * Field derivations of the contract models: the duration parser, the
 * harmonized-regulation flag of the canonical metadata, and the contract-id
 * validator of the contract record.
 */
module Models {
  import opened Wrappers
  import opened Strings
  import opened Values

  // ===========================================================================
  // parse_duration_months

  /** The index of the first digit of `s`, or `|s|` when there is none. */
  function FirstDigit(s: string): (i: nat)
    ensures i <= |s|
    ensures forall k | 0 <= k < i :: !IsDigit(s[k])
    ensures i < |s| ==> IsDigit(s[i])
  {
    if s == [] then 0 else if IsDigit(s[0]) then 0 else 1 + FirstDigit(s[1..])
  }

  /** The end of the run of digits that starts at `i`. */
  function DigitRunEnd(s: string, i: nat): (j: nat)
    requires i <= |s|
    ensures i <= j <= |s|
    ensures forall k | i <= k < j :: IsDigit(s[k])
    ensures j < |s| ==> !IsDigit(s[j])
    decreases |s| - i
  {
    if i < |s| && IsDigit(s[i]) then DigitRunEnd(s, i + 1) else i
  }

  /** `s[i..j]` is the first maximal run of digits in `s` (what `re.search(r"(\d+)")` finds). */
  predicate FirstDigitRun(s: string, i: nat, j: nat) {
    && i < j <= |s|
    && (forall k | 0 <= k < i :: !IsDigit(s[k]))
    && (forall k | i <= k < j :: IsDigit(s[k]))
    && (j < |s| ==> !IsDigit(s[j]))
  }

  /**
   * `parse_duration_months`: the integer value of the first run of digits,
   * `None` for an absent or empty value and for a value without a digit.
   */
  function ParseDurationMonths(value: Option<string>): (r: Option<nat>)
    ensures value == None || value == Some([]) ==> r == None
    ensures value.Some? ==> (r == None <==> forall k | 0 <= k < |value.value| :: !IsDigit(value.value[k]))
    ensures r.Some? ==> exists i: nat, j: nat | FirstDigitRun(value.value, i, j) ::
      AllDigits(value.value[i..j]) && r.value == DecimalValue(value.value[i..j])
  {
    if value == None || value.value == [] then None
    else
      var s := value.value;
      var i := FirstDigit(s);
      if i == |s| then None
      else
        var j := DigitRunEnd(s, i);
        assert FirstDigitRun(s, i, j);
        assert AllDigits(s[i..j]);
        Some(DecimalValue(s[i..j]))
  }

  /** There is only one first maximal run of digits, so the parsed number is well defined. */
  lemma FirstDigitRunUnique(s: string, i: nat, j: nat, i': nat, j': nat)
    requires FirstDigitRun(s, i, j) && FirstDigitRun(s, i', j')
    ensures i == i' && j == j'
  {
    assert IsDigit(s[i]) && IsDigit(s[i']);
    assert j < |s| ==> !IsDigit(s[j]);
    assert j' < |s| ==> !IsDigit(s[j']);
  }

  /** Text after the first number does not matter: "2 meses" and "2 meses y 3 días" give 2. */
  lemma {:induction false} DurationIgnoresRest(s: string, rest: string)
    requires s != [] && !IsDigit(s[|s| - 1]) && exists k | 0 <= k < |s| :: IsDigit(s[k])
    ensures ParseDurationMonths(Some(s + rest)) == ParseDurationMonths(Some(s))
  {
    var i := FirstDigit(s);
    var j := DigitRunEnd(s, i);
    assert FirstDigitRun(s + rest, i, j) by {
      assert forall k | 0 <= k < |s| :: (s + rest)[k] == s[k];
    }
    assert IsDigit((s + rest)[i]);
    var i' := FirstDigit(s + rest);
    var j' := DigitRunEnd(s + rest, i');
    assert FirstDigitRun(s + rest, i', j');
    FirstDigitRunUnique(s + rest, i, j, i', j');
    assert (s + rest)[i..j] == s[i..j];
  }

  /** A value that is only a number is parsed as that number. */
  lemma DurationOfDigits(s: string)
    requires s != [] && AllDigits(s)
    ensures ParseDurationMonths(Some(s)) == Some(DecimalValue(s))
  {
    var j := DigitRunEnd(s, 0);
    assert j == |s|;
    assert s[0..|s|] == s;
  }

  // ===========================================================================
  // ContractMetadataCanonical.from_raw: the harmonized flag

  const HarmonizedKey: string := "Sujeto a regulación armonizada"

  /** The answers that mark a contract as subject to harmonized regulation. */
  const HarmonizedYes: set<string> := {"sí", "si", "yes", "y"}

  /** The raw answer, `""` when the key is missing or its value is `None` (the `or ""`). */
  function RawAnswer(data: Dict<Option<string>>, key: string): string {
    match Get(data, key)
    case None => ""
    case Some(v) => v.GetOr("")
  }

  /**
   * `harmonized`: the stripped, lower-cased answer is one of the accepted ones.
   * It is always a boolean; a missing answer gives `false`.
   */
  function Harmonized(data: Dict<Option<string>>): (r: bool)
    ensures r <==> exists v | Get(data, HarmonizedKey) == Some(Some(v)) :: Lower(Strip(v)) in HarmonizedYes
    ensures HarmonizedKey !in Keys(data) ==> !r
  {
    var answer := RawAnswer(data, HarmonizedKey);
    assert Lower(Strip("")) == "";
    Lower(Strip(answer)) in HarmonizedYes
  }

  /** Case and surrounding blanks do not matter: " SÍ " and "Yes" both mark the contract. */
  lemma HarmonizedAccepts()
    ensures Harmonized([(HarmonizedKey, Some(" SÍ "))])
    ensures Harmonized([(HarmonizedKey, Some("Yes"))])
  {
    var d1: Dict<Option<string>> := [(HarmonizedKey, Some(" SÍ "))];
    assert Get(d1, HarmonizedKey) == Some(Some(" SÍ "));
    assert Strip(" SÍ ") == "SÍ" by {
      assert LeadingWs(" SÍ ") == 1;
      assert TrailingWsStart("SÍ ") == 2;
    }
    assert Lower("SÍ") == "sí";
    var d2: Dict<Option<string>> := [(HarmonizedKey, Some("Yes"))];
    assert Get(d2, HarmonizedKey) == Some(Some("Yes"));
    StripIdentity("Yes");
    assert Lower("Yes") == "yes";
  }

  /** "No" and a missing answer (`None`) leave the flag off. */
  lemma HarmonizedRejects()
    ensures !Harmonized([(HarmonizedKey, Some("No"))])
    ensures !Harmonized([(HarmonizedKey, None)])
  {
    var d3: Dict<Option<string>> := [(HarmonizedKey, Some("No"))];
    assert Get(d3, HarmonizedKey) == Some(Some("No"));
    StripIdentity("No");
    assert Lower("No") == "no";
    var d4: Dict<Option<string>> := [(HarmonizedKey, None)];
    assert Get(d4, HarmonizedKey) == Some(None);
  }

  // ===========================================================================
  // ContractRecord.normalize_contract_id

  const Unknown: string := "unknown"

  /**
   * `normalize_contract_id`: the stripped id, or "unknown" for a missing,
   * non-string, empty or blank one. `None` stands for a missing or non-string value.
   */
  function NormalizeContractId(v: Option<string>): (r: string)
    ensures r != [] && IsStripped(r)
    ensures v == None || IsBlank(v.value) ==> r == Unknown
    ensures v.Some? && !IsBlank(v.value) ==> r == Strip(v.value)
  {
    if v == None || v.value == [] then Unknown
    else
      var t := Strip(v.value);
      if t == [] then Unknown else t
  }

  /** Normalising a normalised id changes nothing. */
  lemma NormalizeContractIdIdempotent(v: Option<string>)
    ensures NormalizeContractId(Some(NormalizeContractId(v))) == NormalizeContractId(v)
  {
    var r := NormalizeContractId(v);
    StripIdentity(r);
    assert !IsBlank(r) by {
      assert !IsWs(r[0]);
    }
  }
}
