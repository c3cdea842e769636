/**
 * `get_contract_id_from_metadata`: the first value, in the order the metadata
 * entries were read from the page, whose key names the file number ("Número de
 * expediente" or "Número expediente") and which is not empty.
 */
module Detail {
  import opened Wrappers
  import opened Strings

  /** The scraped metadata, as `(key, value)` entries in dictionary order. */
  type Metadata = seq<(string, Option<string>)>

  const FileNumberKey: string := "Número de expediente"
  const ShortFileNumberKey: string := "Número expediente"

  /** The key names the file number: it contains either label. */
  predicate IsFileNumberKey(key: string) {
    Contains(key, FileNumberKey) || Contains(key, ShortFileNumberKey)
  }

  /** A value Python finds truthy: present and not the empty string. */
  predicate HasText(value: Option<string>) {
    value.Some? && value.value != []
  }

  /** An entry the search accepts. */
  predicate IsIdEntry(entry: (string, Option<string>)) {
    HasText(entry.1) && IsFileNumberKey(entry.0)
  }

  /**
   * The search: `None` exactly when no entry is accepted; otherwise the value
   * of an accepted entry, which is never empty.
   */
  function GetContractIdFromMetadata(metadata: Metadata): (r: Option<string>)
    ensures r.None? <==> forall i | 0 <= i < |metadata| :: !IsIdEntry(metadata[i])
    ensures r.Some? ==> r.value != [] && exists i | 0 <= i < |metadata| :: IsIdEntry(metadata[i]) && r.value == metadata[i].1.value
  {
    if metadata == [] then None
    else if IsIdEntry(metadata[0]) then Some(metadata[0].1.value)
    else
      var r := GetContractIdFromMetadata(metadata[1..]);
      assert forall i | 1 <= i < |metadata| :: metadata[i] == metadata[1..][i - 1];
      r
  }

  /** The first accepted entry wins, whatever follows it. */
  lemma {:induction false} FirstIdEntryWins(metadata: Metadata, i: nat)
    requires i < |metadata| && IsIdEntry(metadata[i])
    requires forall j | 0 <= j < i :: !IsIdEntry(metadata[j])
    ensures GetContractIdFromMetadata(metadata) == Some(metadata[i].1.value)
  {
    if i > 0 {
      FirstIdEntryWins(metadata[1..], i - 1);
    }
  }

  /** A file-number key whose value is missing or empty is skipped and the search goes on. */
  lemma SkipsEmptyValue(key: string, value: Option<string>, rest: Metadata)
    requires IsFileNumberKey(key) && !HasText(value)
    ensures GetContractIdFromMetadata([(key, value)] + rest) == GetContractIdFromMetadata(rest)
  {
    assert ([(key, value)] + rest)[1..] == rest;
  }

  /** Either label is accepted, anywhere in the key. */
  lemma LabelsAccepted(before: string, after: string, value: string)
    requires value != []
    ensures GetContractIdFromMetadata([(before + FileNumberKey + after, Some(value))]) == Some(value)
    ensures GetContractIdFromMetadata([(before + ShortFileNumberKey + after, Some(value))]) == Some(value)
  {
    ContainsInside(before, FileNumberKey, after);
    ContainsInside(before, ShortFileNumberKey, after);
  }

  lemma {:induction false} ContainsInside(before: string, t: string, after: string)
    ensures Contains(before + t + after, t)
  {
    if before == [] {
      assert t <= t + after;
    } else {
      ContainsInside(before[1..], t, after);
      assert (before + t + after)[1..] == before[1..] + t + after;
    }
  }
}
