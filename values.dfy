/**
 * The dynamic values that the pipeline's dictionaries hold, and Python's
 * dictionary operations on them. A dictionary is an ordered sequence of
 * (key, value) entries, because insertion order is observable in the source.
 */
module Values {
  import opened Wrappers

  /** A JSON-like value. Floating-point numbers are not modelled. */
  datatype Value =
    | Null
    | Bool(b: bool)
    | Int(i: int)
    | Str(s: string)
    | List(items: seq<Value>)
    | Object(entries: seq<(string, Value)>)

  /** A dictionary with string keys, in insertion order. */
  type Dict<V> = seq<(string, V)>

  /** Python truthiness: `None`, `False`, `0`, `""` and empty containers are false. */
  predicate Truthy(v: Value) {
    match v
    case Null => false
    case Bool(b) => b
    case Int(i) => i != 0
    case Str(s) => s != []
    case List(items) => items != []
    case Object(entries) => entries != []
  }

  /** `a or b`: the first operand when it is truthy, else the second. */
  function Or(a: Value, b: Value): (r: Value)
    ensures Truthy(a) ==> r == a
    ensures !Truthy(a) ==> r == b
  {
    if Truthy(a) then a else b
  }

  /** Python dictionaries never repeat a key. */
  predicate UniqueKeys<V>(d: Dict<V>) {
    forall i, j | 0 <= i < j < |d| :: d[i].0 != d[j].0
  }

  function Keys<V>(d: Dict<V>): (ks: seq<string>)
    ensures |ks| == |d|
    ensures forall i | 0 <= i < |d| :: ks[i] == d[i].0
  {
    if d == [] then [] else [d[0].0] + Keys(d[1..])
  }

  /** The position of the first entry with `key`, or `|d|` when there is none. */
  function IndexOf<V>(d: Dict<V>, key: string): (i: nat)
    ensures i <= |d|
    ensures forall j | 0 <= j < i :: d[j].0 != key
    ensures i < |d| ==> d[i].0 == key
  {
    if d == [] then 0 else if d[0].0 == key then 0 else 1 + IndexOf(d[1..], key)
  }

  /** `d.get(key)`: the value stored under `key`, `None` when the key is missing. */
  function Get<V>(d: Dict<V>, key: string): (r: Option<V>)
    ensures r.None? <==> key !in Keys(d)
    ensures r.Some? ==> (key, r.value) in d
  {
    var i := IndexOf(d, key);
    if i < |d| then Some(d[i].1) else None
  }

  /** `d.get(key)` on a dictionary of values: a missing key reads as `None`. */
  function GetValue(d: Dict<Value>, key: string): (r: Value)
    ensures key !in Keys(d) ==> r == Null
  {
    Get(d, key).GetOr(Null)
  }

  /** `d[key] = v`: an existing key keeps its position, a new key goes last. */
  function Set<V>(d: Dict<V>, key: string, v: V): (r: Dict<V>)
    ensures key in Keys(d) ==> |r| == |d|
    ensures key !in Keys(d) ==> r == d + [(key, v)]
  {
    var i := IndexOf(d, key);
    if i < |d| then d[i := (key, v)] else d + [(key, v)]
  }

  /** `d[key] = v` keeps the keys unique. */
  lemma SetUnique<V>(d: Dict<V>, key: string, v: V)
    requires UniqueKeys(d)
    ensures UniqueKeys(Set(d, key, v))
  {
    if IndexOf(d, key) == |d| {
      assert key !in Keys(d);
    }
  }

  /** After `d[key] = v`, `key` reads `v`. */
  lemma SetGetSame<V>(d: Dict<V>, key: string, v: V)
    ensures Get(Set(d, key, v), key) == Some(v)
  {
    var i := IndexOf(d, key);
    var r := Set(d, key, v);
    if i < |d| {
      assert forall j | 0 <= j < |d| :: r[j].0 == d[j].0;
      IndexOfAt(r, key, i);
    } else {
      assert key !in Keys(d);
      IndexOfAt(r, key, |d|);
    }
  }

  /** After `d[key] = v`, every other key reads as before. */
  lemma SetGetOther<V>(d: Dict<V>, key: string, v: V, other: string)
    requires other != key
    ensures Get(Set(d, key, v), other) == Get(d, other)
  {
    var i := IndexOf(d, key);
    var r := Set(d, key, v);
    var k := IndexOf(d, other);
    if i < |d| {
      assert forall j | 0 <= j < |d| :: r[j].0 == d[j].0;
      IndexOfAt(r, other, k);
    } else {
      assert key !in Keys(d);
      IndexOfAt(r, other, if k < |d| then k else |r|);
    }
  }

  /** `IndexOf` is the first position holding the key. */
  lemma {:induction false} IndexOfAt<V>(d: Dict<V>, key: string, i: nat)
    requires i <= |d|
    requires forall j | 0 <= j < i :: d[j].0 != key
    requires i < |d| ==> d[i].0 == key
    ensures IndexOf(d, key) == i
  {
    if d != [] && d[0].0 != key {
      IndexOfAt(d[1..], key, i - 1);
    }
  }

  /** `{**d, k1: v1, k2: v2, ...}`: the updates applied left to right. */
  function SetAll<V>(d: Dict<V>, updates: Dict<V>): Dict<V>
    decreases |updates|
  {
    if updates == [] then d else SetAll(Set(d, updates[0].0, updates[0].1), updates[1..])
  }

  /** The merged dictionary reads each updated key from the updates and every other key from `d`. */
  lemma {:induction false} SetAllGet<V>(d: Dict<V>, updates: Dict<V>, key: string)
    requires UniqueKeys(d) && UniqueKeys(updates)
    ensures UniqueKeys(SetAll(d, updates))
    ensures Get(SetAll(d, updates), key) == if key in Keys(updates) then Get(updates, key) else Get(d, key)
    decreases |updates|
  {
    if updates != [] {
      var (k, v) := updates[0];
      var d' := Set(d, k, v);
      SetUnique(d, k, v);
      if key == k {
        SetGetSame(d, k, v);
      } else {
        SetGetOther(d, k, v, key);
      }
      var rest := updates[1..];
      assert UniqueKeys(rest);
      SetAllGet(d', rest, key);
      assert Keys(updates) == [k] + Keys(rest);
      if key == k {
        assert key !in Keys(rest);
      } else if key in Keys(rest) {
        assert IndexOf(updates, key) == 1 + IndexOf(rest, key);
      }
    }
  }
}
