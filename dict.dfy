/**
 * Python's `dict` with string keys, as the gallery uses it: the keys in
 * insertion order (which is the order `items()` and `values()` visit them)
 * together with the key-to-value mapping.
 */
module Dict {
  datatype OrderedMap<V> = OrderedMap(keys: seq<string>, values: map<string, V>)

  predicate Distinct(s: seq<string>) {
    forall i, j :: 0 <= i < j < |s| ==> s[i] != s[j]
  }

  /** The listed keys are distinct and are exactly the keys of the mapping. */
  ghost predicate WellFormed<V>(m: OrderedMap<V>) {
    && Distinct(m.keys)
    && (forall k :: k in m.values <==> k in m.keys)
  }

  /** The empty dictionary. */
  function Empty<V>(): (m: OrderedMap<V>)
    ensures WellFormed(m) && m.keys == []
  {
    OrderedMap([], map[])
  }

  /** `d[k] = v`: a new key goes last, an existing key keeps its place. */
  function Put<V>(m: OrderedMap<V>, k: string, v: V): (r: OrderedMap<V>)
    requires WellFormed(m)
    ensures WellFormed(r)
  {
    OrderedMap(if k in m.values then m.keys else m.keys + [k], m.values[k := v])
  }

  /** `m` after `m[k] = repl[k]` for each of its first `n` keys that `repl` has, in key order. */
  function ReplaceFirst<V>(m: OrderedMap<V>, repl: map<string, V>, n: nat): (r: OrderedMap<V>)
    requires WellFormed(m) && n <= |m.keys|
    ensures WellFormed(r) && r.keys == m.keys
  {
    if n == 0 then m
    else
      var prev := ReplaceFirst(m, repl, n - 1);
      var k := m.keys[n - 1];
      if k in repl then
        assert k in prev.keys;
        Put(prev, k, repl[k])
      else prev
  }

  /** Each of the first `n` keys holds its replacement when it has one; every other key keeps its value. */
  lemma {:induction false} ReplaceFirstValues<V>(m: OrderedMap<V>, repl: map<string, V>, n: nat)
    requires WellFormed(m) && n <= |m.keys|
    ensures forall t :: 0 <= t < |m.keys| ==>
      ReplaceFirst(m, repl, n).values[m.keys[t]] ==
        if t < n && m.keys[t] in repl then repl[m.keys[t]] else m.values[m.keys[t]]
  {
    if n > 0 {
      ReplaceFirstValues(m, repl, n - 1);
      var k := m.keys[n - 1];
      forall t | 0 <= t < |m.keys| && t != n - 1 ensures m.keys[t] != k {
      }
    }
  }
}
