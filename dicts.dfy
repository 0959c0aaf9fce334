/**
 An insertion-ordered dictionary with the assignment semantics of a Python
 `dict`: assigning to a key that is absent appends it at the end of the
 iteration order; assigning to a key that is present replaces its value and
 keeps its position.
 */
module Dicts {

  /** `keys` is the iteration order, `m` the key-to-value mapping. */
  datatype Dict<K, V> = Dict(keys: seq<K>, m: map<K, V>)

  /** Keys are distinct and are exactly the domain of the mapping. */
  predicate Valid<K, V>(d: Dict<K, V>)
  {
    && (forall i, j :: 0 <= i < j < |d.keys| ==> d.keys[i] != d.keys[j])
    && (forall k :: k in d.m ==> k in d.keys)
    && (forall k :: k in d.keys ==> k in d.m)
  }

  function Empty<K, V>(): (r: Dict<K, V>)
    ensures Valid(r) && r.keys == [] && r.m == map[]
  {
    Dict([], map[])
  }

  /** `d[k] = v` */
  function Set<K, V>(d: Dict<K, V>, k: K, v: V): (r: Dict<K, V>)
    requires Valid(d)
    ensures Valid(r)
    ensures k in r.m && r.m[k] == v
    ensures forall k' :: k' in d.m ==> k' in r.m
    ensures forall k' :: k' in r.m ==> k' in d.m || k' == k
    ensures forall k' :: k' != k && k' in d.m ==> r.m[k'] == d.m[k']
    ensures k in d.m ==> r.keys == d.keys
    ensures k !in d.m ==> r.keys == d.keys + [k]
  {
    if k in d.m then Dict(d.keys, d.m[k := v]) else Dict(d.keys + [k], d.m[k := v])
  }

  /** A valid dictionary has as many entries as keys in its iteration order. */
  lemma {:induction false} ValidSize<K, V>(d: Dict<K, V>)
    requires Valid(d)
    ensures |d.m| == |d.keys|
    decreases |d.keys|
  {
    if d.keys != [] {
      var last := d.keys[|d.keys| - 1];
      var rest := DropLast(d);
      ValidSize(rest);
      assert d.m.Keys <= rest.m.Keys + {last};
      assert d.m.Keys == rest.m.Keys + {last};
    }
  }

  /** The dictionary without its last key. */
  function DropLast<K, V>(d: Dict<K, V>): (rest: Dict<K, V>)
    requires Valid(d) && d.keys != []
    ensures Valid(rest) && |rest.keys| == |d.keys| - 1
    ensures d.keys[|d.keys| - 1] !in rest.m
    ensures rest.m == d.m - {d.keys[|d.keys| - 1]}
  {
    var n := |d.keys| - 1;
    var rest := Dict(d.keys[..n], d.m - {d.keys[n]});
    forall k | k in rest.m ensures k in rest.keys {
      var j :| 0 <= j < |d.keys| && d.keys[j] == k;
      assert j < n && rest.keys[j] == k;
    }
    forall k | k in rest.keys ensures k in rest.m {
      var j :| 0 <= j < n && rest.keys[j] == k;
      assert d.keys[j] == k && d.keys[j] != d.keys[n];
    }
    rest
  }

  /** The values in iteration order, concatenated. */
  function Concat<K, T>(keys: seq<K>, m: map<K, seq<T>>): seq<T>
    requires forall k :: k in keys ==> k in m
  {
    if keys == [] then [] else Concat(keys[..|keys| - 1], m) + m[keys[|keys| - 1]]
  }

  /** The concatenation reads the mapping only at the listed keys. */
  lemma {:induction false} ConcatFrame<K, T>(keys: seq<K>, m1: map<K, seq<T>>, m2: map<K, seq<T>>)
    requires forall k :: k in keys ==> k in m1 && k in m2 && m1[k] == m2[k]
    ensures Concat(keys, m1) == Concat(keys, m2)
  {
    if keys != [] {
      ConcatFrame(keys[..|keys| - 1], m1, m2);
    }
  }

  /** Appending to the bucket of the last key appends to the concatenation. */
  lemma ConcatExtendLast<K, T>(keys: seq<K>, m1: map<K, seq<T>>, m2: map<K, seq<T>>, x: T)
    requires keys != [] && forall k :: k in keys ==> k in m1 && k in m2
    requires forall k :: k in keys && k != keys[|keys| - 1] ==> m1[k] == m2[k]
    requires keys[|keys| - 1] !in keys[..|keys| - 1]
    requires m2[keys[|keys| - 1]] == m1[keys[|keys| - 1]] + [x]
    ensures Concat(keys, m2) == Concat(keys, m1) + [x]
  {
    var init := keys[..|keys| - 1];
    ConcatFrame(init, m1, m2);
  }

  /** A new key with a one-element bucket appends that element to the concatenation. */
  lemma ConcatAppendKey<K, T>(keys: seq<K>, m1: map<K, seq<T>>, m2: map<K, seq<T>>, k: K, x: T)
    requires forall j :: j in keys ==> j in m1 && j in m2 && m1[j] == m2[j]
    requires k in m2 && m2[k] == [x]
    ensures Concat(keys + [k], m2) == Concat(keys, m1) + [x]
  {
    ConcatFrame(keys, m1, m2);
    assert (keys + [k])[..|keys|] == keys;
  }

  /** The dictionary built by assigning `d[k] = v` for each pair in order, from empty. */
  function Assign<K, V>(kvs: seq<(K, V)>): (r: Dict<K, V>)
    ensures Valid(r)
  {
    if kvs == [] then Empty()
    else Set(Assign(kvs[..|kvs| - 1]), kvs[|kvs| - 1].0, kvs[|kvs| - 1].1)
  }

  lemma AssignSnoc<K, V>(kvs: seq<(K, V)>, kv: (K, V))
    ensures Assign(kvs + [kv]) == Set(Assign(kvs), kv.0, kv.1)
  {
    assert (kvs + [kv])[..|kvs|] == kvs;
  }

  /** The keys the assignments name, in order. */
  function Firsts<K, V>(kvs: seq<(K, V)>): (ks: seq<K>)
    ensures |ks| == |kvs|
    ensures forall j :: 0 <= j < |kvs| ==> ks[j] == kvs[j].0
  {
    seq(|kvs|, j requires 0 <= j < |kvs| => kvs[j].0)
  }

  lemma FirstsSnoc<K, V>(kvs: seq<(K, V)>)
    requires kvs != []
    ensures Firsts(kvs) == Firsts(kvs[..|kvs| - 1]) + [kvs[|kvs| - 1].0]
  {
  }

  /** A key is present exactly when some assignment names it. */
  lemma {:induction false} AssignKeys<K, V>(kvs: seq<(K, V)>, k: K)
    ensures k in Assign(kvs).m <==> k in Firsts(kvs)
  {
    if kvs != [] {
      AssignKeys(kvs[..|kvs| - 1], k);
      FirstsSnoc(kvs);
    }
  }

  /** No two assignments name the same key. */
  predicate DistinctKeys<K(==), V>(kvs: seq<(K, V)>)
  {
    forall a, b :: 0 <= a < b < |kvs| ==> kvs[a].0 != kvs[b].0
  }

  /** With distinct keys nothing is overwritten: one entry per assignment, in order. */
  lemma {:induction false} AssignDistinct<K, V>(kvs: seq<(K, V)>)
    requires DistinctKeys(kvs)
    ensures Assign(kvs).keys == Firsts(kvs)
  {
    if kvs != [] {
      var n := |kvs| - 1;
      var init := kvs[..n];
      assert DistinctKeys(init);
      AssignDistinct(init);
      FirstsSnoc(kvs);
      LastIsFresh(kvs);
    }
  }

  /** ... and each key holds the value assigned to it. */
  lemma {:induction false} AssignDistinctValues<K, V>(kvs: seq<(K, V)>, a: nat)
    requires DistinctKeys(kvs) && a < |kvs|
    ensures kvs[a].0 in Assign(kvs).m && Assign(kvs).m[kvs[a].0] == kvs[a].1
  {
    var n := |kvs| - 1;
    if a < n {
      var init := kvs[..n];
      assert DistinctKeys(init);
      AssignDistinctValues(init, a);
      AssignKeepsEarlier(kvs, a);
    }
  }

  /** A later assignment to another key leaves an earlier one in place. */
  lemma AssignKeepsEarlier<K, V>(kvs: seq<(K, V)>, a: nat)
    requires DistinctKeys(kvs) && a < |kvs| - 1
    requires kvs[a].0 in Assign(kvs[..|kvs| - 1]).m && Assign(kvs[..|kvs| - 1]).m[kvs[a].0] == kvs[a].1
    ensures kvs[a].0 in Assign(kvs).m && Assign(kvs).m[kvs[a].0] == kvs[a].1
  {
  }

  /** The last key of distinct assignments is not among those before it. */
  lemma LastIsFresh<K, V>(kvs: seq<(K, V)>)
    requires DistinctKeys(kvs) && kvs != []
    requires Assign(kvs[..|kvs| - 1]).keys == Firsts(kvs[..|kvs| - 1])
    ensures kvs[|kvs| - 1].0 !in Assign(kvs[..|kvs| - 1]).m
  {
    var n := |kvs| - 1;
    var c := Assign(kvs[..n]);
    forall a | 0 <= a < n ensures c.keys[a] != kvs[n].0 {
      assert c.keys[a] == kvs[a].0;
    }
  }
}
