/** Kotlin's `LinkedHashMap<String, V>`: a map that remembers the order in
    which its keys were first inserted. Re-assigning a present key keeps its
    position. */
module LinkedMaps {
  import opened Ordering

  datatype LinkedMap<V> = LinkedMap(keys: seq<string>, values: map<string, V>) {

    predicate Valid() {
      && Distinct(keys)
      && (forall i | 0 <= i < |keys| :: keys[i] in values)
      && (forall k | k in values :: k in keys)
    }
  }

  function Empty<V>(): (t: LinkedMap<V>)
    ensures t.Valid() && t.keys == [] && t.values == map[]
  {
    LinkedMap([], map[])
  }

  /** `t[k] = v`. */
  function Put<V>(t: LinkedMap<V>, k: string, v: V): (r: LinkedMap<V>)
    requires t.Valid()
    ensures r.Valid()
    ensures r.values == t.values[k := v]
    ensures r.keys == if k in t.values then t.keys else t.keys + [k]
  {
    if k in t.values then LinkedMap(t.keys, t.values[k := v])
    else LinkedMap(t.keys + [k], t.values[k := v])
  }

  /** `putAll`, or a `forEach { (k, v) -> this[k] = v }`: the keys `ks`, in
      order, each put with its value from `vals`. */
  function PutEach<V>(t: LinkedMap<V>, ks: seq<string>, vals: map<string, V>): (r: LinkedMap<V>)
    requires t.Valid()
    requires forall i | 0 <= i < |ks| :: ks[i] in vals
    ensures r.Valid()
    ensures forall k :: k in r.values <==> k in t.values || k in ks
    ensures forall k | k in r.values :: r.values[k] == if k in ks then vals[k] else t.values[k]
    decreases |ks|
  {
    if ks == [] then t
    else PutEach(Put(t, ks[0], vals[ks[0]]), ks[1..], vals)
  }

  /** `keys.zip(vals).toMap()` for distinct keys: pairs up to the shorter of
      the two lists, in order. */
  function Zip<V>(keys: seq<string>, vals: seq<V>): (r: LinkedMap<V>)
    requires Distinct(keys)
    ensures r.Valid()
    ensures |r.keys| == Min(|keys|, |vals|)
    ensures r.keys == keys[..|r.keys|]
    ensures forall i | 0 <= i < |r.keys| :: keys[i] in r.values && r.values[keys[i]] == vals[i]
    decreases |keys|
  {
    if keys == [] || vals == [] then Empty()
    else
      var rest := Zip(keys[1..], vals[1..]);
      ZipCons(keys, vals, rest);
      LinkedMap([keys[0]] + rest.keys, rest.values[keys[0] := vals[0]])
  }

  /** The first pair put in front of the zip of the rest. */
  lemma ZipCons<V>(keys: seq<string>, vals: seq<V>, rest: LinkedMap<V>)
    requires Distinct(keys) && keys != [] && vals != []
    requires rest.Valid() && |rest.keys| == Min(|keys| - 1, |vals| - 1)
    requires rest.keys == keys[1..][..|rest.keys|]
    requires forall i | 0 <= i < |rest.keys| :: keys[1..][i] in rest.values && rest.values[keys[1..][i]] == vals[1..][i]
    ensures var r := LinkedMap([keys[0]] + rest.keys, rest.values[keys[0] := vals[0]]);
            && r.Valid() && |r.keys| == Min(|keys|, |vals|) && r.keys == keys[..|r.keys|]
            && forall i | 0 <= i < |r.keys| :: keys[i] in r.values && r.values[keys[i]] == vals[i]
  {
    var n := |rest.keys|;
    assert rest.keys == keys[1..n + 1];
    assert keys[0] !in rest.keys by {
      forall i | 0 <= i < n ensures rest.keys[i] != keys[0] {
        assert rest.keys[i] == keys[i + 1];
      }
    }
    var r := LinkedMap([keys[0]] + rest.keys, rest.values[keys[0] := vals[0]]);
    assert r.keys == keys[..n + 1];
    forall i | 1 <= i <= n ensures keys[i] in r.values && r.values[keys[i]] == vals[i] {
      var k := rest.keys[i - 1];
      assert k == keys[i] && k != keys[0];
      assert k in rest.values && rest.values[k] == vals[1..][i - 1];
    }
  }

  /** A run of `map[k] = v` assignments, in order. */
  function PutPairs<V>(t: LinkedMap<V>, ps: seq<(string, V)>): (r: LinkedMap<V>)
    requires t.Valid()
    ensures r.Valid()
    decreases |ps|
  {
    if ps == [] then t
    else
      var last := ps[|ps| - 1];
      Put(PutPairs(t, ps[..|ps| - 1]), last.0, last.1)
  }

  lemma PutPairsSnoc<V>(t: LinkedMap<V>, ps: seq<(string, V)>, p: (string, V))
    requires t.Valid()
    ensures PutPairs(t, ps + [p]) == Put(PutPairs(t, ps), p.0, p.1)
  {
    assert (ps + [p])[..|ps|] == ps;
  }

  lemma {:induction false} PutPairsAppend<V>(t: LinkedMap<V>, xs: seq<(string, V)>, ys: seq<(string, V)>)
    requires t.Valid()
    ensures PutPairs(t, xs + ys) == PutPairs(PutPairs(t, xs), ys)
    decreases |ys|
  {
    if ys == [] {
      assert xs + ys == xs;
    } else {
      var init := ys[..|ys| - 1];
      assert (xs + ys)[..|xs + ys| - 1] == xs + init;
      PutPairsAppend(t, xs, init);
    }
  }

  /** Exactly the assigned keys are added. */
  lemma {:induction false} PutPairsKeys<V>(t: LinkedMap<V>, ps: seq<(string, V)>, k: string)
    requires t.Valid()
    ensures k in PutPairs(t, ps).values <==> k in t.values || exists i | 0 <= i < |ps| :: ps[i].0 == k
    decreases |ps|
  {
    if ps != [] {
      var init := ps[..|ps| - 1];
      PutPairsKeys(t, init, k);
      if exists i | 0 <= i < |init| :: init[i].0 == k {
        var i :| 0 <= i < |init| && init[i].0 == k;
        assert ps[i] == init[i];
      }
      if exists i | 0 <= i < |ps| :: ps[i].0 == k {
        var i :| 0 <= i < |ps| && ps[i].0 == k;
        if i < |init| {
          assert init[i] == ps[i];
        }
      }
    }
  }

  /** When the starting map and every assignment agree with `m`, so does
      the result. */
  lemma {:induction false} PutPairsAgree<V>(t: LinkedMap<V>, ps: seq<(string, V)>, m: map<string, V>)
    requires t.Valid()
    requires forall k | k in t.values :: k in m && t.values[k] == m[k]
    requires forall i | 0 <= i < |ps| :: ps[i].0 in m && ps[i].1 == m[ps[i].0]
    ensures forall k | k in PutPairs(t, ps).values :: k in m && PutPairs(t, ps).values[k] == m[k]
    decreases |ps|
  {
    if ps != [] {
      var init := ps[..|ps| - 1];
      assert forall i | 0 <= i < |init| :: init[i] == ps[i];
      PutPairsAgree(t, init, m);
    }
  }

  /** Two maps with the same keys and the same value at each key are equal. */
  lemma SameMaps<V>(a: map<string, V>, b: map<string, V>)
    requires forall k | k in a :: k in b && a[k] == b[k]
    requires forall k | k in b :: k in a
    ensures a == b
  {
    assert a.Keys == b.Keys;
  }

  /** The key list and the key set agree. */
  lemma KeysAreValues<V>(t: LinkedMap<V>)
    requires t.Valid()
    ensures forall k :: k in t.keys <==> k in t.values
  {
    forall k | k in t.keys ensures k in t.values {
      var i :| 0 <= i < |t.keys| && t.keys[i] == k;
    }
  }

  function Min(a: int, b: int): int { if a < b then a else b }
}
