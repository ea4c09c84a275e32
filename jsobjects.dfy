/** Plain JavaScript objects with string keys, as insertion-ordered maps. */
module JsObjects {
  import opened Seqs

  /**
   * A JavaScript object with string keys: the order in which keys were first
   * assigned (what `Object.entries` follows) and the value of each key.
   */
  datatype JsObject<V> = JsObject(order: seq<string>, entries: map<string, V>)
  {
    predicate WellFormed()
    {
      Distinct(order) && (set k | k in order) == entries.Keys
    }
  }

  /** `o[k] = v`: a new key goes last, an existing key keeps its place. */
  function Put<V>(o: JsObject<V>, k: string, v: V): (r: JsObject<V>)
    requires o.WellFormed()
    ensures r.WellFormed()
    ensures r.entries == o.entries[k := v]
    ensures k in o.entries ==> r.order == o.order
    ensures k !in o.entries ==> r.order == o.order + [k]
  {
    if k in o.entries then JsObject(o.order, o.entries[k := v])
    else JsObject(o.order + [k], o.entries[k := v])
  }

  /** The keys of a list of key/value pairs, in order. */
  function FirstsOf<V>(pairs: seq<(string, V)>): (ks: seq<string>)
    ensures |ks| == |pairs|
    ensures forall i :: 0 <= i < |pairs| ==> ks[i] == pairs[i].0
  {
    seq(|pairs|, i requires 0 <= i < |pairs| => pairs[i].0)
  }

  /** `for (const [k, v] of pairs) obj[k] = v;` starting from `{}`. */
  function FromPairs<V>(pairs: seq<(string, V)>): (o: JsObject<V>)
    ensures o.WellFormed()
  {
    if pairs == [] then JsObject([], map[])
    else
      var last := pairs[|pairs| - 1];
      Put(FromPairs(pairs[..|pairs| - 1]), last.0, last.1)
  }

  /**
   * Assigning distinct keys one after another gives an object whose keys come
   * in assignment order and whose every key holds the value assigned to it.
   */
  lemma {:induction false} FromPairsSpec<V>(pairs: seq<(string, V)>)
    requires Distinct(FirstsOf(pairs))
    ensures FromPairs(pairs).order == FirstsOf(pairs)
    ensures forall i :: 0 <= i < |pairs| ==> FromPairs(pairs).entries[pairs[i].0] == pairs[i].1
  {
    if pairs != [] {
      var n := |pairs| - 1;
      var init := pairs[..n];
      var keys, k, v := FirstsOf(pairs), pairs[n].0, pairs[n].1;
      assert Distinct(FirstsOf(init)) by {
        assert FirstsOf(init) == keys[..n];
      }
      FromPairsSpec(init);
      var o, r := FromPairs(init), FromPairs(pairs);
      assert k !in o.entries by {
        forall j | 0 <= j < n ensures o.order[j] != k {
          assert o.order[j] == keys[j] && keys[n] == k;
        }
      }
      assert r.order == o.order + [k] && r.entries == o.entries[k := v] by {
        assert r == Put(o, k, v);
      }
      assert r.order == keys;
      forall i | 0 <= i < n
        ensures r.entries[pairs[i].0] == pairs[i].1
      {
        assert init[i] == pairs[i] && keys[i] != keys[n];
      }
    }
  }
}
