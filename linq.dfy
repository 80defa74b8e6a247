/** Partitioning a sequence of elements into buckets by a key. */
module Linq {

  /** The keys that the elements of `elems` reach. */
  function KeysOf<T(==), K(==)>(elems: seq<T>, key: T -> K): set<K> {
    set e | e in elems :: key(e)
  }

  /**
   * The grouping of `elems` by `key`: every key some element reaches maps to the set of
   * the elements with that key.
   */
  function Grouping<T(==), K(==)>(elems: seq<T>, key: T -> K): map<K, set<T>> {
    map k | k in KeysOf(elems, key) :: set e | e in elems && key(e) == k
  }

  /**
   * Builds the map from each key to the set of elements with that key, adding one element
   * at a time: into its key's bucket if there is one, else into a new singleton bucket.
   */
  method GroupBy<T(==), K(==)>(elems: seq<T>, key: T -> K) returns (ret: map<K, set<T>>)
    ensures ret == Grouping(elems, key)
    ensures forall e | e in elems :: key(e) in ret && e in ret[key(e)]
    ensures forall k, e | k in ret && e in ret[k] :: key(e) == k && e in elems
    ensures forall k | k in ret :: ret[k] != {}
    ensures ret.Keys == KeysOf(elems, key)
  {
    ret := map[];
    for i := 0 to |elems|
      invariant ret == Grouping(elems[..i], key)
    {
      var elem := elems[i];
      var k := key(elem);
      GroupingSnoc(elems[..i], elem, key);
      assert elems[..i + 1] == elems[..i] + [elem];
      if k in ret {
        ret := ret[k := ret[k] + {elem}];
      } else {
        var hn := {elem};
        ret := ret[k := hn];
      }
    }
    assert elems[..|elems|] == elems;
    GroupingProperties(elems, key);
  }

  /** Adding one element to the input adds it to its key's bucket, creating the bucket if needed. */
  lemma GroupingSnoc<T, K>(prefix: seq<T>, e: T, key: T -> K)
    ensures var g := Grouping(prefix, key);
      Grouping(prefix + [e], key) ==
        if key(e) in g then g[key(e) := g[key(e)] + {e}] else g[key(e) := {e}]
  {
    var g := Grouping(prefix, key);
    var g' := Grouping(prefix + [e], key);
    var k := key(e);
    var expected := if k in g then g[k := g[k] + {e}] else g[k := {e}];
    assert KeysOf(prefix + [e], key) == KeysOf(prefix, key) + {k};
    assert g'.Keys == expected.Keys;
    forall k' | k' in g'
      ensures g'[k'] == expected[k']
    {
      assert forall x :: x in prefix + [e] <==> x in prefix || x == e;
    }
  }

  /**
   * What the grouping promises: every element is in its own key's bucket, buckets hold only
   * input elements with that key, no bucket is empty, and the keys are exactly those reached.
   */
  lemma GroupingProperties<T, K>(elems: seq<T>, key: T -> K)
    ensures forall e | e in elems :: key(e) in Grouping(elems, key) && e in Grouping(elems, key)[key(e)]
    ensures forall k, e | k in Grouping(elems, key) && e in Grouping(elems, key)[k] :: key(e) == k && e in elems
    ensures forall k | k in Grouping(elems, key) :: Grouping(elems, key)[k] != {}
    ensures Grouping(elems, key).Keys == KeysOf(elems, key)
  {
    var g := Grouping(elems, key);
    forall k | k in g ensures g[k] != {} {
      var e :| e in elems && key(e) == k;
      assert e in g[k];
    }
  }

  /** The buckets together hold exactly the input elements; duplicates collapse into one. */
  lemma GroupingUnion<T, K>(elems: seq<T>, key: T -> K)
    ensures forall e :: (exists k :: k in Grouping(elems, key) && e in Grouping(elems, key)[k]) <==> e in elems
  {
    GroupingProperties(elems, key);
  }

  /** Grouping an empty input gives the empty map. */
  lemma GroupingEmpty<T, K>(key: T -> K)
    ensures Grouping([], key) == map[]
  {
    assert KeysOf([], key) == {};
  }
}
