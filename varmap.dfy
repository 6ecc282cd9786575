/**
 * The variable registry: a lazily built bijection between symbolic keys and the dense identifiers
 * 1..N, handed out in first-use order, with lookups in both directions
 * (`solvers/varmap.py`).
 */
module VarMap {
  import opened Wrappers
  import opened Seqs

  class VarManager<K(==,!new)> {
    /** `_map`: key to identifier. */
    var ids: map<K, nat>
    /** `_rev`: identifier to key. */
    var rev: map<nat, K>
    /** `_counter`: the last identifier handed out. */
    var counter: nat
    /** The keys in the order they were first registered; key `order[i]` has identifier `i + 1`. */
    ghost var order: seq<K>

    ghost predicate Valid()
      reads this
    {
      && counter == |order|
      && (forall k :: k in ids <==> k in order)
      && (forall i :: 0 <= i < |order| ==> order[i] in ids && ids[order[i]] == i + 1)
      && (forall v :: v in rev <==> 1 <= v <= counter)
      && (forall i :: 0 <= i < |order| ==> rev[i + 1] == order[i])
    }

    constructor ()
      ensures Valid() && order == [] && ids == map[] && rev == map[] && counter == 0
    {
      ids, rev, counter := map[], map[], 0;
      order := [];
    }

    /**
     * `new(k)`: the identifier of `k`, registering `k` with the next identifier when it is not
     * known yet.  A known key leaves the registry as it was; a fresh one extends both maps and
     * leaves every earlier identifier where it was.
     */
    method New(k: K) returns (v: nat)
      requires Valid()
      modifies this
      ensures Valid()
      ensures k in ids && ids[k] == v && 1 <= v <= counter && order[v - 1] == k
      ensures old(k in ids) ==> v == old(ids[k]) && ids == old(ids) && rev == old(rev) &&
                                counter == old(counter) && order == old(order)
      ensures old(k !in ids) ==> v == old(counter) + 1 && counter == v && order == old(order) + [k] &&
                                 ids == old(ids)[k := v] && rev == old(rev)[v := k]
      ensures forall k' :: k' in old(ids) ==> k' in ids && ids[k'] == old(ids[k'])
    {
      if k in ids {
        v := ids[k];
        ghost var i :| 0 <= i < |order| && order[i] == k;
        return;
      }
      counter := counter + 1;
      ids := ids[k := counter];
      rev := rev[counter := k];
      order := order + [k];
      v := counter;
    }

    /** `get(k)`: the identifier of `k` if it was registered, never registering it. */
    method Get(k: K) returns (r: Option<nat>)
      requires Valid()
      ensures r.Some? <==> k in order
      ensures r.Some? ==> 1 <= r.value <= |order| && order[r.value - 1] == k
    {
      if k in ids {
        ghost var i :| 0 <= i < |order| && order[i] == k;
        r := Some(ids[k]);
      } else {
        r := None;
      }
    }

    /** `key_of(v)`: the key registered with identifier `v`, if any. */
    method KeyOf(v: int) returns (r: Option<K>)
      requires Valid()
      ensures r.Some? <==> 1 <= v <= |order|
      ensures r.Some? ==> r.value == order[v - 1]
    {
      if v >= 0 && v as nat in rev {
        r := Some(rev[v]);
      } else {
        r := None;
      }
    }

    /** `nvars()`: how many keys were ever registered. */
    method NVars() returns (n: nat)
      requires Valid()
      ensures n == |order| && n == |ids.Keys|
    {
      CountIsKeys();
      n := counter;
    }

    /** No two keys share an identifier, and the identifiers in use are exactly 1..N. */
    lemma IdsInjectiveAndDense()
      requires Valid()
      ensures forall k1, k2 :: k1 in ids && k2 in ids && k1 != k2 ==> ids[k1] != ids[k2]
      ensures forall v :: v in ids.Values <==> 1 <= v <= counter
    {
      forall k1, k2 | k1 in ids && k2 in ids && k1 != k2 ensures ids[k1] != ids[k2] {
        var i :| 0 <= i < |order| && order[i] == k1;
        var j :| 0 <= j < |order| && order[j] == k2;
      }
      forall v | v in ids.Values ensures 1 <= v <= counter {
        var k :| k in ids && ids[k] == v;
        var i :| 0 <= i < |order| && order[i] == k;
      }
      forall v | 1 <= v <= counter ensures v in ids.Values {
        assert order[v - 1] in ids;
      }
    }

    /** `_rev` is the exact inverse of `_map`. */
    lemma RevIsInverse()
      requires Valid()
      ensures forall k :: k in ids ==> ids[k] in rev && rev[ids[k]] == k
      ensures forall v :: v in rev ==> rev[v] in ids && ids[rev[v]] == v
    {
      forall k | k in ids ensures ids[k] in rev && rev[ids[k]] == k {
        var i :| 0 <= i < |order| && order[i] == k;
      }
      forall v | v in rev ensures rev[v] in ids && ids[rev[v]] == v {
        assert rev[v] == order[v - 1];
      }
    }

    /** The counter is the number of distinct keys registered. */
    lemma CountIsKeys()
      requires Valid()
      ensures |ids.Keys| == counter
    {
      assert Distinct(order) by {
        forall i, j | 0 <= i < j < |order| ensures order[i] != order[j] {
          assert ids[order[i]] == i + 1 && ids[order[j]] == j + 1;
        }
      }
      DistinctCardinality(order);
      assert ids.Keys == Elements(order) by {
        forall k | k in ids ensures k in Elements(order) {
          var i :| 0 <= i < |order| && order[i] == k;
        }
      }
    }
  }
}
