/**
 * Clauses at two levels.
 *
 * The encoders work with symbolic variable keys: a key-level literal is `Pos(k)` or `Neg(k)` and a
 * key-level clause is a sequence of them.  The registry turns every key into a positive integer, and
 * the CNF instance that leaves the engine is the integer image of the key-level clauses
 * (`ResolveAll`).  A key the registry does not know resolves to 0, which stands for the `None` that
 * the registry's lookup returns; such a literal is never true.
 */
module Cnf {

  datatype Lit<K> = Pos(key: K) | Neg(key: K)

  type KClause<K> = seq<Lit<K>>

  /** An integer clause: a positive value asserts its variable, a negative one denies it. */
  type Clause = seq<int>

  // ---------------------------------------------------------------------------------------------
  // Key-level semantics: an assignment is the set of keys that are true.

  predicate LitHolds<K>(a: set<K>, l: Lit<K>) {
    match l
    case Pos(k) => k in a
    case Neg(k) => k !in a
  }

  predicate ClauseHolds<K>(a: set<K>, c: KClause<K>) {
    exists l :: l in c && LitHolds(a, l)
  }

  predicate Models<K>(a: set<K>, cs: seq<KClause<K>>) {
    forall c :: c in cs ==> ClauseHolds(a, c)
  }

  // ---------------------------------------------------------------------------------------------
  // Exactly-one constraints: an at-least-one clause followed by the pairwise exclusions, in the
  // order the nested loops of the encoders produce them (first index outer, second index inner).

  function AtLeastOne<K>(vs: seq<K>): (c: KClause<K>)
    ensures |c| == |vs| && forall i :: 0 <= i < |vs| ==> c[i] == Pos(vs[i])
  {
    if vs == [] then [] else AtLeastOne(vs[..|vs| - 1]) + [Pos(vs[|vs| - 1])]
  }

  /** Exclusions `[¬vs[i], ¬vs[j]]` for `i < j < hi`, in increasing `j`. */
  function PairsFrom<K>(vs: seq<K>, i: nat, hi: nat): seq<KClause<K>>
    requires i < hi <= |vs|
    decreases hi
  {
    if hi == i + 1 then [] else PairsFrom(vs, i, hi - 1) + [[Neg(vs[i]), Neg(vs[hi - 1])]]
  }

  /** Exclusions for every pair whose first index is below `n`. */
  function PairsBefore<K>(vs: seq<K>, n: nat): seq<KClause<K>>
    requires n <= |vs|
  {
    if n == 0 then [] else PairsBefore(vs, n - 1) + PairsFrom(vs, n - 1, |vs|)
  }

  function ExactlyOne<K>(vs: seq<K>): seq<KClause<K>> {
    [AtLeastOne(vs)] + PairsBefore(vs, |vs|)
  }

  lemma {:induction false} PairsFromMembers<K>(vs: seq<K>, i: nat, hi: nat, c: KClause<K>)
    requires i < hi <= |vs|
    ensures c in PairsFrom(vs, i, hi) <==> exists j :: i < j < hi && c == [Neg(vs[i]), Neg(vs[j])]
    decreases hi
  {
    if hi > i + 1 {
      PairsFromMembers(vs, i, hi - 1, c);
    }
  }

  lemma {:induction false} PairsBeforeSound<K>(vs: seq<K>, n: nat, c: KClause<K>)
    requires 0 < n <= |vs| && c in PairsBefore(vs, n)
    ensures exists i, j :: 0 <= i < n && i < j < |vs| && c == [Neg(vs[i]), Neg(vs[j])]
  {
    var before, from := PairsBefore(vs, n - 1), PairsFrom(vs, n - 1, |vs|);
    assert PairsBefore(vs, n) == before + from;
    if c in before {
      assert n > 1;
      PairsBeforeSound(vs, n - 1, c);
      var i, j :| 0 <= i < n - 1 && i < j < |vs| && c == [Neg(vs[i]), Neg(vs[j])];
    } else {
      PairsFromMembers(vs, n - 1, |vs|, c);
      var j :| n - 1 < j < |vs| && c == [Neg(vs[n - 1]), Neg(vs[j])];
    }
  }

  lemma {:induction false} PairsBeforeComplete<K>(vs: seq<K>, n: nat, i: nat, j: nat)
    requires n <= |vs| && i < n && i < j < |vs|
    ensures [Neg(vs[i]), Neg(vs[j])] in PairsBefore(vs, n)
  {
    var before, from := PairsBefore(vs, n - 1), PairsFrom(vs, n - 1, |vs|);
    assert PairsBefore(vs, n) == before + from;
    if i < n - 1 {
      PairsBeforeComplete(vs, n - 1, i, j);
    } else {
      PairsFromMembers(vs, n - 1, |vs|, [Neg(vs[i]), Neg(vs[j])]);
    }
  }

  lemma {:induction false} PairsBeforeMembers<K>(vs: seq<K>, n: nat, c: KClause<K>)
    requires n <= |vs|
    ensures c in PairsBefore(vs, n) <==>
            exists i, j :: 0 <= i < n && i < j < |vs| && c == [Neg(vs[i]), Neg(vs[j])]
  {
    if c in PairsBefore(vs, n) {
      assert n > 0;
      PairsBeforeSound(vs, n, c);
    }
    if i, j :| 0 <= i < n && i < j < |vs| && c == [Neg(vs[i]), Neg(vs[j])] {
      PairsBeforeComplete(vs, n, i, j);
    }
  }

  /** The exactly-one clauses hold exactly when one position of `vs` holds a true key. */
  lemma ExactlyOneMeaning<K>(a: set<K>, vs: seq<K>)
    ensures Models(a, ExactlyOne(vs)) <==>
            (exists i :: 0 <= i < |vs| && vs[i] in a) &&
            (forall i, j :: 0 <= i < j < |vs| && vs[i] in a ==> vs[j] !in a)
  {
    var cs := ExactlyOne(vs);
    var alo := AtLeastOne(vs);
    assert ClauseHolds(a, alo) <==> exists i :: 0 <= i < |vs| && vs[i] in a by {
      if ClauseHolds(a, alo) {
        var l :| l in alo && LitHolds(a, l);
        var i :| 0 <= i < |alo| && alo[i] == l;
        assert vs[i] in a;
      }
      if i :| 0 <= i < |vs| && vs[i] in a {
        assert alo[i] in alo && LitHolds(a, alo[i]);
      }
    }
    if Models(a, cs) {
      assert ClauseHolds(a, alo) by { assert alo in cs; }
      forall i, j | 0 <= i < j < |vs| && vs[i] in a ensures vs[j] !in a {
        var c := [Neg(vs[i]), Neg(vs[j])];
        PairsBeforeMembers(vs, |vs|, c);
        assert c in cs;
        var l :| l in c && LitHolds(a, l);
      }
    }
    if (exists i :: 0 <= i < |vs| && vs[i] in a) &&
       (forall i, j :: 0 <= i < j < |vs| && vs[i] in a ==> vs[j] !in a) {
      forall c | c in cs ensures ClauseHolds(a, c) {
        if c != alo {
          assert c in PairsBefore(vs, |vs|);
          PairsBeforeMembers(vs, |vs|, c);
          var i, j :| 0 <= i < |vs| && i < j < |vs| && c == [Neg(vs[i]), Neg(vs[j])];
          if vs[i] in a {
            assert LitHolds(a, c[1]);
          } else {
            assert LitHolds(a, c[0]);
          }
        }
      }
    }
  }

  // ---------------------------------------------------------------------------------------------
  // From keys to integers.

  function Id<K>(ids: map<K, nat>, k: K): int {
    if k in ids then ids[k] else 0
  }

  function ResolveLit<K>(ids: map<K, nat>, l: Lit<K>): int {
    match l
    case Pos(k) => Id(ids, k)
    case Neg(k) => -Id(ids, k)
  }

  function Resolve<K>(ids: map<K, nat>, c: KClause<K>): (r: Clause)
    ensures |r| == |c| && forall i :: 0 <= i < |c| ==> r[i] == ResolveLit(ids, c[i])
  {
    seq(|c|, i requires 0 <= i < |c| => ResolveLit(ids, c[i]))
  }

  function ResolveAll<K>(ids: map<K, nat>, cs: seq<KClause<K>>): (r: seq<Clause>)
    ensures |r| == |cs| && forall i :: 0 <= i < |cs| ==> r[i] == Resolve(ids, cs[i])
  {
    seq(|cs|, i requires 0 <= i < |cs| => Resolve(ids, cs[i]))
  }

  lemma ResolveAllAppend<K>(ids: map<K, nat>, cs: seq<KClause<K>>, ds: seq<KClause<K>>)
    ensures ResolveAll(ids, cs + ds) == ResolveAll(ids, cs) + ResolveAll(ids, ds)
  {
    var l, r := ResolveAll(ids, cs + ds), ResolveAll(ids, cs) + ResolveAll(ids, ds);
    forall i | 0 <= i < |l| ensures l[i] == r[i] {
      if i < |cs| {
        assert (cs + ds)[i] == cs[i];
      } else {
        assert (cs + ds)[i] == ds[i - |cs|];
      }
    }
  }

  lemma ResolveAppend<K>(ids: map<K, nat>, c: KClause<K>, d: KClause<K>)
    ensures Resolve(ids, c + d) == Resolve(ids, c) + Resolve(ids, d)
  {
    var l, r := Resolve(ids, c + d), Resolve(ids, c) + Resolve(ids, d);
    forall i | 0 <= i < |l| ensures l[i] == r[i] {
      if i < |c| {
        assert (c + d)[i] == c[i];
      } else {
        assert (c + d)[i] == d[i - |c|];
      }
    }
  }

  lemma ResolveAllSnoc<K>(ids: map<K, nat>, cs: seq<KClause<K>>, c: KClause<K>)
    ensures ResolveAll(ids, cs + [c]) == ResolveAll(ids, cs) + [Resolve(ids, c)]
  {
    ResolveAllAppend(ids, cs, [c]);
  }

  /**
   * Registering more keys leaves the integer image of the clauses unchanged as long as the
   * identifiers already handed out stay put and no key the clauses mention moves from missing to
   * registered.
   */
  lemma ResolveAllGrowth<K>(ids: map<K, nat>, ids': map<K, nat>, cs: seq<KClause<K>>)
    requires forall k :: k in ids ==> k in ids' && ids'[k] == ids[k]
    requires forall c, l :: c in cs && l in c && l.key !in ids ==> l.key !in ids'
    ensures ResolveAll(ids', cs) == ResolveAll(ids, cs)
  {
    forall i | 0 <= i < |cs| ensures Resolve(ids', cs[i]) == Resolve(ids, cs[i]) {
      assert cs[i] in cs;
      forall t | 0 <= t < |cs[i]| ensures ResolveLit(ids', cs[i][t]) == ResolveLit(ids, cs[i][t]) {
        assert cs[i][t] in cs[i];
      }
    }
  }

  // ---------------------------------------------------------------------------------------------
  // Integer-level semantics, as a solver reads the instance: a model is the set of true variables.

  predicate IntLitHolds(m: set<int>, l: int) {
    (l > 0 && l in m) || (l < 0 && -l !in m)
  }

  predicate Satisfies(m: set<int>, cs: seq<Clause>) {
    forall c :: c in cs ==> exists l :: l in c && IntLitHolds(m, l)
  }

  /** The keys whose registered variable is true in the integer model `m`. */
  function Decode<K>(m: set<int>, ids: map<K, nat>): (a: set<K>)
    ensures a <= ids.Keys && forall k :: k in ids ==> (k in a <==> ids[k] in m)
  {
    set k | k in ids && ids[k] in m
  }

  /** Every denied key is registered (a missing key may appear only positively). */
  ghost predicate NegativesRegistered<K>(ids: map<K, nat>, cs: seq<KClause<K>>) {
    forall c, l :: c in cs && l in c && l.Neg? ==> l.key in ids
  }

  /** One clause: its integer image has a true literal exactly when it has a true key literal. */
  lemma ClauseIffHolds<K>(m: set<int>, ids: map<K, nat>, c: KClause<K>)
    requires forall k :: k in ids ==> ids[k] >= 1
    requires forall l :: l in c && l.Neg? ==> l.key in ids
    ensures (exists l :: l in Resolve(ids, c) && IntLitHolds(m, l)) <==> ClauseHolds(Decode(m, ids), c)
  {
    var a, r := Decode(m, ids), Resolve(ids, c);
    if exists l :: l in r && IntLitHolds(m, l) {
      var l :| l in r && IntLitHolds(m, l);
      var t :| 0 <= t < |r| && r[t] == l;
      assert c[t] in c && LitHolds(a, c[t]);
    }
    if ClauseHolds(a, c) {
      var l :| l in c && LitHolds(a, l);
      var t :| 0 <= t < |c| && c[t] == l;
      assert r[t] in r && IntLitHolds(m, r[t]);
    }
  }

  /**
   * An integer model satisfies the resolved instance exactly when the keys it makes true satisfy
   * the key-level clauses: every lemma stated over keys applies to the instance the solver sees.
   */
  lemma SatisfiesIffModels<K>(m: set<int>, ids: map<K, nat>, cs: seq<KClause<K>>)
    requires forall k :: k in ids ==> ids[k] >= 1
    requires NegativesRegistered(ids, cs)
    ensures Satisfies(m, ResolveAll(ids, cs)) <==> Models(Decode(m, ids), cs)
  {
    var a, rs := Decode(m, ids), ResolveAll(ids, cs);
    if Satisfies(m, rs) {
      forall c | c in cs ensures ClauseHolds(a, c) {
        var i :| 0 <= i < |cs| && cs[i] == c;
        assert rs[i] in rs;
        ClauseIffHolds(m, ids, c);
      }
    }
    if Models(a, cs) {
      forall r | r in rs ensures exists l :: l in r && IntLitHolds(m, l) {
        var i :| 0 <= i < |rs| && rs[i] == r;
        assert cs[i] in cs;
        ClauseIffHolds(m, ids, cs[i]);
      }
    }
  }

  /** Registered identifiers are positive and pairwise distinct, as the registry hands them out. */
  ghost predicate Numbering<K>(ids: map<K, nat>) {
    && (forall k :: k in ids ==> ids[k] >= 1)
    && (forall k1, k2 :: k1 in ids && k2 in ids && k1 != k2 ==> ids[k1] != ids[k2])
  }

  /**
   * A key-level model carries over to the integer instance when every key it makes true through a
   * positive literal is registered: the variables of its registered true keys satisfy the image.
   */
  lemma ModelCarries<K>(ids: map<K, nat>, cs: seq<KClause<K>>, a: set<K>) returns (m: set<int>)
    requires Numbering(ids) && NegativesRegistered(ids, cs) && Models(a, cs)
    requires forall c, l :: c in cs && l in c && l.Pos? && l.key in a ==> l.key in ids
    ensures Satisfies(m, ResolveAll(ids, cs))
    ensures Decode(m, ids) == a * ids.Keys
  {
    m := set k | k in a && k in ids :: ids[k];
    var d := Decode(m, ids);
    forall k | k in ids ensures k in d <==> k in a {
      if k in d {
        var k' :| k' in a && k' in ids && ids[k'] == ids[k];
      }
    }
    forall c | c in cs ensures ClauseHolds(d, c) {
      var l :| l in c && LitHolds(a, l);
      assert LitHolds(d, l);
    }
    SatisfiesIffModels(m, ids, cs);
  }

  /** A key-level instance that contains the empty clause has no model. */
  lemma EmptyClauseUnsat<K>(a: set<K>, cs: seq<KClause<K>>)
    requires [] in cs
    ensures !Models(a, cs)
  {
    assert !ClauseHolds(a, []);
  }
}
