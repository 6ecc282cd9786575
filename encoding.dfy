/**
 * What the three encoders share: the errors they raise, the per-cell "exactly one colour"
 * clauses they all start with, and the nested loops that emit an exactly-one constraint over a
 * list of variables.
 */
module Encoding {
  import opened Wrappers
  import opened Keys
  import opened Cnf
  import opened VarMap
  import Clue

  datatype EncodeError =
    | BadClue(error: Clue.ClueError)   // ValueError from parse_clue_line
    | PaletteIndex(line: nat, block: nat) // IndexError: a fixed colour beyond the palette (approach 2)
    | NoneOperand(line: nat)           // TypeError: negating a variable that was never registered (approaches 2, 4)
    | MissingState(line: nat)          // KeyError: a transition into a state that was never created (approach 4)

  /** The colour variables of one cell, palette index 0 (the background) first. */
  function CellKeys(coord: Coord, ncolors: nat): (ks: seq<Key>)
    ensures |ks| == ncolors && forall c :: 0 <= c < ncolors ==> ks[c] == Cell(coord, c)
  {
    seq(ncolors, c requires 0 <= c < ncolors => Cell(coord, c))
  }

  /** Exactly one colour per cell, the cells in order. */
  function CellClauses(cells: seq<Coord>, ncolors: nat): seq<KClause<Key>> {
    if cells == [] then []
    else CellClauses(cells[..|cells| - 1], ncolors) + ExactlyOne(CellKeys(cells[|cells| - 1], ncolors))
  }

  /** The cell variables registered are exactly the palette colours of the puzzle's cells. */
  ghost predicate CellsRegistered(ids: map<Key, nat>, cells: seq<Coord>, ncolors: nat) {
    forall k :: k in ids && k.Cell? ==> k.coord in cells && k.col < ncolors
  }

  /** The palette colours of the first `upto` cells are registered. */
  ghost predicate CellsComplete(ids: map<Key, nat>, cells: seq<Coord>, ncolors: nat, upto: nat) {
    forall i, c :: 0 <= i < upto && i < |cells| && 0 <= c < ncolors ==> Cell(cells[i], c) in ids
  }

  /** Every key the clauses mention is registered, except possibly cell keys. */
  ghost predicate OnlyCellsMissing(ids: map<Key, nat>, cs: seq<KClause<Key>>) {
    forall c, l :: c in cs && l in c && l.key !in ids ==> l.key.Cell?
  }

  /**
   * What the registry guarantees once an encoder is done: numbers are positive and distinct, every
   * denied key and every non-cell key is registered, and so is every palette colour of every cell.
   */
  ghost predicate Transferable(ids: map<Key, nat>, cells: seq<Coord>, ncolors: nat, cs: seq<KClause<Key>>) {
    && Numbering(ids) && NegativesRegistered(ids, cs) && OnlyCellsMissing(ids, cs)
    && CellsComplete(ids, cells, ncolors, |cells|)
  }

  /** The true cell keys are palette colours of puzzle cells. */
  ghost predicate PaletteKeys(a: set<Key>, cells: seq<Coord>, ncolors: nat) {
    forall k :: k in a && k.Cell? ==> k.coord in cells && k.col < ncolors
  }

  /**
   * A key-level model whose true cell keys are palette colours of puzzle cells gives an integer
   * model of the resolved clauses that makes true exactly the registered keys it makes true.
   */
  lemma IntegerModel(ids: map<Key, nat>, cells: seq<Coord>, ncolors: nat, cs: seq<KClause<Key>>, a: set<Key>)
    returns (m: set<int>)
    requires Transferable(ids, cells, ncolors, cs) && Models(a, cs) && PaletteKeys(a, cells, ncolors)
    ensures Satisfies(m, ResolveAll(ids, cs))
    ensures forall k :: k in ids ==> (ids[k] in m <==> k in a)
  {
    m := ModelCarries(ids, cs, a);
  }

  lemma OnlyCellsMissingAppend(ids: map<Key, nat>, cs: seq<KClause<Key>>, ds: seq<KClause<Key>>)
    requires OnlyCellsMissing(ids, cs)
    requires OnlyCellsMissing(ids, ds) || forall c, l :: c in ds && l in c ==> l.key in ids
    ensures OnlyCellsMissing(ids, cs + ds)
  {
    assert forall c :: c in cs + ds ==> c in cs || c in ds;
  }

  /**
   * Denied keys stay registered as the registry grows, and the clauses of the next line deny
   * registered keys only.
   */
  lemma NegativesAppend(ids: map<Key, nat>, ids': map<Key, nat>, cs: seq<KClause<Key>>, ds: seq<KClause<Key>>)
    requires NegativesRegistered(ids, cs) && Extends(ids, ids') && NegativesRegistered(ids', ds)
    ensures NegativesRegistered(ids', cs + ds)
  {
    assert forall c :: c in cs + ds ==> c in cs || c in ds;
  }

  /** The registry `ids'` keeps every identifier `ids` handed out. */
  ghost predicate Extends(ids: map<Key, nat>, ids': map<Key, nat>) {
    forall k :: k in ids ==> k in ids' && ids'[k] == ids[k]
  }

  /** No cell key was registered on the way from `ids` to `ids'`. */
  ghost predicate AddsNoCells(ids: map<Key, nat>, ids': map<Key, nat>) {
    forall k :: k in ids' && k !in ids ==> !k.Cell?
  }

  lemma GrowthTrans(ids: map<Key, nat>, mid: map<Key, nat>, ids': map<Key, nat>)
    requires Extends(ids, mid) && AddsNoCells(ids, mid) && Extends(mid, ids') && AddsNoCells(mid, ids')
    ensures Extends(ids, ids') && AddsNoCells(ids, ids')
  {
  }

  /**
   * Clauses whose missing keys are all cell keys keep their integer image while only other keys
   * are registered.
   */
  lemma ResolveAfterGrowth(ids: map<Key, nat>, ids': map<Key, nat>, cs: seq<KClause<Key>>)
    requires OnlyCellsMissing(ids, cs) && Extends(ids, ids') && AddsNoCells(ids, ids')
    ensures ResolveAll(ids', cs) == ResolveAll(ids, cs) && OnlyCellsMissing(ids', cs)
  {
    ResolveAllGrowth(ids, ids', cs);
  }

  /** `[-vars[i], -vars[j]]` for every `i < j`, over the identifiers of `keys`: the inner loops of every exactly-one constraint. */
  method PairClauses<K>(vars: seq<int>, ghost ids: map<K, nat>, ghost keys: seq<K>) returns (cs: seq<Clause>)
    requires |vars| == |keys| && forall i :: 0 <= i < |keys| ==> vars[i] == Id(ids, keys[i])
    ensures cs == ResolveAll(ids, PairsBefore(keys, |keys|))
  {
    ghost var pairs: seq<KClause<K>> := [];
    cs := [];
    for i := 0 to |vars|
      invariant pairs == PairsBefore(keys, i)
      invariant cs == ResolveAll(ids, pairs)
    {
      for j := i + 1 to |vars|
        invariant pairs == PairsBefore(keys, i) + PairsFrom(keys, i, j)
        invariant cs == ResolveAll(ids, pairs)
      {
        ghost var kc := [Neg(keys[i]), Neg(keys[j])];
        assert Resolve(ids, kc) == [-vars[i], -vars[j]];
        ResolveAllSnoc(ids, pairs, kc);
        pairs := pairs + [kc];
        cs := cs + [[-vars[i], -vars[j]]];
      }
    }
  }

  /** The clause `vars` followed by its pairwise exclusions: an exactly-one constraint over `keys`. */
  method ExactlyOneClauses<K>(vars: seq<int>, ghost ids: map<K, nat>, ghost keys: seq<K>) returns (cs: seq<Clause>)
    requires |vars| == |keys| && forall i :: 0 <= i < |keys| ==> vars[i] == Id(ids, keys[i])
    ensures cs == ResolveAll(ids, ExactlyOne(keys))
  {
    var excl := PairClauses(vars, ids, keys);
    assert Resolve(ids, AtLeastOne(keys)) == vars;
    ResolveAllAppend(ids, [AtLeastOne(keys)], PairsBefore(keys, |keys|));
    cs := [vars] + excl;
  }

  /** `vm.get(k)` used as a literal: a missing key gives 0, the stand-in for `None`. */
  method Lookup(vm: VarManager<Key>, k: Key) returns (v: int)
    requires vm.Valid()
    ensures v == Id(vm.ids, k)
  {
    var r := vm.Get(k);
    v := if r.Some? then r.value else 0;
  }

  /** `vm.get(k)`: the variable of `k`, or `None` when `k` was never registered. */
  method Find(vm: VarManager<Key>, k: Key) returns (r: Option<nat>)
    requires vm.Valid()
    ensures r.Some? <==> k in vm.ids
    ensures r.Some? ==> r.value == vm.ids[k]
  {
    r := vm.Get(k);
  }

  /** Registering keys other than cell keys keeps the cell variables as they were. */
  lemma CellsKept(ids: map<Key, nat>, ids': map<Key, nat>, cells: seq<Coord>, ncolors: nat)
    requires CellsRegistered(ids, cells, ncolors) && CellsComplete(ids, cells, ncolors, |cells|)
    requires Extends(ids, ids') && AddsNoCells(ids, ids')
    ensures CellsRegistered(ids', cells, ncolors) && CellsComplete(ids', cells, ncolors, |cells|)
  {
  }

  /** A cell has a variable for a palette colour exactly when it is one of the puzzle's cells. */
  lemma CellPresent(ids: map<Key, nat>, cells: seq<Coord>, ncolors: nat, coord: Coord, col: nat)
    requires CellsRegistered(ids, cells, ncolors) && CellsComplete(ids, cells, ncolors, |cells|)
    requires col < ncolors
    ensures Cell(coord, col) in ids <==> coord in cells
  {
    if coord in cells {
      var i :| 0 <= i < |cells| && cells[i] == coord;
    }
  }

  /** `[vm.new(('cell', coord, c)) for c in range(ncolors)]`. */
  method RegisterCell(coord: Coord, ncolors: nat, vm: VarManager<Key>) returns (vars: seq<int>)
    requires vm.Valid()
    modifies vm
    ensures vm.Valid()
    ensures |vars| == ncolors && forall c :: 0 <= c < ncolors ==> vars[c] == Id(vm.ids, Cell(coord, c))
    ensures forall c :: 0 <= c < ncolors ==> Cell(coord, c) in vm.ids
    ensures forall k :: k in old(vm.ids) ==> k in vm.ids && vm.ids[k] == old(vm.ids)[k]
    ensures forall k :: k in vm.ids && k !in old(vm.ids) ==> k.Cell? && k.coord == coord && k.col < ncolors
  {
    vars := [];
    for col := 0 to ncolors
      invariant vm.Valid()
      invariant |vars| == col && forall c :: 0 <= c < col ==> vars[c] == Id(vm.ids, Cell(coord, c))
      invariant forall c :: 0 <= c < col ==> Cell(coord, c) in vm.ids
      invariant forall k :: k in old(vm.ids) ==> k in vm.ids && vm.ids[k] == old(vm.ids)[k]
      invariant forall k :: k in vm.ids && k !in old(vm.ids) ==> k.Cell? && k.coord == coord && k.col < col
    {
      var v := vm.New(Cell(coord, col));
      vars := vars + [v];
    }
  }

  /**
   * The first phase of every encoder: one variable per cell and palette colour, registered in
   * cell order, and exactly one colour per cell.
   */
  method EncodeCells(cells: seq<Coord>, ncolors: nat, vm: VarManager<Key>) returns (clauses: seq<Clause>)
    requires vm.Valid() && vm.order == []
    modifies vm
    ensures vm.Valid()
    ensures clauses == ResolveAll(vm.ids, CellClauses(cells, ncolors))
    ensures forall c, l :: c in CellClauses(cells, ncolors) && l in c ==> l.key in vm.ids
    ensures CellsRegistered(vm.ids, cells, ncolors) && CellsComplete(vm.ids, cells, ncolors, |cells|)
    ensures forall k :: k in vm.ids ==> k.Cell?
  {
    clauses := [];
    for i := 0 to |cells|
      invariant vm.Valid()
      invariant clauses == ResolveAll(vm.ids, CellClauses(cells[..i], ncolors))
      invariant forall c, l :: c in CellClauses(cells[..i], ncolors) && l in c ==> l.key in vm.ids
      invariant CellsRegistered(vm.ids, cells, ncolors) && CellsComplete(vm.ids, cells, ncolors, i)
      invariant forall k :: k in vm.ids ==> k.Cell?
    {
      ghost var done := CellClauses(cells[..i], ncolors);
      ghost var before := vm.ids;
      var vars := RegisterCell(cells[i], ncolors, vm);
      ResolveAllGrowth(before, vm.ids, done);
      ghost var keys := CellKeys(cells[i], ncolors);
      var cs := ExactlyOneClauses(vars, vm.ids, keys);
      assert cells[..i + 1][..i] == cells[..i];
      assert CellClauses(cells[..i + 1], ncolors) == done + ExactlyOne(keys);
      ResolveAllAppend(vm.ids, done, ExactlyOne(keys));
      clauses := clauses + cs;
      forall c, l | c in ExactlyOne(keys) && l in c ensures l.key in vm.ids {
        ExactlyOneKeys(keys, c, l);
      }
      forall j, c | 0 <= j < i + 1 && j < |cells| && 0 <= c < ncolors ensures Cell(cells[j], c) in vm.ids {
        if j < i {
          assert Cell(cells[j], c) in before;
        }
      }
    }
    assert cells[..|cells|] == cells;
  }

  /** Every literal of an exactly-one constraint is about one of its variables. */
  lemma ExactlyOneKeys<K>(vs: seq<K>, c: KClause<K>, l: Lit<K>)
    requires c in ExactlyOne(vs) && l in c
    ensures l.key in vs
  {
    if c != AtLeastOne(vs) {
      PairsBeforeMembers(vs, |vs|, c);
    }
  }

  // ---------------------------------------------------------------------------------------------
  // The loop over the lines

  /**
   * The loop of `encode` over the lines from line `k` on, `cs` the clauses so far and `parts[l]`
   * what line `l` contributes: its clauses, or the exception it raises, which ends the encoding.
   */
  function Run<T, E>(parts: seq<Result<seq<T>, E>>, k: nat, cs: seq<T>): Result<seq<T>, E>
    requires k <= |parts|
    decreases |parts| - k
  {
    if k == |parts| then Ok(cs)
    else
      match parts[k]
      case Err(e) => Err(e)
      case Ok(lc) => Run(parts, k + 1, cs + lc)
  }

  /** The run at line `k` stops with that line's error, or hands its clauses on to the next line. */
  lemma RunAt<T, E>(parts: seq<Result<seq<T>, E>>, k: nat, cs: seq<T>)
    requires k < |parts|
    ensures parts[k].Err? ==> Run(parts, k, cs) == Err(parts[k].error)
    ensures parts[k].Ok? ==> Run(parts, k, cs) == Run(parts, k + 1, cs + parts[k].value)
  {
  }

  /** A model of what the run produces from the next line on is a model of what it produces here. */
  lemma RunOkModels<K, E>(parts: seq<Result<seq<KClause<K>>, E>>, k: nat, cs: seq<KClause<K>>, lc: seq<KClause<K>>,
                          a: set<K>)
    requires k < |parts| && parts[k] == Ok(lc)
    requires Run(parts, k + 1, cs + lc).Ok? && Models(a, Run(parts, k + 1, cs + lc).value)
    ensures Run(parts, k, cs).Ok? && Models(a, Run(parts, k, cs).value)
  {
  }

  /** A successful run keeps the clauses it started with and every line's. */
  lemma {:induction false} RunKeeps<T, E>(parts: seq<Result<seq<T>, E>>, k: nat, cs: seq<T>, r: seq<T>)
    requires k <= |parts| && Run(parts, k, cs) == Ok(r)
    ensures forall c :: c in cs ==> c in r
    ensures forall l :: k <= l < |parts| ==> parts[l].Ok? && forall c :: c in parts[l].value ==> c in r
    decreases |parts| - k
  {
    if k < |parts| {
      RunKeeps(parts, k + 1, cs + parts[k].value, r);
    }
  }

  /** A run fails exactly when a line fails, and with the error of the first line that does. */
  lemma {:induction false} RunFails<T, E>(parts: seq<Result<seq<T>, E>>, k: nat, cs: seq<T>)
    requires k <= |parts|
    ensures Run(parts, k, cs).Err? <==> exists l :: k <= l < |parts| && parts[l].Err?
    ensures Run(parts, k, cs).Err? ==>
              exists l :: k <= l < |parts| && parts[l] == Run(parts, k, cs) &&
                          forall l' :: k <= l' < l ==> parts[l'].Ok?
    decreases |parts| - k
  {
    if k < |parts| && parts[k].Ok? {
      RunFails(parts, k + 1, cs + parts[k].value);
      if Run(parts, k, cs).Err? {
        var l :| k + 1 <= l < |parts| && parts[l] == Run(parts, k, cs) &&
                 forall l' :: k + 1 <= l' < l ==> parts[l'].Ok?;
        assert forall l' :: k <= l' < l ==> parts[l'].Ok?;
      }
    }
  }

  /** The cell clauses mention cell keys only. */
  lemma {:induction false} CellClausesKeys(cells: seq<Coord>, ncolors: nat, c: KClause<Key>, l: Lit<Key>)
    requires c in CellClauses(cells, ncolors) && l in c
    ensures l.key.Cell? && l.key.coord in cells && l.key.col < ncolors
  {
    var pre := cells[..|cells| - 1];
    var last := cells[|cells| - 1];
    if c in CellClauses(pre, ncolors) {
      CellClausesKeys(pre, ncolors, c, l);
    } else {
      ExactlyOneKeys(CellKeys(last, ncolors), c, l);
    }
  }

  /** Every cell of the line holds the palette colour `painted` gives it. */
  ghost predicate Shows(a: set<Key>, cells: seq<Coord>, painted: seq<nat>)
    requires |painted| == |cells|
  {
    forall p :: 0 <= p < |cells| ==> Cell(cells[p], painted[p]) in a
  }

  /** The cell has exactly one palette colour. */
  ghost predicate OneColour(a: set<Key>, coord: Coord, ncolors: nat) {
    (exists c :: 0 <= c < ncolors && Cell(coord, c) in a) &&
    (forall c, d :: 0 <= c < d < ncolors && Cell(coord, c) in a ==> Cell(coord, d) !in a)
  }

  lemma CellExactlyOne(a: set<Key>, coord: Coord, ncolors: nat)
    ensures Models(a, ExactlyOne(CellKeys(coord, ncolors))) <==> OneColour(a, coord, ncolors)
  {
    var ks := CellKeys(coord, ncolors);
    ExactlyOneMeaning(a, ks);
    if exists c :: 0 <= c < ncolors && Cell(coord, c) in a {
      var c :| 0 <= c < ncolors && Cell(coord, c) in a;
      assert ks[c] in a;
    }
  }

  /** The cell clauses hold exactly when every cell of the puzzle has exactly one palette colour. */
  lemma {:induction false} CellClausesMeaning(a: set<Key>, cells: seq<Coord>, ncolors: nat)
    ensures Models(a, CellClauses(cells, ncolors)) <==>
            forall i :: 0 <= i < |cells| ==> OneColour(a, cells[i], ncolors)
  {
    if cells != [] {
      var pre := cells[..|cells| - 1];
      var last := cells[|cells| - 1];
      CellClausesMeaning(a, pre, ncolors);
      CellExactlyOne(a, last, ncolors);
      ModelsAppend(a, CellClauses(pre, ncolors), ExactlyOne(CellKeys(last, ncolors)));
      assert forall i :: 0 <= i < |pre| ==> pre[i] == cells[i];
    }
  }

  /** Whether a clause holds depends only on the keys it mentions. */
  lemma ModelsAgree(a: set<Key>, a': set<Key>, cs: seq<KClause<Key>>)
    requires Models(a, cs)
    requires forall c, l :: c in cs && l in c ==> (l.key in a <==> l.key in a')
    ensures Models(a', cs)
  {
    forall c | c in cs ensures ClauseHolds(a', c) {
      var l :| l in c && LitHolds(a, l);
      assert LitHolds(a', l);
    }
  }

  lemma ModelsAppend<K>(a: set<K>, cs: seq<KClause<K>>, ds: seq<KClause<K>>)
    ensures Models(a, cs + ds) <==> Models(a, cs) && Models(a, ds)
  {
    assert forall c :: c in cs + ds <==> c in cs || c in ds;
  }

  /** A model of an instance is a model of every part of it. */
  lemma ModelsSubset<K>(a: set<K>, cs: seq<KClause<K>>, ds: seq<KClause<K>>)
    requires Models(a, cs) && forall c :: c in ds ==> c in cs
    ensures Models(a, ds)
  {
  }
}
