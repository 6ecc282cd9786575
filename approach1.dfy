/**
 * Approach 1 (`solvers/approach1.py`): every admissible arrangement of a line gets a selector
 * variable; a selector forces the colour it paints on every cell of the line, and exactly one
 * selector per line holds.
 */
module Approach1 {
  import opened Wrappers
  import opened Keys
  import opened Cnf
  import opened VarMap
  import opened Clue
  import opened Arrangements
  import opened Encoding
  import Geometry

  // ---------------------------------------------------------------------------------------------
  // The instance, at key level

  /** The selector variables of the first `m` arrangements of line `lidx`. */
  function Selectors(lidx: nat, m: nat): (ks: seq<Key>)
    ensures |ks| == m && forall a :: 0 <= a < m ==> ks[a] == Arr(lidx, a)
  {
    seq(m, a requires 0 <= a < m => Arr(lidx, a))
  }

  /** `[-sel, v]` for every cell of the line, `v` the variable of the colour painted on it. */
  function Implications(sel: Key, cells: seq<Coord>, painted: seq<nat>): (cs: seq<KClause<Key>>)
    requires |painted| == |cells|
    ensures |cs| == |cells| &&
            forall p :: 0 <= p < |cells| ==> cs[p] == [Neg(sel), Pos(Cell(cells[p], painted[p]))]
  {
    seq(|cells|, p requires 0 <= p < |cells| => [Neg(sel), Pos(Cell(cells[p], painted[p]))])
  }

  /** The implications of the arrangements `arrs`, arrangement `a` under selector `a`. */
  function SelectorClauses(lidx: nat, cells: seq<Coord>, blocks: seq<Block>, arrs: seq<Arrangement>): seq<KClause<Key>>
    requires forall x :: x in arrs ==> |x.starts| == |blocks| && |x.colours| == |blocks|
  {
    if arrs == [] then []
    else
      var last := arrs[|arrs| - 1];
      SelectorClauses(lidx, cells, blocks, arrs[..|arrs| - 1]) +
      Implications(Arr(lidx, |arrs| - 1), cells, Painted(|cells|, blocks, last))
  }

  /** The choice clauses of a line: the empty clause without any arrangement, else exactly one. */
  function Choice(lidx: nat, m: nat): seq<KClause<Key>> {
    if m == 0 then [[]] else ExactlyOne(Selectors(lidx, m))
  }

  /** What the loop body over the lines of `encode` appends for line `lidx`. */
  function LineClauses(lidx: nat, cells: seq<Coord>, blocks: seq<Block>, ncolors: nat): seq<KClause<Key>> {
    var arrs := LineArrangements(|cells|, blocks, ncolors);
    ArrangementsShapes(|cells|, blocks, ncolors);
    SelectorClauses(lidx, cells, blocks, arrs) + Choice(lidx, |arrs|)
  }

  /** The clauses of line `lidx`, or the error its clue raises. */
  function LinePart(p: Geometry.Puzzle, lidx: nat): Result<seq<KClause<Key>>, EncodeError>
    requires lidx < |p.lines|
  {
    match ParseClue(p.lines[lidx].clue)
    case Err(e) => Err(BadClue(e))
    case Ok(blocks) => Ok(LineClauses(lidx, p.lines[lidx].cells, blocks, |p.colors|))
  }

  /** What every line contributes, in order. */
  function Parts(p: Geometry.Puzzle): (r: seq<Result<seq<KClause<Key>>, EncodeError>>)
    ensures |r| == |p.lines| && forall l :: 0 <= l < |p.lines| ==> r[l] == LinePart(p, l)
  {
    seq(|p.lines|, l requires 0 <= l < |p.lines| => LinePart(p, l))
  }

  /** `encode(puzzle, vm)`, at key level. */
  function Spec(p: Geometry.Puzzle): Result<seq<KClause<Key>>, EncodeError> {
    Run(Parts(p), 0, CellClauses(p.cells, |p.colors|))
  }

  // ---------------------------------------------------------------------------------------------
  // The encoder

  /** `for pos, col in enumerate(cell_colors): clauses.append([-sel, vm.get(('cell', cells[pos], col))])`. */
  method EmitImplications(sel: int, ghost selKey: Key, cells: seq<Coord>, painted: seq<nat>, vm: VarManager<Key>)
    returns (cs: seq<Clause>)
    requires vm.Valid() && |painted| == |cells| && sel == Id(vm.ids, selKey)
    ensures cs == ResolveAll(vm.ids, Implications(selKey, cells, painted))
  {
    cs := [];
    ghost var all := Implications(selKey, cells, painted);
    for pos := 0 to |cells|
      invariant cs == ResolveAll(vm.ids, all[..pos])
    {
      var v := Lookup(vm, Cell(cells[pos], painted[pos]));
      assert Resolve(vm.ids, all[pos]) == [-sel, v];
      assert all[..pos + 1] == all[..pos] + [all[pos]];
      ResolveAllSnoc(vm.ids, all[..pos], all[pos]);
      cs := cs + [[-sel, v]];
    }
    assert all[..|cells|] == all;
  }

  /** One admissible arrangement: a fresh selector, the painting, and the implications. */
  method AddArrangement(lidx: nat, cells: seq<Coord>, blocks: seq<Block>, x: Arrangement, index: nat,
                        vm: VarManager<Key>)
    returns (sel: nat, cs: seq<Clause>)
    requires vm.Valid() && ValidPlacement(|cells|, blocks, x.starts) && |x.colours| == |blocks|
    modifies vm
    ensures vm.Valid()
    ensures Arr(lidx, index) in vm.ids && sel == vm.ids[Arr(lidx, index)]
    ensures cs == ResolveAll(vm.ids, Implications(Arr(lidx, index), cells, Painted(|cells|, blocks, x)))
    ensures Extends(old(vm.ids), vm.ids) && AddsNoCells(old(vm.ids), vm.ids)
  {
    sel := vm.New(Arr(lidx, index));
    var painted := PaintLine(|cells|, blocks, x);
    cs := EmitImplications(sel, Arr(lidx, index), cells, painted, vm);
  }

  /** The keys of a line's implications are its selectors and cell keys. */
  lemma SelectorClausesKeys(lidx: nat, cells: seq<Coord>, blocks: seq<Block>, arrs: seq<Arrangement>,
                            c: KClause<Key>, l: Lit<Key>)
    requires forall x :: x in arrs ==> |x.starts| == |blocks| && |x.colours| == |blocks|
    requires c in SelectorClauses(lidx, cells, blocks, arrs) && l in c
    ensures (l.Pos? && l.key.Cell?) || (l.Neg? && l.key.Arr? && l.key.line == lidx && l.key.index < |arrs|)
  {
    if arrs != [] {
      var pre := arrs[..|arrs| - 1];
      if c in SelectorClauses(lidx, cells, blocks, pre) {
        SelectorClausesKeys(lidx, cells, blocks, pre, c, l);
      }
    }
  }

  /**
   * What the loops over one line have produced so far: the clauses of the arrangements `done`,
   * and their selectors registered under consecutive indices.
   */
  ghost predicate LineState(ids: map<Key, nat>, lidx: nat, cells: seq<Coord>, blocks: seq<Block>,
                            done: seq<Arrangement>, selectors: seq<int>, cs: seq<Clause>)
  {
    && (forall x :: x in done ==> |x.starts| == |blocks| && |x.colours| == |blocks|)
    && cs == ResolveAll(ids, SelectorClauses(lidx, cells, blocks, done))
    && OnlyCellsMissing(ids, SelectorClauses(lidx, cells, blocks, done))
    && |selectors| == |done|
    && forall a :: 0 <= a < |done| ==> Arr(lidx, a) in ids && selectors[a] == ids[Arr(lidx, a)]
  }

  /** Appending one arrangement, registered under the next selector index, keeps the line state. */
  lemma LineStateSnoc(before: map<Key, nat>, ids: map<Key, nat>, lidx: nat, cells: seq<Coord>, blocks: seq<Block>,
                      done: seq<Arrangement>, selectors: seq<int>, cs: seq<Clause>,
                      x: Arrangement, sel: int, more: seq<Clause>)
    requires LineState(before, lidx, cells, blocks, done, selectors, cs)
    requires Extends(before, ids) && AddsNoCells(before, ids)
    requires |x.starts| == |blocks| && |x.colours| == |blocks|
    requires Arr(lidx, |done|) in ids && sel == ids[Arr(lidx, |done|)]
    requires more == ResolveAll(ids, Implications(Arr(lidx, |done|), cells, Painted(|cells|, blocks, x)))
    ensures LineState(ids, lidx, cells, blocks, done + [x], selectors + [sel], cs + more)
  {
    var kcs := SelectorClauses(lidx, cells, blocks, done);
    var done' := done + [x];
    assert done'[..|done|] == done;
    ResolveAfterGrowth(before, ids, kcs);
    ResolveAllAppend(ids, kcs, Implications(Arr(lidx, |done|), cells, Painted(|cells|, blocks, x)));
    forall c, l | c in SelectorClauses(lidx, cells, blocks, done') && l in c && l.key !in ids
      ensures l.key.Cell?
    {
      SelectorClausesKeys(lidx, cells, blocks, done', c, l);
    }
  }

  /** The body of the inner loop for one admissible arrangement `x`. */
  method Select(lidx: nat, cells: seq<Coord>, blocks: seq<Block>, x: Arrangement, vm: VarManager<Key>,
                ghost done0: seq<Arrangement>, selectors0: seq<int>, cs0: seq<Clause>)
    returns (ghost done: seq<Arrangement>, selectors: seq<int>, cs: seq<Clause>)
    requires vm.Valid() && ValidPlacement(|cells|, blocks, x.starts) && |x.colours| == |blocks|
    requires LineState(vm.ids, lidx, cells, blocks, done0, selectors0, cs0)
    modifies vm
    ensures vm.Valid()
    ensures done == done0 + [x]
    ensures LineState(vm.ids, lidx, cells, blocks, done, selectors, cs)
    ensures Extends(old(vm.ids), vm.ids) && AddsNoCells(old(vm.ids), vm.ids)
  {
    ghost var before := vm.ids;
    var sel, more := AddArrangement(lidx, cells, blocks, x, |selectors0|, vm);
    LineStateSnoc(before, vm.ids, lidx, cells, blocks, done0, selectors0, cs0, x, sel, more);
    done := done0 + [x];
    cs := cs0 + more;
    selectors := selectors0 + [sel];
  }

  /**
   * The body of the inner loop of `encode`: colouring `j` of `allColours` for the start offsets
   * `starts`, selected when it is well spaced.
   */
  method Consider(lidx: nat, cells: seq<Coord>, blocks: seq<Block>, starts: seq<nat>, allColours: seq<seq<nat>>,
                  j: nat, vm: VarManager<Key>, ghost ids0: map<Key, nat>, ghost done0: seq<Arrangement>,
                  ghost done1: seq<Arrangement>, selectors1: seq<int>, cs1: seq<Clause>)
    returns (ghost done: seq<Arrangement>, selectors: seq<int>, cs: seq<Clause>)
    requires vm.Valid() && ValidPlacement(|cells|, blocks, starts)
    requires j < |allColours| && |allColours[j]| == |blocks|
    requires done1 == done0 + WithStarts(starts, blocks, allColours[..j])
    requires LineState(vm.ids, lidx, cells, blocks, done1, selectors1, cs1)
    requires Extends(ids0, vm.ids) && AddsNoCells(ids0, vm.ids)
    modifies vm
    ensures vm.Valid()
    ensures done == done0 + WithStarts(starts, blocks, allColours[..j + 1])
    ensures LineState(vm.ids, lidx, cells, blocks, done, selectors, cs)
    ensures Extends(ids0, vm.ids) && AddsNoCells(ids0, vm.ids)
  {
    var colours := allColours[j];
    WithStartsSnoc(starts, blocks, allColours, j);
    var ok := SameColorSpacingOk(starts, blocks, colours);
    if ok {
      ghost var mid := vm.ids;
      done, selectors, cs := Select(lidx, cells, blocks, Arrangement(starts, colours), vm, done1, selectors1, cs1);
      GrowthTrans(ids0, mid, vm.ids);
    } else {
      done, selectors, cs := done1, selectors1, cs1;
    }
  }

  /** The inner loop of `encode` over the colourings, for the start offsets `starts`. */
  method EncodeStarts(lidx: nat, cells: seq<Coord>, blocks: seq<Block>, starts: seq<nat>,
                      allColours: seq<seq<nat>>, vm: VarManager<Key>,
                      ghost done0: seq<Arrangement>, selectors0: seq<int>, cs0: seq<Clause>)
    returns (ghost done: seq<Arrangement>, selectors: seq<int>, cs: seq<Clause>)
    requires vm.Valid() && ValidPlacement(|cells|, blocks, starts)
    requires forall t :: t in allColours ==> |t| == |blocks|
    requires LineState(vm.ids, lidx, cells, blocks, done0, selectors0, cs0)
    modifies vm
    ensures vm.Valid()
    ensures done == done0 + WithStarts(starts, blocks, allColours)
    ensures LineState(vm.ids, lidx, cells, blocks, done, selectors, cs)
    ensures Extends(old(vm.ids), vm.ids) && AddsNoCells(old(vm.ids), vm.ids)
  {
    ghost var ids0 := vm.ids;
    done, selectors, cs := done0, selectors0, cs0;
    assert allColours[..0] == [];
    for j := 0 to |allColours|
      invariant vm.Valid()
      invariant done == done0 + WithStarts(starts, blocks, allColours[..j])
      invariant LineState(vm.ids, lidx, cells, blocks, done, selectors, cs)
      invariant Extends(ids0, vm.ids) && AddsNoCells(ids0, vm.ids)
    {
      assert allColours[j] in allColours;
      done, selectors, cs := Consider(lidx, cells, blocks, starts, allColours, j, vm, ids0, done0, done, selectors, cs);
    }
    assert allColours[..|allColours|] == allColours;
  }

  /** The outer loop of `encode` over the start offsets of one line. */
  method EncodeAll(lidx: nat, cells: seq<Coord>, blocks: seq<Block>, allStarts: seq<seq<nat>>,
                   allColours: seq<seq<nat>>, vm: VarManager<Key>)
    returns (ghost done: seq<Arrangement>, selectors: seq<int>, cs: seq<Clause>)
    requires vm.Valid()
    requires forall t :: t in allStarts ==> ValidPlacement(|cells|, blocks, t)
    requires forall t :: t in allColours ==> |t| == |blocks|
    modifies vm
    ensures vm.Valid()
    ensures done == Combine(allStarts, allColours, blocks)
    ensures LineState(vm.ids, lidx, cells, blocks, done, selectors, cs)
    ensures Extends(old(vm.ids), vm.ids) && AddsNoCells(old(vm.ids), vm.ids)
  {
    done, selectors, cs := [], [], [];
    for i := 0 to |allStarts|
      invariant vm.Valid()
      invariant done == Combine(allStarts[..i], allColours, blocks)
      invariant LineState(vm.ids, lidx, cells, blocks, done, selectors, cs)
      invariant Extends(old(vm.ids), vm.ids) && AddsNoCells(old(vm.ids), vm.ids)
    {
      CombineSnoc(allStarts, allColours, blocks, i);
      ghost var mid := vm.ids;
      done, selectors, cs := EncodeStarts(lidx, cells, blocks, allStarts[i], allColours, vm, done, selectors, cs);
      GrowthTrans(old(vm.ids), mid, vm.ids);
    }
    assert allStarts[..|allStarts|] == allStarts;
  }

  /** The choice clauses over the selectors `selectors` of line `lidx`. */
  method EmitChoice(lidx: nat, selectors: seq<int>, ghost ids: map<Key, nat>) returns (cs: seq<Clause>)
    requires forall a :: 0 <= a < |selectors| ==> Arr(lidx, a) in ids && selectors[a] == ids[Arr(lidx, a)]
    ensures cs == ResolveAll(ids, Choice(lidx, |selectors|))
    ensures forall c, l :: c in Choice(lidx, |selectors|) && l in c ==> l.key in ids
  {
    if |selectors| == 0 {
      cs := [[]];
    } else {
      cs := ExactlyOneClauses(selectors, ids, Selectors(lidx, |selectors|));
      forall c, l | c in ExactlyOne(Selectors(lidx, |selectors|)) && l in c ensures l.key in ids {
        ExactlyOneKeys(Selectors(lidx, |selectors|), c, l);
      }
    }
  }

  /** The loops of `encode` over the start offsets and the colourings of one line. */
  method EncodeLine(lidx: nat, cells: seq<Coord>, blocks: seq<Block>, ncolors: nat, vm: VarManager<Key>)
    returns (cs: seq<Clause>)
    requires vm.Valid()
    modifies vm
    ensures vm.Valid()
    ensures cs == ResolveAll(vm.ids, LineClauses(lidx, cells, blocks, ncolors))
    ensures OnlyCellsMissing(vm.ids, LineClauses(lidx, cells, blocks, ncolors))
    ensures NegativesRegistered(vm.ids, LineClauses(lidx, cells, blocks, ncolors))
    ensures Extends(old(vm.ids), vm.ids) && AddsNoCells(old(vm.ids), vm.ids)
  {
    var allStarts := Starts(|cells|, blocks);
    var allColours := BlockColours(blocks, ncolors);
    forall t | t in allStarts ensures ValidPlacement(|cells|, blocks, t) {
      StartsMeaning(|cells|, blocks, t);
    }
    forall t | t in allColours ensures |t| == |blocks| {
      BlockColoursMeaning(blocks, ncolors, t);
    }
    ghost var done;
    var selectors, sc;
    done, selectors, sc := EncodeAll(lidx, cells, blocks, allStarts, allColours, vm);
    var eo := EmitChoice(lidx, selectors, vm.ids);
    ghost var kcs := SelectorClauses(lidx, cells, blocks, done);
    ResolveAllAppend(vm.ids, kcs, Choice(lidx, |selectors|));
    OnlyCellsMissingAppend(vm.ids, kcs, Choice(lidx, |selectors|));
    forall c, l | c in kcs + Choice(lidx, |selectors|) && l in c && l.Neg? ensures l.key in vm.ids {
      if c in kcs {
        SelectorClausesKeys(lidx, cells, blocks, done, c, l);
      }
    }
    cs := sc + eo;
  }

  /** `clauses` resolve the key-level `kcs`, whose only unregistered keys are cell keys never negated. */
  ghost predicate Encoded(ids: map<Key, nat>, clauses: seq<Clause>, kcs: seq<KClause<Key>>) {
    clauses == ResolveAll(ids, kcs) && OnlyCellsMissing(ids, kcs) && NegativesRegistered(ids, kcs)
  }

  /** One pass of the loop of `encode` over the lines: parse the clue of line `lidx`, then encode the line. */
  method EncodePuzzleLine(p: Geometry.Puzzle, lidx: nat, vm: VarManager<Key>) returns (r: Result<seq<Clause>, EncodeError>)
    requires lidx < |p.lines| && vm.Valid()
    modifies vm
    ensures vm.Valid() && Extends(old(vm.ids), vm.ids) && AddsNoCells(old(vm.ids), vm.ids)
    ensures r.Err? ==> LinePart(p, lidx) == Err(r.error)
    ensures r.Ok? ==> LinePart(p, lidx).Ok? && Encoded(vm.ids, r.value, LinePart(p, lidx).value)
  {
    var line := p.lines[lidx];
    var parsed := ParseClueLine(line.clue);
    if parsed.Err? {
      return Err(BadClue(parsed.error));
    }
    var cs := EncodeLine(lidx, line.cells, parsed.value, |p.colors|, vm);
    r := Ok(cs);
  }

  /** The loop of `encode` over the lines, after the clauses `clauses0` resolving `kcs0`. */
  method EncodeLines(p: Geometry.Puzzle, vm: VarManager<Key>, clauses0: seq<Clause>, ghost kcs0: seq<KClause<Key>>)
    returns (r: Result<seq<Clause>, EncodeError>, ghost kcs: seq<KClause<Key>>)
    requires vm.Valid() && Encoded(vm.ids, clauses0, kcs0)
    requires CellsComplete(vm.ids, p.cells, |p.colors|, |p.cells|)
    modifies vm
    ensures vm.Valid()
    ensures Run(Parts(p), 0, kcs0) == if r.Ok? then Ok(kcs) else Err(r.error)
    ensures r.Ok? ==> Encoded(vm.ids, r.value, kcs) && CellsComplete(vm.ids, p.cells, |p.colors|, |p.cells|)
  {
    ghost var parts := Parts(p);
    var clauses := clauses0;
    kcs := kcs0;
    for lidx := 0 to |p.lines|
      invariant vm.Valid() && Run(parts, lidx, kcs) == Run(parts, 0, kcs0) && Encoded(vm.ids, clauses, kcs)
      invariant CellsComplete(vm.ids, p.cells, |p.colors|, |p.cells|)
    {
      ghost var before := vm.ids;
      var more := EncodePuzzleLine(p, lidx, vm);
      RunAt(parts, lidx, kcs);
      assert parts[lidx] == LinePart(p, lidx);
      if more.Err? {
        return Err(more.error), kcs;
      }
      ghost var lc := parts[lidx].value;
      ResolveAfterGrowth(before, vm.ids, kcs);
      ResolveAllAppend(vm.ids, kcs, lc);
      OnlyCellsMissingAppend(vm.ids, kcs, lc);
      NegativesAppend(before, vm.ids, kcs, lc);
      kcs := kcs + lc;
      clauses := clauses + more.value;
    }
    r := Ok(clauses);
  }

  /** `encode(puzzle, vm)` with a fresh registry, as `solvers/run.py` calls it. */
  method Encode(p: Geometry.Puzzle, vm: VarManager<Key>) returns (r: Result<seq<Clause>, EncodeError>)
    requires vm.Valid() && vm.order == []
    modifies vm
    ensures vm.Valid()
    ensures match Spec(p)
            case Ok(kcs) =>
              && r == Ok(ResolveAll(vm.ids, kcs))
              && (forall m :: Satisfies(m, r.value) <==> Models(Decode(m, vm.ids), kcs))
              && Transferable(vm.ids, p.cells, |p.colors|, kcs)
            case Err(e) => r == Err(e)
  {
    var clauses := EncodeCells(p.cells, |p.colors|, vm);
    ghost var kcs;
    r, kcs := EncodeLines(p, vm, clauses, CellClauses(p.cells, |p.colors|));
    if r.Ok? {
      vm.IdsInjectiveAndDense();
      forall m ensures Satisfies(m, r.value) <==> Models(Decode(m, vm.ids), kcs) {
        SatisfiesIffModels(m, vm.ids, kcs);
      }
    }
  }

  // ---------------------------------------------------------------------------------------------
  // What the instance means

  /** The line shows the painting of the arrangement `x`. */
  ghost predicate Displays(a: set<Key>, cells: seq<Coord>, blocks: seq<Block>, x: Arrangement) {
    |x.starts| == |blocks| && |x.colours| == |blocks| && Shows(a, cells, Painted(|cells|, blocks, x))
  }

  /** A selector's implications hold exactly when the selector is false or its painting is shown. */
  lemma ImplicationsMeaning(a: set<Key>, sel: Key, cells: seq<Coord>, painted: seq<nat>)
    requires |painted| == |cells|
    ensures Models(a, Implications(sel, cells, painted)) <==> (sel in a ==> Shows(a, cells, painted))
  {
    var cs := Implications(sel, cells, painted);
    if Models(a, cs) && sel in a {
      forall p | 0 <= p < |cells| ensures Cell(cells[p], painted[p]) in a {
        assert cs[p] in cs;
        var l :| l in cs[p] && LitHolds(a, l);
      }
    }
    if sel in a ==> Shows(a, cells, painted) {
      forall c | c in cs ensures ClauseHolds(a, c) {
        var p :| 0 <= p < |cs| && cs[p] == c;
        if sel in a {
          assert LitHolds(a, c[1]);
        } else {
          assert LitHolds(a, c[0]);
        }
      }
    }
  }

  /** The implications of a line hold exactly when every true selector's arrangement is shown. */
  lemma {:induction false} SelectorClausesMeaning(a: set<Key>, lidx: nat, cells: seq<Coord>, blocks: seq<Block>,
                                                  arrs: seq<Arrangement>)
    requires forall x :: x in arrs ==> |x.starts| == |blocks| && |x.colours| == |blocks|
    ensures Models(a, SelectorClauses(lidx, cells, blocks, arrs)) <==> ShowsSelected(a, lidx, cells, blocks, arrs)
  {
    if arrs != [] {
      var pre := arrs[..|arrs| - 1];
      var last := arrs[|arrs| - 1];
      SelectorClausesMeaning(a, lidx, cells, blocks, pre);
      ImplicationsMeaning(a, Arr(lidx, |arrs| - 1), cells, Painted(|cells|, blocks, last));
      ModelsAppend(a, SelectorClauses(lidx, cells, blocks, pre),
                   Implications(Arr(lidx, |arrs| - 1), cells, Painted(|cells|, blocks, last)));
      ShowsSelectedSnoc(a, lidx, cells, blocks, arrs);
    }
  }

  /** Every true selector among `arrs` has its arrangement's painting shown. */
  ghost predicate ShowsSelected(a: set<Key>, lidx: nat, cells: seq<Coord>, blocks: seq<Block>, arrs: seq<Arrangement>)
    requires forall x :: x in arrs ==> |x.starts| == |blocks| && |x.colours| == |blocks|
  {
    forall k :: 0 <= k < |arrs| && Arr(lidx, k) in a ==> Shows(a, cells, Painted(|cells|, blocks, arrs[k]))
  }

  lemma ShowsSelectedSnoc(a: set<Key>, lidx: nat, cells: seq<Coord>, blocks: seq<Block>, arrs: seq<Arrangement>)
    requires arrs != [] && forall x :: x in arrs ==> |x.starts| == |blocks| && |x.colours| == |blocks|
    ensures ShowsSelected(a, lidx, cells, blocks, arrs) <==>
            && ShowsSelected(a, lidx, cells, blocks, arrs[..|arrs| - 1])
            && (Arr(lidx, |arrs| - 1) in a ==> Shows(a, cells, Painted(|cells|, blocks, arrs[|arrs| - 1])))
  {
    var pre := arrs[..|arrs| - 1];
    assert forall k :: 0 <= k < |pre| ==> pre[k] == arrs[k];
  }

  /** Exactly one of the first `m` selectors of the line is true. */
  ghost predicate OneSelector(a: set<Key>, lidx: nat, m: nat) {
    (exists k :: 0 <= k < m && Arr(lidx, k) in a) &&
    (forall k, k' :: 0 <= k < k' < m && Arr(lidx, k) in a ==> Arr(lidx, k') !in a)
  }

  /** The choice clauses hold exactly when the line has arrangements and exactly one is selected. */
  lemma ChoiceMeaning(a: set<Key>, lidx: nat, m: nat)
    ensures Models(a, Choice(lidx, m)) <==> m > 0 && OneSelector(a, lidx, m)
  {
    if m == 0 {
      EmptyClauseUnsat(a, Choice(lidx, m));
    } else {
      var ks := Selectors(lidx, m);
      ExactlyOneMeaning(a, ks);
      if exists k :: 0 <= k < m && Arr(lidx, k) in a {
        var k :| 0 <= k < m && Arr(lidx, k) in a;
        assert ks[k] in a;
      }
    }
  }

  /** A model of a line's clauses selects exactly one of its arrangements and shows its painting. */
  lemma LineClausesMeaning(a: set<Key>, lidx: nat, cells: seq<Coord>, blocks: seq<Block>, ncolors: nat)
    ensures var arrs := LineArrangements(|cells|, blocks, ncolors);
            Models(a, LineClauses(lidx, cells, blocks, ncolors)) <==>
            |arrs| > 0 && OneSelector(a, lidx, |arrs|) &&
            forall k :: 0 <= k < |arrs| && Arr(lidx, k) in a ==> Displays(a, cells, blocks, arrs[k])
  {
    var arrs := LineArrangements(|cells|, blocks, ncolors);
    ArrangementsShapes(|cells|, blocks, ncolors);
    SelectorClausesMeaning(a, lidx, cells, blocks, arrs);
    ChoiceMeaning(a, lidx, |arrs|);
    ModelsAppend(a, SelectorClauses(lidx, cells, blocks, arrs), Choice(lidx, |arrs|));
  }

  /**
   * Soundness of a line: every model of its clauses shows the painting of an admissible
   * arrangement on the line's cells.
   */
  lemma LineSound(a: set<Key>, lidx: nat, cells: seq<Coord>, blocks: seq<Block>, ncolors: nat)
    requires Models(a, LineClauses(lidx, cells, blocks, ncolors))
    ensures exists x :: Admissible(|cells|, blocks, ncolors, x) && Displays(a, cells, blocks, x)
  {
    var arrs := LineArrangements(|cells|, blocks, ncolors);
    LineClausesMeaning(a, lidx, cells, blocks, ncolors);
    var k :| 0 <= k < |arrs| && Arr(lidx, k) in a;
    ArrangementsShape(|cells|, blocks, ncolors, k);
    assert Displays(a, cells, blocks, arrs[k]);
  }

  /** A line without any admissible arrangement makes the instance unsatisfiable. */
  lemma NoArrangementUnsat(a: set<Key>, lidx: nat, cells: seq<Coord>, blocks: seq<Block>, ncolors: nat)
    requires forall x :: !Admissible(|cells|, blocks, ncolors, x)
    ensures !Models(a, LineClauses(lidx, cells, blocks, ncolors))
  {
    if Models(a, LineClauses(lidx, cells, blocks, ncolors)) {
      LineSound(a, lidx, cells, blocks, ncolors);
    }
  }

  /** The selectors of line `lidx` in `a` replaced by the single selector `k`. */
  ghost function Select1(a: set<Key>, lidx: nat, k: nat): (a': set<Key>)
    ensures forall key: Key :: !(key.Arr? && key.line == lidx) ==> (key in a' <==> key in a)
    ensures forall j :: Arr(lidx, j) in a' <==> j == k
  {
    (set key | key in a && !(key.Arr? && key.line == lidx)) + {Arr(lidx, k)}
  }

  /**
   * Completeness of a line: an assignment that shows the painting of an admissible arrangement
   * becomes a model of the line's clauses once that arrangement's selector, and no other of the
   * line, is made true.
   */
  lemma LineComplete(a: set<Key>, lidx: nat, cells: seq<Coord>, blocks: seq<Block>, ncolors: nat, x: Arrangement)
    requires Admissible(|cells|, blocks, ncolors, x) && Displays(a, cells, blocks, x)
    ensures exists k :: 0 <= k < |LineArrangements(|cells|, blocks, ncolors)| &&
                        LineArrangements(|cells|, blocks, ncolors)[k] == x &&
                        Models(Select1(a, lidx, k), LineClauses(lidx, cells, blocks, ncolors))
  {
    var arrs := LineArrangements(|cells|, blocks, ncolors);
    ArrangementsMeaning(|cells|, blocks, ncolors, x);
    var k :| 0 <= k < |arrs| && arrs[k] == x;
    var a' := Select1(a, lidx, k);
    assert Shows(a', cells, Painted(|cells|, blocks, x)) by {
      forall p | 0 <= p < |cells| ensures Cell(cells[p], Painted(|cells|, blocks, x)[p]) in a' {
        assert Cell(cells[p], Painted(|cells|, blocks, x)[p]) in a;
      }
    }
    assert Arr(lidx, k) in a';
    LineClausesMeaning(a', lidx, cells, blocks, ncolors);
  }

  /** With an empty clue the only arrangement places no block, and every cell is background. */
  lemma EmptyClueBackground(a: set<Key>, lidx: nat, cells: seq<Coord>, ncolors: nat)
    requires Models(a, LineClauses(lidx, cells, [], ncolors))
    ensures forall p :: 0 <= p < |cells| ==> Cell(cells[p], 0) in a
  {
    LineSound(a, lidx, cells, [], ncolors);
    var x :| Admissible(|cells|, [], ncolors, x) && Displays(a, cells, [], x);
    forall p | 0 <= p < |cells| ensures Cell(cells[p], 0) in a {
      PaintedMeaning(|cells|, [], x, p);
    }
  }

  // ---------------------------------------------------------------------------------------------
  // The whole instance

  /** Every key a line's clauses mention is a cell colour or one of that line's selectors. */
  lemma LineClausesKeys(lidx: nat, cells: seq<Coord>, blocks: seq<Block>, ncolors: nat, c: KClause<Key>, l: Lit<Key>)
    requires c in LineClauses(lidx, cells, blocks, ncolors) && l in c
    ensures l.key.Cell? || (l.key.Arr? && l.key.line == lidx)
  {
    var arrs := LineArrangements(|cells|, blocks, ncolors);
    ArrangementsShapes(|cells|, blocks, ncolors);
    if c in SelectorClauses(lidx, cells, blocks, arrs) {
      SelectorClausesKeys(lidx, cells, blocks, arrs, c, l);
    } else if |arrs| > 0 {
      ExactlyOneKeys(Selectors(lidx, |arrs|), c, l);
    }
  }

  /** Every clue of the lines from `k` on parses and its line shows an admissible arrangement. */
  ghost predicate LinesShown(p: Geometry.Puzzle, a: set<Key>, k: nat) {
    forall l :: k <= l < |p.lines| ==> LineShown(p, a, l)
  }

  /** The clue of line `l` parses and the line shows an admissible arrangement of it. */
  ghost predicate LineShown(p: Geometry.Puzzle, a: set<Key>, l: nat)
    requires l < |p.lines|
  {
    ParseClue(p.lines[l].clue).Ok? &&
    exists x :: Admissible(|p.lines[l].cells|, ParseClue(p.lines[l].clue).value, |p.colors|, x) &&
                Displays(a, p.lines[l].cells, ParseClue(p.lines[l].clue).value, x)
  }

  /** Whether a line is shown depends only on the cell keys. */
  lemma LineShownCells(p: Geometry.Puzzle, a: set<Key>, a': set<Key>, l: nat)
    requires l < |p.lines| && LineShown(p, a, l)
    requires forall key: Key :: key.Cell? ==> (key in a <==> key in a')
    ensures LineShown(p, a', l)
  {
    var blocks := ParseClue(p.lines[l].clue).value;
    var cells := p.lines[l].cells;
    var x :| Admissible(|cells|, blocks, |p.colors|, x) && Displays(a, cells, blocks, x);
    assert Displays(a', cells, blocks, x) by {
      forall q | 0 <= q < |cells| ensures Cell(cells[q], Painted(|cells|, blocks, x)[q]) in a' {
        assert Cell(cells[q], Painted(|cells|, blocks, x)[q]) in a;
      }
    }
  }

  /** What an instance says about the lines from `k` on depends only on the cell keys. */
  lemma LinesShownCells(p: Geometry.Puzzle, a: set<Key>, a': set<Key>, k: nat)
    requires LinesShown(p, a, k)
    requires forall key: Key :: key.Cell? ==> (key in a <==> key in a')
    ensures LinesShown(p, a', k)
  {
    forall l | k <= l < |p.lines| ensures LineShown(p, a', l) {
      LineShownCells(p, a, a', l);
    }
  }

  /** `LinesShown`, taken one line at a time: the form the completeness induction walks along. */
  ghost predicate ShownFrom(p: Geometry.Puzzle, a: set<Key>, k: nat)
    decreases |p.lines| - k
  {
    k >= |p.lines| || (LineShown(p, a, k) && ShownFrom(p, a, k + 1))
  }

  lemma {:induction false} ShownFromAll(p: Geometry.Puzzle, a: set<Key>, k: nat)
    requires LinesShown(p, a, k)
    ensures ShownFrom(p, a, k)
    decreases |p.lines| - k
  {
    if k < |p.lines| {
      ShownFromAll(p, a, k + 1);
    }
  }

  lemma {:induction false} ShownFromCells(p: Geometry.Puzzle, a: set<Key>, a': set<Key>, k: nat)
    requires ShownFrom(p, a, k)
    requires forall key: Key :: key.Cell? ==> (key in a <==> key in a')
    ensures ShownFrom(p, a', k)
    decreases |p.lines| - k
  {
    if k < |p.lines| {
      LineShownCells(p, a, a', k);
      ShownFromCells(p, a, a', k + 1);
    }
  }

  /** What line `l` contributes, in terms of its clue. */
  lemma LinePartMeaning(p: Geometry.Puzzle, l: nat)
    requires l < |p.lines|
    ensures Parts(p)[l].Ok? <==> ParseClue(p.lines[l].clue).Ok?
    ensures Parts(p)[l].Ok? ==>
              Parts(p)[l].value == LineClauses(l, p.lines[l].cells, ParseClue(p.lines[l].clue).value, |p.colors|)
    ensures Parts(p)[l].Err? ==> Parts(p)[l].error == BadClue(ParseClue(p.lines[l].clue).error)
  {
  }

  /**
   * `encode` raises exactly when some clue is rejected, and then the error of the first rejected
   * clue.
   */
  lemma SpecFails(p: Geometry.Puzzle)
    ensures Spec(p).Err? <==> exists l :: 0 <= l < |p.lines| && ParseClue(p.lines[l].clue).Err?
    ensures Spec(p).Err? ==>
              exists l :: 0 <= l < |p.lines| && ParseClue(p.lines[l].clue).Err? &&
                          Spec(p).error == BadClue(ParseClue(p.lines[l].clue).error) &&
                          forall l' :: 0 <= l' < l ==> ParseClue(p.lines[l'].clue).Ok?
  {
    var parts := Parts(p);
    RunFails(parts, 0, CellClauses(p.cells, |p.colors|));
    forall l | 0 <= l < |p.lines| ensures parts[l].Err? <==> ParseClue(p.lines[l].clue).Err? {
      LinePartMeaning(p, l);
    }
    if Spec(p).Err? {
      var l :| 0 <= l < |parts| && parts[l] == Spec(p) && forall l' :: 0 <= l' < l ==> parts[l'].Ok?;
      LinePartMeaning(p, l);
    }
  }

  /**
   * Soundness of approach 1: in every model of the instance each cell has exactly one palette
   * colour and every line shows the painting of an admissible arrangement of its clue.
   */
  lemma SpecSound(p: Geometry.Puzzle, a: set<Key>)
    requires Spec(p).Ok? && Models(a, Spec(p).value)
    ensures forall i :: 0 <= i < |p.cells| ==> OneColour(a, p.cells[i], |p.colors|)
    ensures LinesShown(p, a, 0)
  {
    var kcs := Spec(p).value;
    var cc := CellClauses(p.cells, |p.colors|);
    RunKeeps(Parts(p), 0, cc, kcs);
    ModelsSubset(a, kcs, cc);
    CellClausesMeaning(a, p.cells, |p.colors|);
    forall l | 0 <= l < |p.lines| ensures LineShown(p, a, l) {
      LinePartMeaning(p, l);
      var blocks := ParseClue(p.lines[l].clue).value;
      var lc := LineClauses(l, p.lines[l].cells, blocks, |p.colors|);
      ModelsSubset(a, kcs, lc);
      LineSound(a, l, p.lines[l].cells, blocks, |p.colors|);
    }
  }

  /**
   * Where the completeness argument stands before line `k`: the clauses `cs` of the earlier lines
   * hold under `a`, mention only cell keys and selectors of those lines, and every line from `k`
   * on shows an admissible arrangement.
   */
  ghost predicate ReadyAt(p: Geometry.Puzzle, k: nat, cs: seq<KClause<Key>>, a: set<Key>) {
    k <= |p.lines| && Models(a, cs) && ShownFrom(p, a, k) &&
    forall c, l :: c in cs && l in c ==> l.key.Cell? || (l.key.Arr? && l.key.line < k)
  }

  /** One step of the completeness argument: line `k` is satisfied by selecting one arrangement. */
  lemma LineExtends(p: Geometry.Puzzle, k: nat, cs: seq<KClause<Key>>, a: set<Key>)
    returns (a1: set<Key>, lc: seq<KClause<Key>>)
    requires k < |p.lines| && ReadyAt(p, k, cs, a)
    ensures Parts(p)[k] == Ok(lc) && ReadyAt(p, k + 1, cs + lc, a1)
    ensures forall key: Key :: !(key.Arr? && key.line >= k) ==> (key in a1 <==> key in a)
  {
    var cells := p.lines[k].cells;
    assert LineShown(p, a, k);
    var blocks := ParseClue(p.lines[k].clue).value;
    lc := LineClauses(k, cells, blocks, |p.colors|);
    LinePartMeaning(p, k);
    var x :| Admissible(|cells|, blocks, |p.colors|, x) && Displays(a, cells, blocks, x);
    LineComplete(a, k, cells, blocks, |p.colors|, x);
    var j :| 0 <= j < |LineArrangements(|cells|, blocks, |p.colors|)| &&
             Models(Select1(a, k, j), lc);
    a1 := Select1(a, k, j);
    ModelsAgree(a, a1, cs);
    ModelsAppend(a1, cs, lc);
    forall c, l | c in cs + lc && l in c ensures l.key.Cell? || (l.key.Arr? && l.key.line < k + 1) {
      if c in lc {
        LineClausesKeys(k, cells, blocks, |p.colors|, c, l);
      }
    }
    ShownFromCells(p, a, a1, k + 1);
  }

  /** The completeness argument over the lines from `k` on, the earlier ones already satisfied. */
  lemma {:induction false} RunComplete(p: Geometry.Puzzle, k: nat, cs: seq<KClause<Key>>, a: set<Key>)
    returns (a': set<Key>)
    requires ReadyAt(p, k, cs, a)
    ensures Run(Parts(p), k, cs).Ok? && Models(a', Run(Parts(p), k, cs).value)
    ensures forall key: Key :: !(key.Arr? && key.line >= k) ==> (key in a' <==> key in a)
    decreases |p.lines| - k
  {
    var parts := Parts(p);
    if k == |p.lines| {
      assert Run(parts, k, cs) == Ok(cs);
      a' := a;
    } else {
      var a1, lc := LineExtends(p, k, cs, a);
      a' := RunComplete(p, k + 1, cs + lc, a1);
      RunOkModels(parts, k, cs, lc, a');
    }
  }

  /**
   * Completeness of approach 1: a colouring with one palette colour per cell under which every
   * line shows an admissible arrangement of its clue extends, by choosing one selector per line,
   * to a model of the instance with the same cell colours.
   */
  lemma SpecComplete(p: Geometry.Puzzle, a: set<Key>) returns (a': set<Key>)
    requires forall i :: 0 <= i < |p.cells| ==> OneColour(a, p.cells[i], |p.colors|)
    requires LinesShown(p, a, 0)
    ensures Spec(p).Ok?
    ensures Models(a', Spec(p).value) && forall key: Key :: key.Cell? ==> (key in a' <==> key in a)
  {
    var cc := CellClauses(p.cells, |p.colors|);
    CellClausesMeaning(a, p.cells, |p.colors|);
    forall c, l | c in cc && l in c ensures l.key.Cell? || (l.key.Arr? && l.key.line < 0) {
      CellClausesKeys(p.cells, |p.colors|, c, l);
    }
    ShownFromAll(p, a, 0);
    a' := RunComplete(p, 0, cc, a);
  }

  /**
   * Completeness for the instance the solver sees: when the true cell keys are palette colours of
   * puzzle cells, the colouring gives an integer model of the clauses `Encode` returns, with the
   * same true cell variables.
   */
  lemma IntegerComplete(p: Geometry.Puzzle, ids: map<Key, nat>, a: set<Key>) returns (m: set<int>)
    requires Spec(p).Ok? ==> Transferable(ids, p.cells, |p.colors|, Spec(p).value)
    requires forall i :: 0 <= i < |p.cells| ==> OneColour(a, p.cells[i], |p.colors|)
    requires LinesShown(p, a, 0) && PaletteKeys(a, p.cells, |p.colors|)
    ensures Spec(p).Ok? && Satisfies(m, ResolveAll(ids, Spec(p).value))
    ensures forall k :: k in ids && k.Cell? ==> (ids[k] in m <==> k in a)
  {
    var a' := SpecComplete(p, a);
    m := IntegerModel(ids, p.cells, |p.colors|, Spec(p).value, a');
  }
}
