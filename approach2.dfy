/**
 * Approach 2 (`solvers/approach2.py`): every block of a line gets one variable per start offset and
 * one per foreground colour; exactly one offset and one colour hold, a started block paints its
 * cells, consecutive blocks keep their order and spacing, and a cell is background exactly when no
 * block start covers it.
 */
module Approach2 {
  import opened Wrappers
  import opened Seqs
  import opened Keys
  import opened Cnf
  import opened VarMap
  import opened Clue
  import opened Encoding
  import Geometry

  // ---------------------------------------------------------------------------------------------
  // The clauses of one line, at key level

  /** `len(range(1, ncolors))`: the foreground colours, palette index 0 being the background. */
  function Foregrounds(ncolors: nat): nat {
    if ncolors == 0 then 0 else ncolors - 1
  }

  /** `L - sz + 1`: how many offsets a block of size `size` can start at. */
  function Room(length: nat, size: nat): nat
    requires size <= length
  {
    length - size + 1
  }

  /** No block is longer than the line. */
  predicate Fits(length: nat, blocks: seq<Block>) {
    forall b :: 0 <= b < |blocks| ==> blocks[b].size <= length
  }

  /** `b_starts[b]`: the start variables of block `b`, offset by offset. */
  function StartKeys(lidx: nat, b: nat, n: nat): (ks: seq<Key>)
    ensures |ks| == n && forall p :: 0 <= p < n ==> ks[p] == Start(lidx, b, p)
  {
    seq(n, p requires 0 <= p < n => Start(lidx, b, p))
  }

  /** `b_cols[b]`: the colour variables of block `b`; entry `i` stands for palette index `i + 1`. */
  function ColourKeys(lidx: nat, b: nat, ncolors: nat): (ks: seq<Key>)
    ensures |ks| == Foregrounds(ncolors) && forall i :: 0 <= i < |ks| ==> ks[i] == BCol(lidx, b, i + 1)
  {
    seq(Foregrounds(ncolors), i requires 0 <= i < Foregrounds(ncolors) => BCol(lidx, b, i + 1))
  }

  /**
   * The colour of block `b`: at least one colour for a wildcard, the unit clause `[b_cols[b][f]]`
   * for a fixed colour `f`, then the pairwise exclusions when there are at least two colours.
   */
  function ColourClauses(lidx: nat, b: nat, blk: Block, ncolors: nat): seq<KClause<Key>> {
    var cols := ColourKeys(lidx, b, ncolors);
    (match blk.colour
     case None => [AtLeastOne(cols)]
     case Some(f) => [[Pos(BCol(lidx, b, f + 1))]])
    + (if |cols| > 1 then PairsBefore(cols, |cols|) else [])
  }

  /** Exactly one start offset, then the colour of block `b`. */
  function BlockClauses(lidx: nat, b: nat, blk: Block, length: nat, ncolors: nat): seq<KClause<Key>>
    requires blk.size <= length
  {
    ExactlyOne(StartKeys(lidx, b, Room(length, blk.size))) + ColourClauses(lidx, b, blk, ncolors)
  }

  /** Step 2b: the choice of offset and colour of every block. */
  function Selection(lidx: nat, blocks: seq<Block>, length: nat, ncolors: nat): seq<KClause<Key>>
    requires Fits(length, blocks)
  {
    Flat(seq(|blocks|, b requires 0 <= b < |blocks| => BlockClauses(lidx, b, blocks[b], length, ncolors)))
  }

  /** Block `b` started at `p` with colour `c` paints the cell `coord` with `c`. */
  function ForwardClause(lidx: nat, b: nat, p: nat, coord: Coord, c: nat): KClause<Key> {
    [Neg(Start(lidx, b, p)), Neg(BCol(lidx, b, c)), Pos(Cell(coord, c))]
  }

  function ForwardCell(lidx: nat, b: nat, p: nat, coord: Coord, ncolors: nat): (cs: seq<KClause<Key>>)
    ensures |cs| == Foregrounds(ncolors) &&
            forall i :: 0 <= i < |cs| ==> cs[i] == ForwardClause(lidx, b, p, coord, i + 1)
  {
    seq(Foregrounds(ncolors), i requires 0 <= i < Foregrounds(ncolors) => ForwardClause(lidx, b, p, coord, i + 1))
  }

  /** The cells `p .. p + size - 1` a block started at `p` covers. */
  function ForwardStart(lidx: nat, b: nat, p: nat, cells: seq<Coord>, size: nat, ncolors: nat): seq<KClause<Key>>
    requires p + size <= |cells|
  {
    Flat(seq(size, i requires 0 <= i < size => ForwardCell(lidx, b, p, cells[p + i], ncolors)))
  }

  function ForwardBlock(lidx: nat, b: nat, cells: seq<Coord>, size: nat, ncolors: nat): seq<KClause<Key>>
    requires size <= |cells|
  {
    Flat(seq(Room(|cells|, size), p requires 0 <= p < Room(|cells|, size) => ForwardStart(lidx, b, p, cells, size, ncolors)))
  }

  /** Step 2c: the forward constraint of every block, offset, covered cell and colour. */
  function Forward(lidx: nat, cells: seq<Coord>, blocks: seq<Block>, ncolors: nat): seq<KClause<Key>>
    requires Fits(|cells|, blocks)
  {
    Flat(seq(|blocks|, b requires 0 <= b < |blocks| => ForwardBlock(lidx, b, cells, blocks[b].size, ncolors)))
  }

  /** Blocks `b` and `b + 1` touching at `p` and `q` must not share the colour `c`. */
  function TouchClause(lidx: nat, b: nat, p: nat, q: nat, c: nat): KClause<Key> {
    [Neg(Start(lidx, b, p)), Neg(Start(lidx, b + 1, q)), Neg(BCol(lidx, b, c)), Neg(BCol(lidx, b + 1, c))]
  }

  function Touch(lidx: nat, b: nat, p: nat, q: nat, ncolors: nat): (cs: seq<KClause<Key>>)
    ensures |cs| == Foregrounds(ncolors) && forall i :: 0 <= i < |cs| ==> cs[i] == TouchClause(lidx, b, p, q, i + 1)
  {
    seq(Foregrounds(ncolors), i requires 0 <= i < Foregrounds(ncolors) => TouchClause(lidx, b, p, q, i + 1))
  }

  /**
   * Block `b` (of size `size`) at `p` against block `b + 1` at `q`: forbidden when `q` overlaps it,
   * forbidden with a shared colour when `q` touches it, free otherwise.
   */
  function SpacingPair(lidx: nat, b: nat, p: nat, q: nat, size: nat, ncolors: nat): seq<KClause<Key>> {
    if q < p + size then [[Neg(Start(lidx, b, p)), Neg(Start(lidx, b + 1, q))]]
    else if q == p + size then Touch(lidx, b, p, q, ncolors)
    else []
  }

  function SpacingStart(lidx: nat, b: nat, p: nat, size: nat, next: nat, ncolors: nat): seq<KClause<Key>> {
    Flat(seq(next, q requires 0 <= q < next => SpacingPair(lidx, b, p, q, size, ncolors)))
  }

  function SpacingBlock(lidx: nat, b: nat, blocks: seq<Block>, length: nat, ncolors: nat): seq<KClause<Key>>
    requires b + 1 < |blocks| && Fits(length, blocks)
  {
    var size := blocks[b].size;
    Flat(seq(Room(length, size), p requires 0 <= p < Room(length, size) =>
               SpacingStart(lidx, b, p, size, Room(length, blocks[b + 1].size), ncolors)))
  }

  /** `range(K - 1)`. */
  function Pairs(k: nat): nat {
    if k == 0 then 0 else k - 1
  }

  /** Step 2d: the ordering and spacing constraint of every pair of consecutive blocks. */
  function Spacing(lidx: nat, blocks: seq<Block>, length: nat, ncolors: nat): seq<KClause<Key>>
    requires Fits(length, blocks)
  {
    Flat(seq(Pairs(|blocks|), b requires 0 <= b < Pairs(|blocks|) => SpacingBlock(lidx, b, blocks, length, ncolors)))
  }

  /** `max(0, pos - sz + 1)`: the first offset a block of size `size` covering `pos` can start at. */
  function CoverFrom(size: nat, pos: nat): nat {
    if pos + 1 >= size then pos + 1 - size else 0
  }

  /** `min(pos + 1, n)`: one past the last such offset among the `n` a block has. */
  function CoverTo(n: nat, pos: nat): nat {
    if pos + 1 <= n then pos + 1 else n
  }

  /** The start variables of block `b` that cover cell `pos`, in offset order. */
  function CoverStarts(lidx: nat, b: nat, size: nat, n: nat, pos: nat): (ks: seq<Key>)
    ensures |ks| == (if CoverFrom(size, pos) < CoverTo(n, pos) then CoverTo(n, pos) - CoverFrom(size, pos) else 0)
    ensures forall i :: 0 <= i < |ks| ==> ks[i] == Start(lidx, b, CoverFrom(size, pos) + i)
  {
    var lo, hi := CoverFrom(size, pos), CoverTo(n, pos);
    seq(if lo < hi then hi - lo else 0, i requires 0 <= i < (if lo < hi then hi - lo else 0) => Start(lidx, b, lo + i))
  }

  /** `starts_that_cover_pos`: the covering start variables of every block, in block order. */
  function Cover(lidx: nat, blocks: seq<Block>, length: nat, pos: nat): seq<Key>
    requires Fits(length, blocks)
  {
    CoverUpto(lidx, blocks, length, pos, |blocks|)
  }

  /** Some start of one of the first `k` blocks covers cell `pos`. */
  predicate CoveredUpto(blocks: seq<Block>, length: nat, pos: nat, k: nat)
    requires Fits(length, blocks) && k <= |blocks|
  {
    k > 0 &&
    (CoverFrom(blocks[k - 1].size, pos) < CoverTo(Room(length, blocks[k - 1].size), pos) ||
     CoveredUpto(blocks, length, pos, k - 1))
  }

  /** Some start covers cell `pos`. */
  predicate Covered(blocks: seq<Block>, length: nat, pos: nat)
    requires Fits(length, blocks)
  {
    CoveredUpto(blocks, length, pos, |blocks|)
  }

  /** The covering starts of the first `k` blocks. */
  function CoverUpto(lidx: nat, blocks: seq<Block>, length: nat, pos: nat, k: nat): seq<Key>
    requires Fits(length, blocks) && k <= |blocks|
  {
    if k == 0 then []
    else CoverUpto(lidx, blocks, length, pos, k - 1) +
         CoverStarts(lidx, k - 1, blocks[k - 1].size, Room(length, blocks[k - 1].size), pos)
  }

  function Exclusions(coord: Coord, cover: seq<Key>): (cs: seq<KClause<Key>>)
    ensures |cs| == |cover| && forall i :: 0 <= i < |cs| ==> cs[i] == [Neg(Cell(coord, 0)), Neg(cover[i])]
  {
    seq(|cover|, i requires 0 <= i < |cover| => [Neg(Cell(coord, 0)), Neg(cover[i])])
  }

  /** A covering start excludes the background, and the background or some covering start holds. */
  function BackgroundCell(coord: Coord, cover: seq<Key>): seq<KClause<Key>> {
    Exclusions(coord, cover) + [[Pos(Cell(coord, 0))] + AtLeastOne(cover)]
  }

  /** The background constraints of the cells of the line, cell by cell. */
  function BackgroundCells(lidx: nat, cells: seq<Coord>, blocks: seq<Block>): (css: seq<seq<KClause<Key>>>)
    requires Fits(|cells|, blocks)
    ensures |css| == |cells| &&
            forall pos :: 0 <= pos < |cells| ==> css[pos] == BackgroundCell(cells[pos], Cover(lidx, blocks, |cells|, pos))
  {
    seq(|cells|, pos requires 0 <= pos < |cells| => BackgroundCell(cells[pos], Cover(lidx, blocks, |cells|, pos)))
  }

  /** Step 2e: the background constraint of every cell of the line. */
  function Background(lidx: nat, cells: seq<Coord>, blocks: seq<Block>): seq<KClause<Key>>
    requires Fits(|cells|, blocks)
  {
    Flat(BackgroundCells(lidx, cells, blocks))
  }

  /** Steps 2b to 2e, for a line whose blocks all fit. */
  function LineClauses(lidx: nat, cells: seq<Coord>, blocks: seq<Block>, ncolors: nat): seq<KClause<Key>>
    requires Fits(|cells|, blocks)
  {
    Selection(lidx, blocks, |cells|, ncolors) + Forward(lidx, cells, blocks, ncolors) +
    Spacing(lidx, blocks, |cells|, ncolors) + Background(lidx, cells, blocks)
  }

  /** A line without blocks: the unit clause `[vm.get(('cell', coord, 0))]` for every cell. */
  function Units(cells: seq<Coord>): (cs: seq<KClause<Key>>)
    ensures |cs| == |cells| && forall pos :: 0 <= pos < |cells| ==> cs[pos] == [Pos(Cell(cells[pos], 0))]
  {
    seq(|cells|, pos requires 0 <= pos < |cells| => [Pos(Cell(cells[pos], 0))])
  }

  // ---------------------------------------------------------------------------------------------
  // What a line raises, and what it appends

  /** The first block from `b` on whose fixed colour indexes past `b_cols[b]` (`IndexError`). */
  function PaletteFrom(lidx: nat, blocks: seq<Block>, ncolors: nat, b: nat): Option<EncodeError>
    decreases |blocks| - b
  {
    if b >= |blocks| then None
    else if blocks[b].colour.Some? && blocks[b].colour.value >= Foregrounds(ncolors) then Some(PaletteIndex(lidx, b))
    else PaletteFrom(lidx, blocks, ncolors, b + 1)
  }

  /**
   * What steps 2b to 2e raise: the palette error of step 2b first; then `-bg_var` with `bg_var` being
   * `None` (the cell has no background variable) at a cell some start covers.
   */
  function LineError(lidx: nat, cells: seq<Coord>, pcells: seq<Coord>, blocks: seq<Block>, ncolors: nat)
    : Option<EncodeError>
    requires Fits(|cells|, blocks)
  {
    match PaletteFrom(lidx, blocks, ncolors, 0)
    case Some(e) => Some(e)
    case None =>
      if Exposed(lidx, cells, pcells, blocks, ncolors) then Some(NoneOperand(lidx)) else None
  }

  /**
   * Some cell of the line that some start covers has no background variable: it is not one of
   * the puzzle's cells, or the palette is empty.
   */
  predicate Exposed(lidx: nat, cells: seq<Coord>, pcells: seq<Coord>, blocks: seq<Block>, ncolors: nat)
    requires Fits(|cells|, blocks)
  {
    exists pos :: 0 <= pos < |cells| && (cells[pos] !in pcells || ncolors == 0) && Covered(blocks, |cells|, pos)
  }

  /**
   * What line `lidx` appends after the clauses `cs`, or what it raises: the unit clauses of an
   * empty clue; `[]` when a block is too long; nothing when the clauses so far are empty or end
   * with `[]` (the check `if not clauses or clauses[-1] == []`); else steps 2b to 2e.
   */
  function Outcome(lidx: nat, cells: seq<Coord>, pcells: seq<Coord>, blocks: seq<Block>, ncolors: nat,
                   cs: seq<KClause<Key>>): Result<seq<KClause<Key>>, EncodeError>
  {
    if |blocks| == 0 then Ok(Units(cells))
    else if !Fits(|cells|, blocks) then Ok([[]])
    else if cs == [] || cs[|cs| - 1] == [] then Ok([])
    else
      match LineError(lidx, cells, pcells, blocks, ncolors)
      case Some(e) => Err(e)
      case None => Ok(LineClauses(lidx, cells, blocks, ncolors))
  }

  /** Line `lidx` of the puzzle after the clauses `cs`: its clue parsed, then its outcome. */
  function LineStep(p: Geometry.Puzzle, lidx: nat, cs: seq<KClause<Key>>): Result<seq<KClause<Key>>, EncodeError>
    requires lidx < |p.lines|
  {
    match ParseClue(p.lines[lidx].clue)
    case Err(e) => Err(BadClue(e))
    case Ok(blocks) => Outcome(lidx, p.lines[lidx].cells, p.cells, blocks, |p.colors|, cs)
  }

  /** The clauses after the cell clauses and the first `k` lines, or the first exception raised. */
  function Upto(p: Geometry.Puzzle, k: nat): Result<seq<KClause<Key>>, EncodeError>
    requires k <= |p.lines|
  {
    if k == 0 then Ok(CellClauses(p.cells, |p.colors|))
    else
      match Upto(p, k - 1)
      case Err(e) => Err(e)
      case Ok(cs) =>
        match LineStep(p, k - 1, cs)
        case Err(e) => Err(e)
        case Ok(lc) => Ok(cs + lc)
  }

  /** `encode(puzzle, vm)`, at key level. */
  function Spec(p: Geometry.Puzzle): Result<seq<KClause<Key>>, EncodeError> {
    Upto(p, |p.lines|)
  }

  // ---------------------------------------------------------------------------------------------
  // The encoder: registering the block variables (step 2a)

  /** The identifiers of `ks`, `0` standing for a key that was never registered. */
  function Vars(ids: map<Key, nat>, ks: seq<Key>): (vs: seq<int>)
    ensures |vs| == |ks| && forall i :: 0 <= i < |ks| ==> vs[i] == Id(ids, ks[i])
  {
    seq(|ks|, i requires 0 <= i < |ks| => Id(ids, ks[i]))
  }

  ghost predicate AllIn(ids: map<Key, nat>, ks: seq<Key>) {
    forall i :: 0 <= i < |ks| ==> ks[i] in ids
  }

  /**
   * `b_starts` and `b_cols` hold the registered variables of the first `|bStarts|` blocks, each of
   * which fits in the line.
   */
  ghost predicate BlockVars(ids: map<Key, nat>, lidx: nat, blocks: seq<Block>, length: nat, ncolors: nat,
                            bStarts: seq<seq<int>>, bCols: seq<seq<int>>)
  {
    && |bStarts| == |bCols| <= |blocks|
    && forall b :: 0 <= b < |bStarts| ==>
         && blocks[b].size <= length
         && bStarts[b] == Vars(ids, StartKeys(lidx, b, Room(length, blocks[b].size)))
         && AllIn(ids, StartKeys(lidx, b, Room(length, blocks[b].size)))
         && bCols[b] == Vars(ids, ColourKeys(lidx, b, ncolors))
         && AllIn(ids, ColourKeys(lidx, b, ncolors))
  }

  /** Registered identifiers stay as the registry grows. */
  lemma VarsKept(ids: map<Key, nat>, ids': map<Key, nat>, ks: seq<Key>)
    requires AllIn(ids, ks) && Extends(ids, ids')
    ensures Vars(ids', ks) == Vars(ids, ks) && AllIn(ids', ks)
  {
    forall i | 0 <= i < |ks| ensures Vars(ids', ks)[i] == Vars(ids, ks)[i] {
      assert ks[i] in ids;
    }
  }

  lemma BlockVarsKept(ids: map<Key, nat>, ids': map<Key, nat>, lidx: nat, blocks: seq<Block>, length: nat,
                      ncolors: nat, bStarts: seq<seq<int>>, bCols: seq<seq<int>>)
    requires BlockVars(ids, lidx, blocks, length, ncolors, bStarts, bCols) && Extends(ids, ids')
    ensures BlockVars(ids', lidx, blocks, length, ncolors, bStarts, bCols)
  {
    forall b | 0 <= b < |bStarts|
      ensures bStarts[b] == Vars(ids', StartKeys(lidx, b, Room(length, blocks[b].size)))
      ensures AllIn(ids', StartKeys(lidx, b, Room(length, blocks[b].size)))
      ensures bCols[b] == Vars(ids', ColourKeys(lidx, b, ncolors)) && AllIn(ids', ColourKeys(lidx, b, ncolors))
    {
      VarsKept(ids, ids', StartKeys(lidx, b, Room(length, blocks[b].size)));
      VarsKept(ids, ids', ColourKeys(lidx, b, ncolors));
    }
  }

  /** `[vm.new(k) for k in ks]`. */
  method RegisterKeys(ks: seq<Key>, vm: VarManager<Key>) returns (vs: seq<int>)
    requires vm.Valid() && forall i :: 0 <= i < |ks| ==> !ks[i].Cell?
    modifies vm
    ensures vm.Valid() && Extends(old(vm.ids), vm.ids) && AddsNoCells(old(vm.ids), vm.ids)
    ensures vs == Vars(vm.ids, ks) && AllIn(vm.ids, ks)
  {
    vs := [];
    for i := 0 to |ks|
      invariant vm.Valid() && Extends(old(vm.ids), vm.ids) && AddsNoCells(old(vm.ids), vm.ids)
      invariant |vs| == i && forall j :: 0 <= j < i ==> ks[j] in vm.ids && vs[j] == vm.ids[ks[j]]
    {
      var v := vm.New(ks[i]);
      vs := vs + [v];
    }
  }

  /**
   * Step 2a: the start and colour variables of every block, in block order, stopping at the first
   * block longer than the line.
   */
  method RegisterBlocks(lidx: nat, length: nat, blocks: seq<Block>, ncolors: nat, vm: VarManager<Key>)
    returns (fits: bool, bStarts: seq<seq<int>>, bCols: seq<seq<int>>)
    requires vm.Valid()
    modifies vm
    ensures vm.Valid() && Extends(old(vm.ids), vm.ids) && AddsNoCells(old(vm.ids), vm.ids)
    ensures fits <==> Fits(length, blocks)
    ensures fits ==> |bStarts| == |blocks| && BlockVars(vm.ids, lidx, blocks, length, ncolors, bStarts, bCols)
  {
    bStarts, bCols := [], [];
    fits := true;
    for b := 0 to |blocks|
      invariant vm.Valid() && Extends(old(vm.ids), vm.ids) && AddsNoCells(old(vm.ids), vm.ids)
      invariant fits && |bStarts| == b && BlockVars(vm.ids, lidx, blocks, length, ncolors, bStarts, bCols)
    {
      if blocks[b].size > length {
        fits := false;
        break;
      }
      ghost var before := vm.ids;
      var starts := RegisterKeys(StartKeys(lidx, b, Room(length, blocks[b].size)), vm);
      ghost var mid := vm.ids;
      var cols := RegisterKeys(ColourKeys(lidx, b, ncolors), vm);
      GrowthTrans(before, mid, vm.ids);
      GrowthTrans(old(vm.ids), before, vm.ids);
      BlockVarsKept(before, vm.ids, lidx, blocks, length, ncolors, bStarts, bCols);
      VarsKept(mid, vm.ids, StartKeys(lidx, b, Room(length, blocks[b].size)));
      bStarts, bCols := bStarts + [starts], bCols + [cols];
    }
  }

  // ---------------------------------------------------------------------------------------------
  // The encoder: the constraints of a line whose blocks all fit (steps 2b to 2e)

  /** One pass of step 2b: block `b`'s offsets, then its colour clause and colour exclusions. */
  method EmitBlock(lidx: nat, b: nat, blk: Block, length: nat, ncolors: nat, starts: seq<int>, cols: seq<int>,
                   ghost ids: map<Key, nat>)
    returns (r: Result<seq<Clause>, EncodeError>)
    requires blk.size <= length
    requires starts == Vars(ids, StartKeys(lidx, b, Room(length, blk.size))) && cols == Vars(ids, ColourKeys(lidx, b, ncolors))
    ensures blk.colour.Some? && blk.colour.value >= Foregrounds(ncolors) ==> r == Err(PaletteIndex(lidx, b))
    ensures !(blk.colour.Some? && blk.colour.value >= Foregrounds(ncolors)) ==>
              r == Ok(ResolveAll(ids, BlockClauses(lidx, b, blk, length, ncolors)))
  {
    ghost var sk, ck := StartKeys(lidx, b, Room(length, blk.size)), ColourKeys(lidx, b, ncolors);
    var cs := ExactlyOneClauses(starts, ids, sk);
    var unit: Clause;
    ghost var unitK: KClause<Key>;
    if blk.colour.Some? {
      var f := blk.colour.value;
      if f >= |cols| {
        return Err(PaletteIndex(lidx, b));
      }
      unit, unitK := [cols[f]], [Pos(BCol(lidx, b, f + 1))];
    } else {
      unit, unitK := cols, AtLeastOne(ck);
    }
    assert Resolve(ids, unitK) == unit;
    var pairs: seq<Clause> := [];
    ghost var pairsK: seq<KClause<Key>> := [];
    if |cols| > 1 {
      pairs := PairClauses(cols, ids, ck);
      pairsK := PairsBefore(ck, |ck|);
    }
    assert ColourClauses(lidx, b, blk, ncolors) == [unitK] + pairsK;
    assert ResolveAll(ids, [unitK]) == [unit];
    ResolveAllAppend(ids, [unitK], pairsK);
    ResolveAllAppend(ids, ExactlyOne(sk), [unitK] + pairsK);
    assert BlockClauses(lidx, b, blk, length, ncolors) == ExactlyOne(sk) + ([unitK] + pairsK);
    r := Ok(cs + ([unit] + pairs));
  }

  /** Step 2b over the blocks; the first fixed colour without a variable raises. */
  method EmitSelection(lidx: nat, blocks: seq<Block>, length: nat, ncolors: nat,
                       bStarts: seq<seq<int>>, bCols: seq<seq<int>>, ghost ids: map<Key, nat>)
    returns (r: Result<seq<Clause>, EncodeError>)
    requires Fits(length, blocks) && |bStarts| == |blocks| && BlockVars(ids, lidx, blocks, length, ncolors, bStarts, bCols)
    ensures match PaletteFrom(lidx, blocks, ncolors, 0)
            case Some(e) => r == Err(e)
            case None => r == Ok(ResolveAll(ids, Selection(lidx, blocks, length, ncolors)))
  {
    ghost var pieces := seq(|blocks|, b requires 0 <= b < |blocks| => BlockClauses(lidx, b, blocks[b], length, ncolors));
    var cs: seq<Clause> := [];
    for b := 0 to |blocks|
      invariant PaletteFrom(lidx, blocks, ncolors, 0) == PaletteFrom(lidx, blocks, ncolors, b)
      invariant cs == ResolveAll(ids, Flat(pieces[..b]))
    {
      var more := EmitBlock(lidx, b, blocks[b], length, ncolors, bStarts[b], bCols[b], ids);
      if more.Err? {
        return more;
      }
      FlatSnoc(pieces, b);
      ResolveAllAppend(ids, Flat(pieces[..b]), pieces[b]);
      cs := cs + more.value;
    }
    assert pieces[..|blocks|] == pieces;
    r := Ok(cs);
  }

  /** The innermost loop of step 2c: `[-s_var, -b_cols[b][c - 1], vm.get(('cell', coord, c))]` for every colour `c`. */
  method ForwardCellClauses(lidx: nat, b: nat, p: nat, coord: Coord, ncolors: nat, s: int, cols: seq<int>,
                            vm: VarManager<Key>)
    returns (cs: seq<Clause>)
    requires vm.Valid() && s == Id(vm.ids, Start(lidx, b, p)) && cols == Vars(vm.ids, ColourKeys(lidx, b, ncolors))
    ensures cs == ResolveAll(vm.ids, ForwardCell(lidx, b, p, coord, ncolors))
  {
    ghost var all := ForwardCell(lidx, b, p, coord, ncolors);
    cs := [];
    for i := 0 to |cols|
      invariant cs == ResolveAll(vm.ids, all[..i])
    {
      var v := Lookup(vm, Cell(coord, i + 1));
      assert Resolve(vm.ids, all[i]) == [-s, -cols[i], v];
      assert all[..i + 1] == all[..i] + [all[i]];
      ResolveAllSnoc(vm.ids, all[..i], all[i]);
      cs := cs + [[-s, -cols[i], v]];
    }
    assert all[..|cols|] == all;
  }

  /** `for t in range(p, p + sz)`: the cells a block started at `p` covers. */
  method ForwardStartClauses(lidx: nat, b: nat, p: nat, cells: seq<Coord>, size: nat, ncolors: nat, s: int,
                             cols: seq<int>, vm: VarManager<Key>)
    returns (cs: seq<Clause>)
    requires vm.Valid() && p + size <= |cells|
    requires s == Id(vm.ids, Start(lidx, b, p)) && cols == Vars(vm.ids, ColourKeys(lidx, b, ncolors))
    ensures cs == ResolveAll(vm.ids, ForwardStart(lidx, b, p, cells, size, ncolors))
  {
    ghost var pieces := seq(size, i requires 0 <= i < size => ForwardCell(lidx, b, p, cells[p + i], ncolors));
    cs := [];
    for t := p to p + size
      invariant cs == ResolveAll(vm.ids, Flat(pieces[..t - p]))
    {
      var more := ForwardCellClauses(lidx, b, p, cells[t], ncolors, s, cols, vm);
      FlatSnoc(pieces, t - p);
      ResolveAllAppend(vm.ids, Flat(pieces[..t - p]), pieces[t - p]);
      cs := cs + more;
    }
    assert pieces[..size] == pieces;
  }

  /** `for p, s_var in enumerate(b_starts[b])` in step 2c. */
  method ForwardBlockClauses(lidx: nat, b: nat, cells: seq<Coord>, size: nat, ncolors: nat, starts: seq<int>,
                             cols: seq<int>, vm: VarManager<Key>)
    returns (cs: seq<Clause>)
    requires vm.Valid() && size <= |cells|
    requires starts == Vars(vm.ids, StartKeys(lidx, b, Room(|cells|, size))) && cols == Vars(vm.ids, ColourKeys(lidx, b, ncolors))
    ensures cs == ResolveAll(vm.ids, ForwardBlock(lidx, b, cells, size, ncolors))
  {
    var n := |starts|;
    ghost var pieces := seq(Room(|cells|, size), p requires 0 <= p < Room(|cells|, size) => ForwardStart(lidx, b, p, cells, size, ncolors));
    cs := [];
    for p := 0 to n
      invariant cs == ResolveAll(vm.ids, Flat(pieces[..p]))
    {
      var more := ForwardStartClauses(lidx, b, p, cells, size, ncolors, starts[p], cols, vm);
      FlatSnoc(pieces, p);
      ResolveAllAppend(vm.ids, Flat(pieces[..p]), pieces[p]);
      cs := cs + more;
    }
    assert pieces[..n] == pieces;
  }

  /** Step 2c over the blocks. */
  method EmitForward(lidx: nat, cells: seq<Coord>, blocks: seq<Block>, ncolors: nat,
                     bStarts: seq<seq<int>>, bCols: seq<seq<int>>, vm: VarManager<Key>)
    returns (cs: seq<Clause>)
    requires vm.Valid() && Fits(|cells|, blocks)
    requires |bStarts| == |blocks| && BlockVars(vm.ids, lidx, blocks, |cells|, ncolors, bStarts, bCols)
    ensures cs == ResolveAll(vm.ids, Forward(lidx, cells, blocks, ncolors))
  {
    ghost var pieces := seq(|blocks|, b requires 0 <= b < |blocks| => ForwardBlock(lidx, b, cells, blocks[b].size, ncolors));
    cs := [];
    for b := 0 to |blocks|
      invariant cs == ResolveAll(vm.ids, Flat(pieces[..b]))
    {
      var more := ForwardBlockClauses(lidx, b, cells, blocks[b].size, ncolors, bStarts[b], bCols[b], vm);
      FlatSnoc(pieces, b);
      ResolveAllAppend(vm.ids, Flat(pieces[..b]), pieces[b]);
      cs := cs + more;
    }
    assert pieces[..|blocks|] == pieces;
  }

  /** The innermost loop of step 2d: the colours blocks `b` and `b + 1` touching at `p` and `q` must not share. */
  method TouchClauses(lidx: nat, b: nat, p: nat, q: nat, ncolors: nat, s: int, t: int, cols: seq<int>, next: seq<int>,
                      ghost ids: map<Key, nat>)
    returns (cs: seq<Clause>)
    requires s == Id(ids, Start(lidx, b, p)) && t == Id(ids, Start(lidx, b + 1, q))
    requires cols == Vars(ids, ColourKeys(lidx, b, ncolors)) && next == Vars(ids, ColourKeys(lidx, b + 1, ncolors))
    ensures cs == ResolveAll(ids, Touch(lidx, b, p, q, ncolors))
  {
    ghost var all := Touch(lidx, b, p, q, ncolors);
    cs := [];
    for i := 0 to |cols|
      invariant cs == ResolveAll(ids, all[..i])
    {
      assert Resolve(ids, all[i]) == [-s, -t, -cols[i], -next[i]];
      assert all[..i + 1] == all[..i] + [all[i]];
      ResolveAllSnoc(ids, all[..i], all[i]);
      cs := cs + [[-s, -t, -cols[i], -next[i]]];
    }
    assert all[..|cols|] == all;
  }

  /** One pair of offsets in step 2d: overlap is forbidden outright, touching with a shared colour. */
  method SpacingPairClauses(lidx: nat, b: nat, p: nat, q: nat, size: nat, ncolors: nat, s: int, t: int,
                            cols: seq<int>, next: seq<int>, ghost ids: map<Key, nat>)
    returns (cs: seq<Clause>)
    requires s == Id(ids, Start(lidx, b, p)) && t == Id(ids, Start(lidx, b + 1, q))
    requires cols == Vars(ids, ColourKeys(lidx, b, ncolors)) && next == Vars(ids, ColourKeys(lidx, b + 1, ncolors))
    ensures cs == ResolveAll(ids, SpacingPair(lidx, b, p, q, size, ncolors))
  {
    if q < p + size {
      cs := [[-s, -t]];
      assert Resolve(ids, [Neg(Start(lidx, b, p)), Neg(Start(lidx, b + 1, q))]) == [-s, -t];
    } else if q == p + size {
      cs := TouchClauses(lidx, b, p, q, ncolors, s, t, cols, next, ids);
    } else {
      cs := [];
    }
  }

  /** `for q, s_next in enumerate(b_starts[b_i + 1])` in step 2d. */
  method SpacingStartClauses(lidx: nat, b: nat, p: nat, size: nat, ncolors: nat, s: int, nexts: seq<int>,
                             cols: seq<int>, next: seq<int>, ghost ids: map<Key, nat>, ghost n: nat)
    returns (cs: seq<Clause>)
    requires s == Id(ids, Start(lidx, b, p)) && nexts == Vars(ids, StartKeys(lidx, b + 1, n))
    requires cols == Vars(ids, ColourKeys(lidx, b, ncolors)) && next == Vars(ids, ColourKeys(lidx, b + 1, ncolors))
    ensures cs == ResolveAll(ids, SpacingStart(lidx, b, p, size, n, ncolors))
  {
    ghost var pieces := seq(n, q requires 0 <= q < n => SpacingPair(lidx, b, p, q, size, ncolors));
    cs := [];
    for q := 0 to |nexts|
      invariant cs == ResolveAll(ids, Flat(pieces[..q]))
    {
      var more := SpacingPairClauses(lidx, b, p, q, size, ncolors, s, nexts[q], cols, next, ids);
      FlatSnoc(pieces, q);
      ResolveAllAppend(ids, Flat(pieces[..q]), pieces[q]);
      cs := cs + more;
    }
    assert pieces[..n] == pieces;
  }

  /** `for p, s_curr in enumerate(b_starts[b_i])` in step 2d. */
  method SpacingBlockClauses(lidx: nat, b: nat, blocks: seq<Block>, length: nat, ncolors: nat,
                             bStarts: seq<seq<int>>, bCols: seq<seq<int>>, ghost ids: map<Key, nat>)
    returns (cs: seq<Clause>)
    requires b + 1 < |blocks| && Fits(length, blocks)
    requires |bStarts| == |blocks| && BlockVars(ids, lidx, blocks, length, ncolors, bStarts, bCols)
    ensures cs == ResolveAll(ids, SpacingBlock(lidx, b, blocks, length, ncolors))
  {
    var size := blocks[b].size;
    ghost var n := Room(length, blocks[b + 1].size);
    ghost var pieces := seq(Room(length, size), p requires 0 <= p < Room(length, size) =>
                              SpacingStart(lidx, b, p, size, n, ncolors));
    var starts := bStarts[b];
    cs := [];
    for p := 0 to |starts|
      invariant cs == ResolveAll(ids, Flat(pieces[..p]))
    {
      var more := SpacingStartClauses(lidx, b, p, size, ncolors, starts[p], bStarts[b + 1], bCols[b], bCols[b + 1], ids, n);
      FlatSnoc(pieces, p);
      ResolveAllAppend(ids, Flat(pieces[..p]), pieces[p]);
      cs := cs + more;
    }
    assert pieces[..|starts|] == pieces;
  }

  /** Step 2d over the consecutive pairs of blocks. */
  method EmitSpacing(lidx: nat, blocks: seq<Block>, length: nat, ncolors: nat,
                     bStarts: seq<seq<int>>, bCols: seq<seq<int>>, ghost ids: map<Key, nat>)
    returns (cs: seq<Clause>)
    requires Fits(length, blocks)
    requires |bStarts| == |blocks| && BlockVars(ids, lidx, blocks, length, ncolors, bStarts, bCols)
    ensures cs == ResolveAll(ids, Spacing(lidx, blocks, length, ncolors))
  {
    var k := if |blocks| == 0 then 0 else |blocks| - 1;
    ghost var pieces := seq(Pairs(|blocks|), b requires 0 <= b < Pairs(|blocks|) => SpacingBlock(lidx, b, blocks, length, ncolors));
    cs := [];
    for b := 0 to k
      invariant cs == ResolveAll(ids, Flat(pieces[..b]))
    {
      var more := SpacingBlockClauses(lidx, b, blocks, length, ncolors, bStarts, bCols, ids);
      FlatSnoc(pieces, b);
      ResolveAllAppend(ids, Flat(pieces[..b]), pieces[b]);
      cs := cs + more;
    }
    assert pieces[..k] == pieces;
  }

  /** The identifiers of a concatenation are the concatenation of the identifiers. */
  lemma VarsAppend(ids: map<Key, nat>, xs: seq<Key>, ys: seq<Key>)
    ensures Vars(ids, xs + ys) == Vars(ids, xs) + Vars(ids, ys)
  {
    assert forall i :: 0 <= i < |xs + ys| ==> Vars(ids, xs + ys)[i] == (Vars(ids, xs) + Vars(ids, ys))[i];
  }

  /** `for p in range(max(0, pos - sz + 1), pos + 1): if p < len(b_starts[b_i])`: the covering starts of one block. */
  method CoverStartVars(lidx: nat, b: nat, size: nat, pos: nat, starts: seq<int>, ghost ids: map<Key, nat>, ghost n: nat)
    returns (vs: seq<int>)
    requires starts == Vars(ids, StartKeys(lidx, b, n))
    ensures vs == Vars(ids, CoverStarts(lidx, b, size, n, pos))
  {
    var lo := if pos + 1 >= size then pos + 1 - size else 0;
    vs := [];
    for p := lo to pos + 1
      invariant |vs| == (if lo < p && lo < n then (if p <= n then p else n) - lo else 0)
      invariant forall i :: 0 <= i < |vs| ==> vs[i] == Id(ids, Start(lidx, b, lo + i))
    {
      if p < |starts| {
        vs := vs + [starts[p]];
      }
    }
  }

  /** `starts_that_cover_pos`: the covering start variables of every block, block by block. */
  method CoverVars(lidx: nat, blocks: seq<Block>, length: nat, ncolors: nat, pos: nat,
                   bStarts: seq<seq<int>>, bCols: seq<seq<int>>, ghost ids: map<Key, nat>)
    returns (vs: seq<int>)
    requires Fits(length, blocks)
    requires |bStarts| == |blocks| && BlockVars(ids, lidx, blocks, length, ncolors, bStarts, bCols)
    ensures vs == Vars(ids, Cover(lidx, blocks, length, pos))
  {
    vs := [];
    for b := 0 to |blocks|
      invariant vs == Vars(ids, CoverUpto(lidx, blocks, length, pos, b))
    {
      var more := CoverStartVars(lidx, b, blocks[b].size, pos, bStarts[b], ids, Room(length, blocks[b].size));
      VarsAppend(ids, CoverUpto(lidx, blocks, length, pos, b), CoverStarts(lidx, b, blocks[b].size, Room(length, blocks[b].size), pos));
      vs := vs + more;
    }
  }

  /** A cell has covering starts exactly when some block's extent reaches it. */
  lemma {:induction false} CoverNonEmpty(lidx: nat, blocks: seq<Block>, length: nat, pos: nat, k: nat)
    requires Fits(length, blocks) && k <= |blocks|
    ensures |CoverUpto(lidx, blocks, length, pos, k)| > 0 <==> CoveredUpto(blocks, length, pos, k)
  {
    if k > 0 {
      CoverNonEmpty(lidx, blocks, length, pos, k - 1);
    }
  }

  /**
   * One cell of step 2e: `[-bg_var, -s_var]` per covering start, which raises when `bg_var` is
   * `None`, then `[bg_var] + starts_that_cover_pos`.
   */
  method BackgroundCellClauses(lidx: nat, coord: Coord, bg: Option<nat>, cover: seq<int>,
                               ghost ids: map<Key, nat>, ghost coverK: seq<Key>)
    returns (r: Result<seq<Clause>, EncodeError>)
    requires (bg.Some? <==> Cell(coord, 0) in ids) && (bg.Some? ==> bg.value == ids[Cell(coord, 0)])
    requires cover == Vars(ids, coverK)
    ensures Cell(coord, 0) !in ids && |coverK| > 0 ==> r == Err(NoneOperand(lidx))
    ensures !(Cell(coord, 0) !in ids && |coverK| > 0) ==> r == Ok(ResolveAll(ids, BackgroundCell(coord, coverK)))
  {
    ghost var excl := Exclusions(coord, coverK);
    var cs := [];
    for i := 0 to |cover|
      invariant bg.None? ==> i == 0
      invariant cs == ResolveAll(ids, excl[..i])
    {
      if bg.None? {
        return Err(NoneOperand(lidx));
      }
      var neg: int := 0 - bg.value as int;
      assert Resolve(ids, excl[i]) == [neg, -cover[i]];
      assert excl[..i + 1] == excl[..i] + [excl[i]];
      ResolveAllSnoc(ids, excl[..i], excl[i]);
      cs := cs + [[neg, -cover[i]]];
    }
    assert excl[..|cover|] == excl;
    var last := [if bg.Some? then bg.value else 0] + cover;
    assert Resolve(ids, [Pos(Cell(coord, 0))] + AtLeastOne(coverK)) == last;
    ResolveAllSnoc(ids, excl, [Pos(Cell(coord, 0))] + AtLeastOne(coverK));
    r := Ok(cs + [last]);
  }

  /** Cell `pos` of the line has no background variable while some start covers it: `-bg_var` raises there. */
  ghost predicate UnguardedAt(ids: map<Key, nat>, lidx: nat, cells: seq<Coord>, blocks: seq<Block>, pos: nat)
    requires Fits(|cells|, blocks) && pos < |cells|
  {
    Cell(cells[pos], 0) !in ids && Covered(blocks, |cells|, pos)
  }

  /** No cell before `n` is unguarded. */
  ghost predicate GuardedUpto(ids: map<Key, nat>, lidx: nat, cells: seq<Coord>, blocks: seq<Block>, n: nat)
    requires Fits(|cells|, blocks) && n <= |cells|
  {
    n == 0 || (GuardedUpto(ids, lidx, cells, blocks, n - 1) && !UnguardedAt(ids, lidx, cells, blocks, n - 1))
  }

  /** Every cell before `n` is guarded once the first `n` are. */
  lemma {:induction false} GuardedAt(ids: map<Key, nat>, lidx: nat, cells: seq<Coord>, blocks: seq<Block>, pos: nat, n: nat)
    requires Fits(|cells|, blocks) && pos < n <= |cells| && GuardedUpto(ids, lidx, cells, blocks, n)
    ensures !UnguardedAt(ids, lidx, cells, blocks, pos)
  {
    if pos < n - 1 {
      GuardedAt(ids, lidx, cells, blocks, pos, n - 1);
    }
  }

  /** An unguarded cell before `n` breaks the guard of the first `n` cells. */
  lemma {:induction false} Unguarded(ids: map<Key, nat>, lidx: nat, cells: seq<Coord>, blocks: seq<Block>, pos: nat, n: nat)
    requires Fits(|cells|, blocks) && pos < n <= |cells| && UnguardedAt(ids, lidx, cells, blocks, pos)
    ensures !GuardedUpto(ids, lidx, cells, blocks, n)
  {
    if pos < n - 1 {
      Unguarded(ids, lidx, cells, blocks, pos, n - 1);
    }
  }

  /** Step 2e at cell `pos`: its background variable, its covering starts, then its clauses. */
  method BackgroundAt(lidx: nat, cells: seq<Coord>, blocks: seq<Block>, ncolors: nat, pos: nat,
                      bStarts: seq<seq<int>>, bCols: seq<seq<int>>, vm: VarManager<Key>)
    returns (r: Result<seq<Clause>, EncodeError>)
    requires vm.Valid() && Fits(|cells|, blocks) && pos < |cells|
    requires |bStarts| == |blocks| && BlockVars(vm.ids, lidx, blocks, |cells|, ncolors, bStarts, bCols)
    ensures UnguardedAt(vm.ids, lidx, cells, blocks, pos) ==> r == Err(NoneOperand(lidx))
    ensures !UnguardedAt(vm.ids, lidx, cells, blocks, pos) ==>
              r == Ok(ResolveAll(vm.ids, BackgroundCell(cells[pos], Cover(lidx, blocks, |cells|, pos))))
  {
    var bg := Find(vm, Cell(cells[pos], 0));
    var cover := CoverVars(lidx, blocks, |cells|, ncolors, pos, bStarts, bCols, vm.ids);
    CoverNonEmpty(lidx, blocks, |cells|, pos, |blocks|);
    r := BackgroundCellClauses(lidx, cells[pos], bg, cover, vm.ids, Cover(lidx, blocks, |cells|, pos));
  }

  /** One turn of step 2e's loop: the clauses of cell `pos` appended, or the exception it raises. */
  method BackgroundStep(lidx: nat, cells: seq<Coord>, blocks: seq<Block>, ncolors: nat, pos: nat,
                        bStarts: seq<seq<int>>, bCols: seq<seq<int>>, vm: VarManager<Key>, cs: seq<Clause>)
    returns (r: Result<seq<Clause>, EncodeError>)
    requires vm.Valid() && Fits(|cells|, blocks) && pos < |cells|
    requires |bStarts| == |blocks| && BlockVars(vm.ids, lidx, blocks, |cells|, ncolors, bStarts, bCols)
    requires cs == ResolveAll(vm.ids, Flat(BackgroundCells(lidx, cells, blocks)[..pos]))
    ensures r.Err? ==> r == Err(NoneOperand(lidx)) && !GuardedUpto(vm.ids, lidx, cells, blocks, |cells|)
    ensures r.Ok? ==> r.value == ResolveAll(vm.ids, Flat(BackgroundCells(lidx, cells, blocks)[..pos + 1]))
    ensures r.Ok? ==> !UnguardedAt(vm.ids, lidx, cells, blocks, pos)
  {
    ghost var pieces := BackgroundCells(lidx, cells, blocks);
    var more := BackgroundAt(lidx, cells, blocks, ncolors, pos, bStarts, bCols, vm);
    if more.Err? {
      Unguarded(vm.ids, lidx, cells, blocks, pos, |cells|);
      return more;
    }
    FlatSnoc(pieces, pos);
    ResolveAllAppend(vm.ids, Flat(pieces[..pos]), pieces[pos]);
    r := Ok(cs + more.value);
  }

  /** Step 2e over the cells of the line, raising at the first unguarded cell. */
  method EmitBackground(lidx: nat, cells: seq<Coord>, blocks: seq<Block>, ncolors: nat,
                        bStarts: seq<seq<int>>, bCols: seq<seq<int>>, vm: VarManager<Key>)
    returns (r: Result<seq<Clause>, EncodeError>)
    requires vm.Valid() && Fits(|cells|, blocks)
    requires |bStarts| == |blocks| && BlockVars(vm.ids, lidx, blocks, |cells|, ncolors, bStarts, bCols)
    ensures !GuardedUpto(vm.ids, lidx, cells, blocks, |cells|) ==> r == Err(NoneOperand(lidx))
    ensures GuardedUpto(vm.ids, lidx, cells, blocks, |cells|) ==> r == Ok(ResolveAll(vm.ids, Background(lidx, cells, blocks)))
  {
    var cs := [];
    for pos := 0 to |cells|
      invariant cs == ResolveAll(vm.ids, Flat(BackgroundCells(lidx, cells, blocks)[..pos]))
      invariant GuardedUpto(vm.ids, lidx, cells, blocks, pos)
    {
      var next := BackgroundStep(lidx, cells, blocks, ncolors, pos, bStarts, bCols, vm, cs);
      if next.Err? {
        return next;
      }
      cs := next.value;
    }
    assert BackgroundCells(lidx, cells, blocks)[..|cells|] == BackgroundCells(lidx, cells, blocks);
    r := Ok(cs);
  }

  /** Steps 2b to 2e of a line whose blocks all fit, in the order the source runs them. */
  method EmitLine(lidx: nat, cells: seq<Coord>, blocks: seq<Block>, ncolors: nat,
                  bStarts: seq<seq<int>>, bCols: seq<seq<int>>, vm: VarManager<Key>)
    returns (r: Result<seq<Clause>, EncodeError>)
    requires vm.Valid() && Fits(|cells|, blocks)
    requires |bStarts| == |blocks| && BlockVars(vm.ids, lidx, blocks, |cells|, ncolors, bStarts, bCols)
    ensures PaletteFrom(lidx, blocks, ncolors, 0).Some? ==> r == Err(PaletteFrom(lidx, blocks, ncolors, 0).value)
    ensures PaletteFrom(lidx, blocks, ncolors, 0).None? && !GuardedUpto(vm.ids, lidx, cells, blocks, |cells|) ==>
              r == Err(NoneOperand(lidx))
    ensures PaletteFrom(lidx, blocks, ncolors, 0).None? && GuardedUpto(vm.ids, lidx, cells, blocks, |cells|) ==>
              r == Ok(ResolveAll(vm.ids, LineClauses(lidx, cells, blocks, ncolors)))
  {
    var sel := EmitSelection(lidx, blocks, |cells|, ncolors, bStarts, bCols, vm.ids);
    if sel.Err? {
      return sel;
    }
    var fwd := EmitForward(lidx, cells, blocks, ncolors, bStarts, bCols, vm);
    var spc := EmitSpacing(lidx, blocks, |cells|, ncolors, bStarts, bCols, vm.ids);
    var bg := EmitBackground(lidx, cells, blocks, ncolors, bStarts, bCols, vm);
    if bg.Err? {
      return bg;
    }
    ghost var ids := vm.ids;
    ghost var s1, s2, s3, s4 := Selection(lidx, blocks, |cells|, ncolors), Forward(lidx, cells, blocks, ncolors),
                                Spacing(lidx, blocks, |cells|, ncolors), Background(lidx, cells, blocks);
    ResolveAllAppend(ids, s1, s2);
    ResolveAllAppend(ids, s1 + s2, s3);
    ResolveAllAppend(ids, s1 + s2 + s3, s4);
    r := Ok(sel.value + fwd + spc + bg.value);
  }

  // ---------------------------------------------------------------------------------------------
  // Which keys a line's clauses mention

  /** A start or colour variable step 2a registers for line `lidx`. */
  ghost predicate BlockKey(lidx: nat, blocks: seq<Block>, length: nat, ncolors: nat, k: Key) {
    || (k.Start? && k.line == lidx && k.block < |blocks| && blocks[k.block].size <= length &&
        k.pos < Room(length, blocks[k.block].size))
    || (k.BCol? && k.line == lidx && k.block < |blocks| && 1 <= k.col <= Foregrounds(ncolors))
  }

  /** Step 2a registered every block key of the line. */
  lemma BlockKeyRegistered(ids: map<Key, nat>, lidx: nat, blocks: seq<Block>, length: nat, ncolors: nat,
                           bStarts: seq<seq<int>>, bCols: seq<seq<int>>, k: Key)
    requires |bStarts| == |blocks| && BlockVars(ids, lidx, blocks, length, ncolors, bStarts, bCols)
    requires BlockKey(lidx, blocks, length, ncolors, k)
    ensures k in ids
  {
    if k.Start? {
      assert StartKeys(lidx, k.block, Room(length, blocks[k.block].size))[k.pos] == k;
    } else {
      assert ColourKeys(lidx, k.block, ncolors)[k.col - 1] == k;
    }
  }

  /** The covering starts of cell `pos` are the starts of the blocks whose extent reaches it. */
  lemma {:induction false} CoverMembers(lidx: nat, blocks: seq<Block>, length: nat, pos: nat, n: nat, k: Key)
    requires Fits(length, blocks) && n <= |blocks|
    ensures k in CoverUpto(lidx, blocks, length, pos, n) <==>
            k.Start? && k.line == lidx && k.block < n &&
            CoverFrom(blocks[k.block].size, pos) <= k.pos < CoverTo(Room(length, blocks[k.block].size), pos)
  {
    if n > 0 {
      CoverMembers(lidx, blocks, length, pos, n - 1, k);
      var size := blocks[n - 1].size;
      var last := CoverStarts(lidx, n - 1, size, Room(length, size), pos);
      InAppend(k, CoverUpto(lidx, blocks, length, pos, n - 1), last);
      if k in last {
        var i :| 0 <= i < |last| && last[i] == k;
      }
      if k.Start? && k.line == lidx && k.block == n - 1 &&
         CoverFrom(size, pos) <= k.pos < CoverTo(Room(length, size), pos) {
        assert last[k.pos - CoverFrom(size, pos)] == k;
      }
    }
  }

  /** Every fixed colour before the first palette error is a foreground colour. */
  lemma {:induction false} PaletteFromNone(lidx: nat, blocks: seq<Block>, ncolors: nat, b: nat, b': nat)
    requires PaletteFrom(lidx, blocks, ncolors, b) == None && b <= b' < |blocks|
    ensures blocks[b'].colour.Some? ==> blocks[b'].colour.value < Foregrounds(ncolors)
    decreases b' - b
  {
    if b < b' {
      PaletteFromNone(lidx, blocks, ncolors, b + 1, b');
    }
  }

  /** The colour clauses of block `b` mention only its colour keys, once its fixed colour is a foreground colour. */
  lemma ColourClauseKeys(lidx: nat, b: nat, blk: Block, ncolors: nat, c: KClause<Key>, l: Lit<Key>)
    requires blk.colour.Some? ==> blk.colour.value < Foregrounds(ncolors)
    requires c in ColourClauses(lidx, b, blk, ncolors) && l in c
    ensures l.key.BCol? && l.key.line == lidx && l.key.block == b && 1 <= l.key.col <= Foregrounds(ncolors)
  {
    var ck := ColourKeys(lidx, b, ncolors);
    if |ck| > 1 && c in PairsBefore(ck, |ck|) {
      PairsBeforeMembers(ck, |ck|, c);
    } else if blk.colour.None? {
      assert c == AtLeastOne(ck);
    }
  }

  /** The keys of step 2b: block keys only, once every fixed colour is a foreground colour. */
  lemma SelectionKeys(lidx: nat, blocks: seq<Block>, length: nat, ncolors: nat, c: KClause<Key>, l: Lit<Key>)
    requires Fits(length, blocks) && PaletteFrom(lidx, blocks, ncolors, 0) == None
    requires c in Selection(lidx, blocks, length, ncolors) && l in c
    ensures BlockKey(lidx, blocks, length, ncolors, l.key)
  {
    var pieces := seq(|blocks|, b requires 0 <= b < |blocks| => BlockClauses(lidx, b, blocks[b], length, ncolors));
    var b := FlatPick(pieces, c);
    var sk := StartKeys(lidx, b, Room(length, blocks[b].size));
    if c in ExactlyOne(sk) {
      ExactlyOneKeys(sk, c, l);
    } else {
      PaletteFromNone(lidx, blocks, ncolors, 0, b);
      ColourClauseKeys(lidx, b, blocks[b], ncolors, c, l);
    }
  }

  /** Every clause of step 2c is the forward clause of one block, offset, covered cell and colour. */
  lemma ForwardShape(lidx: nat, cells: seq<Coord>, blocks: seq<Block>, ncolors: nat, c: KClause<Key>)
    returns (b: nat, p: nat, t: nat, col: nat)
    requires Fits(|cells|, blocks) && c in Forward(lidx, cells, blocks, ncolors)
    ensures b < |blocks| && p < Room(|cells|, blocks[b].size) && p <= t < p + blocks[b].size
    ensures 1 <= col <= Foregrounds(ncolors) && c == ForwardClause(lidx, b, p, cells[t], col)
  {
    b := FlatPick(seq(|blocks|, b requires 0 <= b < |blocks| => ForwardBlock(lidx, b, cells, blocks[b].size, ncolors)), c);
    var size := blocks[b].size;
    p := FlatPick(seq(Room(|cells|, size), p requires 0 <= p < Room(|cells|, size) =>
                        ForwardStart(lidx, b, p, cells, size, ncolors)), c);
    var i := FlatPick(seq(size, i requires 0 <= i < size => ForwardCell(lidx, b, p, cells[p + i], ncolors)), c);
    t := p + i;
    var cs := ForwardCell(lidx, b, p, cells[t], ncolors);
    var j :| 0 <= j < |cs| && cs[j] == c;
    col := j + 1;
  }

  /** Every forward clause of a block, offset, covered cell and colour is a clause of step 2c. */
  lemma ForwardMember(lidx: nat, cells: seq<Coord>, blocks: seq<Block>, ncolors: nat, b: nat, p: nat, t: nat, col: nat)
    requires Fits(|cells|, blocks) && b < |blocks| && p < Room(|cells|, blocks[b].size) && p <= t < p + blocks[b].size
    requires 1 <= col <= Foregrounds(ncolors)
    ensures ForwardClause(lidx, b, p, cells[t], col) in Forward(lidx, cells, blocks, ncolors)
  {
    var c := ForwardClause(lidx, b, p, cells[t], col);
    var size := blocks[b].size;
    assert ForwardCell(lidx, b, p, cells[t], ncolors)[col - 1] == c;
    var cellPieces := seq(size, i requires 0 <= i < size => ForwardCell(lidx, b, p, cells[p + i], ncolors));
    FlatHas(cellPieces, t - p, c);
    var startPieces := seq(Room(|cells|, size), p requires 0 <= p < Room(|cells|, size) =>
                             ForwardStart(lidx, b, p, cells, size, ncolors));
    FlatHas(startPieces, p, c);
    FlatHas(seq(|blocks|, b requires 0 <= b < |blocks| => ForwardBlock(lidx, b, cells, blocks[b].size, ncolors)), b, c);
  }

  /** The keys of step 2c: a start and a colour denied, a cell colour asserted. */
  lemma ForwardKeys(lidx: nat, cells: seq<Coord>, blocks: seq<Block>, ncolors: nat, c: KClause<Key>, l: Lit<Key>)
    requires Fits(|cells|, blocks) && c in Forward(lidx, cells, blocks, ncolors) && l in c
    ensures l.Neg? ==> BlockKey(lidx, blocks, |cells|, ncolors, l.key)
    ensures l.Pos? ==> l.key.Cell?
  {
    var b, p, t, col := ForwardShape(lidx, cells, blocks, ncolors, c);
  }

  /** Every clause of step 2d comes from one pair of offsets of two consecutive blocks. */
  lemma SpacingShape(lidx: nat, blocks: seq<Block>, length: nat, ncolors: nat, c: KClause<Key>)
    returns (b: nat, p: nat, q: nat)
    requires Fits(length, blocks) && c in Spacing(lidx, blocks, length, ncolors)
    ensures b + 1 < |blocks| && p < Room(length, blocks[b].size) && q < Room(length, blocks[b + 1].size)
    ensures c in SpacingPair(lidx, b, p, q, blocks[b].size, ncolors)
  {
    b := FlatPick(seq(Pairs(|blocks|), b requires 0 <= b < Pairs(|blocks|) => SpacingBlock(lidx, b, blocks, length, ncolors)), c);
    var size, next := blocks[b].size, Room(length, blocks[b + 1].size);
    p := FlatPick(seq(Room(length, size), p requires 0 <= p < Room(length, size) =>
                        SpacingStart(lidx, b, p, size, next, ncolors)), c);
    q := FlatPick(seq(next, q requires 0 <= q < next => SpacingPair(lidx, b, p, q, size, ncolors)), c);
  }

  /** Every clause of a pair of offsets of two consecutive blocks is a clause of step 2d. */
  lemma SpacingMember(lidx: nat, blocks: seq<Block>, length: nat, ncolors: nat, b: nat, p: nat, q: nat, c: KClause<Key>)
    requires Fits(length, blocks) && b + 1 < |blocks|
    requires p < Room(length, blocks[b].size) && q < Room(length, blocks[b + 1].size)
    requires c in SpacingPair(lidx, b, p, q, blocks[b].size, ncolors)
    ensures c in Spacing(lidx, blocks, length, ncolors)
  {
    var size, next := blocks[b].size, Room(length, blocks[b + 1].size);
    FlatHas(seq(next, q requires 0 <= q < next => SpacingPair(lidx, b, p, q, size, ncolors)), q, c);
    FlatHas(seq(Room(length, size), p requires 0 <= p < Room(length, size) =>
                  SpacingStart(lidx, b, p, size, next, ncolors)), p, c);
    FlatHas(seq(Pairs(|blocks|), b requires 0 <= b < Pairs(|blocks|) => SpacingBlock(lidx, b, blocks, length, ncolors)), b, c);
  }

  /** The keys of step 2d: the starts of two consecutive blocks, and their colours. */
  lemma SpacingKeys(lidx: nat, blocks: seq<Block>, length: nat, ncolors: nat, c: KClause<Key>, l: Lit<Key>)
    requires Fits(length, blocks) && c in Spacing(lidx, blocks, length, ncolors) && l in c
    ensures l.Neg? && BlockKey(lidx, blocks, length, ncolors, l.key)
  {
    var b, p, q := SpacingShape(lidx, blocks, length, ncolors, c);
    if q == p + blocks[b].size {
      var cs := Touch(lidx, b, p, q, ncolors);
      var j :| 0 <= j < |cs| && cs[j] == c;
    }
  }

  /** A covering start is a start variable of the line. */
  lemma CoverKey(lidx: nat, blocks: seq<Block>, length: nat, pos: nat, k: Key)
    requires Fits(length, blocks) && k in Cover(lidx, blocks, length, pos)
    ensures k.Start? && BlockKey(lidx, blocks, length, 0, k)
  {
    CoverMembers(lidx, blocks, length, pos, |blocks|, k);
  }

  /** The keys of one cell's background clauses. */
  lemma BackgroundCellKeys(coord: Coord, cover: seq<Key>, c: KClause<Key>, l: Lit<Key>)
    requires c in BackgroundCell(coord, cover) && l in c
    ensures l.key in cover || (l.key == Cell(coord, 0) && (l.Neg? ==> |cover| > 0))
  {
    if c in Exclusions(coord, cover) {
      var i :| 0 <= i < |cover| && Exclusions(coord, cover)[i] == c;
    } else {
      assert c == [Pos(Cell(coord, 0))] + AtLeastOne(cover);
      var i :| 0 <= i < |c| && c[i] == l;
      if i > 0 {
        assert l.key == cover[i - 1];
      }
    }
  }

  /**
   * The keys of step 2e: covering starts, and the background key of cell `pos`, which is denied
   * only when the cell is covered.
   */
  lemma BackgroundKeys(lidx: nat, cells: seq<Coord>, blocks: seq<Block>, c: KClause<Key>, l: Lit<Key>)
    returns (pos: nat)
    requires Fits(|cells|, blocks) && c in Background(lidx, cells, blocks) && l in c
    ensures pos < |cells|
    ensures l.key.Start? ==> BlockKey(lidx, blocks, |cells|, 0, l.key)
    ensures !l.key.Start? ==> l.key == Cell(cells[pos], 0) && (l.Neg? ==> Covered(blocks, |cells|, pos))
  {
    pos := FlatPick(BackgroundCells(lidx, cells, blocks), c);
    var cover := Cover(lidx, blocks, |cells|, pos);
    BackgroundCellKeys(cells[pos], cover, c, l);
    if l.key in cover {
      CoverKey(lidx, blocks, |cells|, pos, l.key);
    } else {
      CoverNonEmpty(lidx, blocks, |cells|, pos, |blocks|);
    }
  }

  /**
   * The clauses of a line with no error name registered keys, except cell keys asserted
   * positively, and every key they deny is registered.
   */
  lemma LineKeys(ids: map<Key, nat>, lidx: nat, cells: seq<Coord>, blocks: seq<Block>, ncolors: nat,
                 bStarts: seq<seq<int>>, bCols: seq<seq<int>>)
    requires Fits(|cells|, blocks) && |bStarts| == |blocks| && BlockVars(ids, lidx, blocks, |cells|, ncolors, bStarts, bCols)
    requires PaletteFrom(lidx, blocks, ncolors, 0) == None && GuardedUpto(ids, lidx, cells, blocks, |cells|)
    ensures OnlyCellsMissing(ids, LineClauses(lidx, cells, blocks, ncolors))
    ensures NegativesRegistered(ids, LineClauses(lidx, cells, blocks, ncolors))
  {
    var s1, s2, s3, s4 := Selection(lidx, blocks, |cells|, ncolors), Forward(lidx, cells, blocks, ncolors),
                          Spacing(lidx, blocks, |cells|, ncolors), Background(lidx, cells, blocks);
    forall c: KClause<Key>, l: Lit<Key> | c in s1 + s2 + s3 + s4 && l in c
      ensures l.key !in ids ==> l.key.Cell?
      ensures l.Neg? ==> l.key in ids
    {
      InAppend(c, s1 + s2 + s3, s4);
      InAppend(c, s1 + s2, s3);
      InAppend(c, s1, s2);
      if c in s1 {
        SelectionKeys(lidx, blocks, |cells|, ncolors, c, l);
        BlockKeyRegistered(ids, lidx, blocks, |cells|, ncolors, bStarts, bCols, l.key);
      } else if c in s2 {
        ForwardKeys(lidx, cells, blocks, ncolors, c, l);
        if l.Neg? {
          BlockKeyRegistered(ids, lidx, blocks, |cells|, ncolors, bStarts, bCols, l.key);
        }
      } else if c in s3 {
        SpacingKeys(lidx, blocks, |cells|, ncolors, c, l);
        BlockKeyRegistered(ids, lidx, blocks, |cells|, ncolors, bStarts, bCols, l.key);
      } else {
        var pos := BackgroundKeys(lidx, cells, blocks, c, l);
        if l.key.Start? {
          BlockKeyRegistered(ids, lidx, blocks, |cells|, ncolors, bStarts, bCols, l.key);
        } else if l.Neg? {
          GuardedAt(ids, lidx, cells, blocks, pos, |cells|);
        }
      }
    }
  }

  // ---------------------------------------------------------------------------------------------
  // The encoder: lines and the puzzle

  /** A cell of the line has a background variable exactly when it is a puzzle cell and the palette is not empty. */
  lemma BackgroundPresent(ids: map<Key, nat>, pcells: seq<Coord>, ncolors: nat, coord: Coord)
    requires CellsRegistered(ids, pcells, ncolors) && CellsComplete(ids, pcells, ncolors, |pcells|)
    ensures Cell(coord, 0) in ids <==> coord in pcells && ncolors > 0
  {
    if ncolors > 0 {
      CellPresent(ids, pcells, ncolors, coord, 0);
    }
  }

  /** Step 2e raises exactly when some covered cell lacks a background variable. */
  lemma {:induction false} GuardedMeaning(ids: map<Key, nat>, lidx: nat, cells: seq<Coord>, pcells: seq<Coord>,
                                          blocks: seq<Block>, ncolors: nat, n: nat)
    requires CellsRegistered(ids, pcells, ncolors) && CellsComplete(ids, pcells, ncolors, |pcells|)
    requires Fits(|cells|, blocks) && n <= |cells|
    ensures GuardedUpto(ids, lidx, cells, blocks, n) <==>
            !exists pos :: 0 <= pos < n && (cells[pos] !in pcells || ncolors == 0) && Covered(blocks, |cells|, pos)
  {
    if n > 0 {
      GuardedMeaning(ids, lidx, cells, pcells, blocks, ncolors, n - 1);
      BackgroundPresent(ids, pcells, ncolors, cells[n - 1]);
    }
  }

  /** `clauses.append([vm.get(('cell', coord, 0))])` for every cell of a line without blocks. */
  method UnitClauses(cells: seq<Coord>, vm: VarManager<Key>) returns (cs: seq<Clause>)
    requires vm.Valid()
    ensures cs == ResolveAll(vm.ids, Units(cells))
  {
    ghost var all := Units(cells);
    cs := [];
    for pos := 0 to |cells|
      invariant cs == ResolveAll(vm.ids, all[..pos])
    {
      var v := Lookup(vm, Cell(cells[pos], 0));
      assert Resolve(vm.ids, all[pos]) == [v];
      assert all[..pos + 1] == all[..pos] + [all[pos]];
      ResolveAllSnoc(vm.ids, all[..pos], all[pos]);
      cs := cs + [[v]];
    }
    assert all[..|cells|] == all;
  }

  /**
   * One turn of the loop over the lines: the clauses so far, `clauses`, extended with what line
   * `lidx` appends, or the exception it raises.
   */
  method EncodeLine(lidx: nat, cells: seq<Coord>, blocks: seq<Block>, ncolors: nat, vm: VarManager<Key>,
                    clauses: seq<Clause>, ghost kcs: seq<KClause<Key>>, ghost pcells: seq<Coord>)
    returns (r: Result<seq<Clause>, EncodeError>, ghost lc: seq<KClause<Key>>)
    requires vm.Valid() && clauses == ResolveAll(vm.ids, kcs)
    requires OnlyCellsMissing(vm.ids, kcs) && NegativesRegistered(vm.ids, kcs)
    requires CellsRegistered(vm.ids, pcells, ncolors) && CellsComplete(vm.ids, pcells, ncolors, |pcells|)
    modifies vm
    ensures vm.Valid() && Extends(old(vm.ids), vm.ids) && AddsNoCells(old(vm.ids), vm.ids)
    ensures r.Err? ==> Outcome(lidx, cells, pcells, blocks, ncolors, kcs) == Err(r.error)
    ensures r.Ok? ==>
              && Outcome(lidx, cells, pcells, blocks, ncolors, kcs) == Ok(lc)
              && r.value == ResolveAll(vm.ids, kcs + lc)
              && OnlyCellsMissing(vm.ids, kcs + lc) && NegativesRegistered(vm.ids, kcs + lc)
  {
    if |blocks| == 0 {
      var units := UnitClauses(cells, vm);
      lc := Units(cells);
      ResolveAllAppend(vm.ids, kcs, lc);
      OnlyCellsMissingAppend(vm.ids, kcs, lc);
      NegativesAppend(vm.ids, vm.ids, kcs, lc);
      return Ok(clauses + units), lc;
    }
    r, lc := EncodeBlocks(lidx, cells, blocks, ncolors, vm, clauses, kcs, pcells);
  }

  /** A line with blocks: register them, then append the empty clause, nothing, or the line's clauses. */
  method EncodeBlocks(lidx: nat, cells: seq<Coord>, blocks: seq<Block>, ncolors: nat, vm: VarManager<Key>,
                      clauses: seq<Clause>, ghost kcs: seq<KClause<Key>>, ghost pcells: seq<Coord>)
    returns (r: Result<seq<Clause>, EncodeError>, ghost lc: seq<KClause<Key>>)
    requires |blocks| > 0
    requires vm.Valid() && clauses == ResolveAll(vm.ids, kcs)
    requires OnlyCellsMissing(vm.ids, kcs) && NegativesRegistered(vm.ids, kcs)
    requires CellsRegistered(vm.ids, pcells, ncolors) && CellsComplete(vm.ids, pcells, ncolors, |pcells|)
    modifies vm
    ensures vm.Valid() && Extends(old(vm.ids), vm.ids) && AddsNoCells(old(vm.ids), vm.ids)
    ensures r.Err? ==> Outcome(lidx, cells, pcells, blocks, ncolors, kcs) == Err(r.error)
    ensures r.Ok? ==>
              && Outcome(lidx, cells, pcells, blocks, ncolors, kcs) == Ok(lc)
              && r.value == ResolveAll(vm.ids, kcs + lc)
              && OnlyCellsMissing(vm.ids, kcs + lc) && NegativesRegistered(vm.ids, kcs + lc)
  {
    ghost var before := vm.ids;
    var fits, bStarts, bCols := RegisterBlocks(lidx, |cells|, blocks, ncolors, vm);
    ResolveAfterGrowth(before, vm.ids, kcs);
    if !fits {
      lc := [[]];
      assert ResolveAll(vm.ids, lc) == [[]];
      ResolveAllAppend(vm.ids, kcs, lc);
      OnlyCellsMissingAppend(vm.ids, kcs, lc);
      NegativesAppend(before, vm.ids, kcs, lc);
      return Ok(clauses + [[]]), lc;
    }
    if |clauses| == 0 || clauses[|clauses| - 1] == [] {
      lc := [];
      assert kcs + lc == kcs;
      NegativesAppend(before, vm.ids, kcs, lc);
      return Ok(clauses), lc;
    }
    assert kcs != [] && kcs[|kcs| - 1] != [];
    CellsKept(before, vm.ids, pcells, ncolors);
    NegativesAppend(before, vm.ids, kcs, []);
    assert kcs + [] == kcs;
    r := EncodeFitting(lidx, cells, blocks, ncolors, bStarts, bCols, vm, clauses, kcs, pcells);
    lc := LineClauses(lidx, cells, blocks, ncolors);
  }

  /** Steps 2b to 2e of a line whose blocks all fit, appended to the clauses so far. */
  method EncodeFitting(lidx: nat, cells: seq<Coord>, blocks: seq<Block>, ncolors: nat,
                       bStarts: seq<seq<int>>, bCols: seq<seq<int>>, vm: VarManager<Key>,
                       clauses: seq<Clause>, ghost kcs: seq<KClause<Key>>, ghost pcells: seq<Coord>)
    returns (r: Result<seq<Clause>, EncodeError>)
    requires vm.Valid() && Fits(|cells|, blocks)
    requires |bStarts| == |blocks| && BlockVars(vm.ids, lidx, blocks, |cells|, ncolors, bStarts, bCols)
    requires clauses == ResolveAll(vm.ids, kcs) && OnlyCellsMissing(vm.ids, kcs) && NegativesRegistered(vm.ids, kcs)
    requires CellsRegistered(vm.ids, pcells, ncolors) && CellsComplete(vm.ids, pcells, ncolors, |pcells|)
    ensures LineError(lidx, cells, pcells, blocks, ncolors).Some? ==> r == Err(LineError(lidx, cells, pcells, blocks, ncolors).value)
    ensures LineError(lidx, cells, pcells, blocks, ncolors).None? ==>
              && r == Ok(ResolveAll(vm.ids, kcs + LineClauses(lidx, cells, blocks, ncolors)))
              && OnlyCellsMissing(vm.ids, kcs + LineClauses(lidx, cells, blocks, ncolors))
              && NegativesRegistered(vm.ids, kcs + LineClauses(lidx, cells, blocks, ncolors))
  {
    GuardedMeaning(vm.ids, lidx, cells, pcells, blocks, ncolors, |cells|);
    var line := EmitLine(lidx, cells, blocks, ncolors, bStarts, bCols, vm);
    if line.Err? {
      return line;
    }
    ghost var lc := LineClauses(lidx, cells, blocks, ncolors);
    LineKeys(vm.ids, lidx, cells, blocks, ncolors, bStarts, bCols);
    ResolveAllAppend(vm.ids, kcs, lc);
    OnlyCellsMissingAppend(vm.ids, kcs, lc);
    NegativesAppend(vm.ids, vm.ids, kcs, lc);
    r := Ok(clauses + line.value);
  }

  /** An exception stops the loop over the lines: it is what the whole encoding raises. */
  lemma {:induction false} ErrPersists(p: Geometry.Puzzle, k: nat, n: nat)
    requires k <= n <= |p.lines| && Upto(p, k).Err?
    ensures Upto(p, n) == Upto(p, k)
    decreases n - k
  {
    if k < n {
      ErrPersists(p, k, n - 1);
    }
  }

  /** The integer clauses so far resolve the key-level ones, and the cell keys are in place. */
  ghost predicate Encoded(p: Geometry.Puzzle, ids: map<Key, nat>, clauses: seq<Clause>, kcs: seq<KClause<Key>>) {
    && clauses == ResolveAll(ids, kcs)
    && OnlyCellsMissing(ids, kcs) && NegativesRegistered(ids, kcs)
    && CellsRegistered(ids, p.cells, |p.colors|) && CellsComplete(ids, p.cells, |p.colors|, |p.cells|)
  }

  /** The first `lidx` lines were encoded into `clauses`, which resolve the key-level `kcs`. */
  ghost predicate Progress(p: Geometry.Puzzle, lidx: nat, ids: map<Key, nat>, clauses: seq<Clause>,
                           kcs: seq<KClause<Key>>) {
    lidx <= |p.lines| && Upto(p, lidx) == Ok(kcs) && Encoded(p, ids, clauses, kcs)
  }

  /** Line `lidx` of the puzzle: its clue parsed, then encoded after the clauses of the lines before it. */
  method EncodeStep(p: Geometry.Puzzle, lidx: nat, vm: VarManager<Key>, clauses: seq<Clause>, ghost kcs: seq<KClause<Key>>)
    returns (r: Result<seq<Clause>, EncodeError>, ghost kcs': seq<KClause<Key>>)
    requires lidx < |p.lines| && vm.Valid() && Progress(p, lidx, vm.ids, clauses, kcs)
    modifies vm
    ensures vm.Valid()
    ensures r.Err? ==> Upto(p, lidx + 1) == Err(r.error)
    ensures r.Ok? ==> Progress(p, lidx + 1, vm.ids, r.value, kcs')
  {
    var line := p.lines[lidx];
    var parsed := ParseClueLine(line.clue);
    if parsed.Err? {
      return Err(BadClue(parsed.error)), [];
    }
    ghost var before := vm.ids;
    ghost var lc;
    r, lc := EncodeLine(lidx, line.cells, parsed.value, |p.colors|, vm, clauses, kcs, p.cells);
    CellsKept(before, vm.ids, p.cells, |p.colors|);
    kcs' := kcs + lc;
  }

  /** The loop over the lines, started after the cell clauses. */
  method EncodeLines(p: Geometry.Puzzle, vm: VarManager<Key>, cellClauses: seq<Clause>)
    returns (r: Result<seq<Clause>, EncodeError>, ghost kcs: seq<KClause<Key>>)
    requires vm.Valid() && Progress(p, 0, vm.ids, cellClauses, CellClauses(p.cells, |p.colors|))
    modifies vm
    ensures vm.Valid()
    ensures r.Err? ==> Spec(p) == Err(r.error)
    ensures r.Ok? ==> Progress(p, |p.lines|, vm.ids, r.value, kcs)
  {
    var clauses := cellClauses;
    kcs := CellClauses(p.cells, |p.colors|);
    for lidx := 0 to |p.lines|
      invariant vm.Valid() && Progress(p, lidx, vm.ids, clauses, kcs)
    {
      var next;
      next, kcs := EncodeStep(p, lidx, vm, clauses, kcs);
      if next.Err? {
        ErrPersists(p, lidx + 1, |p.lines|);
        return next, kcs;
      }
      clauses := next.value;
    }
    r := Ok(clauses);
  }

  /** `encode(puzzle, vm)` with a fresh registry, as `solvers/run.py` calls it. */
  method Encode(p: Geometry.Puzzle, vm: VarManager<Key>) returns (r: Result<seq<Clause>, EncodeError>)
    requires vm.Valid() && vm.order == []
    modifies vm
    ensures vm.Valid()
    ensures match Spec(p)
            case Ok(kcs) =>
              && r == Ok(ResolveAll(vm.ids, kcs))
              && (forall m :: Satisfies(m, r.value) <==> Models(Decode(m, vm.ids), kcs))
              && Transferable(vm.ids, p.cells, |p.colors|, kcs)
            case Err(e) => r == Err(e)
  {
    var clauses := EncodeCells(p.cells, |p.colors|, vm);
    ghost var kcs;
    r, kcs := EncodeLines(p, vm, clauses);
    if r.Ok? {
      vm.IdsInjectiveAndDense();
      forall m ensures Satisfies(m, r.value) <==> Models(Decode(m, vm.ids), kcs) {
        SatisfiesIffModels(m, vm.ids, kcs);
      }
    }
  }
}
