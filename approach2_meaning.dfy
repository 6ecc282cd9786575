/**
 * What the instance of approach 2 means. In every model the start and colour variables of each
 * block select one offset and one colour, and those form an admissible arrangement whose painting
 * the line shows. Conversely, a colouring that shows an admissible arrangement on every line
 * extends to a model by setting exactly the arrangement's start and colour variables.
 */
module Approach2Meaning {
  import opened Wrappers
  import opened Seqs
  import opened Keys
  import opened Cnf
  import opened Clue
  import opened Arrangements
  import opened Encoding
  import opened Approach2
  import Approach1
  import Geometry

  // ---------------------------------------------------------------------------------------------
  // Exactly one variable of a group

  /** The first position from `i` on whose key is true, or `|ks|` when there is none. */
  function FirstIn<K>(a: set<K>, ks: seq<K>, i: nat): (r: nat)
    requires i <= |ks|
    ensures i <= r <= |ks| && (r < |ks| ==> ks[r] in a)
    ensures forall j :: i <= j < r ==> ks[j] !in a
    decreases |ks| - i
  {
    if i == |ks| || ks[i] in a then i else FirstIn(a, ks, i + 1)
  }

  /** Position `i` holds the only true key of `ks`. */
  ghost predicate OnlyAt<K>(a: set<K>, ks: seq<K>, i: nat) {
    i < |ks| && ks[i] in a && forall j :: 0 <= j < |ks| && ks[j] in a ==> j == i
  }

  /** The exactly-one clauses hold exactly when the first true key is the only one. */
  lemma ExactlyOneAt<K>(a: set<K>, ks: seq<K>)
    ensures Models(a, ExactlyOne(ks)) <==> OnlyAt(a, ks, FirstIn(a, ks, 0))
  {
    ExactlyOneMeaning(a, ks);
    var r := FirstIn(a, ks, 0);
    if Models(a, ExactlyOne(ks)) {
      var i :| 0 <= i < |ks| && ks[i] in a;
      assert r <= i;
      forall j | 0 <= j < |ks| && ks[j] in a ensures j == r {
        assert r <= j;
      }
    }
  }

  /** The only true key of a group is its first true key. */
  lemma OnlyAtFirst<K>(a: set<K>, ks: seq<K>, i: nat)
    requires OnlyAt(a, ks, i)
    ensures FirstIn(a, ks, 0) == i
  {
  }

  /** A unit clause holds exactly when its key is true. */
  lemma UnitHolds<K>(a: set<K>, k: K)
    ensures Models(a, [[Pos(k)]]) <==> k in a
  {
    var unit := [Pos(k)];
    assert unit in [unit];
    if ClauseHolds(a, unit) {
      var l :| l in unit && LitHolds(a, l);
    }
    if k in a {
      assert unit[0] in unit && LitHolds(a, unit[0]);
    }
  }

  // ---------------------------------------------------------------------------------------------
  // Step 2b: the offset and the colour of every block

  /**
   * The colour clauses of a block hold exactly when one foreground colour variable holds, and it
   * is the fixed colour when the clue fixes one.
   */
  lemma ColourClausesMeaning(a: set<Key>, lidx: nat, b: nat, blk: Block, ncolors: nat)
    requires blk.colour.Some? ==> blk.colour.value < Foregrounds(ncolors)
    ensures var cols := ColourKeys(lidx, b, ncolors);
            Models(a, ColourClauses(lidx, b, blk, ncolors)) <==>
            OnlyAt(a, cols, FirstIn(a, cols, 0)) &&
            (blk.colour.Some? ==> FirstIn(a, cols, 0) == blk.colour.value)
  {
    var cols := ColourKeys(lidx, b, ncolors);
    var pairs := if |cols| > 1 then PairsBefore(cols, |cols|) else [];
    assert pairs == PairsBefore(cols, |cols|) by {
      if |cols| == 1 {
        assert PairsBefore(cols, 1) == PairsBefore(cols, 0) + PairsFrom(cols, 0, 1);
      }
    }
    var alo := AtLeastOne(cols);
    ExactlyOneAt(a, cols);
    ModelsAppend(a, [alo], pairs);
    match blk.colour
    case None =>
      assert ColourClauses(lidx, b, blk, ncolors) == ExactlyOne(cols);
    case Some(f) =>
      var unit: KClause<Key> := [Pos(BCol(lidx, b, f + 1))];
      assert ColourClauses(lidx, b, blk, ncolors) == [unit] + pairs;
      ModelsAppend(a, [unit], pairs);
      UnitHolds(a, cols[f]);
      if cols[f] in a {
        assert alo[f] in alo && LitHolds(a, alo[f]);
      }
  }

  /**
   * The clauses of one block hold exactly when one offset and one colour hold, the colour being the
   * fixed colour when the clue fixes one.
   */
  lemma BlockClausesMeaning(a: set<Key>, lidx: nat, b: nat, blk: Block, length: nat, ncolors: nat)
    requires blk.size <= length && (blk.colour.Some? ==> blk.colour.value < Foregrounds(ncolors))
    ensures var starts, cols := StartKeys(lidx, b, Room(length, blk.size)), ColourKeys(lidx, b, ncolors);
            Models(a, BlockClauses(lidx, b, blk, length, ncolors)) <==>
            OnlyAt(a, starts, FirstIn(a, starts, 0)) && OnlyAt(a, cols, FirstIn(a, cols, 0)) &&
            (blk.colour.Some? ==> FirstIn(a, cols, 0) == blk.colour.value)
  {
    var starts := StartKeys(lidx, b, Room(length, blk.size));
    ExactlyOneAt(a, starts);
    ColourClausesMeaning(a, lidx, b, blk, ncolors);
    ModelsAppend(a, ExactlyOne(starts), ColourClauses(lidx, b, blk, ncolors));
  }

  /** The offsets and colours a model selects for the blocks of line `lidx`. */
  function Chosen(a: set<Key>, lidx: nat, blocks: seq<Block>, length: nat, ncolors: nat): (x: Arrangement)
    requires Fits(length, blocks)
    ensures |x.starts| == |blocks| && |x.colours| == |blocks|
  {
    Arrangement(
      seq(|blocks|, b requires 0 <= b < |blocks| => FirstIn(a, StartKeys(lidx, b, Room(length, blocks[b].size)), 0)),
      seq(|blocks|, b requires 0 <= b < |blocks| => FirstIn(a, ColourKeys(lidx, b, ncolors), 0)))
  }

  /**
   * Under `a` every block of line `lidx` holds exactly the offset and the colour `x` gives it, and
   * a fixed colour is the one `x` gives.
   */
  ghost predicate Selected(a: set<Key>, lidx: nat, blocks: seq<Block>, length: nat, ncolors: nat, x: Arrangement)
    requires Fits(length, blocks)
  {
    |x.starts| == |blocks| && |x.colours| == |blocks| &&
    forall b :: 0 <= b < |blocks| ==>
      && OnlyAt(a, StartKeys(lidx, b, Room(length, blocks[b].size)), x.starts[b])
      && OnlyAt(a, ColourKeys(lidx, b, ncolors), x.colours[b])
      && (blocks[b].colour.Some? ==> x.colours[b] == blocks[b].colour.value)
  }

  /** The arrangement a model selects is the one it chooses. */
  lemma SelectedIsChosen(a: set<Key>, lidx: nat, blocks: seq<Block>, length: nat, ncolors: nat, x: Arrangement)
    requires Fits(length, blocks) && Selected(a, lidx, blocks, length, ncolors, x)
    ensures x == Chosen(a, lidx, blocks, length, ncolors)
  {
    var y := Chosen(a, lidx, blocks, length, ncolors);
    forall b | 0 <= b < |blocks| ensures x.starts[b] == y.starts[b] && x.colours[b] == y.colours[b] {
      OnlyAtFirst(a, StartKeys(lidx, b, Room(length, blocks[b].size)), x.starts[b]);
      OnlyAtFirst(a, ColourKeys(lidx, b, ncolors), x.colours[b]);
    }
  }

  /**
   * Step 2b holds exactly when every block of the line holds one offset and one colour, the fixed
   * one where the clue fixes it.
   */
  lemma SelectionMeaning(a: set<Key>, lidx: nat, blocks: seq<Block>, length: nat, ncolors: nat)
    requires Fits(length, blocks) && PaletteFrom(lidx, blocks, ncolors, 0) == None
    ensures Models(a, Selection(lidx, blocks, length, ncolors)) <==>
            Selected(a, lidx, blocks, length, ncolors, Chosen(a, lidx, blocks, length, ncolors))
  {
    var pieces := seq(|blocks|, b requires 0 <= b < |blocks| => BlockClauses(lidx, b, blocks[b], length, ncolors));
    var x := Chosen(a, lidx, blocks, length, ncolors);
    forall b | 0 <= b < |blocks|
      ensures Models(a, pieces[b]) <==>
              && OnlyAt(a, StartKeys(lidx, b, Room(length, blocks[b].size)), x.starts[b])
              && OnlyAt(a, ColourKeys(lidx, b, ncolors), x.colours[b])
              && (blocks[b].colour.Some? ==> x.colours[b] == blocks[b].colour.value)
    {
      PaletteFromNone(lidx, blocks, ncolors, 0, b);
      BlockClausesMeaning(a, lidx, b, blocks[b], length, ncolors);
    }
    ModelsFlat(a, pieces);
  }

  /** The concatenation of groups of clauses holds exactly when every group holds. */
  lemma {:induction false} ModelsFlat<K>(a: set<K>, css: seq<seq<KClause<K>>>)
    ensures Models(a, Flat(css)) <==> forall i :: 0 <= i < |css| ==> Models(a, css[i])
  {
    if css != [] {
      var pre := css[..|css| - 1];
      ModelsFlat(a, pre);
      ModelsAppend(a, Flat(pre), css[|css| - 1]);
      assert forall i :: 0 <= i < |pre| ==> pre[i] == css[i];
    }
  }

  /** What `Selected` says about one block, spelled out on its keys. */
  lemma SelectedAt(a: set<Key>, lidx: nat, blocks: seq<Block>, length: nat, ncolors: nat, x: Arrangement, b: nat)
    requires Fits(length, blocks) && Selected(a, lidx, blocks, length, ncolors, x) && b < |blocks|
    ensures x.starts[b] < Room(length, blocks[b].size) && Start(lidx, b, x.starts[b]) in a
    ensures forall p: nat :: p < Room(length, blocks[b].size) && Start(lidx, b, p) in a ==> p == x.starts[b]
    ensures x.colours[b] < Foregrounds(ncolors) && BCol(lidx, b, x.colours[b] + 1) in a
    ensures forall col :: 1 <= col <= Foregrounds(ncolors) && BCol(lidx, b, col) in a ==> col == x.colours[b] + 1
    ensures blocks[b].colour.Some? ==> x.colours[b] == blocks[b].colour.value
  {
    var starts, cols := StartKeys(lidx, b, Room(length, blocks[b].size)), ColourKeys(lidx, b, ncolors);
    forall p: nat | p < Room(length, blocks[b].size) && Start(lidx, b, p) in a ensures p == x.starts[b] {
      assert starts[p] == Start(lidx, b, p);
    }
    forall col | 1 <= col <= Foregrounds(ncolors) && BCol(lidx, b, col) in a ensures col == x.colours[b] + 1 {
      assert cols[col - 1] == BCol(lidx, b, col);
    }
  }

  // ---------------------------------------------------------------------------------------------
  // Step 2c: a started block paints its cells

  /** Every cell a block covers under `x` holds the block's colour, shifted past the background. */
  ghost predicate Paints(a: set<Key>, cells: seq<Coord>, blocks: seq<Block>, x: Arrangement)
    requires |x.starts| == |blocks| && |x.colours| == |blocks|
  {
    forall b, t :: 0 <= b < |blocks| && x.starts[b] <= t < x.starts[b] + blocks[b].size && t < |cells| ==>
      Cell(cells[t], x.colours[b] + 1) in a
  }

  /** Once the offsets and colours are selected, step 2c holds exactly when every block paints its cells. */
  lemma ForwardMeaning(a: set<Key>, lidx: nat, cells: seq<Coord>, blocks: seq<Block>, ncolors: nat, x: Arrangement)
    requires Fits(|cells|, blocks) && Selected(a, lidx, blocks, |cells|, ncolors, x)
    ensures Models(a, Forward(lidx, cells, blocks, ncolors)) <==> Paints(a, cells, blocks, x)
  {
    var fwd := Forward(lidx, cells, blocks, ncolors);
    if Models(a, fwd) {
      forall b, t | 0 <= b < |blocks| && x.starts[b] <= t < x.starts[b] + blocks[b].size && t < |cells|
        ensures Cell(cells[t], x.colours[b] + 1) in a
      {
        SelectedAt(a, lidx, blocks, |cells|, ncolors, x, b);
        ForwardMember(lidx, cells, blocks, ncolors, b, x.starts[b], t, x.colours[b] + 1);
        var c := ForwardClause(lidx, b, x.starts[b], cells[t], x.colours[b] + 1);
        assert ClauseHolds(a, c);
        var l :| l in c && LitHolds(a, l);
      }
    }
    if Paints(a, cells, blocks, x) {
      forall c | c in fwd ensures ClauseHolds(a, c) {
        var b, p, t, col := ForwardShape(lidx, cells, blocks, ncolors, c);
        SelectedAt(a, lidx, blocks, |cells|, ncolors, x, b);
        if Start(lidx, b, p) !in a {
          assert c[0] in c && LitHolds(a, c[0]);
        } else if BCol(lidx, b, col) !in a {
          assert c[1] in c && LitHolds(a, c[1]);
        } else {
          assert p == x.starts[b] && col == x.colours[b] + 1;
          assert c[2] in c && LitHolds(a, c[2]);
        }
      }
    }
  }

  // ---------------------------------------------------------------------------------------------
  // Step 2d: order and spacing of consecutive blocks

  /**
   * Once the offsets and colours are selected, step 2d holds exactly when the offsets place the
   * blocks in order without overlap and two consecutive blocks of one colour do not touch.
   */
  lemma SpacingMeaning(a: set<Key>, lidx: nat, blocks: seq<Block>, length: nat, ncolors: nat, x: Arrangement)
    requires Fits(length, blocks) && Selected(a, lidx, blocks, length, ncolors, x)
    ensures Models(a, Spacing(lidx, blocks, length, ncolors)) <==>
            ValidPlacement(length, blocks, x.starts) && Spaced(x.starts, blocks, x.colours)
  {
    var spc := Spacing(lidx, blocks, length, ncolors);
    forall b | 0 <= b < |blocks| ensures x.starts[b] + blocks[b].size <= length {
      SelectedAt(a, lidx, blocks, length, ncolors, x, b);
    }
    if Models(a, spc) {
      forall j | 0 < j < |blocks|
        ensures x.starts[j - 1] + blocks[j - 1].size <= x.starts[j]
        ensures x.colours[j] == x.colours[j - 1] ==> x.starts[j - 1] + blocks[j - 1].size + 1 <= x.starts[j]
      {
        SpacedAt(a, lidx, blocks, length, ncolors, x, j);
      }
    }
    if ValidPlacement(length, blocks, x.starts) && Spaced(x.starts, blocks, x.colours) {
      forall c | c in spc ensures ClauseHolds(a, c) {
        var b, p, q := SpacingShape(lidx, blocks, length, ncolors, c);
        SpacingAllowed(a, lidx, blocks, length, ncolors, x, b, p, q, c);
      }
    }
  }

  /** Under a model of step 2d, the selected blocks `j - 1` and `j` are ordered, with a gap when they share a colour. */
  lemma SpacedAt(a: set<Key>, lidx: nat, blocks: seq<Block>, length: nat, ncolors: nat, x: Arrangement, j: nat)
    requires Fits(length, blocks) && Selected(a, lidx, blocks, length, ncolors, x)
    requires Models(a, Spacing(lidx, blocks, length, ncolors)) && 0 < j < |blocks|
    ensures x.starts[j - 1] + blocks[j - 1].size <= x.starts[j]
    ensures x.colours[j] == x.colours[j - 1] ==> x.starts[j - 1] + blocks[j - 1].size + 1 <= x.starts[j]
  {
    var b := j - 1;
    var p, q, size := x.starts[b], x.starts[j], blocks[b].size;
    SelectedAt(a, lidx, blocks, length, ncolors, x, b);
    SelectedAt(a, lidx, blocks, length, ncolors, x, j);
    if q < p + size {
      var c := [Neg(Start(lidx, b, p)), Neg(Start(lidx, b + 1, q))];
      assert c in SpacingPair(lidx, b, p, q, size, ncolors);
      SpacingMember(lidx, blocks, length, ncolors, b, p, q, c);
    } else if q == p + size && x.colours[j] == x.colours[b] {
      var c := TouchClause(lidx, b, p, q, x.colours[b] + 1);
      assert Touch(lidx, b, p, q, ncolors)[x.colours[b]] == c;
      SpacingMember(lidx, blocks, length, ncolors, b, p, q, c);
    }
  }

  /** A clause of step 2d for one pair of offsets holds under a placement that is ordered and spaced. */
  lemma SpacingAllowed(a: set<Key>, lidx: nat, blocks: seq<Block>, length: nat, ncolors: nat, x: Arrangement,
                       b: nat, p: nat, q: nat, c: KClause<Key>)
    requires Fits(length, blocks) && Selected(a, lidx, blocks, length, ncolors, x)
    requires ValidPlacement(length, blocks, x.starts) && Spaced(x.starts, blocks, x.colours)
    requires b + 1 < |blocks| && p < Room(length, blocks[b].size) && q < Room(length, blocks[b + 1].size)
    requires c in SpacingPair(lidx, b, p, q, blocks[b].size, ncolors)
    ensures ClauseHolds(a, c)
  {
    var size := blocks[b].size;
    SelectedAt(a, lidx, blocks, length, ncolors, x, b);
    SelectedAt(a, lidx, blocks, length, ncolors, x, b + 1);
    assert x.starts[b] + size <= x.starts[b + 1];
    if q < p + size {
      assert c == [Neg(Start(lidx, b, p)), Neg(Start(lidx, b + 1, q))];
      if Start(lidx, b, p) !in a {
        assert c[0] in c && LitHolds(a, c[0]);
      } else {
        assert c[1] in c && LitHolds(a, c[1]);
      }
    } else {
      assert q == p + size;
      var cs := Touch(lidx, b, p, q, ncolors);
      var i :| 0 <= i < |cs| && cs[i] == c;
      if Start(lidx, b, p) !in a {
        assert c[0] in c && LitHolds(a, c[0]);
      } else if Start(lidx, b + 1, q) !in a {
        assert c[1] in c && LitHolds(a, c[1]);
      } else if BCol(lidx, b, i + 1) !in a {
        assert c[2] in c && LitHolds(a, c[2]);
      } else {
        assert x.colours[b] != x.colours[b + 1];
        assert c[3] in c && LitHolds(a, c[3]);
      }
    }
  }

  // ---------------------------------------------------------------------------------------------
  // Step 2e: a cell is background exactly when no block covers it

  /** Some block of `x` covers cell `pos`. */
  ghost predicate CoveredBy(blocks: seq<Block>, x: Arrangement, pos: nat)
    requires |x.starts| == |blocks|
  {
    exists b :: 0 <= b < |blocks| && x.starts[b] <= pos < x.starts[b] + blocks[b].size
  }

  /** Every cell of the line holds the background exactly when no block of `x` covers it. */
  ghost predicate BackgroundExactly(a: set<Key>, cells: seq<Coord>, blocks: seq<Block>, x: Arrangement)
    requires |x.starts| == |blocks|
  {
    forall pos :: 0 <= pos < |cells| ==> (Cell(cells[pos], 0) in a <==> !CoveredBy(blocks, x, pos))
  }

  /** The clauses of one cell hold exactly when its background holds just when none of its covering starts does. */
  lemma BackgroundCellMeaning(a: set<Key>, coord: Coord, cover: seq<Key>)
    ensures Models(a, BackgroundCell(coord, cover)) <==>
            (Cell(coord, 0) in a <==> forall i :: 0 <= i < |cover| ==> cover[i] !in a)
  {
    var ex := Exclusions(coord, cover);
    var last := [Pos(Cell(coord, 0))] + AtLeastOne(cover);
    var cs := BackgroundCell(coord, cover);
    assert cs == ex + [last];
    ModelsAppend(a, ex, [last]);
    assert last in [last];
    if Models(a, cs) {
      if Cell(coord, 0) in a {
        forall i | 0 <= i < |cover| ensures cover[i] !in a {
          assert ClauseHolds(a, ex[i]);
          var l :| l in ex[i] && LitHolds(a, l);
        }
      } else {
        var l :| l in last && LitHolds(a, l);
        var j :| 0 <= j < |last| && last[j] == l;
        assert cover[j - 1] in a;
      }
    }
    if Cell(coord, 0) in a <==> forall i :: 0 <= i < |cover| ==> cover[i] !in a {
      forall c | c in ex ensures ClauseHolds(a, c) {
        var i :| 0 <= i < |ex| && ex[i] == c;
        if Cell(coord, 0) in a {
          assert c[1] in c && LitHolds(a, c[1]);
        } else {
          assert c[0] in c && LitHolds(a, c[0]);
        }
      }
      if Cell(coord, 0) in a {
        assert last[0] in last && LitHolds(a, last[0]);
      } else {
        var i :| 0 <= i < |cover| && cover[i] in a;
        assert last[i + 1] in last && LitHolds(a, last[i + 1]);
      }
    }
  }

  /** A true covering start of a cell is the selected start of a block that covers it. */
  lemma CoverHoldsBlock(a: set<Key>, lidx: nat, blocks: seq<Block>, length: nat, ncolors: nat, x: Arrangement,
                        pos: nat, k: Key)
    requires Fits(length, blocks) && Selected(a, lidx, blocks, length, ncolors, x)
    requires k in Cover(lidx, blocks, length, pos) && k in a
    ensures CoveredBy(blocks, x, pos)
  {
    CoverMembers(lidx, blocks, length, pos, |blocks|, k);
    SelectedAt(a, lidx, blocks, length, ncolors, x, k.block);
    assert k.pos == x.starts[k.block];
  }

  /** The selected start of a block that covers a cell is one of its covering starts. */
  lemma BlockHoldsCover(a: set<Key>, lidx: nat, blocks: seq<Block>, length: nat, ncolors: nat, x: Arrangement,
                        pos: nat, b: nat)
    requires Fits(length, blocks) && Selected(a, lidx, blocks, length, ncolors, x)
    requires b < |blocks| && x.starts[b] <= pos < x.starts[b] + blocks[b].size
    ensures Start(lidx, b, x.starts[b]) in Cover(lidx, blocks, length, pos) && Start(lidx, b, x.starts[b]) in a
  {
    SelectedAt(a, lidx, blocks, length, ncolors, x, b);
    CoverMembers(lidx, blocks, length, pos, |blocks|, Start(lidx, b, x.starts[b]));
  }

  /** Once the offsets are selected, some covering start of a cell holds exactly when a block covers it. */
  lemma CoverHolds(a: set<Key>, lidx: nat, blocks: seq<Block>, length: nat, ncolors: nat, x: Arrangement, pos: nat)
    requires Fits(length, blocks) && Selected(a, lidx, blocks, length, ncolors, x)
    ensures var cover := Cover(lidx, blocks, length, pos);
            (exists i :: 0 <= i < |cover| && cover[i] in a) <==> CoveredBy(blocks, x, pos)
  {
    var cover := Cover(lidx, blocks, length, pos);
    if i :| 0 <= i < |cover| && cover[i] in a {
      CoverHoldsBlock(a, lidx, blocks, length, ncolors, x, pos, cover[i]);
    }
    if CoveredBy(blocks, x, pos) {
      var b :| 0 <= b < |blocks| && x.starts[b] <= pos < x.starts[b] + blocks[b].size;
      BlockHoldsCover(a, lidx, blocks, length, ncolors, x, pos, b);
      var i :| 0 <= i < |cover| && cover[i] == Start(lidx, b, x.starts[b]);
    }
  }

  /** Once the offsets are selected, step 2e holds exactly when the uncovered cells are the background ones. */
  lemma BackgroundMeaning(a: set<Key>, lidx: nat, cells: seq<Coord>, blocks: seq<Block>, ncolors: nat, x: Arrangement)
    requires Fits(|cells|, blocks) && Selected(a, lidx, blocks, |cells|, ncolors, x)
    ensures Models(a, Background(lidx, cells, blocks)) <==> BackgroundExactly(a, cells, blocks, x)
  {
    var css := BackgroundCells(lidx, cells, blocks);
    ModelsFlat(a, css);
    forall pos | 0 <= pos < |cells|
      ensures Models(a, css[pos]) <==> (Cell(cells[pos], 0) in a <==> !CoveredBy(blocks, x, pos))
    {
      BackgroundCellMeaning(a, cells[pos], Cover(lidx, blocks, |cells|, pos));
      CoverHolds(a, lidx, blocks, |cells|, ncolors, x, pos);
    }
  }

  // ---------------------------------------------------------------------------------------------
  // A whole line

  /** The four steps of a line, split into their meanings. */
  lemma LineClausesMeaning(a: set<Key>, lidx: nat, cells: seq<Coord>, blocks: seq<Block>, ncolors: nat, x: Arrangement)
    requires Fits(|cells|, blocks) && PaletteFrom(lidx, blocks, ncolors, 0) == None
    requires Selected(a, lidx, blocks, |cells|, ncolors, x)
    ensures Models(a, LineClauses(lidx, cells, blocks, ncolors)) <==>
            && Paints(a, cells, blocks, x)
            && ValidPlacement(|cells|, blocks, x.starts) && Spaced(x.starts, blocks, x.colours)
            && BackgroundExactly(a, cells, blocks, x)
  {
    var s1, s2, s3, s4 := Selection(lidx, blocks, |cells|, ncolors), Forward(lidx, cells, blocks, ncolors),
                          Spacing(lidx, blocks, |cells|, ncolors), Background(lidx, cells, blocks);
    ModelsAppend(a, s1 + s2 + s3, s4);
    ModelsAppend(a, s1 + s2, s3);
    ModelsAppend(a, s1, s2);
    SelectedIsChosen(a, lidx, blocks, |cells|, ncolors, x);
    SelectionMeaning(a, lidx, blocks, |cells|, ncolors);
    ForwardMeaning(a, lidx, cells, blocks, ncolors, x);
    SpacingMeaning(a, lidx, blocks, |cells|, ncolors, x);
    BackgroundMeaning(a, lidx, cells, blocks, ncolors, x);
  }

  /**
   * Soundness of one line: a model of its clauses selects an admissible arrangement of the clue
   * whose painting the line shows, with the background on exactly the uncovered cells.
   */
  lemma LineSound(a: set<Key>, lidx: nat, cells: seq<Coord>, blocks: seq<Block>, ncolors: nat) returns (x: Arrangement)
    requires Fits(|cells|, blocks) && PaletteFrom(lidx, blocks, ncolors, 0) == None
    requires Models(a, LineClauses(lidx, cells, blocks, ncolors))
    ensures x == Chosen(a, lidx, blocks, |cells|, ncolors) && Selected(a, lidx, blocks, |cells|, ncolors, x)
    ensures Admissible(|cells|, blocks, ncolors, x) && Approach1.Displays(a, cells, blocks, x)
    ensures BackgroundExactly(a, cells, blocks, x)
  {
    x := Chosen(a, lidx, blocks, |cells|, ncolors);
    var s1 := Selection(lidx, blocks, |cells|, ncolors);
    var rest := Forward(lidx, cells, blocks, ncolors) + Spacing(lidx, blocks, |cells|, ncolors) + Background(lidx, cells, blocks);
    assert LineClauses(lidx, cells, blocks, ncolors) == s1 + rest;
    ModelsAppend(a, s1, rest);
    SelectionMeaning(a, lidx, blocks, |cells|, ncolors);
    LineClausesMeaning(a, lidx, cells, blocks, ncolors, x);
    SelectedColours(a, lidx, blocks, |cells|, ncolors, x);
    PaintsDisplays(a, cells, blocks, x);
  }

  /** The selected colours are allowed for their blocks. */
  lemma SelectedColours(a: set<Key>, lidx: nat, blocks: seq<Block>, length: nat, ncolors: nat, x: Arrangement)
    requires Fits(length, blocks) && Selected(a, lidx, blocks, length, ncolors, x)
    ensures ValidColours(blocks, ncolors, x.colours)
  {
    forall b | 0 <= b < |blocks| ensures ColourFits(blocks[b], ncolors, x.colours[b]) {
      SelectedAt(a, lidx, blocks, length, ncolors, x, b);
    }
  }

  /** Painted blocks and background elsewhere show the painting of the arrangement. */
  lemma PaintsDisplays(a: set<Key>, cells: seq<Coord>, blocks: seq<Block>, x: Arrangement)
    requires ValidPlacement(|cells|, blocks, x.starts) && |x.colours| == |blocks|
    requires Paints(a, cells, blocks, x) && BackgroundExactly(a, cells, blocks, x)
    ensures Approach1.Displays(a, cells, blocks, x)
  {
    forall q | 0 <= q < |cells| ensures Cell(cells[q], Painted(|cells|, blocks, x)[q]) in a {
      PaintedMeaning(|cells|, blocks, x, q);
    }
  }

  /** A shown painting paints every block's cells; with no background under a block, it is background exactly elsewhere. */
  lemma DisplaysPaints(a: set<Key>, cells: seq<Coord>, blocks: seq<Block>, x: Arrangement)
    requires ValidPlacement(|cells|, blocks, x.starts) && Approach1.Displays(a, cells, blocks, x)
    requires forall pos :: 0 <= pos < |cells| && CoveredBy(blocks, x, pos) ==> Cell(cells[pos], 0) !in a
    ensures Paints(a, cells, blocks, x) && BackgroundExactly(a, cells, blocks, x)
  {
    forall b, t | 0 <= b < |blocks| && x.starts[b] <= t < x.starts[b] + blocks[b].size && t < |cells|
      ensures Cell(cells[t], x.colours[b] + 1) in a
    {
      PaintedMeaning(|cells|, blocks, x, t);
    }
    forall pos | 0 <= pos < |cells| ensures Cell(cells[pos], 0) in a <==> !CoveredBy(blocks, x, pos) {
      PaintedMeaning(|cells|, blocks, x, pos);
    }
  }

  /**
   * The assignment `a` with the start and colour variables of line `lidx` replaced by those of
   * the arrangement `x`.
   */
  ghost function Choose(a: set<Key>, lidx: nat, x: Arrangement): (a': set<Key>)
    ensures forall k: Key :: !((k.Start? || k.BCol?) && k.line == lidx) ==> (k in a' <==> k in a)
    ensures forall b: nat, p: nat :: Start(lidx, b, p) in a' <==> b < |x.starts| && p == x.starts[b]
    ensures forall b: nat, c: nat :: BCol(lidx, b, c) in a' <==> b < |x.colours| && c == x.colours[b] + 1
  {
    (set k | k in a && !((k.Start? || k.BCol?) && k.line == lidx)) +
    (set b | 0 <= b < |x.starts| :: Start(lidx, b, x.starts[b])) +
    (set b | 0 <= b < |x.colours| :: BCol(lidx, b, x.colours[b] + 1))
  }

  /** An admissible arrangement, chosen in full, selects itself. */
  lemma ChooseSelects(a: set<Key>, lidx: nat, blocks: seq<Block>, length: nat, ncolors: nat, x: Arrangement)
    requires Fits(length, blocks) && PaletteFrom(lidx, blocks, ncolors, 0) == None
    requires Admissible(length, blocks, ncolors, x)
    ensures Selected(Choose(a, lidx, x), lidx, blocks, length, ncolors, x)
  {
    var a' := Choose(a, lidx, x);
    forall b | 0 <= b < |blocks|
      ensures OnlyAt(a', StartKeys(lidx, b, Room(length, blocks[b].size)), x.starts[b])
      ensures OnlyAt(a', ColourKeys(lidx, b, ncolors), x.colours[b])
    {
      PaletteFromNone(lidx, blocks, ncolors, 0, b);
      assert ColourFits(blocks[b], ncolors, x.colours[b]);
    }
  }

  /**
   * Completeness of one line: when the line shows an admissible arrangement `x` and no covered cell
   * holds the background, choosing the start and colour variables of `x` satisfies the line's clauses.
   */
  lemma LineComplete(a: set<Key>, lidx: nat, cells: seq<Coord>, blocks: seq<Block>, ncolors: nat, x: Arrangement)
    requires Fits(|cells|, blocks) && PaletteFrom(lidx, blocks, ncolors, 0) == None
    requires Admissible(|cells|, blocks, ncolors, x) && Approach1.Displays(a, cells, blocks, x)
    requires forall pos :: 0 <= pos < |cells| && CoveredBy(blocks, x, pos) ==> Cell(cells[pos], 0) !in a
    ensures Models(Choose(a, lidx, x), LineClauses(lidx, cells, blocks, ncolors))
  {
    var a' := Choose(a, lidx, x);
    ChooseSelects(a, lidx, blocks, |cells|, ncolors, x);
    assert Approach1.Displays(a', cells, blocks, x) by {
      forall q | 0 <= q < |cells| ensures Cell(cells[q], Painted(|cells|, blocks, x)[q]) in a' {
        assert Cell(cells[q], Painted(|cells|, blocks, x)[q]) in a;
      }
    }
    DisplaysPaints(a', cells, blocks, x);
    LineClausesMeaning(a', lidx, cells, blocks, ncolors, x);
  }

  // ---------------------------------------------------------------------------------------------
  // Lines without blocks

  /** The unit clauses of a line without blocks hold exactly when every cell of it is background. */
  lemma UnitsMeaning(a: set<Key>, cells: seq<Coord>)
    ensures Models(a, Units(cells)) <==> forall pos :: 0 <= pos < |cells| ==> Cell(cells[pos], 0) in a
  {
    var us := Units(cells);
    if Models(a, us) {
      forall pos | 0 <= pos < |cells| ensures Cell(cells[pos], 0) in a {
        assert ClauseHolds(a, us[pos]);
        var l :| l in us[pos] && LitHolds(a, l);
      }
    }
    if forall pos :: 0 <= pos < |cells| ==> Cell(cells[pos], 0) in a {
      forall c | c in us ensures ClauseHolds(a, c) {
        var pos :| 0 <= pos < |cells| && us[pos] == c;
        assert c[0] in c && LitHolds(a, c[0]);
      }
    }
  }

  /** The only arrangement of an empty clue paints nothing, so its line shows the background everywhere. */
  lemma EmptyClueShown(a: set<Key>, cells: seq<Coord>, ncolors: nat)
    ensures Admissible(|cells|, [], ncolors, Arrangement([], []))
    ensures Approach1.Displays(a, cells, [], Arrangement([], [])) <==>
            forall pos :: 0 <= pos < |cells| ==> Cell(cells[pos], 0) in a
  {
    var x := Arrangement([], []);
    forall q | 0 <= q < |cells| ensures Painted(|cells|, [], x)[q] == 0 {
      assert Painted(|cells|, [], x)[q] == PaintedAt([], x, 0, q);
    }
  }

  // ---------------------------------------------------------------------------------------------
  // The puzzle

  /** The clauses after `k` lines are among the clauses after `n >= k` lines. */
  lemma {:induction false} UptoGrows(p: Geometry.Puzzle, k: nat, n: nat)
    requires k <= n <= |p.lines| && Upto(p, n).Ok?
    ensures Upto(p, k).Ok? && forall c :: c in Upto(p, k).value ==> c in Upto(p, n).value
    decreases n - k
  {
    if k < n {
      UptoGrows(p, k, n - 1);
      var cs := Upto(p, n - 1).value;
      var lc := LineStep(p, n - 1, cs).value;
      forall c | c in cs ensures c in cs + lc {
        InAppend(c, cs, lc);
      }
    }
  }

  /** The cell clauses of a puzzle with cells are not empty. */
  lemma CellClausesNonEmpty(cells: seq<Coord>, ncolors: nat)
    requires |cells| > 0
    ensures |CellClauses(cells, ncolors)| > 0
  {
    assert |ExactlyOne(CellKeys(cells[|cells| - 1], ncolors))| > 0;
  }

  /** A block longer than its line appends the empty clause: the instance has no model. */
  lemma TooLongUnsat(p: Geometry.Puzzle, l: nat, a: set<Key>)
    requires Spec(p).Ok? && l < |p.lines| && ParseClue(p.lines[l].clue).Ok?
    requires !Fits(|p.lines[l].cells|, ParseClue(p.lines[l].clue).value)
    ensures !Models(a, Spec(p).value)
  {
    UptoGrows(p, l + 1, |p.lines|);
    var cs := Upto(p, l).value;
    assert Upto(p, l + 1).value == cs + [[]];
    assert [] in cs + [[]];
    EmptyClauseUnsat(a, Spec(p).value);
  }

  /** In a model of the instance of a puzzle with cells, the clauses before line `l` and those it adds hold. */
  lemma LineModelled(p: Geometry.Puzzle, a: set<Key>, l: nat) returns (cs: seq<KClause<Key>>, lc: seq<KClause<Key>>)
    requires Spec(p).Ok? && Models(a, Spec(p).value) && |p.cells| > 0 && l < |p.lines|
    ensures Upto(p, l) == Ok(cs) && LineStep(p, l, cs) == Ok(lc)
    ensures |cs| > 0 && Models(a, cs) && Models(a, lc)
  {
    UptoGrows(p, l + 1, |p.lines|);
    UptoGrows(p, 0, l);
    cs := Upto(p, l).value;
    lc := LineStep(p, l, cs).value;
    ModelsSubset(a, Spec(p).value, cs + lc);
    ModelsAppend(a, cs, lc);
    CellClausesNonEmpty(p.cells, |p.colors|);
    var cc := CellClauses(p.cells, |p.colors|);
    assert cc[0] in cs;
  }

  /** In a model of the instance of a puzzle with cells, line `l` shows an admissible arrangement of its clue. */
  lemma LineSoundAt(p: Geometry.Puzzle, a: set<Key>, l: nat)
    requires Spec(p).Ok? && Models(a, Spec(p).value) && |p.cells| > 0 && l < |p.lines|
    ensures Approach1.LineShown(p, a, l)
  {
    var cs, lc := LineModelled(p, a, l);
    var cells, blocks := p.lines[l].cells, ParseClue(p.lines[l].clue).value;
    if |blocks| == 0 {
      UnitsMeaning(a, cells);
      EmptyClueShown(a, cells, |p.colors|);
    } else if !Fits(|cells|, blocks) {
      TooLongUnsat(p, l, a);
    } else if cs[|cs| - 1] == [] {
      EmptyClauseUnsat(a, cs);
    } else {
      var x := LineSound(a, l, cells, blocks, |p.colors|);
    }
  }

  /**
   * Soundness of approach 2: in every model of the instance of a puzzle with cells, each cell has
   * exactly one palette colour and every line shows the painting of an admissible arrangement of
   * its clue.
   */
  lemma SpecSound(p: Geometry.Puzzle, a: set<Key>)
    requires Spec(p).Ok? && Models(a, Spec(p).value) && |p.cells| > 0
    ensures forall i :: 0 <= i < |p.cells| ==> OneColour(a, p.cells[i], |p.colors|)
    ensures Approach1.LinesShown(p, a, 0)
  {
    UptoGrows(p, 0, |p.lines|);
    ModelsSubset(a, Spec(p).value, CellClauses(p.cells, |p.colors|));
    CellClausesMeaning(a, p.cells, |p.colors|);
    forall l | 0 <= l < |p.lines| ensures Approach1.LineShown(p, a, l) {
      LineSoundAt(p, a, l);
    }
  }

  // ---------------------------------------------------------------------------------------------
  // Completeness

  /** A cell some start of one of the first `k` blocks covers is covered. */
  lemma {:induction false} CoveredUptoAt(blocks: seq<Block>, length: nat, pos: nat, k: nat, b: nat)
    requires Fits(length, blocks) && b < k <= |blocks|
    requires CoverFrom(blocks[b].size, pos) < CoverTo(Room(length, blocks[b].size), pos)
    ensures CoveredUpto(blocks, length, pos, k)
  {
    if b < k - 1 {
      CoveredUptoAt(blocks, length, pos, k - 1, b);
    }
  }

  /** A cell a block of a placement covers is one that some start covers. */
  lemma CoveredByCovered(blocks: seq<Block>, length: nat, x: Arrangement, pos: nat)
    requires Fits(length, blocks) && ValidPlacement(length, blocks, x.starts) && CoveredBy(blocks, x, pos)
    ensures Covered(blocks, length, pos)
  {
    var b :| 0 <= b < |blocks| && x.starts[b] <= pos < x.starts[b] + blocks[b].size;
    CoveredUptoAt(blocks, length, pos, |blocks|, b);
  }

  /**
   * When no covered cell lacks a background variable and every puzzle cell has one colour, a cell
   * under a block of a shown admissible arrangement does not hold the background.
   */
  lemma CoveredNotBackground(a: set<Key>, lidx: nat, cells: seq<Coord>, pcells: seq<Coord>, blocks: seq<Block>,
                             ncolors: nat, x: Arrangement, pos: nat)
    requires Fits(|cells|, blocks) && PaletteFrom(lidx, blocks, ncolors, 0) == None
    requires !Exposed(lidx, cells, pcells, blocks, ncolors)
    requires forall i :: 0 <= i < |pcells| ==> OneColour(a, pcells[i], ncolors)
    requires Admissible(|cells|, blocks, ncolors, x) && Approach1.Displays(a, cells, blocks, x)
    requires pos < |cells| && CoveredBy(blocks, x, pos)
    ensures Cell(cells[pos], 0) !in a
  {
    CoveredByCovered(blocks, |cells|, x, pos);
    var i :| 0 <= i < |pcells| && pcells[i] == cells[pos];
    var b :| 0 <= b < |blocks| && x.starts[b] <= pos < x.starts[b] + blocks[b].size;
    PaintedMeaning(|cells|, blocks, x, pos);
    PaletteFromNone(lidx, blocks, ncolors, 0, b);
    assert ColourFits(blocks[b], ncolors, x.colours[b]);
    assert Cell(cells[pos], x.colours[b] + 1) in a;
    assert OneColour(a, pcells[i], ncolors);
  }

  /** The keys of a line's clauses: cell keys, and the start and colour keys of that line. */
  lemma LineKeysLocal(lidx: nat, cells: seq<Coord>, blocks: seq<Block>, ncolors: nat, c: KClause<Key>, l: Lit<Key>)
    requires Fits(|cells|, blocks) && PaletteFrom(lidx, blocks, ncolors, 0) == None
    requires c in LineClauses(lidx, cells, blocks, ncolors) && l in c
    ensures l.key.Cell? || ((l.key.Start? || l.key.BCol?) && l.key.line == lidx)
  {
    var s1, s2, s3, s4 := Selection(lidx, blocks, |cells|, ncolors), Forward(lidx, cells, blocks, ncolors),
                          Spacing(lidx, blocks, |cells|, ncolors), Background(lidx, cells, blocks);
    InAppend(c, s1 + s2 + s3, s4);
    InAppend(c, s1 + s2, s3);
    InAppend(c, s1, s2);
    if c in s1 {
      SelectionKeys(lidx, blocks, |cells|, ncolors, c, l);
    } else if c in s2 {
      ForwardKeys(lidx, cells, blocks, ncolors, c, l);
    } else if c in s3 {
      SpacingKeys(lidx, blocks, |cells|, ncolors, c, l);
    } else {
      var pos := BackgroundKeys(lidx, cells, blocks, c, l);
    }
  }

  /** The clauses `cs` mention cell keys and the start and colour keys of lines before `k` only. */
  ghost predicate KeysBefore(cs: seq<KClause<Key>>, k: nat) {
    forall c, l :: c in cs && l in c ==> l.key.Cell? || ((l.key.Start? || l.key.BCol?) && l.key.line < k)
  }

  /** `a` and `a'` agree on every key but the start and colour keys of line `lidx`. */
  ghost predicate AgreeOff(a: set<Key>, a': set<Key>, lidx: nat) {
    forall k: Key :: !((k.Start? || k.BCol?) && k.line == lidx) ==> (k in a' <==> k in a)
  }

  /** The clauses `cs` mention cell keys and the start and colour keys of line `k` only. */
  ghost predicate KeysOf(cs: seq<KClause<Key>>, k: nat) {
    forall c, l :: c in cs && l in c ==> l.key.Cell? || ((l.key.Start? || l.key.BCol?) && l.key.line == k)
  }

  lemma KeysAppend(cs: seq<KClause<Key>>, lc: seq<KClause<Key>>, k: nat)
    requires KeysBefore(cs, k) && KeysOf(lc, k)
    ensures KeysBefore(cs + lc, k + 1)
  {
    forall c: KClause<Key>, l: Lit<Key> | c in cs + lc && l in c
      ensures l.key.Cell? || ((l.key.Start? || l.key.BCol?) && l.key.line < k + 1)
    {
      InAppend(c, cs, lc);
    }
  }

  /** Clauses about the lines before `k` keep their truth when the keys of line `k` change. */
  lemma ModelsKept(a: set<Key>, a': set<Key>, cs: seq<KClause<Key>>, k: nat)
    requires Models(a, cs) && KeysBefore(cs, k) && AgreeOff(a, a', k)
    ensures Models(a', cs)
  {
    ModelsAgree(a, a', cs);
  }

  /** Changing the start and colour keys of one line keeps every cell's colour. */
  lemma OneColourKept(p: Geometry.Puzzle, a: set<Key>, a': set<Key>, k: nat)
    requires AgreeOff(a, a', k) && forall i :: 0 <= i < |p.cells| ==> OneColour(a, p.cells[i], |p.colors|)
    ensures forall i :: 0 <= i < |p.cells| ==> OneColour(a', p.cells[i], |p.colors|)
  {
    forall i | 0 <= i < |p.cells| ensures OneColour(a', p.cells[i], |p.colors|) {
      assert OneColour(a, p.cells[i], |p.colors|);
    }
  }

  /** A line whose blocks fit and which raises nothing, completed from the arrangement it shows. */
  lemma FittingComplete(a: set<Key>, lidx: nat, cells: seq<Coord>, pcells: seq<Coord>, blocks: seq<Block>,
                        ncolors: nat, x: Arrangement) returns (a': set<Key>)
    requires Fits(|cells|, blocks) && LineError(lidx, cells, pcells, blocks, ncolors).None?
    requires forall i :: 0 <= i < |pcells| ==> OneColour(a, pcells[i], ncolors)
    requires Admissible(|cells|, blocks, ncolors, x) && Approach1.Displays(a, cells, blocks, x)
    ensures Models(a', LineClauses(lidx, cells, blocks, ncolors)) && AgreeOff(a, a', lidx)
    ensures KeysOf(LineClauses(lidx, cells, blocks, ncolors), lidx)
  {
    a' := Choose(a, lidx, x);
    forall pos | 0 <= pos < |cells| && CoveredBy(blocks, x, pos) ensures Cell(cells[pos], 0) !in a {
      CoveredNotBackground(a, lidx, cells, pcells, blocks, ncolors, x, pos);
    }
    LineComplete(a, lidx, cells, blocks, ncolors, x);
    forall c: KClause<Key>, l: Lit<Key> | c in LineClauses(lidx, cells, blocks, ncolors) && l in c
      ensures l.key.Cell? || ((l.key.Start? || l.key.BCol?) && l.key.line == lidx)
    {
      LineKeysLocal(lidx, cells, blocks, ncolors, c, l);
    }
  }

  /**
   * One line, completed: what line `k` appends after `cs` holds once the start and colour keys of
   * line `k` are set from the arrangement the line shows.
   */
  lemma LineStepComplete(p: Geometry.Puzzle, a: set<Key>, k: nat, cs: seq<KClause<Key>>) returns (a': set<Key>)
    requires k < |p.lines| && LineStep(p, k, cs).Ok?
    requires forall i :: 0 <= i < |p.cells| ==> OneColour(a, p.cells[i], |p.colors|)
    requires Approach1.LineShown(p, a, k)
    ensures Models(a', LineStep(p, k, cs).value) && AgreeOff(a, a', k) && KeysOf(LineStep(p, k, cs).value, k)
  {
    var cells, blocks, ncolors := p.lines[k].cells, ParseClue(p.lines[k].clue).value, |p.colors|;
    var x :| Admissible(|cells|, blocks, ncolors, x) && Approach1.Displays(a, cells, blocks, x);
    a' := a;
    if |blocks| == 0 {
      EmptyClueShown(a, cells, ncolors);
      UnitsMeaning(a, cells);
    } else if !Fits(|cells|, blocks) {
    } else if cs == [] || cs[|cs| - 1] == [] {
    } else {
      a' := FittingComplete(a, k, cells, p.cells, blocks, ncolors, x);
    }
  }

  /**
   * `a` gives every cell one colour, the lines from `k` on show admissible arrangements under it,
   * and it satisfies the clauses of the first `k` lines, which mention no later line.
   */
  ghost predicate Completed(p: Geometry.Puzzle, k: nat, a: set<Key>) {
    && k <= |p.lines|
    && (forall i :: 0 <= i < |p.cells| ==> OneColour(a, p.cells[i], |p.colors|))
    && Approach1.LinesShown(p, a, k)
    && Upto(p, k).Ok? && Models(a, Upto(p, k).value) && KeysBefore(Upto(p, k).value, k)
  }

  /** The completeness argument over the lines from `k` on. */
  lemma {:induction false} UptoComplete(p: Geometry.Puzzle, k: nat, a: set<Key>) returns (a': set<Key>)
    requires Spec(p).Ok? && Completed(p, k, a)
    ensures Models(a', Spec(p).value)
    ensures forall key: Key :: key.Cell? ==> (key in a' <==> key in a)
    decreases |p.lines| - k
  {
    if k == |p.lines| {
      a' := a;
      UptoDone(p, a);
    } else {
      UptoGrows(p, k + 1, |p.lines|);
      var a1 := UptoStep(p, k, a);
      a' := UptoComplete(p, k + 1, a1);
      CellKeysChain(a, a1, a');
    }
  }

  /** Past the last line, the clauses satisfied are the instance's. */
  lemma UptoDone(p: Geometry.Puzzle, a: set<Key>)
    requires Completed(p, |p.lines|, a)
    ensures Models(a, Spec(p).value)
  {
  }

  /** Agreement on cell keys is transitive. */
  lemma CellKeysChain(a: set<Key>, a1: set<Key>, a2: set<Key>)
    requires forall key: Key :: key.Cell? ==> (key in a1 <==> key in a)
    requires forall key: Key :: key.Cell? ==> (key in a2 <==> key in a1)
    ensures forall key: Key :: key.Cell? ==> (key in a2 <==> key in a)
  {
  }

  /** One more line satisfied, its start and colour keys set. */
  lemma UptoStep(p: Geometry.Puzzle, k: nat, a: set<Key>) returns (a': set<Key>)
    requires k < |p.lines| && Upto(p, k + 1).Ok? && Completed(p, k, a)
    ensures Completed(p, k + 1, a')
    ensures forall key: Key :: key.Cell? ==> (key in a' <==> key in a)
  {
    var cs := Upto(p, k).value;
    var lc := LineStep(p, k, cs).value;
    assert Approach1.LineShown(p, a, k);
    a' := LineStepComplete(p, a, k, cs);
    ModelsKept(a, a', cs, k);
    ModelsAppend(a', cs, lc);
    KeysAppend(cs, lc, k);
    OneColourKept(p, a, a', k);
    Approach1.LinesShownCells(p, a, a', k + 1);
  }

  /**
   * Completeness of approach 2: when the encoding raises nothing, a colouring with one palette
   * colour per cell under which every line shows an admissible arrangement of its clue extends,
   * by setting each line's start and colour variables from that arrangement, to a model of the
   * instance with the same cell colours.
   */
  lemma SpecComplete(p: Geometry.Puzzle, a: set<Key>) returns (a': set<Key>)
    requires Spec(p).Ok?
    requires forall i :: 0 <= i < |p.cells| ==> OneColour(a, p.cells[i], |p.colors|)
    requires Approach1.LinesShown(p, a, 0)
    ensures Models(a', Spec(p).value)
    ensures forall key: Key :: key.Cell? ==> (key in a' <==> key in a)
  {
    var cc := CellClauses(p.cells, |p.colors|);
    UptoGrows(p, 0, |p.lines|);
    CellClausesMeaning(a, p.cells, |p.colors|);
    forall c: KClause<Key>, l: Lit<Key> | c in cc && l in c ensures l.key.Cell? || ((l.key.Start? || l.key.BCol?) && l.key.line < 0) {
      CellClausesKeys(p.cells, |p.colors|, c, l);
    }
    a' := UptoComplete(p, 0, a);
  }

  /**
   * Completeness for the instance the solver sees: when the true cell keys are palette colours of
   * puzzle cells, the colouring gives an integer model of the clauses `Encode` returns, with the
   * same true cell variables.
   */
  lemma IntegerComplete(p: Geometry.Puzzle, ids: map<Key, nat>, a: set<Key>) returns (m: set<int>)
    requires Spec(p).Ok? && Transferable(ids, p.cells, |p.colors|, Spec(p).value)
    requires forall i :: 0 <= i < |p.cells| ==> OneColour(a, p.cells[i], |p.colors|)
    requires Approach1.LinesShown(p, a, 0) && PaletteKeys(a, p.cells, |p.colors|)
    ensures Satisfies(m, ResolveAll(ids, Spec(p).value))
    ensures forall k :: k in ids && k.Cell? ==> (ids[k] in m <==> k in a)
  {
    var a' := SpecComplete(p, a);
    m := IntegerModel(ids, p.cells, |p.colors|, Spec(p).value, a');
  }
}
