/**
 * The arrangements of one line that approach 1 enumerates (`solvers/approach1.py`): the start
 * offsets of its blocks (`enumerate_starts`), the colours of its blocks
 * (`enumerate_block_colors`), the rule that two touching blocks may not share a colour
 * (`same_color_spacing_ok`), and the colour every cell of the line receives
 * (the `cell_colors` buffer of `encode`).
 */
module Arrangements {
  import opened Clue

  /** `[x] + t` for every `t` of `xss`, in order. */
  function Prepend(x: nat, xss: seq<seq<nat>>): (r: seq<seq<nat>>)
    ensures |r| == |xss| && forall j :: 0 <= j < |xss| ==> r[j] == [x] + xss[j]
  {
    seq(|xss|, j requires 0 <= j < |xss| => [x] + xss[j])
  }

  lemma PrependMembers(x: nat, xss: seq<seq<nat>>, t: seq<nat>)
    ensures t in Prepend(x, xss) <==> |t| >= 1 && t[0] == x && t[1..] in xss
  {
    var r := Prepend(x, xss);
    if t in r {
      var j :| 0 <= j < |r| && r[j] == t;
      assert t[1..] == xss[j];
    }
    if |t| >= 1 && t[0] == x && t[1..] in xss {
      var j :| 0 <= j < |xss| && xss[j] == t[1..];
      assert r[j] == t;
    }
  }

  // ---------------------------------------------------------------------------------------------
  // Start offsets

  /** `sum(b[0] for b in blocks[i:])`: the cells that blocks `i..` occupy. */
  function Remaining(blocks: seq<Block>, i: nat): nat
    requires i <= |blocks|
    decreases |blocks| - i
  {
    if i == |blocks| then 0 else blocks[i].size + Remaining(blocks, i + 1)
  }

  /**
   * `helper(i, minpos, acc)` of `enumerate_starts`, without the prefix `acc`: the start offsets of
   * blocks `i..`, none before `minpos`, in the order the generator yields them.
   */
  function Helper(length: nat, blocks: seq<Block>, i: nat, minpos: nat): (r: seq<seq<nat>>)
    requires i <= |blocks|
    decreases |blocks| - i, 2, 0
  {
    if i == |blocks| then [[]] else Scan(length, blocks, i, minpos)
  }

  /**
   * The loop `for s in range(minpos, length - size + 1)` of `helper`, from `s` on.
   */
  function Scan(length: nat, blocks: seq<Block>, i: nat, s: nat): (r: seq<seq<nat>>)
    requires i < |blocks|
    decreases |blocks| - i, 1, length + 1 - s
  {
    if s > length - blocks[i].size then []
    else Here(length, blocks, i, s) + Scan(length, blocks, i, s + 1)
  }

  /**
   * One iteration of that loop: block `i` starts at `s`, unless the remaining blocks cannot fit
   * after it, in which case the start is skipped.
   */
  function Here(length: nat, blocks: seq<Block>, i: nat, s: nat): (r: seq<seq<nat>>)
    requires i < |blocks|
    decreases |blocks| - i, 0, 0
  {
    var end := s + blocks[i].size;
    if length - end < Remaining(blocks, i + 1) then []
    else Prepend(s, Helper(length, blocks, i + 1, end))
  }

  /** `enumerate_starts(length, blocks)`. */
  function Starts(length: nat, blocks: seq<Block>): seq<seq<nat>> {
    Helper(length, blocks, 0, 0)
  }

  /** Every block lies inside the line, and each block ends before the next one starts. */
  predicate ValidPlacement(length: nat, blocks: seq<Block>, t: seq<nat>) {
    && |t| == |blocks|
    && (forall j :: 0 <= j < |t| ==> t[j] + blocks[j].size <= length)
    && (forall j :: 0 < j < |t| ==> t[j - 1] + blocks[j - 1].size <= t[j])
  }

  /** Blocks `i..` placed validly, the first of them not before `m`. */
  ghost predicate PlacedFrom(length: nat, blocks: seq<Block>, i: nat, m: nat, t: seq<nat>)
    requires i <= |blocks|
  {
    && |t| == |blocks| - i
    && (|t| > 0 ==> m <= t[0])
    && (forall j :: 0 <= j < |t| ==> t[j] + blocks[i + j].size <= length)
    && (forall j :: 0 < j < |t| ==> t[j - 1] + blocks[i + j - 1].size <= t[j])
  }

  /** A placement of blocks `i..` is its first start followed by a placement of blocks `i+1..`. */
  lemma PlacedFromCons(length: nat, blocks: seq<Block>, i: nat, m: nat, t: seq<nat>)
    requires i < |blocks| && |t| >= 1
    ensures PlacedFrom(length, blocks, i, m, t) <==>
            m <= t[0] && t[0] + blocks[i].size <= length &&
            PlacedFrom(length, blocks, i + 1, t[0] + blocks[i].size, t[1..])
  {
    var u := t[1..];
    assert forall j :: 0 <= j < |u| ==> u[j] == t[j + 1];
    if PlacedFrom(length, blocks, i, m, t) {
      forall j | 0 <= j < |u| ensures u[j] + blocks[i + 1 + j].size <= length {
        assert t[j + 1] + blocks[i + (j + 1)].size <= length;
      }
      forall j | 0 < j < |u| ensures u[j - 1] + blocks[i + 1 + j - 1].size <= u[j] {
        assert t[j + 1 - 1] + blocks[i + (j + 1) - 1].size <= t[j + 1];
      }
      if |u| > 0 {
        assert t[1 - 1] + blocks[i + 1 - 1].size <= t[1];
      }
    }
    if m <= t[0] && t[0] + blocks[i].size <= length &&
       PlacedFrom(length, blocks, i + 1, t[0] + blocks[i].size, u) {
      forall j | 0 <= j < |t| ensures t[j] + blocks[i + j].size <= length {
        if j > 0 {
          assert u[j - 1] + blocks[i + 1 + (j - 1)].size <= length;
        }
      }
      forall j | 0 < j < |t| ensures t[j - 1] + blocks[i + j - 1].size <= t[j] {
        if j > 1 {
          assert u[j - 1 - 1] + blocks[i + 1 + (j - 1) - 1].size <= u[j - 1];
        }
      }
    }
  }

  /** A placement of blocks `i..` leaves room after its first start for all of them. */
  lemma {:induction false} PlacedRoom(length: nat, blocks: seq<Block>, i: nat, m: nat, t: seq<nat>)
    requires i < |blocks|
    ensures PlacedFrom(length, blocks, i, m, t) ==> t[0] + Remaining(blocks, i) <= length
    decreases |blocks| - i
  {
    if PlacedFrom(length, blocks, i, m, t) {
      PlacedFromCons(length, blocks, i, m, t);
      if i + 1 < |blocks| {
        PlacedRoom(length, blocks, i + 1, t[0] + blocks[i].size, t[1..]);
      }
    }
  }

  lemma {:induction false} HelperMeaning(length: nat, blocks: seq<Block>, i: nat, m: nat, t: seq<nat>)
    requires i <= |blocks|
    ensures t in Helper(length, blocks, i, m) <==> PlacedFrom(length, blocks, i, m, t)
    decreases |blocks| - i, 2, 0
  {
    if i < |blocks| {
      ScanMeaning(length, blocks, i, m, t);
    }
  }

  lemma {:induction false} ScanMeaning(length: nat, blocks: seq<Block>, i: nat, s: nat, t: seq<nat>)
    requires i < |blocks|
    ensures t in Scan(length, blocks, i, s) <==> PlacedFrom(length, blocks, i, s, t)
    decreases |blocks| - i, 1, length + 1 - s
  {
    if s > length - blocks[i].size {
      assert !PlacedFrom(length, blocks, i, s, t) by {
        if |t| >= 1 {
          assert blocks[i + 0] == blocks[i];
        }
      }
    } else {
      ScanMeaning(length, blocks, i, s + 1, t);
      HereMeaning(length, blocks, i, s, t);
      if |t| >= 1 {
        PlacedFromCons(length, blocks, i, s, t);
        PlacedFromCons(length, blocks, i, s + 1, t);
      }
    }
  }

  lemma {:induction false} HereMeaning(length: nat, blocks: seq<Block>, i: nat, s: nat, t: seq<nat>)
    requires i < |blocks| && s + blocks[i].size <= length
    ensures t in Here(length, blocks, i, s) <==> |t| >= 1 && t[0] == s && PlacedFrom(length, blocks, i, s, t)
    decreases |blocks| - i, 0, 0
  {
    var end := s + blocks[i].size;
    PlacedRoom(length, blocks, i, s, t);
    if |t| >= 1 {
      PlacedFromCons(length, blocks, i, s, t);
      if length - end >= Remaining(blocks, i + 1) {
        PrependMembers(s, Helper(length, blocks, i + 1, end), t);
        HelperMeaning(length, blocks, i + 1, end, t[1..]);
      }
    }
  }

  /** `enumerate_starts` yields exactly the valid placements: the pruning loses none of them. */
  lemma StartsMeaning(length: nat, blocks: seq<Block>, t: seq<nat>)
    ensures t in Starts(length, blocks) <==> ValidPlacement(length, blocks, t)
  {
    HelperMeaning(length, blocks, 0, 0, t);
    assert forall j :: 0 <= j < |blocks| ==> blocks[0 + j] == blocks[j];
  }

  /** A block longer than the line leaves it without any placement. */
  lemma TooLongNoStarts(length: nat, blocks: seq<Block>, b: nat)
    requires b < |blocks| && blocks[b].size > length
    ensures Starts(length, blocks) == []
  {
    var r := Starts(length, blocks);
    assert |r| > 0 ==> r[0] in r;
    forall t ensures t !in r {
      StartsMeaning(length, blocks, t);
      assert !ValidPlacement(length, blocks, t) by {
        if |t| == |blocks| {
          assert t[b] + blocks[b].size > length;
        }
      }
    }
  }

  /** In a valid placement every block ends before any later block starts. */
  lemma {:induction false} PlacementOrdered(length: nat, blocks: seq<Block>, t: seq<nat>, b: nat, b': nat)
    requires ValidPlacement(length, blocks, t) && b < b' < |t|
    ensures t[b] + blocks[b].size <= t[b']
    decreases b' - b
  {
    if b + 1 < b' {
      PlacementOrdered(length, blocks, t, b, b' - 1);
      assert t[b' - 1] + blocks[b' - 1].size <= t[b'];
    }
  }

  // ---------------------------------------------------------------------------------------------
  // Block colours

  /** The colours block `b` may take: every colour but the background for `?`, else its own. */
  function Choices(b: Block, ncolors: nat): seq<nat> {
    match b.colour
    case None => seq(if ncolors >= 1 then ncolors - 1 else 0, c => c)
    case Some(c) => [c]
  }

  lemma ChoicesMembers(b: Block, ncolors: nat, c: nat)
    ensures c in Choices(b, ncolors) <==> ColourFits(b, ncolors, c)
  {
    if b.colour.None? && c + 1 < ncolors {
      assert Choices(b, ncolors)[c] == c;
    }
  }

  /** Colour `c` (a letter rank, 0 = first non-background colour) is allowed for block `b`. */
  predicate ColourFits(b: Block, ncolors: nat, c: nat) {
    match b.colour
    case None => c + 1 < ncolors
    case Some(f) => c == f
  }

  /** `for c in firsts: for rest in rests: [c] + rest`. */
  function Extend(firsts: seq<nat>, rests: seq<seq<nat>>): seq<seq<nat>> {
    if firsts == [] then [] else Prepend(firsts[0], rests) + Extend(firsts[1..], rests)
  }

  lemma {:induction false} ExtendMembers(firsts: seq<nat>, rests: seq<seq<nat>>, t: seq<nat>)
    ensures t in Extend(firsts, rests) <==> |t| >= 1 && t[0] in firsts && t[1..] in rests
  {
    if firsts != [] {
      ExtendMembers(firsts[1..], rests, t);
      PrependMembers(firsts[0], rests, t);
      assert forall c :: c in firsts <==> c == firsts[0] || c in firsts[1..];
    }
  }

  /** `helper(i, acc)` of `enumerate_block_colors`: the Cartesian product, first block outermost. */
  function Product(choices: seq<seq<nat>>): seq<seq<nat>> {
    if choices == [] then [[]]
    else Extend(choices[0], Product(choices[1..]))
  }

  lemma {:induction false} ProductMembers(choices: seq<seq<nat>>, t: seq<nat>)
    ensures t in Product(choices) <==>
            |t| == |choices| && forall j :: 0 <= j < |t| ==> t[j] in choices[j]
  {
    if choices != [] {
      var rest := choices[1..];
      ExtendMembers(choices[0], Product(rest), t);
      if |t| == |choices| {
        var u := t[1..];
        ProductMembers(rest, u);
        if forall j :: 0 <= j < |t| ==> t[j] in choices[j] {
          forall j | 0 <= j < |u| ensures u[j] in rest[j] {
            assert u[j] == t[j + 1] && rest[j] == choices[j + 1];
          }
        }
        if t[0] in choices[0] && forall j :: 0 <= j < |u| ==> u[j] in rest[j] {
          forall j | 0 <= j < |t| ensures t[j] in choices[j] {
            if j > 0 {
              assert t[j] == u[j - 1] && choices[j] == rest[j - 1];
            }
          }
        }
      } else if |t| >= 1 {
        ProductMembers(rest, t[1..]);
      }
    }
  }

  /** `enumerate_block_colors(blocks, ncolors)`. */
  function BlockColours(blocks: seq<Block>, ncolors: nat): seq<seq<nat>> {
    Product(seq(|blocks|, i requires 0 <= i < |blocks| => Choices(blocks[i], ncolors)))
  }

  predicate ValidColours(blocks: seq<Block>, ncolors: nat, t: seq<nat>) {
    |t| == |blocks| && forall j :: 0 <= j < |t| ==> ColourFits(blocks[j], ncolors, t[j])
  }

  /** `enumerate_block_colors` yields every allowed colouring of the blocks, and nothing else. */
  lemma BlockColoursMeaning(blocks: seq<Block>, ncolors: nat, t: seq<nat>)
    ensures t in BlockColours(blocks, ncolors) <==> ValidColours(blocks, ncolors, t)
  {
    var choices := seq(|blocks|, i requires 0 <= i < |blocks| => Choices(blocks[i], ncolors));
    ProductMembers(choices, t);
    forall j | 0 <= j < |t| && j < |blocks| ensures t[j] in choices[j] <==> ColourFits(blocks[j], ncolors, t[j]) {
      ChoicesMembers(blocks[j], ncolors, t[j]);
    }
  }

  // ---------------------------------------------------------------------------------------------
  // Spacing

  /** Two consecutive blocks of the same colour leave at least one cell between them. */
  predicate Spaced(starts: seq<nat>, blocks: seq<Block>, colours: seq<nat>) {
    && |starts| == |blocks| && |colours| == |blocks|
    && forall i :: 1 <= i < |blocks| && colours[i] == colours[i - 1] ==>
      starts[i - 1] + blocks[i - 1].size + 1 <= starts[i]
  }

  /** `same_color_spacing_ok(starts, blocks, colors)`. */
  method SameColorSpacingOk(starts: seq<nat>, blocks: seq<Block>, colours: seq<nat>) returns (ok: bool)
    requires |starts| == |blocks| && |colours| == |blocks|
    ensures ok <==> Spaced(starts, blocks, colours)
  {
    var i := 1;
    while i < |blocks|
      invariant 1 <= i <= |blocks| + 1
      invariant forall j :: 1 <= j < i && j < |blocks| && colours[j] == colours[j - 1] ==>
                  starts[j - 1] + blocks[j - 1].size + 1 <= starts[j]
    {
      if colours[i] == colours[i - 1] {
        var prevStart := starts[i - 1];
        var prevSize := blocks[i - 1].size;
        if starts[i] < prevStart + prevSize + 1 {
          return false;
        }
      }
      i := i + 1;
    }
    return true;
  }

  // ---------------------------------------------------------------------------------------------
  // Arrangements

  datatype Arrangement = Arrangement(starts: seq<nat>, colours: seq<nat>)

  /** The arrangements with the start offsets `st`, one per well-spaced colouring of `cols`. */
  function WithStarts(st: seq<nat>, blocks: seq<Block>, cols: seq<seq<nat>>): seq<Arrangement> {
    if cols == [] then []
    else
      var last := cols[|cols| - 1];
      WithStarts(st, blocks, cols[..|cols| - 1]) +
      (if Spaced(st, blocks, last) then [Arrangement(st, last)] else [])
  }

  /** The two loops of approach 1 over the start offsets and, inside, over the colourings. */
  function Combine(sts: seq<seq<nat>>, cols: seq<seq<nat>>, blocks: seq<Block>): seq<Arrangement> {
    if sts == [] then []
    else Combine(sts[..|sts| - 1], cols, blocks) + WithStarts(sts[|sts| - 1], blocks, cols)
  }

  /** The arrangements of a line, each of which receives one selector variable, in order. */
  function LineArrangements(length: nat, blocks: seq<Block>, ncolors: nat): seq<Arrangement> {
    Combine(Starts(length, blocks), BlockColours(blocks, ncolors), blocks)
  }

  lemma CombineSnoc(sts: seq<seq<nat>>, cols: seq<seq<nat>>, blocks: seq<Block>, i: nat)
    requires i < |sts|
    ensures Combine(sts[..i + 1], cols, blocks) == Combine(sts[..i], cols, blocks) + WithStarts(sts[i], blocks, cols)
  {
    assert sts[..i + 1][..i] == sts[..i];
  }

  lemma WithStartsSnoc(st: seq<nat>, blocks: seq<Block>, cols: seq<seq<nat>>, j: nat)
    requires j < |cols|
    ensures WithStarts(st, blocks, cols[..j + 1]) ==
            WithStarts(st, blocks, cols[..j]) + (if Spaced(st, blocks, cols[j]) then [Arrangement(st, cols[j])] else [])
  {
    assert cols[..j + 1][..j] == cols[..j];
  }

  /** A placement, an allowed colouring, and no two equal colours touching. */
  predicate Admissible(length: nat, blocks: seq<Block>, ncolors: nat, x: Arrangement) {
    ValidPlacement(length, blocks, x.starts) && ValidColours(blocks, ncolors, x.colours) &&
    Spaced(x.starts, blocks, x.colours)
  }

  lemma {:induction false} WithStartsMembers(st: seq<nat>, blocks: seq<Block>, cols: seq<seq<nat>>, x: Arrangement)
    ensures x in WithStarts(st, blocks, cols) <==>
            x.starts == st && x.colours in cols && Spaced(st, blocks, x.colours)
  {
    if cols != [] {
      var pre := cols[..|cols| - 1];
      WithStartsMembers(st, blocks, pre, x);
      assert forall t :: t in cols <==> t in pre || t == cols[|cols| - 1];
    }
  }

  lemma {:induction false} CombineMembers(sts: seq<seq<nat>>, cols: seq<seq<nat>>, blocks: seq<Block>, x: Arrangement)
    ensures x in Combine(sts, cols, blocks) <==>
            x.starts in sts && x.colours in cols && Spaced(x.starts, blocks, x.colours)
  {
    if sts != [] {
      var pre := sts[..|sts| - 1];
      CombineMembers(pre, cols, blocks, x);
      WithStartsMembers(sts[|sts| - 1], blocks, cols, x);
      assert forall t :: t in sts <==> t in pre || t == sts[|sts| - 1];
    }
  }

  /** Approach 1 gives a selector to exactly the admissible arrangements of the line. */
  lemma ArrangementsMeaning(length: nat, blocks: seq<Block>, ncolors: nat, x: Arrangement)
    ensures x in LineArrangements(length, blocks, ncolors) <==> Admissible(length, blocks, ncolors, x)
  {
    CombineMembers(Starts(length, blocks), BlockColours(blocks, ncolors), blocks, x);
    StartsMeaning(length, blocks, x.starts);
    BlockColoursMeaning(blocks, ncolors, x.colours);
  }

  /** Every arrangement has one start and one colour per block, and every block inside the line. */
  lemma ArrangementsShape(length: nat, blocks: seq<Block>, ncolors: nat, k: nat)
    requires k < |LineArrangements(length, blocks, ncolors)|
    ensures Admissible(length, blocks, ncolors, LineArrangements(length, blocks, ncolors)[k])
  {
    ArrangementsMeaning(length, blocks, ncolors, LineArrangements(length, blocks, ncolors)[k]);
  }

  /** Every arrangement of a line has one start offset and one colour per block. */
  lemma ArrangementsShapes(length: nat, blocks: seq<Block>, ncolors: nat)
    ensures forall x :: x in LineArrangements(length, blocks, ncolors) ==>
              |x.starts| == |blocks| && |x.colours| == |blocks|
  {
    forall x | x in LineArrangements(length, blocks, ncolors)
      ensures |x.starts| == |blocks| && |x.colours| == |blocks|
    {
      ArrangementsMeaning(length, blocks, ncolors, x);
    }
  }

  // ---------------------------------------------------------------------------------------------
  // Painting

  /**
   * The colour cell `p` holds once blocks `0..k-1` have been painted in order: one more than the
   * colour of the last of them that covers `p`, or 0 (the background) when none does.
   */
  function PaintedAt(blocks: seq<Block>, x: Arrangement, k: nat, p: nat): nat
    requires k <= |blocks| && |x.starts| == |blocks| && |x.colours| == |blocks|
  {
    if k == 0 then 0
    else if x.starts[k - 1] <= p < x.starts[k - 1] + blocks[k - 1].size then x.colours[k - 1] + 1
    else PaintedAt(blocks, x, k - 1, p)
  }

  /** The palette index of every cell of the line under the arrangement `x`. */
  function Painted(length: nat, blocks: seq<Block>, x: Arrangement): (r: seq<nat>)
    requires |x.starts| == |blocks| && |x.colours| == |blocks|
    ensures |r| == length
  {
    seq(length, p requires 0 <= p < length => PaintedAt(blocks, x, |blocks|, p))
  }

  /** The `cell_colors` buffer of approach 1, filled in place block after block. */
  method PaintLine(length: nat, blocks: seq<Block>, x: Arrangement) returns (painted: seq<nat>)
    requires |x.starts| == |blocks| && |x.colours| == |blocks|
    requires forall b :: 0 <= b < |blocks| ==> x.starts[b] + blocks[b].size <= length
    ensures painted == Painted(length, blocks, x)
  {
    var cellColors := new nat[length](_ => 0);
    for bi := 0 to |blocks|
      invariant forall q :: 0 <= q < length ==> cellColors[q] == PaintedAt(blocks, x, bi, q)
    {
      var s := x.starts[bi];
      var colourIdx := x.colours[bi];
      for p := s to s + blocks[bi].size
        invariant forall q :: 0 <= q < length ==>
                    cellColors[q] == if s <= q < p then colourIdx + 1 else PaintedAt(blocks, x, bi, q)
      {
        cellColors[p] := colourIdx + 1;
      }
    }
    painted := cellColors[..];
  }

  lemma {:induction false} PaintedAtCovered(blocks: seq<Block>, x: Arrangement, k: nat, p: nat, b: nat)
    requires k <= |blocks| && |x.starts| == |blocks| && |x.colours| == |blocks|
    requires b < k && x.starts[b] <= p < x.starts[b] + blocks[b].size
    requires forall b' :: b < b' < k ==> p < x.starts[b']
    ensures PaintedAt(blocks, x, k, p) == x.colours[b] + 1
  {
    if b < k - 1 {
      PaintedAtCovered(blocks, x, k - 1, p, b);
    }
  }

  lemma {:induction false} PaintedAtUncovered(blocks: seq<Block>, x: Arrangement, k: nat, p: nat)
    requires k <= |blocks| && |x.starts| == |blocks| && |x.colours| == |blocks|
    requires forall b :: 0 <= b < k ==> !(x.starts[b] <= p < x.starts[b] + blocks[b].size)
    ensures PaintedAt(blocks, x, k, p) == 0
  {
    if k > 0 {
      PaintedAtUncovered(blocks, x, k - 1, p);
    }
  }

  /**
   * Under a valid placement the blocks do not overlap, so a cell covered by block `b` receives
   * that block's colour (shifted past the background) and a cell no block covers stays background.
   */
  lemma PaintedMeaning(length: nat, blocks: seq<Block>, x: Arrangement, p: nat)
    requires ValidPlacement(length, blocks, x.starts) && |x.colours| == |blocks| && p < length
    ensures forall b :: 0 <= b < |blocks| && x.starts[b] <= p < x.starts[b] + blocks[b].size ==>
              Painted(length, blocks, x)[p] == x.colours[b] + 1
    ensures (forall b :: 0 <= b < |blocks| ==> !(x.starts[b] <= p < x.starts[b] + blocks[b].size)) ==>
              Painted(length, blocks, x)[p] == 0
  {
    forall b | 0 <= b < |blocks| && x.starts[b] <= p < x.starts[b] + blocks[b].size
      ensures Painted(length, blocks, x)[p] == x.colours[b] + 1
    {
      forall b' | b < b' < |blocks| ensures p < x.starts[b'] {
        PlacementOrdered(length, blocks, x.starts, b, b');
      }
      PaintedAtCovered(blocks, x, |blocks|, p, b);
    }
    if forall b :: 0 <= b < |blocks| ==> !(x.starts[b] <= p < x.starts[b] + blocks[b].size) {
      PaintedAtUncovered(blocks, x, |blocks|, p);
    }
  }
}
