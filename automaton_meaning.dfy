/**
 * What the automaton of approach 4 recognises. A sequence of palette indices is accepted exactly
 * when it is the painting of an arrangement the clue admits (`Arrangements.Admissible`), which is
 * the meaning approach 1 enumerates, provided every block of the clue has at least one cell.
 */
module AutomatonMeaning {
  import opened Wrappers
  import opened Clue
  import opened Keys
  import opened Automaton
  import opened Arrangements

  /** One start and one colour per block. */
  predicate Shaped(blocks: seq<Block>, x: Arrangement) {
    |x.starts| == |blocks| && |x.colours| == |blocks|
  }

  /** Every block covers at least one cell. */
  predicate NoEmptyBlock(blocks: seq<Block>) {
    forall b :: 0 <= b < |blocks| ==> blocks[b].size >= 1
  }

  // ---------------------------------------------------------------------------------------------
  // From a run to an arrangement

  /**
   * The first `m` blocks of `x` have colours their clue allows, lie in order, and same-coloured
   * neighbours among them are separated by a gap. The entries of later blocks are not used yet.
   */
  ghost predicate PlacedUpTo(blocks: seq<Block>, ncolors: nat, x: Arrangement, m: nat) {
    && Shaped(blocks, x) && m <= |blocks|
    && (forall b :: 0 <= b < m ==> ColourFits(blocks[b], ncolors, x.colours[b]))
    && (forall b :: 0 < b < m ==> x.starts[b - 1] + blocks[b - 1].size <= x.starts[b])
    && (forall b :: 0 < b < m && x.colours[b] == x.colours[b - 1] ==>
          x.starts[b - 1] + blocks[b - 1].size + 1 <= x.starts[b])
  }

  /** The first `q` palette indices are what the first `m` blocks of `x` paint. */
  ghost predicate PaintsPrefix(blocks: seq<Block>, x: Arrangement, m: nat, cs: seq<nat>, q: nat)
    requires Shaped(blocks, x) && m <= |blocks|
  {
    q <= |cs| && forall p :: 0 <= p < q ==> cs[p] == PaintedAt(blocks, x, m, p)
  }

  /**
   * What the state reached after the first `q` indices records, with `x` holding the blocks
   * placed so far: `S`, no block has begun; `B(j, c, t)`, block `j` of palette index `c` began `t`
   * cells ago; `G(j)`, block `j` ended at least one cell ago; `E`, the last block did.
   */
  ghost predicate Tracks(blocks: seq<Block>, ncolors: nat, cs: seq<nat>, q: nat, s: State, x: Arrangement) {
    Shaped(blocks, x) &&
    match s
    case S => PaintsPrefix(blocks, x, 0, cs, q)
    case B(j, c, t) =>
      && PlacedUpTo(blocks, ncolors, x, j + 1) && 1 <= t <= blocks[j].size
      && x.starts[j] + t == q && x.colours[j] + 1 == c && PaintsPrefix(blocks, x, j + 1, cs, q)
    case G(j) =>
      && PlacedUpTo(blocks, ncolors, x, j + 1)
      && x.starts[j] + blocks[j].size < q && PaintsPrefix(blocks, x, j + 1, cs, q)
    case E =>
      && |blocks| > 0 && PlacedUpTo(blocks, ncolors, x, |blocks|)
      && x.starts[|blocks| - 1] + blocks[|blocks| - 1].size < q && PaintsPrefix(blocks, x, |blocks|, cs, q)
  }

  /** The painting of the first `m` blocks depends only on their entries. */
  lemma {:induction false} PaintedAtAgree(blocks: seq<Block>, x: Arrangement, y: Arrangement, m: nat, p: nat)
    requires Shaped(blocks, x) && Shaped(blocks, y) && m <= |blocks|
    requires forall b :: 0 <= b < m ==> x.starts[b] == y.starts[b] && x.colours[b] == y.colours[b]
    ensures PaintedAt(blocks, x, m, p) == PaintedAt(blocks, y, m, p)
  {
    if m > 0 {
      PaintedAtAgree(blocks, x, y, m - 1, p);
    }
  }

  /** Past the end of the last of `m` placed blocks, nothing is painted. */
  lemma {:induction false} PaintedAtBeyond(blocks: seq<Block>, ncolors: nat, x: Arrangement, m: nat, p: nat)
    requires PlacedUpTo(blocks, ncolors, x, m) && m > 0
    requires x.starts[m - 1] + blocks[m - 1].size <= p
    ensures PaintedAt(blocks, x, m, p) == 0
  {
    if m > 1 {
      PaintedAtBeyond(blocks, ncolors, x, m - 1, p);
    }
  }

  /** Each of `m` placed blocks ends no later than the last of them. */
  lemma {:induction false} PlacedEnds(blocks: seq<Block>, ncolors: nat, x: Arrangement, m: nat, b: nat)
    requires PlacedUpTo(blocks, ncolors, x, m) && b < m
    ensures x.starts[b] + blocks[b].size <= x.starts[m - 1] + blocks[m - 1].size
  {
    if b < m - 1 {
      PlacedEnds(blocks, ncolors, x, m - 1, b);
    }
  }

  /**
   * Entering block `m` on palette index `cs[q]`: block `m` starts at `q`. The blocks before it
   * stay placed, and a block of the same colour before it ends at least one cell before `q`.
   */
  lemma PlaceTracks(blocks: seq<Block>, ncolors: nat, cs: seq<nat>, q: nat, x: Arrangement, m: nat)
    returns (y: Arrangement)
    requires q < |cs| && m < |blocks| && PlacedUpTo(blocks, ncolors, x, m) && PaintsPrefix(blocks, x, m, cs, q)
    requires ColourOk(blocks[m], ncolors, cs[q]) && blocks[m].size >= 1
    requires m > 0 ==> x.starts[m - 1] + blocks[m - 1].size <= q
    requires m > 0 && cs[q] == x.colours[m - 1] + 1 ==> x.starts[m - 1] + blocks[m - 1].size < q
    ensures Tracks(blocks, ncolors, cs, q + 1, B(m, cs[q], 1), y)
  {
    y := Arrangement(x.starts[m := q], x.colours[m := cs[q] - 1]);
    forall p | 0 <= p < q + 1 ensures cs[p] == PaintedAt(blocks, y, m + 1, p) {
      if p < q {
        PaintedAtAgree(blocks, x, y, m, p);
      }
    }
  }

  /** A step out of `B(j, c, t)` keeps a tracked arrangement, placing block `j + 1` when it starts. */
  lemma TracksStepB(blocks: seq<Block>, ncolors: nat, cs: seq<nat>, q: nat, s: State, x: Arrangement, s': State)
    returns (y: Arrangement)
    requires q < |cs| && s.B? && InRange(blocks, s) && Tracks(blocks, ncolors, cs, q, s, x)
    requires s' in Next(s, cs[q], blocks) && IsState(blocks, ncolors, s')
    ensures Tracks(blocks, ncolors, cs, q + 1, s', y)
  {
    var col := cs[q];
    if col == s.c {
      y := x;
      InsideTracks(blocks, ncolors, cs, q, s, x);
    } else if col == 0 {
      y := x;
      LeaveTracks(blocks, ncolors, cs, q, s, x);
    } else {
      y := PlaceTracks(blocks, ncolors, cs, q, x, s.j + 1);
    }
  }

  /** Another cell of the current block's colour, while the block lasts, extends it. */
  lemma InsideTracks(blocks: seq<Block>, ncolors: nat, cs: seq<nat>, q: nat, s: State, x: Arrangement)
    requires q < |cs| && s.B? && Tracks(blocks, ncolors, cs, q, s, x)
    requires cs[q] == s.c && s.t < blocks[s.j].size
    ensures Tracks(blocks, ncolors, cs, q + 1, B(s.j, s.c, s.t + 1), x)
  {
  }

  /** A background cell right after the current block ends it. */
  lemma LeaveTracks(blocks: seq<Block>, ncolors: nat, cs: seq<nat>, q: nat, s: State, x: Arrangement)
    requires q < |cs| && s.B? && Tracks(blocks, ncolors, cs, q, s, x)
    requires cs[q] == 0 && s.t == blocks[s.j].size
    ensures Tracks(blocks, ncolors, cs, q + 1, if s.j < |blocks| - 1 then G(s.j) else E, x)
  {
    PaintedAtBeyond(blocks, ncolors, x, s.j + 1, q);
  }

  /** A step out of `S`, `G(j)` or `E` keeps a tracked arrangement, placing a block when one starts. */
  lemma TracksStepGap(blocks: seq<Block>, ncolors: nat, cs: seq<nat>, q: nat, s: State, x: Arrangement, s': State)
    returns (y: Arrangement)
    requires q < |cs| && !s.B? && Tracks(blocks, ncolors, cs, q, s, x)
    requires s' in Next(s, cs[q], blocks) && IsState(blocks, ncolors, s')
    ensures Tracks(blocks, ncolors, cs, q + 1, s', y)
  {
    y := x;
    if cs[q] == 0 {
      assert s' == s;
      GapTracks(blocks, ncolors, cs, q, s, x);
    } else {
      assert !s.E?;
      var m := if s.S? then 0 else s.j + 1;
      assert s' == B(m, cs[q], 1);
      y := PlaceTracks(blocks, ncolors, cs, q, x, m);
    }
  }

  /** A background cell outside every block keeps `S`, `G(j)` and `E`. */
  lemma GapTracks(blocks: seq<Block>, ncolors: nat, cs: seq<nat>, q: nat, s: State, x: Arrangement)
    requires q < |cs| && !s.B? && cs[q] == 0 && Tracks(blocks, ncolors, cs, q, s, x)
    ensures Tracks(blocks, ncolors, cs, q + 1, s, x)
  {
    if s.G? {
      PaintedAtBeyond(blocks, ncolors, x, s.j + 1, q);
    } else if s.E? {
      PaintedAtBeyond(blocks, ncolors, x, |blocks|, q);
    }
  }

  /** One step of a run keeps a tracked arrangement, placing a block when the run enters one. */
  lemma TracksStep(blocks: seq<Block>, ncolors: nat, cs: seq<nat>, q: nat, s: State, x: Arrangement, s': State)
    returns (y: Arrangement)
    requires q < |cs| && InRange(blocks, s) && Tracks(blocks, ncolors, cs, q, s, x)
    requires s' in Next(s, cs[q], blocks) && IsState(blocks, ncolors, s')
    ensures Tracks(blocks, ncolors, cs, q + 1, s', y)
  {
    if s.B? {
      y := TracksStepB(blocks, ncolors, cs, q, s, x, s');
    } else {
      y := TracksStepGap(blocks, ncolors, cs, q, s, x, s');
    }
  }

  lemma RunStep(blocks: seq<Block>, ncolors: nat, cs: seq<nat>, run: seq<State>, q: nat)
    requires IsRun(blocks, ncolors, cs, run) && q < |cs|
    ensures InRange(blocks, run[q]) && run[q + 1] in Next(run[q], cs[q], blocks) && IsState(blocks, ncolors, run[q + 1])
  {
  }

  /** Before any index is read, no block has begun. */
  lemma TracksStart(blocks: seq<Block>, ncolors: nat, cs: seq<nat>) returns (x: Arrangement)
    ensures Tracks(blocks, ncolors, cs, 0, S, x)
  {
    x := Arrangement(seq(|blocks|, _ => 0), seq(|blocks|, _ => 0));
  }

  /** The first `q` steps of `run` follow `Next` from `S`, one step at a time. */
  ghost predicate RunUpTo(blocks: seq<Block>, ncolors: nat, cs: seq<nat>, run: seq<State>, q: nat)
    requires q < |run| && q <= |cs|
  {
    if q == 0 then run[0] == S
    else
      && RunUpTo(blocks, ncolors, cs, run, q - 1)
      && InRange(blocks, run[q - 1]) && run[q] in Next(run[q - 1], cs[q - 1], blocks)
      && IsState(blocks, ncolors, run[q])
  }

  lemma {:induction false} RunUpToAll(blocks: seq<Block>, ncolors: nat, cs: seq<nat>, run: seq<State>, q: nat)
    requires IsRun(blocks, ncolors, cs, run) && q <= |cs|
    ensures RunUpTo(blocks, ncolors, cs, run, q)
  {
    if q > 0 {
      RunUpToAll(blocks, ncolors, cs, run, q - 1);
      RunStep(blocks, ncolors, cs, run, q - 1);
    }
  }

  /** The state a run reaches after `q` indices tracks an arrangement of the blocks begun by then. */
  lemma {:induction false} RunTracks(blocks: seq<Block>, ncolors: nat, cs: seq<nat>, run: seq<State>, q: nat)
    returns (x: Arrangement)
    requires q < |run| && q <= |cs| && RunUpTo(blocks, ncolors, cs, run, q)
    ensures Tracks(blocks, ncolors, cs, q, run[q], x)
  {
    if q == 0 {
      x := TracksStart(blocks, ncolors, cs);
    } else {
      var x0 := RunTracks(blocks, ncolors, cs, run, q - 1);
      x := TracksStep(blocks, ncolors, cs, q - 1, run[q - 1], x0, run[q]);
    }
  }

  /** Every accepted sequence of palette indices is the painting of an admissible arrangement. */
  lemma AcceptsSound(blocks: seq<Block>, ncolors: nat, cs: seq<nat>) returns (x: Arrangement)
    requires Accepts(blocks, ncolors, cs)
    ensures Admissible(|cs|, blocks, ncolors, x) && Painted(|cs|, blocks, x) == cs
  {
    var run := AcceptingRun(blocks, ncolors, cs);
    RunUpToAll(blocks, ncolors, cs, run, |cs|);
    x := RunTracks(blocks, ncolors, cs, run, |cs|);
    FinalTracks(blocks, ncolors, cs, run[|cs|], x);
  }

  /** A final state tracked after the whole line has placed every block inside the line. */
  lemma FinalTracks(blocks: seq<Block>, ncolors: nat, cs: seq<nat>, s: State, x: Arrangement)
    requires Tracks(blocks, ncolors, cs, |cs|, s, x) && Final(blocks, ncolors, s)
    ensures Admissible(|cs|, blocks, ncolors, x) && Painted(|cs|, blocks, x) == cs
  {
    var n, m := |cs|, |blocks|;
    if m > 0 {
      assert s.E? || s.B?;
      assert PlacedUpTo(blocks, ncolors, x, m) && PaintsPrefix(blocks, x, m, cs, n);
      forall b | 0 <= b < m ensures x.starts[b] + blocks[b].size <= n {
        PlacedEnds(blocks, ncolors, x, m, b);
      }
    }
  }

  // ---------------------------------------------------------------------------------------------
  // From an arrangement to a run

  /**
   * The blocks among the first `k` whose start lies before `q`, counted from the front: with
   * starts in increasing order, exactly the first `r` of them do.
   */
  function Started(blocks: seq<Block>, x: Arrangement, q: nat, k: nat): (r: nat)
    requires Shaped(blocks, x) && k <= |blocks|
    ensures r <= k && (r > 0 ==> x.starts[r - 1] < q)
    ensures forall b :: r <= b < k ==> q <= x.starts[b]
  {
    if k == 0 then 0 else if x.starts[k - 1] < q then k else Started(blocks, x, q, k - 1)
  }

  /** The state the automaton is in after the first `q` cells painted by `x`. */
  function StateAt(blocks: seq<Block>, x: Arrangement, q: nat): State
    requires Shaped(blocks, x)
  {
    var k := Started(blocks, x, q, |blocks|);
    if k == 0 then S
    else if q <= x.starts[k - 1] + blocks[k - 1].size then B(k - 1, x.colours[k - 1] + 1, q - x.starts[k - 1])
    else if k < |blocks| then G(k - 1)
    else E
  }

  lemma StateAtIsState(length: nat, blocks: seq<Block>, ncolors: nat, x: Arrangement, q: nat)
    requires Admissible(length, blocks, ncolors, x)
    ensures IsState(blocks, ncolors, StateAt(blocks, x, q))
  {
  }

  /** Every block ends no later than any later block starts. */
  ghost predicate Increasing(blocks: seq<Block>, x: Arrangement) {
    Shaped(blocks, x) &&
    forall b, b' :: 0 <= b < b' < |blocks| ==> x.starts[b] + blocks[b].size <= x.starts[b']
  }

  lemma AdmissibleIncreasing(length: nat, blocks: seq<Block>, ncolors: nat, x: Arrangement)
    requires Admissible(length, blocks, ncolors, x)
    ensures Increasing(blocks, x)
  {
    forall b, b' | 0 <= b < b' < |blocks| ensures x.starts[b] + blocks[b].size <= x.starts[b'] {
      PlacementOrdered(length, blocks, x.starts, b, b');
    }
  }

  /** One more cell read: the count of begun blocks grows exactly when a block starts at `q`. */
  lemma StartedStep(blocks: seq<Block>, x: Arrangement, q: nat)
    requires Increasing(blocks, x) && NoEmptyBlock(blocks)
    ensures var k, k' := Started(blocks, x, q, |blocks|), Started(blocks, x, q + 1, |blocks|);
            if k < |blocks| && x.starts[k] == q then k' == k + 1 else k' == k
  {
  }

  /**
   * The palette index at `q`: the colour of the block that starts there, else that of the last
   * begun block while it lasts, else the background.
   */
  lemma PaintedStep(length: nat, blocks: seq<Block>, ncolors: nat, x: Arrangement, q: nat)
    requires Admissible(length, blocks, ncolors, x) && NoEmptyBlock(blocks) && q < length
    ensures var k, col := Started(blocks, x, q, |blocks|), Painted(length, blocks, x)[q];
            if k < |blocks| && x.starts[k] == q then col == x.colours[k] + 1
            else if k > 0 && q < x.starts[k - 1] + blocks[k - 1].size then col == x.colours[k - 1] + 1
            else col == 0
  {
    AdmissibleIncreasing(length, blocks, ncolors, x);
    PaintedMeaning(length, blocks, x, q);
    var k := Started(blocks, x, q, |blocks|);
    if !(k < |blocks| && x.starts[k] == q) && !(k > 0 && q < x.starts[k - 1] + blocks[k - 1].size) {
      forall b | 0 <= b < |blocks| ensures !(x.starts[b] <= q < x.starts[b] + blocks[b].size) {
        if b < k - 1 {
          assert x.starts[b] + blocks[b].size <= x.starts[k - 1];
        }
      }
    }
  }

  /** On the painting of an admissible arrangement, consecutive tracked states follow `Next`. */
  lemma StateAtStep(length: nat, blocks: seq<Block>, ncolors: nat, x: Arrangement, q: nat)
    requires Admissible(length, blocks, ncolors, x) && NoEmptyBlock(blocks) && q < length
    ensures InRange(blocks, StateAt(blocks, x, q))
    ensures StateAt(blocks, x, q + 1) in Next(StateAt(blocks, x, q), Painted(length, blocks, x)[q], blocks)
  {
    AdmissibleIncreasing(length, blocks, ncolors, x);
    StartedStep(blocks, x, q);
    PaintedStep(length, blocks, ncolors, x, q);
    var k := Started(blocks, x, q, |blocks|);
    if k < |blocks| && x.starts[k] == q {
      assert ColourFits(blocks[k], ncolors, x.colours[k]);
      assert k > 0 ==> x.starts[k - 1] + blocks[k - 1].size <= q;
      StepEnter(blocks, ncolors, x, q, k);
    } else {
      StepStay(blocks, ncolors, x, q, k, Painted(length, blocks, x)[q]);
    }
  }

  /** Block `k` starts at `q`: the automaton enters it from `S`, from the end of block `k - 1` or from a gap. */
  lemma StepEnter(blocks: seq<Block>, ncolors: nat, x: Arrangement, q: nat, k: nat)
    requires Shaped(blocks, x) && k < |blocks| && x.starts[k] == q && blocks[k].size >= 1
    requires Started(blocks, x, q, |blocks|) == k && Started(blocks, x, q + 1, |blocks|) == k + 1
    requires ColourFits(blocks[k], ncolors, x.colours[k])
    requires k > 0 ==> x.starts[k - 1] + blocks[k - 1].size <= q
    requires k > 0 && x.colours[k] == x.colours[k - 1] ==> x.starts[k - 1] + blocks[k - 1].size + 1 <= q
    ensures InRange(blocks, StateAt(blocks, x, q))
    ensures StateAt(blocks, x, q + 1) in Next(StateAt(blocks, x, q), x.colours[k] + 1, blocks)
  {
    var col := x.colours[k] + 1;
    assert StateAt(blocks, x, q + 1) == B(k, col, 1);
    if k > 0 {
      var end := x.starts[k - 1] + blocks[k - 1].size;
      if end == q {
        assert StateAt(blocks, x, q) == B(k - 1, x.colours[k - 1] + 1, blocks[k - 1].size);
      } else {
        assert StateAt(blocks, x, q) == G(k - 1);
      }
    }
  }

  /** No block starts at `q`: the automaton stays in `S`, inside the last begun block, or in a gap. */
  lemma StepStay(blocks: seq<Block>, ncolors: nat, x: Arrangement, q: nat, k: nat, col: nat)
    requires Shaped(blocks, x)
    requires Started(blocks, x, q, |blocks|) == k && Started(blocks, x, q + 1, |blocks|) == k
    requires col == if k > 0 && q < x.starts[k - 1] + blocks[k - 1].size then x.colours[k - 1] + 1 else 0
    ensures InRange(blocks, StateAt(blocks, x, q))
    ensures StateAt(blocks, x, q + 1) in Next(StateAt(blocks, x, q), col, blocks)
  {
    if k > 0 {
      var end := x.starts[k - 1] + blocks[k - 1].size;
      if q < end {
        assert StateAt(blocks, x, q) == B(k - 1, x.colours[k - 1] + 1, q - x.starts[k - 1]);
      } else if q == end {
        assert StateAt(blocks, x, q) == B(k - 1, x.colours[k - 1] + 1, blocks[k - 1].size);
      }
    }
  }

  /** The states after each prefix of the painting of `x`, from the empty prefix to the whole line. */
  function Trace(blocks: seq<Block>, x: Arrangement, length: nat): (run: seq<State>)
    requires Shaped(blocks, x)
    ensures |run| == length + 1 && forall q :: 0 <= q <= length ==> run[q] == StateAt(blocks, x, q)
  {
    seq(length + 1, q requires 0 <= q <= length => StateAt(blocks, x, q))
  }

  /** The trace of an admissible arrangement of non-empty blocks is a run over its painting. */
  lemma TraceIsRun(length: nat, blocks: seq<Block>, ncolors: nat, x: Arrangement)
    requires Admissible(length, blocks, ncolors, x) && NoEmptyBlock(blocks)
    ensures IsRun(blocks, ncolors, Painted(length, blocks, x), Trace(blocks, x, length))
  {
    var cs, run := Painted(length, blocks, x), Trace(blocks, x, length);
    forall q | 0 <= q <= length ensures IsState(blocks, ncolors, run[q]) {
      StateAtIsState(length, blocks, ncolors, x, q);
    }
    forall q | 0 <= q < length ensures InRange(blocks, run[q]) && run[q + 1] in Next(run[q], cs[q], blocks) {
      StateAtStep(length, blocks, ncolors, x, q);
    }
  }

  /** After the whole line the tracked state is final: the last block is just done, or behind. */
  lemma TraceFinal(length: nat, blocks: seq<Block>, ncolors: nat, x: Arrangement)
    requires Admissible(length, blocks, ncolors, x) && NoEmptyBlock(blocks)
    ensures Final(blocks, ncolors, StateAt(blocks, x, length))
  {
    if |blocks| > 0 {
      var k := |blocks| - 1;
      assert Started(blocks, x, length, |blocks|) == |blocks| by {
        assert x.starts[k] < length;
      }
    }
  }

  /** The painting of every admissible arrangement of non-empty blocks is accepted. */
  lemma AcceptsComplete(length: nat, blocks: seq<Block>, ncolors: nat, x: Arrangement)
    requires Admissible(length, blocks, ncolors, x) && NoEmptyBlock(blocks)
    ensures Accepts(blocks, ncolors, Painted(length, blocks, x))
  {
    var run := Trace(blocks, x, length);
    TraceIsRun(length, blocks, ncolors, x);
    TraceFinal(length, blocks, ncolors, x);
    assert run[length] == StateAt(blocks, x, length);
  }

  /**
   * For a clue whose blocks all cover at least one cell, the automaton accepts exactly the
   * paintings of the arrangements the clue admits.
   */
  lemma AcceptsIffPainted(blocks: seq<Block>, ncolors: nat, cs: seq<nat>)
    requires NoEmptyBlock(blocks)
    ensures Accepts(blocks, ncolors, cs) <==>
            exists x :: Admissible(|cs|, blocks, ncolors, x) && Painted(|cs|, blocks, x) == cs
  {
    if Accepts(blocks, ncolors, cs) {
      var x := AcceptsSound(blocks, ncolors, cs);
    }
    if exists x :: Admissible(|cs|, blocks, ncolors, x) && Painted(|cs|, blocks, x) == cs {
      var x :| Admissible(|cs|, blocks, ncolors, x) && Painted(|cs|, blocks, x) == cs;
      AcceptsComplete(|cs|, blocks, ncolors, x);
    }
  }

  /**
   * A block without cells whose fixed colour lies beyond the palette (clue `0b` with two palette
   * colours) does not break the automaton, and approach 1 may place it anywhere. The automaton
   * has no state for it, so it accepts nothing, not even the empty line.
   */
  lemma EmptyFixedBlock()
    ensures var blocks, x := [Block(0, Some(1))], Arrangement([0], [1]);
            && !Broken(blocks, 2)
            && Admissible(0, blocks, 2, x) && Painted(0, blocks, x) == []
            && !Accepts(blocks, 2, [])
  {
    BrokenMeaning([Block(0, Some(1))], 2);
  }
}
