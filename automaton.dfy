/**
 * The per-line automaton of approach 4 (`solvers/approach4.py`): its states, in the order
 * `build_states_for_blocks` lists them, its accepting states, and the transition rule `encode`
 * applies to every (state, colour) pair.
 */
module Automaton {
  import opened Wrappers
  import opened Seqs
  import opened Clue
  import opened Keys

  // ---------------------------------------------------------------------------------------------
  // Sequences without repetitions

  lemma DistinctAppend<T>(a: seq<T>, b: seq<T>)
    requires Distinct(a) && Distinct(b) && forall x :: x in a ==> x !in b
    ensures Distinct(a + b)
  {
    forall i, j | 0 <= i < j < |a + b| ensures (a + b)[i] != (a + b)[j] {
      if i < |a| && j >= |a| {
        assert (a + b)[i] in a && (a + b)[j] == b[j - |a|];
      }
    }
  }

  /** Pieces without repetitions that share no element concatenate to a sequence without any. */
  lemma {:induction false} FlatDistinct<T>(xss: seq<seq<T>>)
    requires forall i :: 0 <= i < |xss| ==> Distinct(xss[i])
    requires forall i, i', x :: 0 <= i < i' < |xss| && x in xss[i] ==> x !in xss[i']
    ensures Distinct(Flat(xss))
  {
    if xss != [] {
      var pre := xss[..|xss| - 1];
      var last := xss[|xss| - 1];
      FlatDistinct(pre);
      forall x | x in Flat(pre) ensures x !in last {
        FlatMembers(pre, x);
        var i :| 0 <= i < |pre| && x in pre[i];
        assert x in xss[i];
      }
      DistinctAppend(Flat(pre), last);
    }
  }

  // ---------------------------------------------------------------------------------------------
  // States

  /** The palette indices block `b` may be painted with: every real colour for `?`, else its own. */
  function ValidCs(b: Block, ncolors: nat): seq<nat> {
    match b.colour
    case None => seq(if ncolors >= 1 then ncolors - 1 else 0, i => i + 1)
    case Some(f) => [f + 1]
  }

  /** Palette index `c` is one of the colours block `b` may take. */
  predicate ColourOk(b: Block, ncolors: nat, c: nat) {
    match b.colour
    case None => 1 <= c < ncolors
    case Some(f) => c == f + 1
  }

  lemma ValidCsMembers(b: Block, ncolors: nat, c: nat)
    ensures c in ValidCs(b, ncolors) <==> ColourOk(b, ncolors, c)
  {
    if b.colour.None? && 1 <= c < ncolors {
      assert ValidCs(b, ncolors)[c - 1] == c;
    }
  }

  /** `B{j}_{c}_{t}` for `t` in `1..size`. */
  function Chain(j: nat, c: nat, size: nat): (r: seq<State>)
    ensures |r| == size && forall t :: 0 <= t < size ==> r[t] == B(j, c, t + 1)
  {
    seq(size, t requires 0 <= t < size => B(j, c, t + 1))
  }

  /** The chains of block `j`, one per colour in `cs`. */
  function Chains(j: nat, cs: seq<nat>, size: nat): seq<seq<State>> {
    seq(|cs|, i requires 0 <= i < |cs| => Chain(j, cs[i], size))
  }

  /** What the loop of `build_states_for_blocks` appends for block `j`. */
  function BlockPart(blocks: seq<Block>, j: nat, ncolors: nat): seq<State>
    requires j < |blocks|
  {
    Flat(Chains(j, ValidCs(blocks[j], ncolors), blocks[j].size)) + if j < |blocks| - 1 then [G(j)] else []
  }

  function BlockParts(blocks: seq<Block>, ncolors: nat): seq<seq<State>> {
    seq(|blocks|, j requires 0 <= j < |blocks| => BlockPart(blocks, j, ncolors))
  }

  /** The state list of `build_states_for_blocks`. */
  function States(blocks: seq<Block>, ncolors: nat): seq<State> {
    [S] + Flat(BlockParts(blocks, ncolors)) + [E]
  }

  /** A state of the automaton of `blocks`. */
  predicate IsState(blocks: seq<Block>, ncolors: nat, s: State) {
    match s
    case S => true
    case E => true
    case B(j, c, t) => j < |blocks| && ColourOk(blocks[j], ncolors, c) && 1 <= t <= blocks[j].size
    case G(j) => j + 1 < |blocks|
  }

  lemma BlockPartMembers(blocks: seq<Block>, j: nat, ncolors: nat, s: State)
    requires j < |blocks|
    ensures s in BlockPart(blocks, j, ncolors) <==> IsState(blocks, ncolors, s) && (s.B? || s.G?) && s.j == j
  {
    var cs := ValidCs(blocks[j], ncolors);
    var chains := Chains(j, cs, blocks[j].size);
    FlatMembers(chains, s);
    if s.B? && s.j == j {
      ValidCsMembers(blocks[j], ncolors, s.c);
      if IsState(blocks, ncolors, s) {
        var i :| 0 <= i < |cs| && cs[i] == s.c;
        assert chains[i][s.t - 1] == s;
      }
    }
    if exists i :: 0 <= i < |chains| && s in chains[i] {
      var i :| 0 <= i < |chains| && s in chains[i];
      ValidCsMembers(blocks[j], ncolors, cs[i]);
    }
  }

  /** `build_states_for_blocks` lists exactly the states of the automaton. */
  lemma StatesMeaning(blocks: seq<Block>, ncolors: nat, s: State)
    ensures s in States(blocks, ncolors) <==> IsState(blocks, ncolors, s)
  {
    var parts := BlockParts(blocks, ncolors);
    FlatMembers(parts, s);
    if (s.B? || s.G?) && s.j < |blocks| {
      BlockPartMembers(blocks, s.j, ncolors, s);
      assert parts[s.j] == BlockPart(blocks, s.j, ncolors);
    }
    assert s in States(blocks, ncolors) <==> s == S || s == E || s in Flat(parts);
    if exists j :: 0 <= j < |parts| && s in parts[j] {
      var j :| 0 <= j < |parts| && s in parts[j];
      BlockPartMembers(blocks, j, ncolors, s);
    }
  }

  /** No state is listed twice, so every state receives one variable per position. */
  lemma StatesDistinct(blocks: seq<Block>, ncolors: nat)
    ensures Distinct(States(blocks, ncolors))
  {
    var parts := BlockParts(blocks, ncolors);
    forall j | 0 <= j < |parts| ensures Distinct(parts[j]) {
      var cs := ValidCs(blocks[j], ncolors);
      var chains := Chains(j, cs, blocks[j].size);
      assert Distinct(cs);
      forall i, i', x | 0 <= i < i' < |chains| && x in chains[i] ensures x !in chains[i'] {
      }
      FlatDistinct(chains);
      forall x | x in Flat(chains) ensures x !in (if j < |blocks| - 1 then [G(j)] else []) {
        FlatMembers(chains, x);
      }
      DistinctAppend(Flat(chains), if j < |blocks| - 1 then [G(j)] else []);
    }
    forall j, j', x | 0 <= j < j' < |parts| && x in parts[j] ensures x !in parts[j'] {
      BlockPartMembers(blocks, j, ncolors, x);
      BlockPartMembers(blocks, j', ncolors, x);
    }
    FlatDistinct(parts);
    forall x | x in Flat(parts) ensures x != S && x != E {
      FlatMembers(parts, x);
      var j :| 0 <= j < |parts| && x in parts[j];
      BlockPartMembers(blocks, j, ncolors, x);
    }
    DistinctAppend([S], Flat(parts));
    DistinctAppend([S] + Flat(parts), [E]);
  }

  /**
   * The accepting states, in a fixed order (the source keeps them in a set): `S` and `E` without
   * blocks, else `E` and the last cell of the last block in each of its colours.
   */
  function Accepting(blocks: seq<Block>, ncolors: nat): seq<State> {
    if |blocks| == 0 then [S, E]
    else
      var last := blocks[|blocks| - 1];
      var cs := ValidCs(last, ncolors);
      [E] + seq(|cs|, i requires 0 <= i < |cs| => B(|blocks| - 1, cs[i], last.size))
  }

  /** An accepting state that is also a state of the automaton. */
  predicate Final(blocks: seq<Block>, ncolors: nat, s: State) {
    if |blocks| == 0 then s == S || s == E
    else
      var k := |blocks| - 1;
      s == E || (s.B? && s.j == k && ColourOk(blocks[k], ncolors, s.c) && s.t == blocks[k].size && s.t >= 1)
  }

  lemma AcceptingMeaning(blocks: seq<Block>, ncolors: nat, s: State)
    ensures s in Accepting(blocks, ncolors) && s in States(blocks, ncolors) <==> Final(blocks, ncolors, s)
  {
    StatesMeaning(blocks, ncolors, s);
    if |blocks| > 0 && s.B? && s.j == |blocks| - 1 {
      var cs := ValidCs(blocks[s.j], ncolors);
      ValidCsMembers(blocks[s.j], ncolors, s.c);
      if ColourOk(blocks[s.j], ncolors, s.c) {
        var i :| 0 <= i < |cs| && cs[i] == s.c;
        assert Accepting(blocks, ncolors)[i + 1] == B(s.j, cs[i], blocks[s.j].size);
      }
      if s in Accepting(blocks, ncolors) {
        var i :| 0 <= i < |Accepting(blocks, ncolors)| && Accepting(blocks, ncolors)[i] == s;
        assert i > 0 && cs[i - 1] == s.c;
      }
    }
  }

  /** The loop of `build_states_for_blocks` over `t` for one colour `c` of block `j`. */
  method AppendChain(states: seq<State>, j: nat, c: nat, size: nat) returns (r: seq<State>)
    ensures r == states + Chain(j, c, size)
  {
    r := states;
    for t := 1 to size + 1
      invariant r == states + Chain(j, c, t - 1)
    {
      assert Chain(j, c, t) == Chain(j, c, t - 1) + [B(j, c, t)];
      r := r + [B(j, c, t)];
    }
  }

  /** One iteration of the loop of `build_states_for_blocks` over the blocks. */
  method AppendBlock(states: seq<State>, blocks: seq<Block>, j: nat, ncolors: nat) returns (r: seq<State>)
    requires j < |blocks|
    ensures r == states + BlockPart(blocks, j, ncolors)
  {
    var validCs := match blocks[j].colour case None => seq(if ncolors >= 1 then ncolors - 1 else 0, i => i + 1)
                                          case Some(f) => [f + 1];
    var chains := Chains(j, validCs, blocks[j].size);
    r := states;
    for i := 0 to |validCs|
      invariant r == states + Flat(chains[..i])
    {
      r := AppendChain(r, j, validCs[i], blocks[j].size);
      FlatSnoc(chains, i);
    }
    assert chains[..|validCs|] == chains;
    if j < |blocks| - 1 {
      r := r + [G(j)];
    }
  }

  /** `build_states_for_blocks(blocks, ncolors)`. */
  method BuildStates(blocks: seq<Block>, ncolors: nat) returns (states: seq<State>, accepting: seq<State>)
    ensures states == States(blocks, ncolors) && accepting == Accepting(blocks, ncolors)
  {
    var parts := BlockParts(blocks, ncolors);
    states := [S];
    for j := 0 to |blocks|
      invariant states == [S] + Flat(parts[..j])
    {
      states := AppendBlock(states, blocks, j, ncolors);
      FlatSnoc(parts, j);
    }
    assert parts[..|blocks|] == parts;
    states := states + [E];
    accepting := AcceptingStates(blocks, ncolors);
  }

  /** The accepting set built at the end of `build_states_for_blocks`. */
  method AcceptingStates(blocks: seq<Block>, ncolors: nat) returns (accepting: seq<State>)
    ensures accepting == Accepting(blocks, ncolors)
  {
    if |blocks| == 0 {
      accepting := [S, E];
    } else {
      var k := |blocks| - 1;
      var last := blocks[k];
      var validCs := match last.colour case None => seq(if ncolors >= 1 then ncolors - 1 else 0, i => i + 1)
                                        case Some(f) => [f + 1];
      accepting := [E];
      for i := 0 to |validCs|
        invariant accepting == [E] + seq(i, i' requires 0 <= i' < i => B(k, validCs[i'], last.size))
      {
        accepting := accepting + [B(k, validCs[i], last.size)];
      }
    }
  }

  // ---------------------------------------------------------------------------------------------
  // Transitions

  /** Palette index `col` may start block `b` (the source's `valid_next_color`). */
  predicate Fits(b: Block, col: nat) {
    match b.colour
    case None => true
    case Some(f) => col == f + 1
  }

  /** The block of a `B` state is one of the clue's. */
  predicate InRange(blocks: seq<Block>, s: State) {
    s.B? ==> s.j < |blocks|
  }

  /**
   * The successors of state `s` on a cell of palette index `col` (the list `next_s` of `encode`).
   */
  function Next(s: State, col: nat, blocks: seq<Block>): (r: seq<State>)
    requires InRange(blocks, s)
    ensures |r| <= 1 && forall s' :: s' in r ==> InRange(blocks, s')
  {
    match s
    case S =>
      if col == 0 then [S]
      else if |blocks| > 0 && Fits(blocks[0], col) then [B(0, col, 1)]
      else []
    case B(j, c, t) =>
      var size := blocks[j].size;
      if col == c then
        if t < size then [B(j, c, t + 1)] else []
      else if t == size then
        if col == 0 then
          if j < |blocks| - 1 then [G(j)] else [E]
        else if j < |blocks| - 1 && Fits(blocks[j + 1], col) && col != c then [B(j + 1, col, 1)]
        else []
      else []
    case G(j) =>
      if col == 0 then [G(j)]
      else if j + 1 < |blocks| && Fits(blocks[j + 1], col) then [B(j + 1, col, 1)]
      else []
    case E =>
      if col == 0 then [E] else []
  }

  /** Every listed state names one of the clue's blocks. */
  lemma StatesInRange(blocks: seq<Block>, ncolors: nat)
    ensures forall s :: s in States(blocks, ncolors) ==> InRange(blocks, s)
  {
    forall s | s in States(blocks, ncolors) ensures InRange(blocks, s) {
      StatesMeaning(blocks, ncolors, s);
    }
  }

  /** On palette index `col`, state `s` moves to a state that was never created. */
  predicate Escapes(s: State, col: nat, blocks: seq<Block>, ncolors: nat)
    requires InRange(blocks, s)
  {
    exists ns :: ns in Next(s, col, blocks) && !IsState(blocks, ncolors, ns)
  }

  /** Some state moves to a state that was never created, on some palette index. */
  ghost predicate Broken(blocks: seq<Block>, ncolors: nat) {
    exists s, col: nat :: IsState(blocks, ncolors, s) && col < ncolors && Escapes(s, col, blocks, ncolors)
  }

  /** Block `j` is empty and may take the real colour `col`. */
  predicate EmptyBlock(blocks: seq<Block>, ncolors: nat, j: nat, col: nat) {
    j < |blocks| && blocks[j].size == 0 && 1 <= col < ncolors && Fits(blocks[j], col)
  }

  /**
   * A transition leaves the automaton exactly when some block is empty (a clue token `0`) and
   * some real colour of the palette may start it: a block without cells has no states to enter.
   */
  lemma BrokenMeaning(blocks: seq<Block>, ncolors: nat)
    ensures Broken(blocks, ncolors) <==> exists j: nat, col: nat :: EmptyBlock(blocks, ncolors, j, col)
  {
    if Broken(blocks, ncolors) {
      var s, col: nat :| IsState(blocks, ncolors, s) && col < ncolors && Escapes(s, col, blocks, ncolors);
      var ns :| ns in Next(s, col, blocks) && !IsState(blocks, ncolors, ns);
      assert ns.B? && ns.c == col && ns.t == 1;
      assert EmptyBlock(blocks, ncolors, ns.j, col);
    }
    if exists j: nat, col: nat :: EmptyBlock(blocks, ncolors, j, col) {
      var j: nat, col: nat :| EmptyBlock(blocks, ncolors, j, col);
      var s := if j == 0 then S else G(j - 1);
      assert Next(s, col, blocks) == [B(j, col, 1)];
      assert B(j, col, 1) in Next(s, col, blocks) && !IsState(blocks, ncolors, B(j, col, 1));
      assert Escapes(s, col, blocks, ncolors);
    }
  }

  // ---------------------------------------------------------------------------------------------
  // Runs

  /**
   * `run` is a run of the automaton over cells of palette indices `colours`: it starts in `S`,
   * visits states only, and follows a transition on every cell.
   */
  ghost predicate IsRun(blocks: seq<Block>, ncolors: nat, colours: seq<nat>, run: seq<State>) {
    && |run| == |colours| + 1 && run[0] == S
    && (forall q :: 0 <= q < |run| ==> IsState(blocks, ncolors, run[q]))
    && (forall q :: 0 <= q < |colours| ==> InRange(blocks, run[q]) && run[q + 1] in Next(run[q], colours[q], blocks))
  }

  /** A run extends by one step along a transition. */
  lemma RunSnoc(blocks: seq<Block>, ncolors: nat, colours: seq<nat>, run: seq<State>, col: nat, ns: State)
    requires IsRun(blocks, ncolors, colours, run) && InRange(blocks, run[|colours|])
    requires ns in Next(run[|colours|], col, blocks) && IsState(blocks, ncolors, ns)
    ensures IsRun(blocks, ncolors, colours + [col], run + [ns])
  {
    var colours', run' := colours + [col], run + [ns];
    forall q | 0 <= q < |colours'| ensures InRange(blocks, run'[q]) && run'[q + 1] in Next(run'[q], colours'[q], blocks) {
      if q < |colours| {
        assert run'[q] == run[q] && run'[q + 1] == run[q + 1] && colours'[q] == colours[q];
      }
    }
  }

  /** The automaton accepts the palette indices `colours`: some run over them ends in a final state. */
  ghost predicate Accepts(blocks: seq<Block>, ncolors: nat, colours: seq<nat>) {
    exists run :: IsRun(blocks, ncolors, colours, run) && Final(blocks, ncolors, run[|colours|])
  }

  /** The run an accepted sequence of colours follows. */
  lemma AcceptingRun(blocks: seq<Block>, ncolors: nat, colours: seq<nat>) returns (run: seq<State>)
    requires Accepts(blocks, ncolors, colours)
    ensures IsRun(blocks, ncolors, colours, run) && Final(blocks, ncolors, run[|colours|])
  {
    run :| IsRun(blocks, ncolors, colours, run) && Final(blocks, ncolors, run[|colours|]);
  }
}
