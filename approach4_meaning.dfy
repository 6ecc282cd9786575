/**
 * What the clauses of approach 4 mean: a model of a line's clauses places the automaton in exactly
 * one state before every cell, starts it in `S`, moves it along the cells' colours and ends it in
 * an accepting state, so the line's colours are accepted; and every accepted colouring extends to
 * a model by setting the state variables along an accepting run.
 */
module Approach4Meaning {
  import opened Wrappers
  import opened Seqs
  import opened Keys
  import opened Cnf
  import opened Clue
  import opened Automaton
  import opened Encoding
  import opened Approach4
  import Arrangements
  import AutomatonMeaning
  import Approach1

  // ---------------------------------------------------------------------------------------------
  // Clause groups, one at a time

  /** Exactly one of the listed states holds at position `q` of line `lidx`. */
  ghost predicate OneState(a: set<Key>, lidx: nat, q: nat, states: seq<State>) {
    (exists s :: s in states && StateAt(lidx, q, s) in a) &&
    (forall s, s' :: s in states && s' in states && StateAt(lidx, q, s) in a && StateAt(lidx, q, s') in a ==> s == s')
  }

  lemma OneStateMeaning(a: set<Key>, lidx: nat, q: nat, states: seq<State>)
    requires Distinct(states)
    ensures Models(a, ExactlyOne(StateKeys(lidx, q, states))) <==> OneState(a, lidx, q, states)
  {
    var ks := StateKeys(lidx, q, states);
    ExactlyOneMeaning(a, ks);
    if OneState(a, lidx, q, states) {
      var s :| s in states && StateAt(lidx, q, s) in a;
      var i :| 0 <= i < |states| && states[i] == s;
      assert ks[i] in a;
    }
    if exists i :: 0 <= i < |ks| && ks[i] in a {
      var i :| 0 <= i < |ks| && ks[i] in a;
      assert states[i] in states;
    }
    if Models(a, ExactlyOne(ks)) {
      forall s, s' | s in states && s' in states && StateAt(lidx, q, s) in a && StateAt(lidx, q, s') in a
        ensures s == s'
      {
        var i :| 0 <= i < |states| && states[i] == s;
        var j :| 0 <= j < |states| && states[j] == s';
        assert ks[i] in a && ks[j] in a;
      }
    }
    if OneState(a, lidx, q, states) {
      forall i, j | 0 <= i < j < |ks| && ks[i] in a ensures ks[j] !in a {
        assert states[i] in states && states[j] in states;
      }
    }
  }

  lemma {:induction false} ExclusiveMeaning(a: set<Key>, lidx: nat, n: nat, states: seq<State>)
    ensures Models(a, Exclusive(lidx, n, states)) <==>
            forall q :: 0 <= q < n ==> Models(a, ExactlyOne(StateKeys(lidx, q, states)))
  {
    if n > 0 {
      ExclusiveMeaning(a, lidx, n - 1, states);
      ModelsAppend(a, Exclusive(lidx, n - 1, states), ExactlyOne(StateKeys(lidx, n - 1, states)));
    }
  }

  /** A transition clause holds when the state or the colour is off, or some successor holds. */
  lemma TransitionMeaning(a: set<Key>, lidx: nat, q: nat, coord: Coord, s: State, col: nat, blocks: seq<Block>)
    requires InRange(blocks, s)
    ensures ClauseHolds(a, Transition(lidx, q, coord, s, col, blocks)) <==>
            StateAt(lidx, q, s) !in a || Cell(coord, col) !in a ||
            exists ns :: ns in Next(s, col, blocks) && StateAt(lidx, q + 1, ns) in a
  {
    var next := Next(s, col, blocks);
    var head := [Neg(StateAt(lidx, q, s)), Neg(Cell(coord, col))];
    var succ := Successors(lidx, q + 1, next);
    var c := Transition(lidx, q, coord, s, col, blocks);
    assert c == head + succ;
    if exists ns :: ns in next && StateAt(lidx, q + 1, ns) in a {
      var ns :| ns in next && StateAt(lidx, q + 1, ns) in a;
      var i :| 0 <= i < |next| && next[i] == ns;
      assert c[2 + i] == succ[i];
      assert LitHolds(a, c[2 + i]);
    }
    if StateAt(lidx, q, s) !in a {
      assert LitHolds(a, c[0]);
    } else if Cell(coord, col) !in a {
      assert LitHolds(a, c[1]);
    }
    if ClauseHolds(a, c) && StateAt(lidx, q, s) in a && Cell(coord, col) in a {
      var l :| l in c && LitHolds(a, l);
      if l !in head {
        assert l in succ;
        var i :| 0 <= i < |next| && succ[i] == l;
        assert next[i] in next && StateAt(lidx, q + 1, next[i]) in a;
      }
    }
  }

  lemma {:induction false} AcceptClauseMeaning(a: set<Key>, lidx: nat, n: nat, accepting: seq<State>, m: nat,
                                               states: seq<State>)
    requires m <= |accepting|
    ensures ClauseHolds(a, AcceptClause(lidx, n, accepting, m, states)) <==>
            exists i :: 0 <= i < m && accepting[i] in states && StateAt(lidx, n, accepting[i]) in a
  {
    if m > 0 {
      AcceptClauseMeaning(a, lidx, n, accepting, m - 1, states);
      var tail: KClause<Key> := if accepting[m - 1] in states then [Pos(StateAt(lidx, n, accepting[m - 1]))] else [];
      var c := AcceptClause(lidx, n, accepting, m - 1, states) + tail;
      assert forall l :: l in c <==> l in AcceptClause(lidx, n, accepting, m - 1, states) || l in tail;
      if accepting[m - 1] in states && StateAt(lidx, n, accepting[m - 1]) in a {
        assert LitHolds(a, tail[0]);
      }
    }
  }

  /** A model of a line's clauses is a model of each of its four groups. */
  lemma LineClausesGroups(a: set<Key>, lidx: nat, cells: seq<Coord>, blocks: seq<Block>, ncolors: nat)
    ensures AllInRange(blocks, States(blocks, ncolors))
    ensures var states := States(blocks, ncolors);
            var accepting := Accepting(blocks, ncolors);
            Models(a, LineClauses(lidx, cells, blocks, ncolors)) <==>
            && Models(a, Exclusive(lidx, |cells| + 1, states))
            && ClauseHolds(a, [Pos(StateAt(lidx, 0, S))])
            && Models(a, Transitions(lidx, cells, |cells|, states, blocks, ncolors))
            && ClauseHolds(a, AcceptClause(lidx, |cells|, accepting, |accepting|, states))
  {
    var states := States(blocks, ncolors);
    var accepting := Accepting(blocks, ncolors);
    ClosedStates(blocks, ncolors);
    var exc := Exclusive(lidx, |cells| + 1, states);
    var init: KClause<Key> := [Pos(StateAt(lidx, 0, S))];
    var tr := Transitions(lidx, cells, |cells|, states, blocks, ncolors);
    var acc := AcceptClause(lidx, |cells|, accepting, |accepting|, states);
    assert LineClauses(lidx, cells, blocks, ncolors) == exc + [init] + tr + [acc];
    ModelsAppend(a, exc + [init] + tr, [acc]);
    ModelsAppend(a, exc + [init], tr);
    ModelsAppend(a, exc, [init]);
  }

  /** A unit clause holds exactly when its key does. */
  lemma UnitMeaning(a: set<Key>, k: Key)
    ensures ClauseHolds(a, [Pos(k)]) <==> k in a
  {
    if ClauseHolds(a, [Pos(k)]) {
      var l :| l in [Pos(k)] && LitHolds(a, l);
      assert l == Pos(k);
    }
    if k in a {
      assert LitHolds(a, [Pos(k)][0]);
    }
  }

  /** The acceptance clause holds exactly when some final state holds at position `n`. */
  lemma AcceptMeaning(a: set<Key>, lidx: nat, n: nat, blocks: seq<Block>, ncolors: nat)
    ensures var accepting := Accepting(blocks, ncolors);
            ClauseHolds(a, AcceptClause(lidx, n, accepting, |accepting|, States(blocks, ncolors))) <==>
            exists s :: Final(blocks, ncolors, s) && StateAt(lidx, n, s) in a
  {
    var states := States(blocks, ncolors);
    var accepting := Accepting(blocks, ncolors);
    AcceptClauseMeaning(a, lidx, n, accepting, |accepting|, states);
    if exists i :: 0 <= i < |accepting| && accepting[i] in states && StateAt(lidx, n, accepting[i]) in a {
      var i :| 0 <= i < |accepting| && accepting[i] in states && StateAt(lidx, n, accepting[i]) in a;
      AcceptingMeaning(blocks, ncolors, accepting[i]);
    }
    if exists s :: Final(blocks, ncolors, s) && StateAt(lidx, n, s) in a {
      var s :| Final(blocks, ncolors, s) && StateAt(lidx, n, s) in a;
      AcceptingMeaning(blocks, ncolors, s);
      var i :| 0 <= i < |accepting| && accepting[i] == s;
    }
  }

  /**
   * The clauses of a line, group by group: one state at every position `0..N`, `S` at position 0,
   * every transition, and an accepting state at position `N`.
   */
  lemma LineClausesMeaning(a: set<Key>, lidx: nat, cells: seq<Coord>, blocks: seq<Block>, ncolors: nat)
    ensures AllInRange(blocks, States(blocks, ncolors))
    ensures var states := States(blocks, ncolors);
            Models(a, LineClauses(lidx, cells, blocks, ncolors)) <==>
            && Models(a, Exclusive(lidx, |cells| + 1, states))
            && StateAt(lidx, 0, S) in a
            && Models(a, Transitions(lidx, cells, |cells|, states, blocks, ncolors))
            && exists s :: Final(blocks, ncolors, s) && StateAt(lidx, |cells|, s) in a
  {
    LineClausesGroups(a, lidx, cells, blocks, ncolors);
    AcceptMeaning(a, lidx, |cells|, blocks, ncolors);
    UnitMeaning(a, StateAt(lidx, 0, S));
  }

  // ---------------------------------------------------------------------------------------------
  // A line: its models are the accepting runs over its colours

  /**
   * Before every cell `q`, a model of the line's clauses puts the automaton in a state reached
   * from `S` over the colours of the first `q` cells.
   */
  lemma {:induction false} RunPrefix(a: set<Key>, lidx: nat, cells: seq<Coord>, blocks: seq<Block>, ncolors: nat,
                                     colours: seq<nat>, q: nat)
    returns (run: seq<State>)
    requires AllInRange(blocks, States(blocks, ncolors))
    requires StateAt(lidx, 0, S) in a
    requires Models(a, Transitions(lidx, cells, |cells|, States(blocks, ncolors), blocks, ncolors))
    requires |colours| == |cells| && Shows(a, cells, colours)
    requires forall p :: 0 <= p < |colours| ==> colours[p] < ncolors
    requires |cells| > 0 ==> !Broken(blocks, ncolors)
    requires q <= |cells|
    ensures IsRun(blocks, ncolors, colours[..q], run) && StateAt(lidx, q, run[q]) in a
  {
    if q == 0 {
      run := [S];
    } else {
      var run0 := RunPrefix(a, lidx, cells, blocks, ncolors, colours, q - 1);
      var s, col := run0[q - 1], colours[q - 1];
      assert Cell(cells[q - 1], col) in a;
      var ns := RunStep(a, lidx, cells, blocks, ncolors, q - 1, s, col);
      RunSnoc(blocks, ncolors, colours[..q - 1], run0, col, ns);
      assert colours[..q] == colours[..q - 1] + [col];
      run := run0 + [ns];
    }
  }

  /** Under a model of the transitions, a state at position `q` and the colour of cell `q` give a state at `q + 1`. */
  lemma RunStep(a: set<Key>, lidx: nat, cells: seq<Coord>, blocks: seq<Block>, ncolors: nat, q: nat, s: State, col: nat)
    returns (ns: State)
    requires AllInRange(blocks, States(blocks, ncolors))
    requires Models(a, Transitions(lidx, cells, |cells|, States(blocks, ncolors), blocks, ncolors))
    requires q < |cells| && !Broken(blocks, ncolors) && IsState(blocks, ncolors, s) && col < ncolors
    requires StateAt(lidx, q, s) in a && Cell(cells[q], col) in a
    ensures InRange(blocks, s) && ns in Next(s, col, blocks) && IsState(blocks, ncolors, ns)
    ensures StateAt(lidx, q + 1, ns) in a
  {
    var states := States(blocks, ncolors);
    StatesMeaning(blocks, ncolors, s);
    var i :| 0 <= i < |states| && states[i] == s;
    TransitionIn(lidx, cells, |cells|, states, blocks, ncolors, q, i, col);
    TransitionMeaning(a, lidx, q, cells[q], s, col, blocks);
    ns :| ns in Next(s, col, blocks) && StateAt(lidx, q + 1, ns) in a;
    assert !Escapes(s, col, blocks, ncolors);
  }

  /**
   * Soundness of a line: under a model of the line's clauses, the colours its cells show are
   * accepted by the automaton of its clue. The line must not raise `KeyError`, which is when
   * the clauses are built at all.
   */
  lemma LineSound(a: set<Key>, lidx: nat, cells: seq<Coord>, blocks: seq<Block>, ncolors: nat, colours: seq<nat>)
    requires Models(a, LineClauses(lidx, cells, blocks, ncolors))
    requires |colours| == |cells| && Shows(a, cells, colours)
    requires forall p :: 0 <= p < |colours| ==> colours[p] < ncolors
    requires |cells| > 0 ==> !Broken(blocks, ncolors)
    ensures Accepts(blocks, ncolors, colours)
  {
    var states := States(blocks, ncolors);
    var n := |cells|;
    LineClausesMeaning(a, lidx, cells, blocks, ncolors);
    var run := RunPrefix(a, lidx, cells, blocks, ncolors, colours, n);
    assert colours[..n] == colours;
    var f :| Final(blocks, ncolors, f) && StateAt(lidx, n, f) in a;
    AcceptingMeaning(blocks, ncolors, f);
    StatesMeaning(blocks, ncolors, run[n]);
    StatesDistinct(blocks, ncolors);
    ExclusiveMeaning(a, lidx, n + 1, states);
    OneStateMeaning(a, lidx, n, states);
    assert run[n] == f;
  }

  /** `a` with the state variables of line `lidx` set along `run` and no others. */
  ghost function Follow(a: set<Key>, lidx: nat, run: seq<State>): (a': set<Key>)
    ensures forall k: Key :: !(k.StateAt? && k.line == lidx) ==> (k in a' <==> k in a)
    ensures forall q: nat, s :: StateAt(lidx, q, s) in a' <==> q < |run| && run[q] == s
  {
    (set k | k in a && !(k.StateAt? && k.line == lidx)) + (set q | 0 <= q < |run| :: StateAt(lidx, q, run[q]))
  }

  lemma FollowExclusive(a: set<Key>, lidx: nat, blocks: seq<Block>, ncolors: nat, run: seq<State>)
    requires forall q :: 0 <= q < |run| ==> IsState(blocks, ncolors, run[q])
    ensures Models(Follow(a, lidx, run), Exclusive(lidx, |run|, States(blocks, ncolors)))
  {
    var states := States(blocks, ncolors);
    var a' := Follow(a, lidx, run);
    StatesDistinct(blocks, ncolors);
    forall q | 0 <= q < |run| ensures Models(a', ExactlyOne(StateKeys(lidx, q, states))) {
      StatesMeaning(blocks, ncolors, run[q]);
      OneStateMeaning(a', lidx, q, states);
    }
    ExclusiveMeaning(a', lidx, |run|, states);
  }

  lemma FollowTransitions(a: set<Key>, lidx: nat, cells: seq<Coord>, blocks: seq<Block>, ncolors: nat,
                          colours: seq<nat>, run: seq<State>)
    requires AllInRange(blocks, States(blocks, ncolors))
    requires |colours| == |cells| && IsRun(blocks, ncolors, colours, run)
    requires forall q, col :: 0 <= q < |cells| && 0 <= col < ncolors ==> (Cell(cells[q], col) in a <==> col == colours[q])
    ensures Models(Follow(a, lidx, run), Transitions(lidx, cells, |cells|, States(blocks, ncolors), blocks, ncolors))
  {
    var states := States(blocks, ncolors);
    var a' := Follow(a, lidx, run);
    forall c | c in Transitions(lidx, cells, |cells|, states, blocks, ncolors) ensures ClauseHolds(a', c) {
      var q, i, col := TransitionOf(lidx, cells, |cells|, states, blocks, ncolors, c);
      TransitionMeaning(a', lidx, q, cells[q], states[i], col, blocks);
      if states[i] == run[q] && col == colours[q] {
        assert run[q + 1] in Next(states[i], col, blocks) && StateAt(lidx, q + 1, run[q + 1]) in a';
      }
    }
  }

  /**
   * Completeness of a line: for cells showing exactly the colours `colours`, an accepting run of
   * the automaton over them gives a model of the line's clauses once the line's state variables
   * are set along the run; no other variable changes.
   */
  lemma LineComplete(a: set<Key>, lidx: nat, cells: seq<Coord>, blocks: seq<Block>, ncolors: nat,
                     colours: seq<nat>, run: seq<State>)
    requires |colours| == |cells| && IsRun(blocks, ncolors, colours, run) && Final(blocks, ncolors, run[|colours|])
    requires forall q, col :: 0 <= q < |cells| && 0 <= col < ncolors ==> (Cell(cells[q], col) in a <==> col == colours[q])
    ensures Models(Follow(a, lidx, run), LineClauses(lidx, cells, blocks, ncolors))
  {
    var a' := Follow(a, lidx, run);
    LineClausesMeaning(a', lidx, cells, blocks, ncolors);
    FollowExclusive(a, lidx, blocks, ncolors, run);
    FollowTransitions(a, lidx, cells, blocks, ncolors, colours, run);
    assert StateAt(lidx, |cells|, run[|cells|]) in a';
  }

  // ---------------------------------------------------------------------------------------------
  // The whole instance

  lemma {:induction false} ExclusiveKeysLocal(lidx: nat, n: nat, states: seq<State>, c: KClause<Key>, l: Lit<Key>)
    requires c in Exclusive(lidx, n, states) && l in c
    ensures l.key.StateAt? && l.key.line == lidx
  {
    if c in Exclusive(lidx, n - 1, states) {
      ExclusiveKeysLocal(lidx, n - 1, states, c, l);
    } else {
      ExactlyOneKeys(StateKeys(lidx, n - 1, states), c, l);
    }
  }

  lemma {:induction false} AcceptKeysLocal(lidx: nat, n: nat, accepting: seq<State>, m: nat, states: seq<State>,
                                           l: Lit<Key>)
    requires m <= |accepting| && l in AcceptClause(lidx, n, accepting, m, states)
    ensures l.key.StateAt? && l.key.line == lidx
  {
    if l in AcceptClause(lidx, n, accepting, m - 1, states) {
      AcceptKeysLocal(lidx, n, accepting, m - 1, states, l);
    }
  }

  /** Every key a transition clause mentions is a cell colour or one of that line's state variables. */
  lemma TransitionKeysLocal(lidx: nat, cells: seq<Coord>, blocks: seq<Block>, ncolors: nat, c: KClause<Key>,
                            l: Lit<Key>)
    requires AllInRange(blocks, States(blocks, ncolors))
    requires c in Transitions(lidx, cells, |cells|, States(blocks, ncolors), blocks, ncolors) && l in c
    ensures l.key.Cell? || (l.key.StateAt? && l.key.line == lidx)
  {
    var states := States(blocks, ncolors);
    var q, i, col := TransitionOf(lidx, cells, |cells|, states, blocks, ncolors, c);
    var next := Next(states[i], col, blocks);
    var head := [Neg(StateAt(lidx, q, states[i])), Neg(Cell(cells[q], col))];
    assert c == head + Successors(lidx, q + 1, next);
    InAppend(l, head, Successors(lidx, q + 1, next));
  }

  /** Every key a line's clauses mention is a cell colour or one of that line's state variables. */
  lemma LineKeysLocal(lidx: nat, cells: seq<Coord>, blocks: seq<Block>, ncolors: nat, c: KClause<Key>, l: Lit<Key>)
    requires c in LineClauses(lidx, cells, blocks, ncolors) && l in c
    ensures l.key.Cell? || (l.key.StateAt? && l.key.line == lidx)
  {
    var states := States(blocks, ncolors);
    var accepting := Accepting(blocks, ncolors);
    ClosedStates(blocks, ncolors);
    var exc := Exclusive(lidx, |cells| + 1, states);
    var init: KClause<Key> := [Pos(StateAt(lidx, 0, S))];
    var tr := Transitions(lidx, cells, |cells|, states, blocks, ncolors);
    var acc := AcceptClause(lidx, |cells|, accepting, |accepting|, states);
    assert LineClauses(lidx, cells, blocks, ncolors) == exc + [init] + tr + [acc];
    if c in exc {
      ExclusiveKeysLocal(lidx, |cells| + 1, states, c, l);
    } else if c in tr {
      TransitionKeysLocal(lidx, cells, blocks, ncolors, c, l);
    } else if c == acc {
      AcceptKeysLocal(lidx, |cells|, accepting, |accepting|, states, l);
    }
  }

  /** Under `a` the cells of line `l` show colours its automaton accepts. */
  ghost predicate LineAccepted(p: Geometry.Puzzle, a: set<Key>, l: nat)
    requires l < |p.lines|
  {
    var cells := p.lines[l].cells;
    ParseClue(p.lines[l].clue).Ok? &&
    exists colours: seq<nat> ::
      |colours| == |cells| && Shows(a, cells, colours) &&
      (forall q :: 0 <= q < |colours| ==> colours[q] < |p.colors|) &&
      Accepts(ParseClue(p.lines[l].clue).value, |p.colors|, colours)
  }

  ghost predicate LinesAccepted(p: Geometry.Puzzle, a: set<Key>, k: nat) {
    forall l :: k <= l < |p.lines| ==> LineAccepted(p, a, l)
  }

  /** Line `l` raises nothing. */
  ghost predicate LineQuiet(p: Geometry.Puzzle, l: nat)
    requires l < |p.lines|
  {
    ParseClue(p.lines[l].clue).Ok? &&
    LineError(l, p.lines[l].cells, p.cells, ParseClue(p.lines[l].clue).value, |p.colors|) == None
  }

  /** Whether a line is accepted depends only on the cell keys. */
  lemma LineAcceptedCells(p: Geometry.Puzzle, a: set<Key>, a': set<Key>, l: nat)
    requires l < |p.lines| && LineAccepted(p, a, l)
    requires forall key: Key :: key.Cell? ==> (key in a <==> key in a')
    ensures LineAccepted(p, a', l)
  {
    var cells := p.lines[l].cells;
    var colours: seq<nat> :| |colours| == |cells| && Shows(a, cells, colours) &&
                             (forall q :: 0 <= q < |colours| ==> colours[q] < |p.colors|) &&
                             Accepts(ParseClue(p.lines[l].clue).value, |p.colors|, colours);
    assert Shows(a', cells, colours) by {
      forall q | 0 <= q < |cells| ensures Cell(cells[q], colours[q]) in a' {
        assert Cell(cells[q], colours[q]) in a;
      }
    }
  }

  /** `LinesAccepted`, taken one line at a time: the form the completeness induction walks along. */
  ghost predicate AcceptedFrom(p: Geometry.Puzzle, a: set<Key>, k: nat)
    decreases |p.lines| - k
  {
    k >= |p.lines| || (LineAccepted(p, a, k) && AcceptedFrom(p, a, k + 1))
  }

  lemma {:induction false} AcceptedFromAll(p: Geometry.Puzzle, a: set<Key>, k: nat)
    requires LinesAccepted(p, a, k)
    ensures AcceptedFrom(p, a, k)
    decreases |p.lines| - k
  {
    if k < |p.lines| {
      AcceptedFromAll(p, a, k + 1);
    }
  }

  lemma {:induction false} AcceptedFromCells(p: Geometry.Puzzle, a: set<Key>, a': set<Key>, k: nat)
    requires AcceptedFrom(p, a, k)
    requires forall key: Key :: key.Cell? ==> (key in a <==> key in a')
    ensures AcceptedFrom(p, a', k)
    decreases |p.lines| - k
  {
    if k < |p.lines| {
      LineAcceptedCells(p, a, a', k);
      AcceptedFromCells(p, a, a', k + 1);
    }
  }

  /**
   * A line raises `KeyError` exactly when its cells are the puzzle's (the first one, at least),
   * the palette has a real colour, and the clue has a block of size 0 that may take it: the
   * automaton then enters the first cell of that block, which was never created.
   */
  lemma MissingStateMeaning(lidx: nat, cells: seq<Coord>, pcells: seq<Coord>, blocks: seq<Block>, ncolors: nat)
    ensures LineError(lidx, cells, pcells, blocks, ncolors) == Some(MissingState(lidx)) <==>
            |cells| > 0 && cells[0] in pcells && exists j: nat, col: nat :: EmptyBlock(blocks, ncolors, j, col)
  {
    BrokenMeaning(blocks, ncolors);
    if exists j: nat, col: nat :: EmptyBlock(blocks, ncolors, j, col) {
      var j: nat, col: nat :| EmptyBlock(blocks, ncolors, j, col);
      assert ncolors > 0;
    }
  }

  /**
   * `encode` raises exactly when some line raises, and then the error of the first such line: a
   * rejected clue, a cell outside the puzzle, or a transition into a missing state.
   */
  lemma SpecFails(p: Geometry.Puzzle)
    ensures Spec(p).Err? <==> exists l :: 0 <= l < |p.lines| && !LineQuiet(p, l)
    ensures Spec(p).Err? ==>
              exists l :: 0 <= l < |p.lines| && !LineQuiet(p, l) && Spec(p) == LinePart(p, l) &&
                          forall l' :: 0 <= l' < l ==> LineQuiet(p, l')
  {
    var parts := Parts(p);
    RunFails(parts, 0, CellClauses(p.cells, |p.colors|));
    forall l | 0 <= l < |p.lines| ensures parts[l].Err? <==> !LineQuiet(p, l) {
      LinePartQuiet(p, l);
    }
    if Spec(p).Err? {
      var l :| 0 <= l < |parts| && parts[l] == Spec(p) && forall l' :: 0 <= l' < l ==> parts[l'].Ok?;
      LinePartQuiet(p, l);
    }
  }

  /** A line's part is an error exactly when the line is not quiet. */
  lemma LinePartQuiet(p: Geometry.Puzzle, l: nat)
    requires l < |p.lines|
    ensures LinePart(p, l).Err? <==> !LineQuiet(p, l)
  {
  }

  /**
   * Soundness of approach 4: in every model of the instance each cell has exactly one palette
   * colour and, when the palette is not empty, every line shows colours its automaton accepts.
   */
  lemma SpecSound(p: Geometry.Puzzle, a: set<Key>)
    requires Spec(p).Ok? && Models(a, Spec(p).value)
    ensures forall i :: 0 <= i < |p.cells| ==> OneColour(a, p.cells[i], |p.colors|)
    ensures |p.colors| > 0 ==> LinesAccepted(p, a, 0)
  {
    var ncolors := |p.colors|;
    var kcs := Spec(p).value;
    var cc := CellClauses(p.cells, ncolors);
    var parts := Parts(p);
    RunKeeps(parts, 0, cc, kcs);
    RunFails(parts, 0, cc);
    ModelsSubset(a, kcs, cc);
    CellClausesMeaning(a, p.cells, ncolors);
    if ncolors > 0 {
      forall l | 0 <= l < |p.lines| ensures LineAccepted(p, a, l) {
        assert parts[l].Ok?;
        var blocks := ParseClue(p.lines[l].clue).value;
        var cells := p.lines[l].cells;
        var lc := LineClauses(l, cells, blocks, ncolors);
        assert LineError(l, cells, p.cells, blocks, ncolors) == None;
        ModelsSubset(a, kcs, lc);
        var colours := ColoursShown(a, cells, p.cells, ncolors);
        LineSound(a, l, cells, blocks, ncolors, colours);
      }
    }
  }

  /** The colours a colouring with one colour per puzzle cell shows on `cells`, all puzzle cells. */
  lemma ColoursShown(a: set<Key>, cells: seq<Coord>, pcells: seq<Coord>, ncolors: nat) returns (colours: seq<nat>)
    requires forall i :: 0 <= i < |pcells| ==> OneColour(a, pcells[i], ncolors)
    requires forall q :: 0 <= q < |cells| ==> cells[q] in pcells
    ensures |colours| == |cells| && Shows(a, cells, colours)
    ensures forall q :: 0 <= q < |cells| ==> colours[q] < ncolors
  {
    colours := [];
    for q := 0 to |cells|
      invariant |colours| == q && forall q' :: 0 <= q' < q ==> colours[q'] < ncolors && Cell(cells[q'], colours[q']) in a
    {
      var i :| 0 <= i < |pcells| && pcells[i] == cells[q];
      assert OneColour(a, pcells[i], ncolors);
      var c :| 0 <= c < ncolors && Cell(cells[q], c) in a;
      colours := colours + [c];
    }
  }

  /** On puzzle cells with one colour each, the cells show colour `col` exactly when `colours` says so. */
  lemma ShownExactly(a: set<Key>, cells: seq<Coord>, pcells: seq<Coord>, ncolors: nat, colours: seq<nat>)
    requires forall i :: 0 <= i < |pcells| ==> OneColour(a, pcells[i], ncolors)
    requires forall q :: 0 <= q < |cells| ==> cells[q] in pcells
    requires |colours| == |cells| && Shows(a, cells, colours)
    requires forall q :: 0 <= q < |colours| ==> colours[q] < ncolors
    ensures forall q, col :: 0 <= q < |cells| && 0 <= col < ncolors ==> (Cell(cells[q], col) in a <==> col == colours[q])
  {
    forall q, col | 0 <= q < |cells| && 0 <= col < ncolors && Cell(cells[q], col) in a ensures col == colours[q] {
      var i :| 0 <= i < |pcells| && pcells[i] == cells[q];
      assert OneColour(a, pcells[i], ncolors);
      assert Cell(cells[q], colours[q]) in a;
    }
  }

  /** A quiet line of a puzzle with a palette lies among the puzzle's cells. */
  lemma QuietCells(p: Geometry.Puzzle, k: nat)
    requires k < |p.lines| && LineQuiet(p, k) && |p.colors| > 0
    ensures forall q :: 0 <= q < |p.lines[k].cells| ==> p.lines[k].cells[q] in p.cells
  { }

  /** A quiet line contributes its clauses. */
  lemma QuietPart(p: Geometry.Puzzle, k: nat)
    requires k < |p.lines| && LineQuiet(p, k)
    ensures LinePart(p, k) == Ok(LineClauses(k, p.lines[k].cells, ParseClue(p.lines[k].clue).value, |p.colors|))
  { }

  /** The colours an accepted line shows. */
  lemma ShownColours(p: Geometry.Puzzle, a: set<Key>, k: nat) returns (colours: seq<nat>)
    requires k < |p.lines| && LineAccepted(p, a, k)
    ensures |colours| == |p.lines[k].cells| && Shows(a, p.lines[k].cells, colours)
    ensures forall q :: 0 <= q < |colours| ==> colours[q] < |p.colors|
    ensures Accepts(ParseClue(p.lines[k].clue).value, |p.colors|, colours)
  {
    colours :| |colours| == |p.lines[k].cells| && Shows(a, p.lines[k].cells, colours) &&
               (forall q :: 0 <= q < |colours| ==> colours[q] < |p.colors|) &&
               Accepts(ParseClue(p.lines[k].clue).value, |p.colors|, colours);
  }

  /** An accepted, quiet line: its clauses, and a run of the automaton over the colours it shows. */
  lemma LineWitness(p: Geometry.Puzzle, k: nat, a: set<Key>)
    returns (blocks: seq<Block>, colours: seq<nat>, run: seq<State>)
    requires k < |p.lines| && LineAccepted(p, a, k) && LineQuiet(p, k)
    ensures LinePart(p, k) == Ok(LineClauses(k, p.lines[k].cells, blocks, |p.colors|))
    ensures |colours| == |p.lines[k].cells| && Shows(a, p.lines[k].cells, colours)
    ensures forall q :: 0 <= q < |colours| ==> colours[q] < |p.colors|
    ensures IsRun(blocks, |p.colors|, colours, run) && Final(blocks, |p.colors|, run[|colours|])
  {
    blocks := ParseClue(p.lines[k].clue).value;
    QuietPart(p, k);
    colours := ShownColours(p, a, k);
    run := AcceptingRun(blocks, |p.colors|, colours);
  }

  /**
   * On a quiet line whose cells each have one palette colour, the colours the line shows are the
   * only cell keys that hold.
   */
  lemma LineColoursExact(p: Geometry.Puzzle, k: nat, a: set<Key>, colours: seq<nat>)
    requires k < |p.lines| && LineQuiet(p, k)
    requires forall i :: 0 <= i < |p.cells| ==> OneColour(a, p.cells[i], |p.colors|)
    requires |colours| == |p.lines[k].cells| && Shows(a, p.lines[k].cells, colours)
    requires forall q :: 0 <= q < |colours| ==> colours[q] < |p.colors|
    ensures forall q, col :: 0 <= q < |colours| && 0 <= col < |p.colors| ==>
              (Cell(p.lines[k].cells[q], col) in a <==> col == colours[q])
  {
    if |colours| > 0 {
      assert colours[0] < |p.colors|;
      QuietCells(p, k);
    }
    ShownExactly(a, p.lines[k].cells, p.cells, |p.colors|, colours);
  }

  /** Exactly one colour per cell survives any change that keeps the cell keys. */
  lemma OneColourKept(cells: seq<Coord>, ncolors: nat, a: set<Key>, a': set<Key>)
    requires forall i :: 0 <= i < |cells| ==> OneColour(a, cells[i], ncolors)
    requires forall key: Key :: key.Cell? ==> (key in a <==> key in a')
    ensures forall i :: 0 <= i < |cells| ==> OneColour(a', cells[i], ncolors)
  {
    forall i | 0 <= i < |cells| ensures OneColour(a', cells[i], ncolors) {
      assert OneColour(a, cells[i], ncolors);
    }
  }

  /**
   * Where the completeness argument stands before line `k`: the clauses `cs` of the earlier lines
   * hold under `a` and mention only cell keys and state keys of those lines, every cell has one
   * palette colour, and every line from `k` on raises nothing and shows colours it accepts.
   */
  ghost predicate ReadyAt(p: Geometry.Puzzle, k: nat, cs: seq<KClause<Key>>, a: set<Key>) {
    k <= |p.lines| && Models(a, cs) && AcceptedFrom(p, a, k) &&
    (forall l :: k <= l < |p.lines| ==> LineQuiet(p, l)) &&
    (forall i :: 0 <= i < |p.cells| ==> OneColour(a, p.cells[i], |p.colors|)) &&
    forall c, l :: c in cs && l in c ==> l.key.Cell? || (l.key.StateAt? && l.key.line < k)
  }

  /**
   * Line `k` joins the satisfied clauses once its state variables follow an accepting run; the
   * cell keys, and with them what the later lines accept, stay as they were.
   */
  lemma LineExtends(p: Geometry.Puzzle, k: nat, cs: seq<KClause<Key>>, a: set<Key>)
    returns (a1: set<Key>, lc: seq<KClause<Key>>)
    requires k < |p.lines| && ReadyAt(p, k, cs, a)
    ensures LinePart(p, k) == Ok(lc) && ReadyAt(p, k + 1, cs + lc, a1)
    ensures forall key: Key :: key.Cell? ==> (key in a1 <==> key in a)
  {
    var cells := p.lines[k].cells;
    assert LineAccepted(p, a, k) && LineQuiet(p, k);
    var blocks, colours, run := LineWitness(p, k, a);
    LineColoursExact(p, k, a, colours);
    lc := LineClauses(k, cells, blocks, |p.colors|);
    LineComplete(a, k, cells, blocks, |p.colors|, colours, run);
    a1 := Follow(a, k, run);
    ModelsAgree(a, a1, cs);
    ModelsAppend(a1, cs, lc);
    forall c, l | c in cs + lc && l in c ensures l.key.Cell? || (l.key.StateAt? && l.key.line < k + 1) {
      if c in lc {
        LineKeysLocal(k, cells, blocks, |p.colors|, c, l);
      }
    }
    AcceptedFromCells(p, a, a1, k + 1);
    OneColourKept(p.cells, |p.colors|, a, a1);
  }

  /**
   * The completeness argument over the lines from `k` on, the earlier ones already satisfied:
   * the state keys of those lines can be chosen so that every clause holds.
   */
  lemma {:induction false} RunComplete(p: Geometry.Puzzle, k: nat, cs: seq<KClause<Key>>, a: set<Key>)
    returns (a': set<Key>)
    requires ReadyAt(p, k, cs, a)
    ensures Run(Parts(p), k, cs).Ok? && Models(a', Run(Parts(p), k, cs).value)
    ensures forall key: Key :: key.Cell? ==> (key in a' <==> key in a)
    decreases |p.lines| - k
  {
    var parts := Parts(p);
    if k == |p.lines| {
      assert Run(parts, k, cs) == Ok(cs);
      a' := a;
    } else {
      var a1, lc := LineExtends(p, k, cs, a);
      a' := RunComplete(p, k + 1, cs + lc, a1);
      RunOkModels(parts, k, cs, lc, a');
    }
  }

  /**
   * Completeness of approach 4: when no line raises, a colouring with one palette colour per cell
   * under which every line shows colours its automaton accepts extends, by setting each line's
   * state variables along an accepting run, to a model of the instance with the same cell colours.
   */
  lemma SpecComplete(p: Geometry.Puzzle, a: set<Key>) returns (a': set<Key>)
    requires forall i :: 0 <= i < |p.cells| ==> OneColour(a, p.cells[i], |p.colors|)
    requires forall l :: 0 <= l < |p.lines| ==> LineQuiet(p, l)
    requires LinesAccepted(p, a, 0)
    ensures Spec(p).Ok?
    ensures Models(a', Spec(p).value) && forall key: Key :: key.Cell? ==> (key in a' <==> key in a)
  {
    var cc := CellClauses(p.cells, |p.colors|);
    CellClausesMeaning(a, p.cells, |p.colors|);
    forall c, l | c in cc && l in c ensures l.key.Cell? || (l.key.StateAt? && l.key.line < 0) {
      CellClausesKeys(p.cells, |p.colors|, c, l);
    }
    AcceptedFromAll(p, a, 0);
    a' := RunComplete(p, 0, cc, a);
  }

  /**
   * Completeness for the instance the solver sees: every key the clauses mention is registered, so
   * the colouring gives an integer model of the clauses `Encode` returns, with the same true cell
   * variables.
   */
  lemma IntegerComplete(p: Geometry.Puzzle, ids: map<Key, nat>, a: set<Key>) returns (m: set<int>)
    requires Spec(p).Ok? ==> Numbering(ids) && Registered(ids, Spec(p).value)
    requires forall i :: 0 <= i < |p.cells| ==> OneColour(a, p.cells[i], |p.colors|)
    requires forall l :: 0 <= l < |p.lines| ==> LineQuiet(p, l)
    requires LinesAccepted(p, a, 0)
    ensures Spec(p).Ok? && Satisfies(m, ResolveAll(ids, Spec(p).value))
    ensures forall k :: k in ids && k.Cell? ==> (ids[k] in m <==> k in a)
  {
    var a' := SpecComplete(p, a);
    m := ModelCarries(ids, Spec(p).value, a');
  }

  /** With an empty clue the automaton accepts exactly the all-background colourings. */
  lemma EmptyClueBackground(colours: seq<nat>, ncolors: nat)
    ensures Accepts([], ncolors, colours) <==> forall q :: 0 <= q < |colours| ==> colours[q] == 0
  {
    if Accepts([], ncolors, colours) {
      var run :| IsRun([], ncolors, colours, run) && Final([], ncolors, run[|colours|]);
      forall q | 0 <= q < |colours| ensures colours[q] == 0 {
        assert IsState([], ncolors, run[q]) && run[q + 1] in Next(run[q], colours[q], []);
      }
    }
    if forall q :: 0 <= q < |colours| ==> colours[q] == 0 {
      var run := seq(|colours| + 1, _ => S);
      assert IsRun([], ncolors, colours, run);
    }
  }

  // ---------------------------------------------------------------------------------------------
  // The same meaning as approach 1

  /** Line `l` displays the painting of the arrangement it accepts. */
  lemma LineAcceptedShown(p: Geometry.Puzzle, a: set<Key>, l: nat)
    requires l < |p.lines| && LineAccepted(p, a, l)
    ensures Approach1.LineShown(p, a, l)
  {
    var cells, blocks := p.lines[l].cells, ParseClue(p.lines[l].clue).value;
    var colours :| |colours| == |cells| && Shows(a, cells, colours) &&
                   (forall q :: 0 <= q < |colours| ==> colours[q] < |p.colors|) &&
                   Accepts(blocks, |p.colors|, colours);
    var x := AutomatonMeaning.AcceptsSound(blocks, |p.colors|, colours);
    assert Approach1.Displays(a, cells, blocks, x);
  }

  /**
   * A line that displays an admissible arrangement of non-empty blocks, with every true cell key a
   * palette colour, shows colours its automaton accepts.
   */
  lemma LineShownAccepted(p: Geometry.Puzzle, a: set<Key>, l: nat)
    requires l < |p.lines| && Approach1.LineShown(p, a, l)
    requires AutomatonMeaning.NoEmptyBlock(ParseClue(p.lines[l].clue).value)
    requires forall k :: k in a && k.Cell? ==> k.col < |p.colors|
    ensures LineAccepted(p, a, l)
  {
    var cells, blocks := p.lines[l].cells, ParseClue(p.lines[l].clue).value;
    var x :| Arrangements.Admissible(|cells|, blocks, |p.colors|, x) && Approach1.Displays(a, cells, blocks, x);
    var colours := Arrangements.Painted(|cells|, blocks, x);
    AutomatonMeaning.AcceptsComplete(|cells|, blocks, |p.colors|, x);
    forall q | 0 <= q < |colours| ensures colours[q] < |p.colors| {
      assert Cell(cells[q], colours[q]) in a;
    }
  }

  /** The clues that parse have no block without cells. */
  ghost predicate NoEmptyBlocks(p: Geometry.Puzzle) {
    forall l :: 0 <= l < |p.lines| && ParseClue(p.lines[l].clue).Ok? ==>
      AutomatonMeaning.NoEmptyBlock(ParseClue(p.lines[l].clue).value)
  }

  /**
   * With a non-empty palette, a model of approach 4's clauses colours every line with the painting
   * of an arrangement its clue admits, as a model of approach 1's clauses does.
   */
  lemma SpecSoundShown(p: Geometry.Puzzle, a: set<Key>)
    requires Spec(p).Ok? && Models(a, Spec(p).value) && |p.colors| > 0
    ensures forall i :: 0 <= i < |p.cells| ==> OneColour(a, p.cells[i], |p.colors|)
    ensures Approach1.LinesShown(p, a, 0)
  {
    SpecSound(p, a);
    forall l | 0 <= l < |p.lines| ensures Approach1.LineShown(p, a, l) {
      LineAcceptedShown(p, a, l);
    }
  }

  /**
   * When no line raises and no clue has an empty block, a one-colour-per-cell colouring that shows
   * an admissible arrangement on every line, with only palette colours true, extends to a model
   * of approach 4's clauses with the same cell keys.
   */
  lemma SpecCompleteShown(p: Geometry.Puzzle, a: set<Key>) returns (a': set<Key>)
    requires forall i :: 0 <= i < |p.cells| ==> OneColour(a, p.cells[i], |p.colors|)
    requires forall l :: 0 <= l < |p.lines| ==> LineQuiet(p, l)
    requires Approach1.LinesShown(p, a, 0) && NoEmptyBlocks(p)
    requires forall k :: k in a && k.Cell? ==> k.col < |p.colors|
    ensures Spec(p).Ok?
    ensures Models(a', Spec(p).value) && forall key: Key :: key.Cell? ==> (key in a' <==> key in a)
  {
    forall l | 0 <= l < |p.lines| ensures LineAccepted(p, a, l) {
      LineShownAccepted(p, a, l);
    }
    a' := SpecComplete(p, a);
  }
}
