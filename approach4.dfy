/**
 * Approach 4 (`solvers/approach4.py`): every line runs the automaton of its clue over its cells.
 * One variable per position (0..N) and state, exactly one state per position, the start state at
 * position 0, one clause per state and cell colour that moves the automaton to its successor, and
 * a final clause over the accepting states at position N.
 */
module Approach4 {
  import opened Wrappers
  import opened Seqs
  import opened Keys
  import opened Cnf
  import opened VarMap
  import opened Clue
  import opened Automaton
  import opened Encoding
  import Geometry

  // ---------------------------------------------------------------------------------------------
  // The instance, at key level

  /** Every listed state names one of the clue's blocks. */
  predicate AllInRange(blocks: seq<Block>, states: seq<State>) {
    forall i :: 0 <= i < |states| ==> InRange(blocks, states[i])
  }

  /** The variables of the states `states` at position `q`. */
  function StateKeys(lidx: nat, q: nat, states: seq<State>): (ks: seq<Key>)
    ensures |ks| == |states| && forall i :: 0 <= i < |states| ==> ks[i] == StateAt(lidx, q, states[i])
  {
    seq(|states|, i requires 0 <= i < |states| => StateAt(lidx, q, states[i]))
  }

  /** Exactly one state at each position below `n`. */
  function Exclusive(lidx: nat, n: nat, states: seq<State>): seq<KClause<Key>> {
    if n == 0 then [] else Exclusive(lidx, n - 1, states) + ExactlyOne(StateKeys(lidx, n - 1, states))
  }

  /** The successor states `next` at position `q`, as positive literals. */
  function Successors(lidx: nat, q: nat, next: seq<State>): (c: KClause<Key>)
    ensures |c| == |next| && forall i :: 0 <= i < |next| ==> c[i] == Pos(StateAt(lidx, q, next[i]))
  {
    if next == [] then [] else [Pos(StateAt(lidx, q, next[0]))] + Successors(lidx, q, next[1..])
  }

  /** In state `s` before cell `q`, of palette index `col`, the automaton moves to a successor. */
  function Transition(lidx: nat, q: nat, coord: Coord, s: State, col: nat, blocks: seq<Block>): KClause<Key>
    requires InRange(blocks, s)
  {
    [Neg(StateAt(lidx, q, s)), Neg(Cell(coord, col))] + Successors(lidx, q + 1, Next(s, col, blocks))
  }

  /** The transitions out of `s` at position `q` on the palette indices below `n`. */
  function ColourTransitions(lidx: nat, q: nat, coord: Coord, s: State, blocks: seq<Block>, n: nat)
    : seq<KClause<Key>>
    requires InRange(blocks, s)
  {
    seq(n, col requires 0 <= col < n => Transition(lidx, q, coord, s, col, blocks))
  }

  /** The transition lists out of each of the first `m` states, at position `q`. */
  function StateRows(lidx: nat, q: nat, coord: Coord, states: seq<State>, m: nat, blocks: seq<Block>, ncolors: nat)
    : (rows: seq<seq<KClause<Key>>>)
    requires m <= |states| && AllInRange(blocks, states)
    ensures |rows| == m
  {
    seq(m, i requires 0 <= i < m => ColourTransitions(lidx, q, coord, states[i], blocks, ncolors))
  }

  /** The transitions at position `q` out of the first `m` states. */
  function StateTransitions(lidx: nat, q: nat, coord: Coord, states: seq<State>, m: nat, blocks: seq<Block>,
                            ncolors: nat): seq<KClause<Key>>
    requires m <= |states| && AllInRange(blocks, states)
  {
    Flat(StateRows(lidx, q, coord, states, m, blocks, ncolors))
  }

  /** The transition lists of the positions below `m`. */
  function PositionRows(lidx: nat, cells: seq<Coord>, m: nat, states: seq<State>, blocks: seq<Block>, ncolors: nat)
    : (rows: seq<seq<KClause<Key>>>)
    requires m <= |cells| && AllInRange(blocks, states)
    ensures |rows| == m
  {
    seq(m, q requires 0 <= q < m => StateTransitions(lidx, q, cells[q], states, |states|, blocks, ncolors))
  }

  /** The transitions at the positions below `m`. */
  function Transitions(lidx: nat, cells: seq<Coord>, m: nat, states: seq<State>, blocks: seq<Block>, ncolors: nat)
    : seq<KClause<Key>>
    requires m <= |cells| && AllInRange(blocks, states)
  {
    Flat(PositionRows(lidx, cells, m, states, blocks, ncolors))
  }

  /** The colour loop, one palette index further. */
  lemma ColourTransitionsSnoc(lidx: nat, q: nat, coord: Coord, s: State, blocks: seq<Block>, col: nat)
    requires InRange(blocks, s)
    ensures ColourTransitions(lidx, q, coord, s, blocks, col + 1) ==
            ColourTransitions(lidx, q, coord, s, blocks, col) + [Transition(lidx, q, coord, s, col, blocks)]
  {
  }

  /** The state loop, one state further. */
  lemma StateTransitionsSnoc(lidx: nat, q: nat, coord: Coord, states: seq<State>, i: nat, blocks: seq<Block>,
                             ncolors: nat)
    requires i < |states| && AllInRange(blocks, states)
    ensures StateTransitions(lidx, q, coord, states, i + 1, blocks, ncolors) ==
            StateTransitions(lidx, q, coord, states, i, blocks, ncolors) +
            ColourTransitions(lidx, q, coord, states[i], blocks, ncolors)
  {
    var rows := StateRows(lidx, q, coord, states, i + 1, blocks, ncolors);
    assert rows[..i] == StateRows(lidx, q, coord, states, i, blocks, ncolors);
    FlatSnoc(rows, i);
    assert rows[..i + 1] == rows;
  }

  /** The position loop, one position further. */
  lemma TransitionsSnoc(lidx: nat, cells: seq<Coord>, q: nat, states: seq<State>, blocks: seq<Block>, ncolors: nat)
    requires q < |cells| && AllInRange(blocks, states)
    ensures Transitions(lidx, cells, q + 1, states, blocks, ncolors) ==
            Transitions(lidx, cells, q, states, blocks, ncolors) +
            StateTransitions(lidx, q, cells[q], states, |states|, blocks, ncolors)
  {
    var rows := PositionRows(lidx, cells, q + 1, states, blocks, ncolors);
    assert rows[..q] == PositionRows(lidx, cells, q, states, blocks, ncolors);
    FlatSnoc(rows, q);
    assert rows[..q + 1] == rows;
  }

  /** Every transition at position `q` leaves one of the first `m` states on a palette index. */
  lemma StateTransitionOf(lidx: nat, q: nat, coord: Coord, states: seq<State>, m: nat, blocks: seq<Block>,
                          ncolors: nat, c: KClause<Key>)
    returns (i: nat, col: nat)
    requires m <= |states| && AllInRange(blocks, states)
    requires c in StateTransitions(lidx, q, coord, states, m, blocks, ncolors)
    ensures i < m && col < ncolors && c == Transition(lidx, q, coord, states[i], col, blocks)
  {
    var rows := StateRows(lidx, q, coord, states, m, blocks, ncolors);
    i := FlatPick(rows, c);
    var row := ColourTransitions(lidx, q, coord, states[i], blocks, ncolors);
    assert c in row;
    col :| 0 <= col < |row| && row[col] == c;
  }

  /** The transition at position `q` out of each of the first `m` states on each palette index is listed. */
  lemma StateTransitionIn(lidx: nat, q: nat, coord: Coord, states: seq<State>, m: nat, blocks: seq<Block>,
                          ncolors: nat, i: nat, col: nat)
    requires m <= |states| && AllInRange(blocks, states) && i < m && col < ncolors
    ensures Transition(lidx, q, coord, states[i], col, blocks) in StateTransitions(lidx, q, coord, states, m, blocks, ncolors)
  {
    var rows := StateRows(lidx, q, coord, states, m, blocks, ncolors);
    var row := ColourTransitions(lidx, q, coord, states[i], blocks, ncolors);
    assert row[col] in rows[i];
    FlatHas(rows, i, row[col]);
  }

  /** Every clause of the line's transitions is the transition of some cell, listed state and colour. */
  lemma TransitionOf(lidx: nat, cells: seq<Coord>, m: nat, states: seq<State>, blocks: seq<Block>, ncolors: nat,
                     c: KClause<Key>)
    returns (q: nat, i: nat, col: nat)
    requires m <= |cells| && AllInRange(blocks, states)
    requires c in Transitions(lidx, cells, m, states, blocks, ncolors)
    ensures q < m && i < |states| && col < ncolors && c == Transition(lidx, q, cells[q], states[i], col, blocks)
  {
    var rows := PositionRows(lidx, cells, m, states, blocks, ncolors);
    q := FlatPick(rows, c);
    i, col := StateTransitionOf(lidx, q, cells[q], states, |states|, blocks, ncolors, c);
  }

  /** The transition of every cell, listed state and colour is among the line's transitions. */
  lemma TransitionIn(lidx: nat, cells: seq<Coord>, m: nat, states: seq<State>, blocks: seq<Block>, ncolors: nat,
                     q: nat, i: nat, col: nat)
    requires m <= |cells| && AllInRange(blocks, states) && q < m && i < |states| && col < ncolors
    ensures Transition(lidx, q, cells[q], states[i], col, blocks) in Transitions(lidx, cells, m, states, blocks, ncolors)
  {
    var rows := PositionRows(lidx, cells, m, states, blocks, ncolors);
    StateTransitionIn(lidx, q, cells[q], states, |states|, blocks, ncolors, i, col);
    FlatHas(rows, q, Transition(lidx, q, cells[q], states[i], col, blocks));
  }

  /** The first `m` accepting states that were created, at position `n`. */
  function AcceptClause(lidx: nat, n: nat, accepting: seq<State>, m: nat, states: seq<State>): KClause<Key>
    requires m <= |accepting|
  {
    if m == 0 then []
    else AcceptClause(lidx, n, accepting, m - 1, states) +
         if accepting[m - 1] in states then [Pos(StateAt(lidx, n, accepting[m - 1]))] else []
  }

  /** What `process_line` appends for line `lidx` when it does not raise. */
  function LineClauses(lidx: nat, cells: seq<Coord>, blocks: seq<Block>, ncolors: nat): seq<KClause<Key>> {
    var states := States(blocks, ncolors);
    var accepting := Accepting(blocks, ncolors);
    StatesInRange(blocks, ncolors);
    Exclusive(lidx, |cells| + 1, states) + [[Pos(StateAt(lidx, 0, S))]] +
    Transitions(lidx, cells, |cells|, states, blocks, ncolors) +
    [AcceptClause(lidx, |cells|, accepting, |accepting|, states)]
  }

  /**
   * The exception the transition loops of `process_line` raise, if any. Position 0 is visited
   * first: a cell outside the puzzle has no colour variable to negate (`TypeError`), and a
   * transition into a state that was never created has no variable (`KeyError`); every later
   * position raises only for its own cell, since the transitions are the same at every position.
   * Without colours no transition is visited.
   */
  ghost function LineError(lidx: nat, cells: seq<Coord>, pcells: seq<Coord>, blocks: seq<Block>, ncolors: nat)
    : Option<EncodeError>
  {
    if |cells| == 0 || ncolors == 0 then None
    else if cells[0] !in pcells then Some(NoneOperand(lidx))
    else if Broken(blocks, ncolors) then Some(MissingState(lidx))
    else if exists q :: 0 <= q < |cells| && cells[q] !in pcells then Some(NoneOperand(lidx))
    else None
  }

  /** The clauses of line `lidx`, or the error it raises. */
  ghost function LinePart(p: Geometry.Puzzle, lidx: nat): Result<seq<KClause<Key>>, EncodeError>
    requires lidx < |p.lines|
  {
    match ParseClue(p.lines[lidx].clue)
    case Err(e) => Err(BadClue(e))
    case Ok(blocks) =>
      match LineError(lidx, p.lines[lidx].cells, p.cells, blocks, |p.colors|)
      case Some(e) => Err(e)
      case None => Ok(LineClauses(lidx, p.lines[lidx].cells, blocks, |p.colors|))
  }

  /** What every line contributes, in order. */
  ghost function Parts(p: Geometry.Puzzle): (r: seq<Result<seq<KClause<Key>>, EncodeError>>)
    ensures |r| == |p.lines| && forall l :: 0 <= l < |p.lines| ==> r[l] == LinePart(p, l)
  {
    seq(|p.lines|, l requires 0 <= l < |p.lines| => LinePart(p, l))
  }

  /** `encode(puzzle, vm)`, at key level. */
  ghost function Spec(p: Geometry.Puzzle): Result<seq<KClause<Key>>, EncodeError> {
    Run(Parts(p), 0, CellClauses(p.cells, |p.colors|))
  }

  // ---------------------------------------------------------------------------------------------
  // The encoder

  /**
   * `state_var` maps every position below `n` and every state, and the states `done` at position
   * `n`, to the registered variable of that state there.
   */
  ghost predicate StateVars(ids: map<Key, nat>, lidx: nat, n: nat, done: seq<State>, states: seq<State>,
                            sv: map<(nat, State), nat>)
  {
    && (forall q: nat, s :: (q, s) in sv <==> (q < n && s in states) || (q == n && s in done))
    && (forall q: nat, s :: (q, s) in sv ==> StateAt(lidx, q, s) in ids && sv[(q, s)] == ids[StateAt(lidx, q, s)])
  }

  /** One more state `s` registered at position `n` keeps `state_var` in step with the registry. */
  lemma StateVarsSnoc(ids: map<Key, nat>, ids': map<Key, nat>, lidx: nat, n: nat, done: seq<State>,
                      states: seq<State>, sv: map<(nat, State), nat>, s: State, v: nat)
    requires StateVars(ids, lidx, n, done, states, sv) && Extends(ids, ids')
    requires StateAt(lidx, n, s) in ids' && ids'[StateAt(lidx, n, s)] == v
    ensures StateVars(ids', lidx, n, done + [s], states, sv[(n, s) := v])
  {
    forall q: nat, s' ensures (q, s') in sv[(n, s) := v] <==> (q < n && s' in states) || (q == n && s' in done + [s]) {
      assert s' in done + [s] <==> s' in done || s' == s;
    }
  }

  /** `for s in states: state_var[(p, s)] = vm.new(('state', lidx, p, s))` for one position `q`. */
  method RegisterPosition(lidx: nat, q: nat, states: seq<State>, vm: VarManager<Key>, sv0: map<(nat, State), nat>)
    returns (sv: map<(nat, State), nat>)
    requires vm.Valid() && StateVars(vm.ids, lidx, q, [], states, sv0)
    modifies vm
    ensures vm.Valid() && StateVars(vm.ids, lidx, q + 1, [], states, sv)
    ensures Extends(old(vm.ids), vm.ids) && AddsNoCells(old(vm.ids), vm.ids)
  {
    sv := sv0;
    for i := 0 to |states|
      invariant vm.Valid() && StateVars(vm.ids, lidx, q, states[..i], states, sv)
      invariant Extends(old(vm.ids), vm.ids) && AddsNoCells(old(vm.ids), vm.ids)
    {
      ghost var before := vm.ids;
      var v := vm.New(StateAt(lidx, q, states[i]));
      StateVarsSnoc(before, vm.ids, lidx, q, states[..i], states, sv, states[i], v);
      sv := sv[(q, states[i]) := v];
      assert states[..i + 1] == states[..i] + [states[i]];
    }
    assert states[..|states|] == states;
  }

  /** The loops of `process_line` that register a variable per position `0..n` and state. */
  method RegisterStates(lidx: nat, n: nat, states: seq<State>, vm: VarManager<Key>)
    returns (sv: map<(nat, State), nat>)
    requires vm.Valid()
    modifies vm
    ensures vm.Valid() && StateVars(vm.ids, lidx, n + 1, [], states, sv)
    ensures Extends(old(vm.ids), vm.ids) && AddsNoCells(old(vm.ids), vm.ids)
  {
    sv := map[];
    for q := 0 to n + 1
      invariant vm.Valid() && StateVars(vm.ids, lidx, q, [], states, sv)
      invariant Extends(old(vm.ids), vm.ids) && AddsNoCells(old(vm.ids), vm.ids)
    {
      ghost var mid := vm.ids;
      sv := RegisterPosition(lidx, q, states, vm, sv);
      GrowthTrans(old(vm.ids), mid, vm.ids);
    }
  }

  /** The loop of `process_line` that emits exactly one state per position below `n`. */
  method EmitExclusive(lidx: nat, n: nat, states: seq<State>, sv: map<(nat, State), nat>, ghost ids: map<Key, nat>)
    returns (cs: seq<Clause>)
    requires StateVars(ids, lidx, n, [], states, sv)
    ensures cs == ResolveAll(ids, Exclusive(lidx, n, states))
  {
    cs := [];
    for q := 0 to n
      invariant cs == ResolveAll(ids, Exclusive(lidx, q, states))
    {
      var vars := seq(|states|, i requires 0 <= i < |states| => sv[(q, states[i])]);
      var more := ExactlyOneClauses(vars, ids, StateKeys(lidx, q, states));
      ResolveAllAppend(ids, Exclusive(lidx, q, states), ExactlyOne(StateKeys(lidx, q, states)));
      cs := cs + more;
    }
  }

  /** `[state_var[(p+1, ns)] for ns in next_s]`, or `None` where that raises `KeyError`. */
  method SuccessorVars(lidx: nat, q: nat, next: seq<State>, sv: map<(nat, State), nat>,
                       ghost ids: map<Key, nat>, ghost n: nat, ghost states: seq<State>)
    returns (r: Option<seq<int>>)
    requires StateVars(ids, lidx, n, [], states, sv) && q < n
    ensures r.None? <==> exists i :: 0 <= i < |next| && next[i] !in states
    ensures r.Some? ==> r.value == Resolve(ids, Successors(lidx, q, next))
  {
    var vs: seq<int> := [];
    for i := 0 to |next|
      invariant |vs| == i && forall i' :: 0 <= i' < i ==> (q, next[i']) in sv && vs[i'] == sv[(q, next[i'])]
    {
      if (q, next[i]) !in sv {
        return None;
      }
      vs := vs + [sv[(q, next[i])]];
    }
    r := Some(vs);
  }

  /** A transition escapes exactly when one of its successors is missing from the state list. */
  lemma EscapesMeaning(s: State, col: nat, blocks: seq<Block>, ncolors: nat)
    requires InRange(blocks, s)
    ensures var next := Next(s, col, blocks);
            Escapes(s, col, blocks, ncolors) <==> exists i :: 0 <= i < |next| && next[i] !in States(blocks, ncolors)
  {
    var next := Next(s, col, blocks);
    forall i | 0 <= i < |next| ensures next[i] in States(blocks, ncolors) <==> IsState(blocks, ncolors, next[i]) {
      StatesMeaning(blocks, ncolors, next[i]);
    }
    if Escapes(s, col, blocks, ncolors) {
      var ns :| ns in next && !IsState(blocks, ncolors, ns);
      var i :| 0 <= i < |next| && next[i] == ns;
    }
  }

  /** The registered transition clause is the state's negation, the cell's negation and the successors. */
  lemma TransitionResolved(ids: map<Key, nat>, lidx: nat, q: nat, coord: Coord, s: State, col: nat, blocks: seq<Block>,
                           cur: int, colv: nat, succ: seq<int>)
    requires InRange(blocks, s)
    requires StateAt(lidx, q, s) in ids && cur == ids[StateAt(lidx, q, s)]
    requires Cell(coord, col) in ids && colv == ids[Cell(coord, col)]
    requires succ == Resolve(ids, Successors(lidx, q + 1, Next(s, col, blocks)))
    ensures [-cur, -(colv as int)] + succ == Resolve(ids, Transition(lidx, q, coord, s, col, blocks))
  {
    ResolveAppend(ids, [Neg(StateAt(lidx, q, s)), Neg(Cell(coord, col))], Successors(lidx, q + 1, Next(s, col, blocks)));
  }

  method EmitTransition(lidx: nat, q: nat, coord: Coord, s: State, col: nat, blocks: seq<Block>, ncolors: nat,
                        cur: int, sv: map<(nat, State), nat>, vm: VarManager<Key>,
                        ghost n: nat, ghost states: seq<State>)
    returns (r: Result<Clause, EncodeError>)
    requires vm.Valid() && states == States(blocks, ncolors) && IsState(blocks, ncolors, s)
    requires StateVars(vm.ids, lidx, n, [], states, sv) && q + 1 < n
    requires StateAt(lidx, q, s) in vm.ids && cur == vm.ids[StateAt(lidx, q, s)]
    ensures Cell(coord, col) !in vm.ids ==> r == Err(NoneOperand(lidx))
    ensures Cell(coord, col) in vm.ids ==>
              && (r.Err? <==> Escapes(s, col, blocks, ncolors))
              && (r.Err? ==> r.error == MissingState(lidx))
              && (r.Ok? ==> r.value == Resolve(vm.ids, Transition(lidx, q, coord, s, col, blocks)))
  {
    var colVar := Find(vm, Cell(coord, col));
    if colVar.None? {
      return Err(NoneOperand(lidx));
    }
    r := EmitMove(lidx, q, coord, s, col, blocks, ncolors, cur, colVar.value, sv, vm.ids, n, states);
  }

  /** The transition clause once the cell variable is known: its successors must all be states. */
  method EmitMove(lidx: nat, q: nat, coord: Coord, s: State, col: nat, blocks: seq<Block>, ncolors: nat,
                  cur: int, colv: nat, sv: map<(nat, State), nat>,
                  ghost ids: map<Key, nat>, ghost n: nat, ghost states: seq<State>)
    returns (r: Result<Clause, EncodeError>)
    requires states == States(blocks, ncolors) && IsState(blocks, ncolors, s)
    requires StateVars(ids, lidx, n, [], states, sv) && q + 1 < n
    requires StateAt(lidx, q, s) in ids && cur == ids[StateAt(lidx, q, s)]
    requires Cell(coord, col) in ids && colv == ids[Cell(coord, col)]
    ensures r.Err? <==> Escapes(s, col, blocks, ncolors)
    ensures r.Err? ==> r.error == MissingState(lidx)
    ensures r.Ok? ==> r.value == Resolve(ids, Transition(lidx, q, coord, s, col, blocks))
  {
    var next := Next(s, col, blocks);
    EscapesMeaning(s, col, blocks, ncolors);
    var succ := SuccessorVars(lidx, q + 1, next, sv, ids, n, states);
    if succ.None? {
      return Err(MissingState(lidx));
    }
    TransitionResolved(ids, lidx, q, coord, s, col, blocks, cur, colv, succ.value);
    var clause: Clause := [-cur, -(colv as int)] + succ.value;
    r := Ok(clause);
  }

  /** No transition out of `s` on a palette index below `n` leaves the states. */
  predicate ClosedFrom(s: State, n: nat, blocks: seq<Block>, ncolors: nat)
    requires InRange(blocks, s)
  {
    n == 0 || (ClosedFrom(s, n - 1, blocks, ncolors) && !Escapes(s, n - 1, blocks, ncolors))
  }

  /** No transition out of the first `m` states leaves the states. */
  predicate Closed(states: seq<State>, m: nat, blocks: seq<Block>, ncolors: nat)
    requires m <= |states| && AllInRange(blocks, states)
  {
    m == 0 || (Closed(states, m - 1, blocks, ncolors) && ClosedFrom(states[m - 1], ncolors, blocks, ncolors))
  }

  lemma {:induction false} ClosedFromMeaning(s: State, n: nat, blocks: seq<Block>, ncolors: nat)
    requires InRange(blocks, s)
    ensures ClosedFrom(s, n, blocks, ncolors) <==> forall col: nat :: col < n ==> !Escapes(s, col, blocks, ncolors)
  {
    if n > 0 {
      ClosedFromMeaning(s, n - 1, blocks, ncolors);
    }
  }

  lemma {:induction false} ClosedMeaning(states: seq<State>, m: nat, blocks: seq<Block>, ncolors: nat)
    requires m <= |states| && AllInRange(blocks, states)
    ensures Closed(states, m, blocks, ncolors) <==>
            forall i: nat, col: nat :: i < m && col < ncolors ==> !Escapes(states[i], col, blocks, ncolors)
  {
    if m > 0 {
      ClosedMeaning(states, m - 1, blocks, ncolors);
      ClosedFromMeaning(states[m - 1], ncolors, blocks, ncolors);
    }
  }

  lemma {:induction false} ClosedFromStops(s: State, col: nat, n: nat, blocks: seq<Block>, ncolors: nat)
    requires InRange(blocks, s) && col < n && Escapes(s, col, blocks, ncolors)
    ensures !ClosedFrom(s, n, blocks, ncolors)
  {
    if col < n - 1 {
      ClosedFromStops(s, col, n - 1, blocks, ncolors);
    }
  }

  lemma {:induction false} ClosedStops(states: seq<State>, i: nat, m: nat, blocks: seq<Block>, ncolors: nat)
    requires i < m <= |states| && AllInRange(blocks, states) && !ClosedFrom(states[i], ncolors, blocks, ncolors)
    ensures !Closed(states, m, blocks, ncolors)
  {
    if i < m - 1 {
      ClosedStops(states, i, m - 1, blocks, ncolors);
    }
  }

  /** The transitions out of the listed states stay among them exactly when the automaton is not broken. */
  lemma ClosedStates(blocks: seq<Block>, ncolors: nat)
    ensures AllInRange(blocks, States(blocks, ncolors))
    ensures Closed(States(blocks, ncolors), |States(blocks, ncolors)|, blocks, ncolors) <==> !Broken(blocks, ncolors)
  {
    var states := States(blocks, ncolors);
    StatesInRange(blocks, ncolors);
    assert AllInRange(blocks, states) by {
      forall i | 0 <= i < |states| ensures InRange(blocks, states[i]) {
        assert states[i] in states;
      }
    }
    ClosedMeaning(states, |states|, blocks, ncolors);
    if Broken(blocks, ncolors) {
      var s, col: nat :| IsState(blocks, ncolors, s) && col < ncolors && Escapes(s, col, blocks, ncolors);
      StatesMeaning(blocks, ncolors, s);
      var i :| 0 <= i < |states| && states[i] == s;
    }
    forall i: nat, col: nat | i < |states| && col < ncolors && Escapes(states[i], col, blocks, ncolors)
      ensures Broken(blocks, ncolors)
    {
      assert states[i] in states;
      StatesMeaning(blocks, ncolors, states[i]);
    }
  }

  /** The loop of `process_line` over the palette indices, for state `s` before cell `q`. */
  method TransitionsFrom(lidx: nat, q: nat, coord: Coord, s: State, blocks: seq<Block>, ncolors: nat,
                         sv: map<(nat, State), nat>, vm: VarManager<Key>,
                         ghost n: nat, ghost states: seq<State>, ghost present: bool)
    returns (r: Result<seq<Clause>, EncodeError>)
    requires vm.Valid() && states == States(blocks, ncolors) && IsState(blocks, ncolors, s)
    requires StateVars(vm.ids, lidx, n, [], states, sv) && q + 1 < n
    requires forall col :: 0 <= col < ncolors ==> (Cell(coord, col) in vm.ids <==> present)
    ensures !present && ncolors > 0 ==> r == Err(NoneOperand(lidx))
    ensures present || ncolors == 0 ==>
              && (r.Err? <==> !ClosedFrom(s, ncolors, blocks, ncolors))
              && (r.Err? ==> r.error == MissingState(lidx))
              && (r.Ok? ==> r.value == ResolveAll(vm.ids, ColourTransitions(lidx, q, coord, s, blocks, ncolors)))
  {
    StatesMeaning(blocks, ncolors, s);
    assert (q, s) in sv;
    var cur := sv[(q, s)];
    var cs: seq<Clause> := [];
    for col := 0 to ncolors
      invariant col > 0 ==> present
      invariant ClosedFrom(s, col, blocks, ncolors)
      invariant cs == ResolveAll(vm.ids, ColourTransitions(lidx, q, coord, s, blocks, col))
    {
      var c := EmitTransition(lidx, q, coord, s, col, blocks, ncolors, cur, sv, vm, n, states);
      if c.Err? {
        if present {
          ClosedFromStops(s, col, ncolors, blocks, ncolors);
        }
        return Err(c.error);
      }
      ColourTransitionsSnoc(lidx, q, coord, s, blocks, col);
      ResolveAllSnoc(vm.ids, ColourTransitions(lidx, q, coord, s, blocks, col), Transition(lidx, q, coord, s, col, blocks));
      cs := cs + [c.value];
    }
    r := Ok(cs);
  }

  /** The loop of `process_line` over the states, before cell `q`. */
  method TransitionsAt(lidx: nat, q: nat, coord: Coord, blocks: seq<Block>, ncolors: nat, states: seq<State>,
                       sv: map<(nat, State), nat>, vm: VarManager<Key>, ghost n: nat, ghost present: bool)
    returns (r: Result<seq<Clause>, EncodeError>)
    requires vm.Valid() && states == States(blocks, ncolors) && AllInRange(blocks, states)
    requires StateVars(vm.ids, lidx, n, [], states, sv) && q + 1 < n
    requires forall col :: 0 <= col < ncolors ==> (Cell(coord, col) in vm.ids <==> present)
    ensures !present && ncolors > 0 ==> r == Err(NoneOperand(lidx))
    ensures present || ncolors == 0 ==>
              && (r.Err? <==> !Closed(states, |states|, blocks, ncolors))
              && (r.Err? ==> r.error == MissingState(lidx))
              && (r.Ok? ==> r.value == ResolveAll(vm.ids, StateTransitions(lidx, q, coord, states, |states|, blocks, ncolors)))
  {
    var cs: seq<Clause> := [];
    for i := 0 to |states|
      invariant i > 0 ==> present || ncolors == 0
      invariant Closed(states, i, blocks, ncolors)
      invariant cs == ResolveAll(vm.ids, StateTransitions(lidx, q, coord, states, i, blocks, ncolors))
    {
      assert states[i] in states;
      StatesMeaning(blocks, ncolors, states[i]);
      var more := TransitionsFrom(lidx, q, coord, states[i], blocks, ncolors, sv, vm, n, states, present);
      if more.Err? {
        if present || ncolors == 0 {
          ClosedStops(states, i, |states|, blocks, ncolors);
        }
        return more;
      }
      StateTransitionsSnoc(lidx, q, coord, states, i, blocks, ncolors);
      ResolveAllAppend(vm.ids, StateTransitions(lidx, q, coord, states, i, blocks, ncolors),
                       ColourTransitions(lidx, q, coord, states[i], blocks, ncolors));
      cs := cs + more.value;
    }
    r := Ok(cs);
  }

  /** A cell outside the puzzle, reached before any other failure, raises `TypeError`. */
  lemma LineErrorCell(lidx: nat, cells: seq<Coord>, pcells: seq<Coord>, blocks: seq<Block>, ncolors: nat, q: nat)
    requires q < |cells| && ncolors > 0 && cells[q] !in pcells
    requires forall q' :: 0 <= q' < q ==> cells[q'] in pcells
    requires q > 0 ==> !Broken(blocks, ncolors)
    ensures LineError(lidx, cells, pcells, blocks, ncolors) == Some(NoneOperand(lidx))
  {
  }

  /**
   * A broken clue fails at the first position: when its cell is a puzzle cell, the transition out
   * of the states raises `KeyError`.
   */
  lemma LineErrorState(lidx: nat, cells: seq<Coord>, pcells: seq<Coord>, blocks: seq<Block>, ncolors: nat)
    requires |cells| > 0 && ncolors > 0 && cells[0] in pcells && Broken(blocks, ncolors)
    ensures LineError(lidx, cells, pcells, blocks, ncolors) == Some(MissingState(lidx))
  {
  }

  /** Nothing raises when every cell is the puzzle's and every transition stays among the states. */
  lemma LineErrorNone(lidx: nat, cells: seq<Coord>, pcells: seq<Coord>, blocks: seq<Block>, ncolors: nat)
    requires ncolors > 0 ==> forall q :: 0 <= q < |cells| ==> cells[q] in pcells
    requires |cells| > 0 && ncolors > 0 ==> !Broken(blocks, ncolors)
    ensures LineError(lidx, cells, pcells, blocks, ncolors) == None
  {
  }

  /** The loop of `process_line` over the positions of the line. */
  method EmitTransitions(lidx: nat, cells: seq<Coord>, blocks: seq<Block>, ncolors: nat, states: seq<State>,
                         sv: map<(nat, State), nat>, vm: VarManager<Key>, ghost pcells: seq<Coord>)
    returns (r: Result<seq<Clause>, EncodeError>)
    requires vm.Valid() && states == States(blocks, ncolors) && AllInRange(blocks, states)
    requires StateVars(vm.ids, lidx, |cells| + 1, [], states, sv)
    requires CellsRegistered(vm.ids, pcells, ncolors) && CellsComplete(vm.ids, pcells, ncolors, |pcells|)
    ensures r.Err? ==> LineError(lidx, cells, pcells, blocks, ncolors) == Some(r.error)
    ensures r.Ok? ==> LineError(lidx, cells, pcells, blocks, ncolors) == None &&
                      r.value == ResolveAll(vm.ids, Transitions(lidx, cells, |cells|, states, blocks, ncolors))
  {
    var cs: seq<Clause> := [];
    for q := 0 to |cells|
      invariant ncolors > 0 ==> forall q' :: 0 <= q' < q ==> cells[q'] in pcells
      invariant q > 0 && ncolors > 0 ==> !Broken(blocks, ncolors)
      invariant cs == ResolveAll(vm.ids, Transitions(lidx, cells, q, states, blocks, ncolors))
    {
      var step := TransitionsStep(lidx, cells, blocks, ncolors, states, sv, vm, pcells, q, cs);
      if step.Err? {
        return step;
      }
      cs := step.value;
    }
    LineErrorNone(lidx, cells, pcells, blocks, ncolors);
    r := Ok(cs);
  }

  /** One position of the transition loop: the line's error, or the clauses up to this position. */
  method TransitionsStep(lidx: nat, cells: seq<Coord>, blocks: seq<Block>, ncolors: nat, states: seq<State>,
                         sv: map<(nat, State), nat>, vm: VarManager<Key>, ghost pcells: seq<Coord>,
                         q: nat, cs: seq<Clause>)
    returns (r: Result<seq<Clause>, EncodeError>)
    requires vm.Valid() && states == States(blocks, ncolors) && AllInRange(blocks, states)
    requires StateVars(vm.ids, lidx, |cells| + 1, [], states, sv)
    requires CellsRegistered(vm.ids, pcells, ncolors) && CellsComplete(vm.ids, pcells, ncolors, |pcells|)
    requires q < |cells|
    requires ncolors > 0 ==> forall q' :: 0 <= q' < q ==> cells[q'] in pcells
    requires q > 0 && ncolors > 0 ==> !Broken(blocks, ncolors)
    requires cs == ResolveAll(vm.ids, Transitions(lidx, cells, q, states, blocks, ncolors))
    ensures r.Err? ==> LineError(lidx, cells, pcells, blocks, ncolors) == Some(r.error)
    ensures r.Ok? ==> r.value == ResolveAll(vm.ids, Transitions(lidx, cells, q + 1, states, blocks, ncolors))
    ensures r.Ok? && ncolors > 0 ==> cells[q] in pcells && !Broken(blocks, ncolors)
  {
    ClosedStates(blocks, ncolors);
    ghost var present := cells[q] in pcells;
    forall col | 0 <= col < ncolors ensures Cell(cells[q], col) in vm.ids <==> present {
      CellPresent(vm.ids, pcells, ncolors, cells[q], col);
    }
    var more := TransitionsAt(lidx, q, cells[q], blocks, ncolors, states, sv, vm, |cells| + 1, present);
    if more.Err? {
      if !present {
        LineErrorCell(lidx, cells, pcells, blocks, ncolors, q);
      } else {
        LineErrorState(lidx, cells, pcells, blocks, ncolors);
      }
      return more;
    }
    TransitionsSnoc(lidx, cells, q, states, blocks, ncolors);
    ResolveAllAppend(vm.ids, Transitions(lidx, cells, q, states, blocks, ncolors),
                     StateTransitions(lidx, q, cells[q], states, |states|, blocks, ncolors));
    r := Ok(cs + more.value);
  }

  /** `[state_var[(N, s)] for s in accepting if (N, s) in state_var]`. */
  method EmitAcceptance(lidx: nat, n: nat, accepting: seq<State>, states: seq<State>, sv: map<(nat, State), nat>,
                        ghost ids: map<Key, nat>)
    returns (c: Clause)
    requires StateVars(ids, lidx, n + 1, [], states, sv)
    ensures c == Resolve(ids, AcceptClause(lidx, n, accepting, |accepting|, states))
  {
    c := [];
    for i := 0 to |accepting|
      invariant c == Resolve(ids, AcceptClause(lidx, n, accepting, i, states))
    {
      var more: Clause := [];
      if (n, accepting[i]) in sv {
        more := [sv[(n, accepting[i])]];
      }
      assert more == Resolve(ids, if accepting[i] in states then [Pos(StateAt(lidx, n, accepting[i]))] else []);
      ResolveAppend(ids, AcceptClause(lidx, n, accepting, i, states),
                    if accepting[i] in states then [Pos(StateAt(lidx, n, accepting[i]))] else []);
      c := c + more;
    }
  }

  // ---------------------------------------------------------------------------------------------
  // Every key a line mentions is registered

  /** Every key the clauses mention is registered. */
  ghost predicate Registered(ids: map<Key, nat>, cs: seq<KClause<Key>>) {
    forall c, l :: c in cs && l in c ==> l.key in ids
  }

  /** Every key of a transition clause is a registered state variable or a registered cell colour. */
  lemma TransitionsKeys(ids: map<Key, nat>, sv: map<(nat, State), nat>, lidx: nat, cells: seq<Coord>,
                        blocks: seq<Block>, ncolors: nat, c: KClause<Key>, l: Lit<Key>)
    requires AllInRange(blocks, States(blocks, ncolors))
    requires ncolors > 0 ==> !Broken(blocks, ncolors)
    requires StateVars(ids, lidx, |cells| + 1, [], States(blocks, ncolors), sv)
    requires forall q, col :: 0 <= q < |cells| && 0 <= col < ncolors ==> Cell(cells[q], col) in ids
    requires c in Transitions(lidx, cells, |cells|, States(blocks, ncolors), blocks, ncolors) && l in c
    ensures l.key in ids
  {
    var states := States(blocks, ncolors);
    var q, i, col := TransitionOf(lidx, cells, |cells|, states, blocks, ncolors, c);
    var s := states[i];
    var next := Next(s, col, blocks);
    var head := [Neg(StateAt(lidx, q, s)), Neg(Cell(cells[q], col))];
    assert c == head + Successors(lidx, q + 1, next);
    if l in head {
      assert s in states && (q, s) in sv;
    } else {
      var j :| 0 <= j < |next| && l == Pos(StateAt(lidx, q + 1, next[j]));
      StatesMeaning(blocks, ncolors, s);
      assert !Escapes(s, col, blocks, ncolors);
      StatesMeaning(blocks, ncolors, next[j]);
      assert (q + 1, next[j]) in sv;
    }
  }

  lemma {:induction false} ExclusiveKeys(ids: map<Key, nat>, sv: map<(nat, State), nat>, lidx: nat, n: nat,
                                         bound: nat, states: seq<State>, c: KClause<Key>, l: Lit<Key>)
    requires StateVars(ids, lidx, bound, [], states, sv) && n <= bound
    requires c in Exclusive(lidx, n, states) && l in c
    ensures l.key in ids
  {
    if c in Exclusive(lidx, n - 1, states) {
      ExclusiveKeys(ids, sv, lidx, n - 1, bound, states, c, l);
    } else {
      var ks := StateKeys(lidx, n - 1, states);
      ExactlyOneKeys(ks, c, l);
      var i :| 0 <= i < |ks| && ks[i] == l.key;
      assert (n - 1, states[i]) in sv;
    }
  }

  lemma {:induction false} AcceptClauseKeys(ids: map<Key, nat>, sv: map<(nat, State), nat>, lidx: nat, n: nat,
                                            accepting: seq<State>, m: nat, states: seq<State>, l: Lit<Key>)
    requires StateVars(ids, lidx, n + 1, [], states, sv) && m <= |accepting|
    requires l in AcceptClause(lidx, n, accepting, m, states)
    ensures l.key in ids
  {
    if l in AcceptClause(lidx, n, accepting, m - 1, states) {
      AcceptClauseKeys(ids, sv, lidx, n, accepting, m - 1, states, l);
    } else {
      assert (n, accepting[m - 1]) in sv;
    }
  }

  /** When the line raises nothing, every key of its clauses has been registered. */
  lemma LineClausesKeys(ids: map<Key, nat>, sv: map<(nat, State), nat>, lidx: nat, cells: seq<Coord>,
                        pcells: seq<Coord>, blocks: seq<Block>, ncolors: nat)
    requires LineError(lidx, cells, pcells, blocks, ncolors) == None
    requires StateVars(ids, lidx, |cells| + 1, [], States(blocks, ncolors), sv)
    requires CellsComplete(ids, pcells, ncolors, |pcells|)
    ensures Registered(ids, LineClauses(lidx, cells, blocks, ncolors))
  {
    var states := States(blocks, ncolors);
    var accepting := Accepting(blocks, ncolors);
    StatesInRange(blocks, ncolors);
    var exc := Exclusive(lidx, |cells| + 1, states);
    var tr := Transitions(lidx, cells, |cells|, states, blocks, ncolors);
    var acc := AcceptClause(lidx, |cells|, accepting, |accepting|, states);
    assert LineClauses(lidx, cells, blocks, ncolors) == exc + [[Pos(StateAt(lidx, 0, S))]] + tr + [acc];
    forall c, l | c in exc + [[Pos(StateAt(lidx, 0, S))]] + tr + [acc] && l in c ensures l.key in ids {
      if c in exc {
        ExclusiveKeys(ids, sv, lidx, |cells| + 1, |cells| + 1, states, c, l);
      } else if c in tr {
        if ncolors > 0 {
          forall q, col | 0 <= q < |cells| && 0 <= col < ncolors ensures Cell(cells[q], col) in ids {
            var i :| 0 <= i < |pcells| && pcells[i] == cells[q];
          }
        }
        TransitionsKeys(ids, sv, lidx, cells, blocks, ncolors, c, l);
      } else if c == acc {
        AcceptClauseKeys(ids, sv, lidx, |cells|, accepting, |accepting|, states, l);
      } else {
        StatesMeaning(blocks, ncolors, S);
        assert (0, S) in sv;
      }
    }
  }

  // ---------------------------------------------------------------------------------------------
  // `process_line` and `encode`

  /** `process_line(lidx, line_cells, clue_line)` after the clue is parsed into `blocks`. */
  method EncodeLine(lidx: nat, cells: seq<Coord>, blocks: seq<Block>, ncolors: nat, vm: VarManager<Key>,
                    ghost pcells: seq<Coord>)
    returns (r: Result<seq<Clause>, EncodeError>)
    requires vm.Valid() && CellsRegistered(vm.ids, pcells, ncolors) && CellsComplete(vm.ids, pcells, ncolors, |pcells|)
    modifies vm
    ensures vm.Valid() && Extends(old(vm.ids), vm.ids) && AddsNoCells(old(vm.ids), vm.ids)
    ensures match LineError(lidx, cells, pcells, blocks, ncolors)
            case Some(e) => r == Err(e)
            case None =>
              && r == Ok(ResolveAll(vm.ids, LineClauses(lidx, cells, blocks, ncolors)))
              && Registered(vm.ids, LineClauses(lidx, cells, blocks, ncolors))
  {
    var states, accepting := BuildStates(blocks, ncolors);
    ClosedStates(blocks, ncolors);
    var n := |cells|;
    var sv := RegisterStates(lidx, n, states, vm);
    CellsKept(old(vm.ids), vm.ids, pcells, ncolors);
    var exc := EmitExclusive(lidx, n + 1, states, sv, vm.ids);
    StatesMeaning(blocks, ncolors, S);
    assert (0, S) in sv;
    var init: Clause := [sv[(0, S)]];
    assert init == Resolve(vm.ids, [Pos(StateAt(lidx, 0, S))]);
    var tr := EmitTransitions(lidx, cells, blocks, ncolors, states, sv, vm, pcells);
    if tr.Err? {
      return Err(tr.error);
    }
    var acc := EmitAcceptance(lidx, n, accepting, states, sv, vm.ids);
    AssembleLine(vm.ids, lidx, cells, blocks, ncolors, exc, init, tr.value, acc);
    LineClausesKeys(vm.ids, sv, lidx, cells, pcells, blocks, ncolors);
    r := Ok(exc + [init] + tr.value + [acc]);
  }

  /** The four groups of `process_line`, resolved one by one, resolve the line's clauses. */
  lemma AssembleLine(ids: map<Key, nat>, lidx: nat, cells: seq<Coord>, blocks: seq<Block>, ncolors: nat,
                     exc: seq<Clause>, init: Clause, tr: seq<Clause>, acc: Clause)
    requires AllInRange(blocks, States(blocks, ncolors))
    requires exc == ResolveAll(ids, Exclusive(lidx, |cells| + 1, States(blocks, ncolors)))
    requires init == Resolve(ids, [Pos(StateAt(lidx, 0, S))])
    requires tr == ResolveAll(ids, Transitions(lidx, cells, |cells|, States(blocks, ncolors), blocks, ncolors))
    requires acc == Resolve(ids, AcceptClause(lidx, |cells|, Accepting(blocks, ncolors), |Accepting(blocks, ncolors)|,
                                              States(blocks, ncolors)))
    ensures exc + [init] + tr + [acc] == ResolveAll(ids, LineClauses(lidx, cells, blocks, ncolors))
  {
    var states := States(blocks, ncolors);
    var accepting := Accepting(blocks, ncolors);
    var excK := Exclusive(lidx, |cells| + 1, states);
    var initK := [Pos(StateAt(lidx, 0, S))];
    var trK := Transitions(lidx, cells, |cells|, states, blocks, ncolors);
    var accK := AcceptClause(lidx, |cells|, accepting, |accepting|, states);
    ResolveAllSnoc(ids, excK, initK);
    ResolveAllAppend(ids, excK + [initK], trK);
    ResolveAllSnoc(ids, excK + [initK] + trK, accK);
  }

  /** One pass of the loop of `encode` over the lines: parse the clue of line `lidx`, then process it. */
  method EncodePuzzleLine(p: Geometry.Puzzle, lidx: nat, vm: VarManager<Key>) returns (r: Result<seq<Clause>, EncodeError>)
    requires lidx < |p.lines|
    requires vm.Valid() && CellsRegistered(vm.ids, p.cells, |p.colors|)
    requires CellsComplete(vm.ids, p.cells, |p.colors|, |p.cells|)
    modifies vm
    ensures vm.Valid() && Extends(old(vm.ids), vm.ids) && AddsNoCells(old(vm.ids), vm.ids)
    ensures CellsRegistered(vm.ids, p.cells, |p.colors|) && CellsComplete(vm.ids, p.cells, |p.colors|, |p.cells|)
    ensures match LinePart(p, lidx)
            case Err(e) => r == Err(e)
            case Ok(lc) => r == Ok(ResolveAll(vm.ids, lc)) && Registered(vm.ids, lc)
  {
    var line := p.lines[lidx];
    var parsed := ParseClueLine(line.clue);
    if parsed.Err? {
      return Err(BadClue(parsed.error));
    }
    r := EncodeLine(lidx, line.cells, parsed.value, |p.colors|, vm, p.cells);
    CellsKept(old(vm.ids), vm.ids, p.cells, |p.colors|);
  }

  /** The loop of `encode` over the lines, after the cell clauses `kcs0`. */
  method EncodeLines(p: Geometry.Puzzle, vm: VarManager<Key>, clauses0: seq<Clause>, ghost kcs0: seq<KClause<Key>>)
    returns (r: Result<seq<Clause>, EncodeError>, ghost kcs: seq<KClause<Key>>)
    requires vm.Valid() && CellsRegistered(vm.ids, p.cells, |p.colors|)
    requires CellsComplete(vm.ids, p.cells, |p.colors|, |p.cells|)
    requires clauses0 == ResolveAll(vm.ids, kcs0) && Registered(vm.ids, kcs0)
    modifies vm
    ensures vm.Valid()
    ensures Run(Parts(p), 0, kcs0) == if r.Ok? then Ok(kcs) else Err(r.error)
    ensures r.Ok? ==> r.value == ResolveAll(vm.ids, kcs) && Registered(vm.ids, kcs)
  {
    ghost var parts := Parts(p);
    var clauses := clauses0;
    kcs := kcs0;
    for lidx := 0 to |p.lines|
      invariant vm.Valid()
      invariant Run(parts, lidx, kcs) == Run(parts, 0, kcs0)
      invariant CellsRegistered(vm.ids, p.cells, |p.colors|) && CellsComplete(vm.ids, p.cells, |p.colors|, |p.cells|)
      invariant clauses == ResolveAll(vm.ids, kcs)
      invariant Registered(vm.ids, kcs)
    {
      ghost var before := vm.ids;
      var more := EncodePuzzleLine(p, lidx, vm);
      assert parts[lidx] == LinePart(p, lidx);
      if more.Err? {
        return Err(more.error), kcs;
      }
      ghost var lc := parts[lidx].value;
      ResolveAllGrowth(before, vm.ids, kcs);
      ResolveAllAppend(vm.ids, kcs, lc);
      assert forall c :: c in kcs + lc ==> c in kcs || c in lc;
      kcs := kcs + lc;
      clauses := clauses + more.value;
    }
    r := Ok(clauses);
  }

  /** `encode(puzzle, vm)` with a fresh registry: the clauses, or the exception it raises. */
  method Encode(p: Geometry.Puzzle, vm: VarManager<Key>) returns (r: Result<seq<Clause>, EncodeError>)
    requires vm.Valid() && vm.order == []
    modifies vm
    ensures vm.Valid()
    ensures match Spec(p)
            case Ok(kcs) =>
              && r == Ok(ResolveAll(vm.ids, kcs))
              && (forall m :: Satisfies(m, r.value) <==> Models(Decode(m, vm.ids), kcs))
              && Numbering(vm.ids) && Registered(vm.ids, kcs)
            case Err(e) => r == Err(e)
  {
    var clauses := EncodeCells(p.cells, |p.colors|, vm);
    ghost var kcs;
    r, kcs := EncodeLines(p, vm, clauses, CellClauses(p.cells, |p.colors|));
    if r.Ok? {
      vm.IdsInjectiveAndDense();
      forall m ensures Satisfies(m, r.value) <==> Models(Decode(m, vm.ids), kcs) {
        SatisfiesIffModels(m, vm.ids, kcs);
      }
    }
  }
}
