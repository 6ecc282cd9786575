/**
 * The symbolic variable keys the three encoders register (the tuples they pass to the registry),
 * as one closed datatype compared structurally.
 */
module Keys {

  /** A cell: `(row, column)` on a rectangular grid, axial `(q, r)` on a hexagonal one. */
  type Coord = (int, int)

  /**
   * A state of the per-line automaton: `S` before the first block, `B(j, c, t)` on the `t`-th cell
   * (1-based) of block `j` painted with colour `c` (a palette index, 1 = first letter), `G(j)` in
   * the gap after block `j`, and `E` after the last block.
   */
  datatype State = S | B(j: nat, c: nat, t: nat) | G(j: nat) | E

  datatype Key =
    | Cell(coord: Coord, col: nat)               // ('cell', coord, col): the cell has palette colour col
    | Arr(line: nat, index: nat)                 // ('line', lidx, 'arr', n): arrangement n of the line is chosen
    | Start(line: nat, block: nat, pos: nat)     // ('start', lidx, b, p): block b starts at offset p
    | BCol(line: nat, block: nat, col: nat)      // ('b_col', lidx, b, c): block b has palette colour c
    | StateAt(line: nat, pos: nat, state: State) // ('state', lidx, p, s): the automaton is in s before cell p
}
