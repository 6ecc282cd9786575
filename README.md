# Nonogram CNF encodings, modelled in Dafny

The modelled program turns a coloured nonogram into a CNF formula for a SAT solver. A puzzle is a
rectangular or hexagonal grid of cells, a palette whose index 0 is the background, and one clue
per line. A clue is a sequence of blocks such as `3a 1? 2b`: a length, then a palette letter or
`?` for "any real colour". The clauses are integer lists in DIMACS style. A registry hands out the
integers: `VarManager` numbers every key (`('cell', coord, col)`, `('start', line, block, pos)`,
...) the first time it is seen.

This project models the following:

* **The registry** (`VarMap.VarManager`). A class whose map, reverse map and counter are
  updated in place. It is proved dense and injective, and its reverse map is proved to be its
  inverse.
* **The `.clues` reader** (`Geometry`) on the list of text lines it reads. It covers the
  header, the palette, the clue lines, the rectangular and hexagonal cell orders, and every
  error it raises.
* **The clue tokenizer** `parse_clue_line` (`Clue`). It is proved to invert a renderer of
  clues.
* **Approach 1** (`Arrangements`, `Approach1`). It enumerates every admissible arrangement of
  a line and gives each one a selector variable.
* **Approach 2** (`Approach2`, `Approach2Meaning`). It uses block-start and block-colour
  variables, with forward, spacing and background constraints.
* **Approach 4** (`Automaton`, `AutomatonMeaning`, `Approach4`, `Approach4Meaning`). It builds
  a finite automaton per clue and tracks one state variable per position. The automaton accepts
  exactly the paintings of the clue's admissible arrangements when every block has at least one
  cell (`AutomatonMeaning.AcceptsIffPainted`). So approach 4's models show the same lines as
  approach 1's (`Approach4Meaning.SpecSoundShown`, `Approach4Meaning.SpecCompleteShown`).

Each encoder is a method that fills a registry and returns integer clauses, or the exception the
code raises. It is proved equal to a specification function (`Spec`) that builds the clauses at
key level. The encoder's contract also states that an integer model satisfies the clauses
exactly when its decoded key set models the key-level clauses (`Cnf.SatisfiesIffModels`). The
key-level clauses are then given their meaning:

* **Soundness** (`SpecSound`): a model of the clauses colours each cell with exactly one palette
  colour, and every line shows an arrangement its clue admits (approaches 1 and 2) or a colour
  sequence its automaton accepts (approach 4).
* **Completeness** (`SpecComplete`): any colouring of that kind extends to a model of the
  key-level clauses. The key-level statement admits any set of keys, including cell keys outside
  the palette, which the registry never numbers.
* **Completeness of the instance** (`IntegerComplete`): when the true cell keys are palette
  colours of puzzle cells, the colouring also gives an integer model of the clauses `Encode`
  returns, with the same true cell variables. The encoder's contract supplies the registry facts
  this needs (`Encoding.Transferable`). In approach 4 every key the clauses mention is
  registered, so no condition on the cell keys is needed there.

Clauses are `seq<Lit<Key>>` at key level and `seq<int>` at integer level. A key the registry
never saw resolves to literal `0`. That is the model's rendering of Python's `None`. Approach 1
places it in a selector implication `[-sel, v]` in three cases: for a fixed colour letter beyond
the palette, for a line cell outside the puzzle, and for the background colour when the palette
is empty. Approach 2 never places it in a cell's exactly-one clause, which registers its keys.
It places it in three other clauses:
- in the background unit clause of a line with an empty clue, for a cell outside the puzzle or
  an empty palette;
- in a forward clause `[-start, -colour, cell]`, for a line cell outside the puzzle;
- as the background literal of a coverage clause, for a cell outside the puzzle or an empty
  palette when no start covers the cell. A covered cell raises TypeError first.

The code is followed where it differs from the design's intent:

* A malformed clue token raises and aborts the whole encoding. It is not confined to its line.
* In approach 2, a line with a block longer than the line appends one empty clause and stops
  registering blocks. The check that follows (`if not clauses or clauses[-1] == []`) looks at
  the last clause globally. So every later line that has blocks is skipped while the empty
  clause is still last. The formula is unsatisfiable either way. `Approach2.Outcome` models the
  check exactly.
* A `?` block in approach 2 with a palette of at most one colour gets an empty "some colour"
  clause.
* Approach 4 iterates its set of accepting states in hash order. The model fixes one order.
  Only the membership of the acceptance clause matters to its meaning.

## Model

| member | source | states |
|---|---|---|
| VarMap.VarManager.constructor | solvers/varmap.py:2-5 | The new registry has an empty map, an empty reverse map and a counter of 0. |
| VarMap.VarManager.New | solvers/varmap.py:7-13 | A known key returns its number and changes nothing. An unknown key gets counter + 1, and the counter, map and reverse map are extended by exactly that entry. Old entries keep their numbers. |
| VarMap.VarManager.Get | solvers/varmap.py:15-16 | Returns a number exactly when the key was registered, and it is that key's number. |
| VarMap.VarManager.KeyOf | solvers/varmap.py:18-19 | Returns a key exactly when 1 <= v <= counter, and it is the key numbered v. |
| VarMap.VarManager.NVars | solvers/varmap.py:21-22 | Returns the counter, which equals the number of registered keys. |
| VarMap.VarManager.IdsInjectiveAndDense | solvers/varmap.py:7-13 | Distinct keys have distinct numbers, and the numbers in use are exactly 1..counter. |
| VarMap.VarManager.RevIsInverse | solvers/varmap.py:11-12 | The reverse map and the map are inverse to each other. |
| VarMap.VarManager.CountIsKeys | solvers/varmap.py:10-12 | The counter equals the number of registered keys. |
| Clue.ReplaceCommas | solvers/approach1.py:10 | Each comma becomes a space, and every other character is kept, position by position. |
| Clue.Split | solvers/approach1.py:10 | Every piece of `str.split()` is a non-empty word without whitespace. |
| Clue.Tokens | solvers/approach1.py:10-16 | The tokens of a clue are non-empty words. |
| Clue.ParseClueLine | solvers/approach1.py:6-26 | The loop returns exactly the blocks, or the first token's error, that the clue grammar assigns. |
| Clue.ParseNatToString | solvers/approach1.py:18 | `int()` of a rendered length gives the length back. |
| Clue.TokenGrammar | solvers/approach1.py:17-24 | A token parses exactly when it is digits followed by a lowercase letter or `?`. Any other final character raises "Invalid clue token". |
| Clue.ParseTokensOk | solvers/approach1.py:13-26 | The clue parses exactly when every token is well formed. The result then has one block per token, in order. |
| Clue.ParseTokensErr | solvers/approach1.py:13-24 | A failing clue fails with the error of its first malformed token, and every earlier token is well formed. |
| Clue.ErrPersists | solvers/approach1.py:13-24 | Once a prefix of the tokens fails, the whole clue fails with that error. |
| Clue.EmptyClue | solvers/approach1.py:10-26 | A clue of only commas and whitespace parses to no blocks. |
| Clue.SplitAllSpace | solvers/approach1.py:10 | Whitespace alone splits into nothing. |
| Clue.SplitWordThen | solvers/approach1.py:10 | A word followed by whitespace splits off as the first piece. |
| Clue.SplitJoin | solvers/approach1.py:10 | Splitting words joined by whitespace returns the words. |
| Clue.ReplaceCommasJoin | solvers/approach1.py:10 | Replacing commas in a comma-joined text yields the space-joined text. |
| Clue.ParseTokensOfBlocks | solvers/approach1.py:17-22 | Rendered tokens of blocks with colour index below 26 parse back to the blocks. |
| Clue.ParseTokenText | solvers/approach1.py:17-22 | The token written for a block whose colour index is below 26 is one word, and it parses back to that block. |
| Clue.RoundTrip | solvers/approach1.py:6-26 | Parsing a clue rendered with commas or whitespace gives the blocks back. |
| Geometry.Row | solvers/parser.py:26 | Row r lists (r, 0) .. (r, width - 1) in order. |
| Geometry.Column | solvers/parser.py:27 | Column c lists (0, c) .. (height - 1, c) in order. |
| Geometry.RectCellsMeaning | solvers/parser.py:24 | The rectangular cell list has height * width cells. They are exactly the grid cells, in strictly increasing row-major order. |
| Geometry.BuildRectLines | solvers/parser.py:25-27 | The loops give the height rows, then the width columns. |
| Geometry.RectLinesCover | solvers/parser.py:25-27 | Each grid cell lies on exactly one row line and exactly one column line. |
| Geometry.BuildHexCoords | solvers/parser.py:44-48 | The coordinates are exactly the axial (q, r) with abs(-q-r) < size, strictly increasing (q, then r). |
| Geometry.Filter | solvers/parser.py:55 | Keeps exactly the coordinates on the given line. |
| Geometry.Reverse | solvers/parser.py:60 | Reverses the order. |
| Geometry.FilterLex | solvers/parser.py:55 | Filtering keeps the strict order. |
| Geometry.HexLineSorted | solvers/parser.py:54-66 | A hexagonal line holds exactly the coordinates with the given r, q or s. It is sorted by the direction's key in the direction's order. |
| Geometry.SortedUnique | solvers/parser.py:55-65 | Two lists with the same members, both sorted strictly by the direction's key, are equal. So the line is what `sorted` returns. |
| Geometry.BuildHexGroup | solvers/parser.py:54-66 | One group has 2*size-1 lines, the k-th being the line with value k-(size-1). |
| Geometry.HexGroupPartition | solvers/parser.py:43-66 | Each hexagonal cell lies in exactly one line of each direction. |
| Geometry.RStrip | solvers/parser.py:22 | `rstrip` returns the longest prefix that does not end in whitespace, and removes only whitespace. |
| Geometry.RawClues | solvers/parser.py:22 | The clue lines are lines 2.. of the file, right-stripped. |
| Geometry.Zip | solvers/parser.py:31 | Line i pairs clue i with cell list i. |
| Geometry.ParseRect | solvers/parser.py:18-32 | A rectangular file with too few clue lines raises. Otherwise the puzzle has the row-major cells, the rows then the columns, and the matching clues, and each line's cells are puzzle cells. |
| Geometry.ParseHex | solvers/parser.py:34-74 | A hexagonal file whose clue count is not 3(2n-1) raises with the expected and found counts. Otherwise the puzzle has the hexagonal cells and the three groups of lines in r, q, s order. |
| Geometry.BuildHexLines | solvers/parser.py:69 | The lines are group 1, then group 2, then group 3. |
| Geometry.HexConcatAt | solvers/parser.py:69 | Entry i of the three concatenated groups is the line of group i div (2*size-1), with value (i mod (2*size-1)) - (size-1). |
| Geometry.HexLinesInside | solvers/parser.py:44-69 | Every cell of every hexagonal line is a puzzle cell. |
| Geometry.ParseClues | solvers/parser.py:13-76 | An empty file, a bad header, a missing field, a wrong clue count or an unknown kind each raise the matching error. Otherwise the result is the rectangular or hexagonal puzzle, and it is well formed. |
| Arrangements.PlacedFromCons | solvers/approach1.py:30-44 | A placement from block i starts at or after minpos, fits in the line, and is followed by a placement of the rest after the block's end. |
| Arrangements.PlacedRoom | solvers/approach1.py:36-40 | A placement leaves room for the remaining blocks' total size. |
| Arrangements.HelperMeaning | solvers/approach1.py:30-44 | The recursive `helper` yields exactly the placements of blocks i.. that start at or after minpos. |
| Arrangements.ScanMeaning | solvers/approach1.py:36-44 | The `for s` scan from a given start yields exactly the placements whose first start is at or after it. |
| Arrangements.HereMeaning | solvers/approach1.py:37-44 | One start s yields exactly the placements that begin at s. |
| Arrangements.StartsMeaning | solvers/approach1.py:28-46 | `enumerate_starts` yields exactly the valid placements: in order, non-overlapping, inside the line. |
| Arrangements.TooLongNoStarts | solvers/approach1.py:36 | A block longer than the line admits no placement. |
| Arrangements.PlacementOrdered | solvers/approach1.py:36-43 | In a valid placement every block ends before any later block starts. |
| Arrangements.ChoicesMembers | solvers/approach1.py:50-54 | The colour choices of a block are its fixed colour, or each of 0..ncolors-2 for `?`. |
| Arrangements.ProductMembers | solvers/approach1.py:56-65 | The colour helper yields exactly the sequences that pick one choice per block. |
| Arrangements.BlockColoursMeaning | solvers/approach1.py:48-65 | `enumerate_block_colors` yields exactly the valid colour sequences. |
| Arrangements.SameColorSpacingOk | solvers/approach1.py:67-74 | Returns true exactly when every two consecutive blocks of the same colour have a gap between them. |
| Arrangements.WithStartsMembers | solvers/approach1.py:99-101 | For one placement, the loop keeps exactly the colourings that pass the spacing test. |
| Arrangements.CombineMembers | solvers/approach1.py:98-101 | The nested loops keep exactly the pairs of a placement and a colouring that pass the spacing test. |
| Arrangements.ArrangementsMeaning | solvers/approach1.py:98-101 | An arrangement is enumerated exactly when it is admissible: a valid placement, a valid colouring, and spaced. |
| Arrangements.ArrangementsShape | solvers/approach1.py:98-101 | Every enumerated arrangement is admissible. |
| Arrangements.ArrangementsShapes | solvers/approach1.py:98-101 | Every enumerated arrangement has one start and one colour per block. |
| Arrangements.Painted | solvers/approach1.py:106 | The painted line has one entry per cell. |
| Arrangements.PaintLine | solvers/approach1.py:106-111 | The painting loop computes the line painted by the arrangement. |
| Arrangements.PaintedMeaning | solvers/approach1.py:106-111 | A cell covered by block b gets palette colour colours[b] + 1. A cell no block covers gets 0. |
| Cnf.AtLeastOne | solvers/approach1.py:86 | The "at least one" clause has one positive literal per variable, in order. |
| Cnf.PairsBeforeMembers | solvers/approach1.py:87-89 | The pairwise clauses are exactly [-v_i, -v_j] for i < j. |
| Cnf.ExactlyOneMeaning | solvers/approach1.py:86-89 | The clauses hold exactly when some variable is true and no two are. |
| Cnf.Resolve | solvers/approach1.py:116 | Each literal becomes its key's number, negated for a negative literal, or 0 for an unregistered key. |
| Cnf.ResolveAll | solvers/approach1.py:116 | Resolves each clause, in order. |
| Cnf.ResolveAllGrowth | solvers/varmap.py:7-13 | Registering new keys does not change the numbers of clauses that use only old keys. |
| Cnf.Decode | solvers/varmap.py:18-19 | The key set of an integer model holds exactly the registered keys whose numbers are true. |
| Cnf.SatisfiesIffModels | solvers/approach1.py:76-126 | When every negated key is registered, an integer model satisfies the resolved clauses exactly when its decoded key set models the key-level clauses. |
| Cnf.ModelCarries | solvers/varmap.py:7-13 | A key-level model whose positively used true keys are all registered gives an integer model whose decoded keys are its registered true keys. |
| Encoding.IntegerModel | solvers/approach1.py:76-126 | With the registry facts an encoder leaves, a key-level model whose cell keys are palette colours of puzzle cells gives an integer model with the same registered true keys. |
| Cnf.EmptyClauseUnsat | solvers/approach1.py:118-119 | A formula holding the empty clause has no model. |
| Encoding.CellKeys | solvers/approach1.py:83-84 | Cell keys are ('cell', coord, c) for c in 0..ncolors-1. |
| Encoding.PairClauses | solvers/approach1.py:87-89 | The nested loops emit exactly the pairwise exclusions. |
| Encoding.ExactlyOneClauses | solvers/approach1.py:86-89 | Emits the at-least-one clause, then the pairwise exclusions. |
| Encoding.Lookup | solvers/approach1.py:115 | `vm.get` gives the key's number, or 0 standing for None. |
| Encoding.Find | solvers/varmap.py:15-16 | `vm.get` gives the key's number exactly when the key is registered. |
| Encoding.RegisterCell | solvers/approach1.py:82-84 | Registers the cell's ncolors colour keys. It adds no other key and keeps all old numbers. |
| Encoding.EncodeCells | solvers/approach1.py:81-89 | On a fresh registry, the cell loop emits the exactly-one clauses of every cell and registers only cell keys. |
| Encoding.CellPresent | solvers/approach1.py:81-84 | After the cell loop, a cell colour key is registered exactly when its coordinate is a puzzle cell. |
| Encoding.CellExactlyOne | solvers/approach1.py:86-89 | A cell's clauses hold exactly when the cell has exactly one palette colour. |
| Encoding.CellClausesMeaning | solvers/approach1.py:81-89 | The cell clauses hold exactly when every puzzle cell has exactly one colour. |
| Encoding.RunKeeps | solvers/approach1.py:91-124 | A successful run over the lines keeps every earlier clause and every line's clauses. |
| Encoding.RunFails | solvers/approach1.py:91-92 | A run over the lines fails exactly when some line fails, and the first failing line decides the error. |
| Approach1.Selectors | solvers/approach1.py:103-104 | Selector keys are ('line', lidx, 'arr', n) for n = 0, 1, ... |
| Approach1.Implications | solvers/approach1.py:113-116 | Each cell gets [-sel, cell has its painted colour]. |
| Approach1.Parts | solvers/approach1.py:91-124 | Line l contributes the clauses of its clue, or the clue's error. |
| Approach1.EmitImplications | solvers/approach1.py:113-116 | The loop emits the resolved implications. |
| Approach1.AddArrangement | solvers/approach1.py:103-116 | Registers the next selector and emits its implications. It adds no cell key. |
| Approach1.Select | solvers/approach1.py:103-116 | Appends one arrangement to the line's state and keeps the state invariant. |
| Approach1.Consider | solvers/approach1.py:99-116 | One colouring is kept exactly when it passes the spacing test. |
| Approach1.EncodeStarts | solvers/approach1.py:99-116 | The inner loop adds the spaced colourings of one placement. |
| Approach1.EncodeAll | solvers/approach1.py:98-116 | The nested loops select exactly the admissible arrangements, in enumeration order. |
| Approach1.EmitChoice | solvers/approach1.py:118-124 | Emits the empty clause when there are no selectors, else exactly one selector. |
| Approach1.EncodeLine | solvers/approach1.py:91-124 | A line's integer clauses resolve its key-level clauses. Only cell keys may be missing, and every negated key is registered. |
| Approach1.EncodePuzzleLine | solvers/approach1.py:91-124 | One pass of the line loop raises the clue's error, or returns the line's resolved key-level clauses. It registers no cell key. |
| Approach1.EncodeLines | solvers/approach1.py:91-125 | Starting from the cell clauses, the line loop returns the first failing clue's error, or clauses that resolve the whole key-level specification. |
| Approach1.Encode | solvers/approach1.py:76-126 | `encode` returns the resolved key-level specification or its error. Its integer models are exactly the models of the key-level clauses, and the registry numbers every palette colour of every cell and every non-cell key the clauses use. |
| Approach1.ImplicationsMeaning | solvers/approach1.py:113-116 | The implications hold exactly when a true selector forces the painted colours. |
| Approach1.SelectorClausesMeaning | solvers/approach1.py:98-116 | Every true selector forces its arrangement's painted colours. |
| Approach1.ChoiceMeaning | solvers/approach1.py:118-124 | The choice clauses hold exactly when there is an arrangement and exactly one selector is true. |
| Approach1.LineClausesMeaning | solvers/approach1.py:91-124 | A line's clauses hold exactly when exactly one arrangement is selected and it is displayed. |
| Approach1.LineSound | solvers/approach1.py:91-124 | A model of a line's clauses displays some admissible arrangement. |
| Approach1.NoArrangementUnsat | solvers/approach1.py:118-119 | A line without admissible arrangement is unsatisfiable. |
| Approach1.LineComplete | solvers/approach1.py:96-124 | A displayed admissible arrangement is enumerated at some index k, and selecting exactly k models the line. |
| Approach1.EmptyClueBackground | solvers/approach1.py:98-124 | An empty clue forces every cell to the background. |
| Approach1.LinePartMeaning | solvers/approach1.py:91-92 | A line fails exactly when its clue fails to parse. |
| Approach1.SpecFails | solvers/approach1.py:91-92 | `encode` fails exactly when some clue fails, with the first failing clue's error. |
| Approach1.SpecSound | solvers/approach1.py:76-126 | A model gives every cell one colour, and every line displays an admissible arrangement. |
| Approach1.LineExtends | solvers/approach1.py:96-124 | When line k shows an admissible arrangement, a model of the earlier clauses extends to a model that includes line k. Only line k's selectors change. |
| Approach1.RunComplete | solvers/approach1.py:91-124 | A colouring that shows lines k.. extends to a model of those lines' clauses without changing earlier keys. |
| Approach1.SpecComplete | solvers/approach1.py:76-126 | Any one-colour-per-cell colouring that shows every line extends to a model with the same cell keys. |
| Approach1.IntegerComplete | solvers/approach1.py:76-126 | Such a colouring, with its cell keys inside the puzzle and the palette, gives an integer model of the returned clauses with the same true cell variables. |
| Automaton.ValidCsMembers | solvers/approach4.py:21-24 | The chain colours of a block are its fixed colour + 1, or every real colour 1..ncolors-1. |
| Automaton.Chain | solvers/approach4.py:27-28 | The chain of one block colour is B(j, c, 1) .. B(j, c, size). |
| Automaton.BlockPartMembers | solvers/approach4.py:19-31 | Block j contributes exactly its chain states and, unless it is last, its gap state. |
| Automaton.StatesMeaning | solvers/approach4.py:15-33 | The state list holds exactly S, E, the chain states and the gaps between blocks. |
| Automaton.StatesDistinct | solvers/approach4.py:15-33 | No state is listed twice. |
| Automaton.AcceptingMeaning | solvers/approach4.py:36-51 | An existing state is accepting exactly when it is final: E, S for an empty clue, or the last cell of the last block's chain. |
| Automaton.AppendChain | solvers/approach4.py:26-28 | The `for t` loop appends one chain. |
| Automaton.AppendBlock | solvers/approach4.py:19-31 | One iteration of the block loop appends that block's part. |
| Automaton.BuildStates | solvers/approach4.py:7-53 | `build_states_for_blocks` returns the state list and the accepting list. |
| Automaton.AcceptingStates | solvers/approach4.py:35-51 | The accepting loop yields the accepting list. |
| Automaton.Next | solvers/approach4.py:103-171 | The transition gives at most one successor, and it stays within the clue's blocks. |
| Automaton.StatesInRange | solvers/approach4.py:15-33 | Every listed state names a block of the clue. |
| Automaton.BrokenMeaning | solvers/approach4.py:103-171 | A transition reaches a state that was never created exactly when some block has size 0 and may take some real colour. |
| Automaton.RunSnoc | solvers/approach4.py:89-179 | A run extended by one transition is a run. |
| Automaton.AcceptingRun | solvers/approach4.py:89-183 | An accepted colour sequence has a run that ends in a final state. |
| Approach4.StateKeys | solvers/approach4.py:80 | The state keys of position p are ('state', lidx, p, s) for each state, in order. |
| Approach4.Successors | solvers/approach4.py:178 | The successor literals are the next-position state keys. |
| Approach4.Parts | solvers/approach4.py:185-186 | Line l contributes its clauses or its error. |
| Approach4.RegisterPosition | solvers/approach4.py:75-76 | Registers every state of one position and adds no cell key. |
| Approach4.RegisterStates | solvers/approach4.py:74-76 | Registers the states of positions 0..N. |
| Approach4.EmitExclusive | solvers/approach4.py:79-84 | Emits exactly one state per position. |
| Approach4.SuccessorVars | solvers/approach4.py:178 | Looking up the successors fails exactly when one was never created. |
| Approach4.EmitTransition | solvers/approach4.py:94-179 | Raises TypeError for a cell outside the puzzle. Otherwise it raises KeyError exactly when the transition leaves the state list, and else emits the transition clause. |
| Approach4.EmitMove | solvers/approach4.py:175-179 | Raises KeyError exactly when a successor is not a state. Otherwise it emits [-state, -cell] followed by the successor state variables. |
| Approach4.ClosedMeaning | solvers/approach4.py:93-179 | The state loop raises nothing exactly when no state escapes on any colour. |
| Approach4.ClosedStates | solvers/approach4.py:93-179 | The full state list is closed exactly when the clue is not broken. |
| Approach4.TransitionsFrom | solvers/approach4.py:96-179 | The colour loop of one state raises TypeError or KeyError as above, or emits all of that state's transitions. |
| Approach4.TransitionsAt | solvers/approach4.py:93-179 | The state loop at one position raises as above or emits every transition of that position. |
| Approach4.LineErrorCell | solvers/approach4.py:90-97 | The first line cell outside the puzzle raises TypeError. |
| Approach4.LineErrorState | solvers/approach4.py:175-179 | A broken clue raises KeyError at the line's first position when that cell is a puzzle cell. |
| Approach4.LineErrorNone | solvers/approach4.py:90-179 | A line whose cells are puzzle cells and whose clue is not broken raises nothing. |
| Approach4.EmitTransitions | solvers/approach4.py:90-179 | The transition loops give the line's error, or all of its transition clauses. |
| Approach4.EmitAcceptance | solvers/approach4.py:182-183 | The acceptance clause lists the final-position keys of the accepting states. |
| Approach4.LineClausesKeys | solvers/approach4.py:67-183 | A line that raises nothing uses only registered keys. |
| Approach4.EncodeLine | solvers/approach4.py:67-183 | `process_line` returns its error, or the resolved line clauses with every key registered. |
| Approach4.EncodePuzzleLine | solvers/approach4.py:185-186 | One line of the puzzle gives its error or its clauses, and keeps the cell keys. |
| Approach4.EncodeLines | solvers/approach4.py:185-186 | The line loop computes the run over the lines. |
| Approach4.Encode | solvers/approach4.py:55-188 | `encode` returns the resolved key-level specification or its error. Its integer models are exactly the models of the key-level clauses, and every key the clauses use is registered. |
| Approach4Meaning.OneStateMeaning | solvers/approach4.py:79-84 | A position's clauses hold exactly when the automaton is in exactly one state there. |
| Approach4Meaning.ExclusiveMeaning | solvers/approach4.py:79-84 | The exclusivity clauses hold exactly when every position has exactly one state. |
| Approach4Meaning.UnitMeaning | solvers/approach4.py:87 | The init clause holds exactly when position 0 is in S. |
| Approach4Meaning.TransitionMeaning | solvers/approach4.py:175-179 | A transition clause holds exactly when state s at p and colour col at the cell imply some successor at p + 1. |
| Approach4Meaning.AcceptClauseMeaning | solvers/approach4.py:182-183 | The acceptance clause holds exactly when some existing accepting state holds at position N. |
| Approach4Meaning.AcceptMeaning | solvers/approach4.py:36-51 | The acceptance clause holds exactly when some final state holds at position N. |
| Approach4Meaning.LineClausesGroups | solvers/approach4.py:67-183 | A line's clauses are its exclusivity, init, transition and acceptance groups. |
| Approach4Meaning.LineClausesMeaning | solvers/approach4.py:67-183 | A line's clauses hold exactly when there is one state per position, S at 0, every transition is obeyed and a final state holds at N. |
| Approach4Meaning.RunPrefix | solvers/approach4.py:89-179 | Under a model, the first q cells drive a run whose q-th state is true. |
| Approach4Meaning.LineSound | solvers/approach4.py:67-183 | The colours a model shows on a line are accepted by the clue's automaton. |
| Approach4Meaning.FollowExclusive | solvers/approach4.py:79-84 | Setting the state keys along a run gives one state per position. |
| Approach4Meaning.FollowTransitions | solvers/approach4.py:89-179 | Setting the state keys along a run obeys every transition. |
| Approach4Meaning.LineComplete | solvers/approach4.py:67-183 | An accepting run for the shown colours models the line's clauses. |
| Approach4Meaning.MissingStateMeaning | solvers/approach4.py:175-179 | A line raises KeyError exactly when its first cell is a puzzle cell and some block of size 0 may take a real colour. |
| Approach4Meaning.SpecFails | solvers/approach4.py:185-186 | `encode` fails exactly when some line raises, and the first such line decides the error. |
| Approach4Meaning.SpecSound | solvers/approach4.py:55-188 | A model gives every cell one colour, and, with a non-empty palette, every line's colours are accepted. |
| Approach4Meaning.LineExtends | solvers/approach4.py:67-186 | An accepted line extends a model of the earlier lines to one that includes this line, without changing the cell keys. |
| Approach4Meaning.LineWitness | solvers/approach4.py:67-186 | An accepted line that raises nothing contributes its clauses. The colours it shows have an accepting run of its automaton. |
| Approach4Meaning.LineColoursExact | solvers/approach4.py:59-97 | On a line that raises nothing, with one palette colour per cell, a line cell's key holds exactly for the colour the line shows. |
| Approach4Meaning.RunComplete | solvers/approach4.py:185-186 | A colouring accepted on lines k.. extends to a model of those lines' clauses. |
| Approach4Meaning.SpecComplete | solvers/approach4.py:55-188 | When no line raises, any one-colour-per-cell colouring that every automaton accepts extends to a model with the same cell keys. |
| Approach4Meaning.IntegerComplete | solvers/approach4.py:55-188 | Such a colouring gives an integer model of the returned clauses with the same true cell variables. |
| Approach4Meaning.EmptyClueBackground | solvers/approach4.py:36-37 | An empty clue accepts exactly the all-background lines. |
| Approach4Meaning.LineAcceptedShown | solvers/approach4.py:89-183 | A line whose shown colours the automaton accepts displays the painting of an admissible arrangement of its clue, as approach 1 reads a line. |
| Approach4Meaning.LineShownAccepted | solvers/approach4.py:89-183 | Conversely, a line that displays an admissible arrangement of blocks of size at least 1, with only palette colours true, shows colours the automaton accepts. |
| Approach4Meaning.SpecSoundShown | solvers/approach4.py:55-188 | With a non-empty palette, a model of approach 4's clauses gives every cell one colour and shows an admissible arrangement on every line, the same soundness statement as approaches 1 and 2. |
| Approach4Meaning.SpecCompleteShown | solvers/approach4.py:55-188 | When no line raises and no clue has a block of size 0, every colouring approach 1 accepts extends to a model of approach 4's clauses with the same cell keys. |
| AutomatonMeaning.PaintedAtAgree | solvers/approach4.py:89-179 | The painting of the first m blocks depends only on their starts and colours. |
| AutomatonMeaning.PaintedAtBeyond | solvers/approach4.py:89-179 | Past the end of the m-th block, the first m blocks paint background. |
| AutomatonMeaning.PlacedEnds | solvers/approach4.py:89-179 | Among blocks placed in order, no earlier block ends after the last one. |
| AutomatonMeaning.PlaceTracks | solvers/approach4.py:103-124 | Entering block m at position q with an allowed colour extends the arrangement read so far by that block, starting at q. |
| AutomatonMeaning.InsideTracks | solvers/approach4.py:126-137 | Staying inside a block with its colour keeps the arrangement the run describes. |
| AutomatonMeaning.LeaveTracks | solvers/approach4.py:139-152 | Background after a finished block moves to its gap, or to E after the last block, and keeps the arrangement. |
| AutomatonMeaning.GapTracks | solvers/approach4.py:103-124 | Background in S, a gap or E keeps the arrangement. |
| AutomatonMeaning.TracksStepB | solvers/approach4.py:126-171 | Every transition out of a block state keeps a run tied to an arrangement that paints the colours read so far. |
| AutomatonMeaning.TracksStepGap | solvers/approach4.py:103-124 | Every transition out of S, a gap or E does the same. |
| AutomatonMeaning.TracksStep | solvers/approach4.py:103-171 | Every transition of the automaton does the same. |
| AutomatonMeaning.RunStep | solvers/approach4.py:175-179 | Each step of a run is a transition of the automaton into a created state. |
| AutomatonMeaning.TracksStart | solvers/approach4.py:87 | The initial state S describes the empty prefix. |
| AutomatonMeaning.RunUpToAll | solvers/approach4.py:175-179 | A run obeys its transitions on every prefix. |
| AutomatonMeaning.RunTracks | solvers/approach4.py:89-179 | The q-th state of a run describes an arrangement that paints the first q colours. |
| AutomatonMeaning.FinalTracks | solvers/approach4.py:36-51 | A final state at the end of the line describes an admissible arrangement whose painting is the whole line. |
| AutomatonMeaning.AcceptsSound | solvers/approach4.py:89-183 | Every colour sequence the automaton accepts is the painting of an admissible arrangement of the clue. |
| AutomatonMeaning.Started | solvers/approach4.py:103-171 | Counts the blocks that start before position q: the last counted starts before q and no later one does. |
| AutomatonMeaning.Trace | solvers/approach4.py:89-179 | The state sequence an arrangement drives has one state per position, S at 0. |
| AutomatonMeaning.StateAtIsState | solvers/approach4.py:15-33 | The state an admissible arrangement is in at any position is a created state. |
| AutomatonMeaning.AdmissibleIncreasing | solvers/approach4.py:103-171 | In an admissible arrangement every block ends no later than any later block starts. |
| AutomatonMeaning.StartedStep | solvers/approach4.py:103-171 | Moving one position on counts one more block exactly when a block starts at the current position. |
| AutomatonMeaning.PaintedStep | solvers/approach4.py:89-179 | The colour painted at q is the colour of the block starting there, else of the block covering it, else background. |
| AutomatonMeaning.StepEnter | solvers/approach4.py:103-124 | Where a block starts, its coloured cell is a transition into that block's first chain state. |
| AutomatonMeaning.StepStay | solvers/approach4.py:126-171 | Where no block starts, the painted colour is a transition that continues, finishes or waits between blocks. |
| AutomatonMeaning.StateAtStep | solvers/approach4.py:103-171 | The states an admissible arrangement drives follow the automaton's transitions on its painting. |
| AutomatonMeaning.TraceIsRun | solvers/approach4.py:89-179 | Those states form a run of the automaton over the painting. |
| AutomatonMeaning.TraceFinal | solvers/approach4.py:36-51 | The run ends in a final state. |
| AutomatonMeaning.AcceptsComplete | solvers/approach4.py:89-183 | With every block of size at least 1, the automaton accepts the painting of every admissible arrangement. |
| AutomatonMeaning.AcceptsIffPainted | solvers/approach4.py:89-183 | With every block of size at least 1, the automaton accepts a colour sequence exactly when it paints an admissible arrangement of the clue. |
| AutomatonMeaning.EmptyFixedBlock | solvers/approach4.py:19-31 | The clue `0b` with two colours is not broken, and it admits an arrangement that paints the empty line, but its automaton rejects that line. |
| Approach2.StartKeys | solvers/approach2.py:38 | The start keys of block b are ('start', lidx, b, p) for p in 0..L-size. |
| Approach2.ColourKeys | solvers/approach2.py:39 | The colour keys of block b are ('b_col', lidx, b, c) for c in 1..ncolors-1. |
| Approach2.ForwardCell | solvers/approach2.py:62-63 | For each real colour c, one clause: the start and the colour c imply cell colour c. |
| Approach2.Touch | solvers/approach2.py:73-75 | For each real colour, one clause: two touching blocks do not share that colour. |
| Approach2.CoverStarts | solvers/approach2.py:84-86 | The starts of block b that cover position pos are offsets max(0, pos-size+1) .. min(pos, L-size). |
| Approach2.Exclusions | solvers/approach2.py:93-94 | Each covering start excludes the background. |
| Approach2.BackgroundCells | solvers/approach2.py:78-99 | Each cell gets its background clauses over its covering starts. |
| Approach2.Units | solvers/approach2.py:26-29 | An empty clue gives one background unit clause per cell. |
| Approach2.RegisterKeys | solvers/approach2.py:38-39 | Registers the keys and returns their numbers. It adds no cell key. |
| Approach2.RegisterBlocks | solvers/approach2.py:31-40 | Reports whether every block fits. When all fit, it has registered every block's starts and colours. |
| Approach2.EmitBlock | solvers/approach2.py:43-56 | A fixed colour beyond the palette raises IndexError. Otherwise the method emits exactly one start, and the fixed colour or exactly one colour. |
| Approach2.EmitSelection | solvers/approach2.py:42-56 | Step 2b raises the first block's palette error or emits every block's selection clauses. |
| Approach2.ForwardCellClauses | solvers/approach2.py:62-63 | The colour loop emits one cell's forward clauses. |
| Approach2.ForwardStartClauses | solvers/approach2.py:61-63 | The `for t` loop emits one start's forward clauses. |
| Approach2.ForwardBlockClauses | solvers/approach2.py:60-63 | The `for p` loop emits one block's forward clauses. |
| Approach2.EmitForward | solvers/approach2.py:58-63 | Step 2c emits the forward clauses. |
| Approach2.TouchClauses | solvers/approach2.py:73-75 | Emits the same-colour exclusion of two touching starts. |
| Approach2.SpacingPairClauses | solvers/approach2.py:69-75 | An overlapping or out-of-order pair is excluded. A touching pair excludes a shared colour. A later pair gives nothing. |
| Approach2.SpacingStartClauses | solvers/approach2.py:69-75 | The `for q` loop emits one start's spacing clauses. |
| Approach2.SpacingBlockClauses | solvers/approach2.py:68-75 | The `for p` loop emits one block pair's spacing clauses. |
| Approach2.EmitSpacing | solvers/approach2.py:65-75 | Step 2d emits the spacing clauses. |
| Approach2.CoverStartVars | solvers/approach2.py:84-86 | Selects the numbers of the covering starts of one block. |
| Approach2.CoverVars | solvers/approach2.py:82-86 | Collects the covering starts of every block. |
| Approach2.CoverNonEmpty | solvers/approach2.py:82-86 | Some start covers a position exactly when some block can cover it. |
| Approach2.CoverMembers | solvers/approach2.py:82-86 | The covering starts are exactly the in-range starts of blocks whose span includes the position. |
| Approach2.BackgroundCellClauses | solvers/approach2.py:79-99 | A cell without a background variable raises TypeError when some start covers it. Otherwise the method emits its background clauses. |
| Approach2.BackgroundAt | solvers/approach2.py:78-99 | One cell raises TypeError when it is exposed. Otherwise it emits its background clauses. |
| Approach2.BackgroundStep | solvers/approach2.py:78-99 | One iteration of the background loop extends the clauses or raises. |
| Approach2.EmitBackground | solvers/approach2.py:77-99 | Step 2e raises when some covered cell lacks a background variable. Otherwise it emits every cell's background clauses. |
| Approach2.EmitLine | solvers/approach2.py:42-99 | Steps 2b to 2e give the palette error, then the TypeError, else the line's clauses. |
| Approach2.PaletteFromNone | solvers/approach2.py:49-50 | Without a palette error, every fixed colour indexes the block's colour list. |
| Approach2.ColourClauseKeys | solvers/approach2.py:49-56 | When its fixed colour is a real colour, block b's colour clauses mention only its own colour keys, with real colours. |
| Approach2.SelectionKeys | solvers/approach2.py:42-56 | Without a palette error, step 2b mentions only block keys: starts that fit and real colours. |
| Approach2.GuardedMeaning | solvers/approach2.py:79-94 | No TypeError arises exactly when every covered cell is a puzzle cell and the palette is not empty. |
| Approach2.BackgroundPresent | solvers/approach2.py:79 | A cell has a background variable exactly when it is a puzzle cell and the palette is not empty. |
| Approach2.LineKeys | solvers/approach2.py:42-99 | A line without error uses only registered keys except cell keys. |
| Approach2.UnitClauses | solvers/approach2.py:26-29 | Emits the background unit clauses. |
| Approach2.EncodeLine | solvers/approach2.py:21-99 | One line appends its outcome or raises its error. |
| Approach2.EncodeFitting | solvers/approach2.py:42-99 | A line whose blocks all fit raises its error or appends its clauses. |
| Approach2.ErrPersists | solvers/approach2.py:21-99 | Once the line loop raises, the result is that error. |
| Approach2.EncodeStep | solvers/approach2.py:21-99 | One iteration of the line loop computes the next prefix of the specification. |
| Approach2.EncodeBlocks | solvers/approach2.py:31-99 | For a line with blocks, steps 2a to 2e raise the line's error or append exactly its resolved clauses. They register no cell key. |
| Approach2.EncodeLines | solvers/approach2.py:21-99 | The line loop returns the specification's error, or clauses that resolve the whole key-level specification. |
| Approach2.Encode | solvers/approach2.py:7-101 | `encode` returns the resolved key-level specification or its error. Its integer models are exactly the models of the key-level clauses, and the registry numbers every palette colour of every cell and every non-cell key the clauses use. |
| Approach2Meaning.ExactlyOneAt | solvers/approach2.py:44-47 | Exactly-one holds exactly when only the first true variable is true. |
| Approach2Meaning.ColourClausesMeaning | solvers/approach2.py:49-56 | The colour clauses hold exactly when one block colour is chosen, and it is the fixed colour if there is one. |
| Approach2Meaning.BlockClausesMeaning | solvers/approach2.py:43-56 | A block's clauses hold exactly when it has exactly one start and exactly one colour, and the colour is the fixed one if set. |
| Approach2Meaning.SelectedIsChosen | solvers/approach2.py:43-56 | Every selected arrangement is the one read off the true start and colour keys. |
| Approach2Meaning.SelectionMeaning | solvers/approach2.py:42-56 | The selection clauses hold exactly when the arrangement read off the model is selected. |
| Approach2Meaning.SelectedAt | solvers/approach2.py:43-56 | A selected block has exactly one true start and exactly one true colour, and keeps its fixed colour. |
| Approach2Meaning.ForwardMeaning | solvers/approach2.py:58-63 | The forward clauses hold exactly when every block paints its cells its colour. |
| Approach2Meaning.SpacingMeaning | solvers/approach2.py:65-75 | The spacing clauses hold exactly when the starts are ordered without overlap and same-coloured neighbours have a gap. |
| Approach2Meaning.BackgroundCellMeaning | solvers/approach2.py:88-99 | A cell's background clauses hold exactly when the cell is background iff no covering start is true. |
| Approach2Meaning.CoverHolds | solvers/approach2.py:82-86 | A covering start is true exactly when the selected arrangement covers the cell. |
| Approach2Meaning.BackgroundMeaning | solvers/approach2.py:77-99 | The background clauses hold exactly when exactly the uncovered cells are background. |
| Approach2Meaning.LineClausesMeaning | solvers/approach2.py:42-99 | For the selected arrangement, a line's clauses hold exactly when it paints, is placed and spaced, and exactly the uncovered cells are background. |
| Approach2Meaning.LineSound | solvers/approach2.py:42-99 | A model of a line's clauses shows an admissible arrangement: the one its start and colour keys select. |
| Approach2Meaning.LineComplete | solvers/approach2.py:42-99 | Any admissible arrangement the colours show, with covered cells not background, models the line after setting its start and colour keys. |
| Approach2Meaning.UnitsMeaning | solvers/approach2.py:26-29 | The unit clauses hold exactly when every cell is background. |
| Approach2Meaning.EmptyClueShown | solvers/approach2.py:26-29 | An empty clue admits the empty arrangement, which is shown exactly when all cells are background. |
| Approach2Meaning.UptoGrows | solvers/approach2.py:21-99 | Earlier prefixes of the line loop succeed and their clauses are kept. |
| Approach2Meaning.TooLongUnsat | solvers/approach2.py:35-40 | A block longer than its line makes the whole formula unsatisfiable. |
| Approach2Meaning.LineSoundAt | solvers/approach2.py:21-99 | A model shows an admissible arrangement on each line. |
| Approach2Meaning.SpecSound | solvers/approach2.py:7-101 | A model gives every cell one colour, and every line shows an admissible arrangement. |
| Approach2Meaning.CoveredNotBackground | solvers/approach2.py:77-99 | A cell covered by a shown arrangement is not background. |
| Approach2Meaning.FittingComplete | solvers/approach2.py:42-99 | A line without error, whose colours show an admissible arrangement, is modelled after setting only its own keys. |
| Approach2Meaning.LineStepComplete | solvers/approach2.py:21-99 | One line's contribution is modelled after setting only its own keys. |
| Approach2Meaning.UptoComplete | solvers/approach2.py:21-99 | A colouring that shows lines k.. extends a model of the first k lines to the whole formula. |
| Approach2Meaning.SpecComplete | solvers/approach2.py:7-101 | When `encode` succeeds, any one-colour-per-cell colouring that shows every line extends to a model with the same cell keys. |
| Approach2Meaning.IntegerComplete | solvers/approach2.py:7-101 | Such a colouring, with its cell keys inside the puzzle and the palette, gives an integer model of the returned clauses with the same true cell variables. |

## Left out

- Reading the `.clues` file and choosing its encoding (parser.py lines 7-11) are left out. `ParseClues` takes the file's lines.
- `int()` on header numbers and block lengths accepts only plain decimal digits. Signs, underscores and surrounding whitespace are not modelled.
- A clue letter that is not a lowercase ASCII letter is treated as an invalid token. Python would compute a negative or out-of-alphabet colour index from it.
- Solving the formula (solvers/solver_pysat.py), writing DIMACS files and the command line (solvers/run.py), benchmarking (benchmark.py) and the solution checker (nonogram.py) are not part of this model.
- Each encoder requires a fresh registry (`vm.order == []`). That is how solvers/run.py calls it, with a new `VarManager` per encode.
- Literal 0 stands for `None` in a clause. Python would place `None` itself in the list.
- Approach 4 state names are a datatype rather than the strings `B{j}_{c}_{t}`. The model assumes distinct states have distinct names. The strings are ambiguous only when numbers run together, which cannot happen with the underscores.
- The generators of approach 1 are modelled as the sequences they yield. Laziness is not modelled.
- Approach4Meaning.SpecSoundShown: requires a non-empty palette, for the reason given for `SpecSound` below. With no colours and at least one puzzle cell, the cell clauses contain `[]`, so there is no model anyway.
- Approach4Meaning.SpecSound: the acceptance part holds only when the palette is not empty. With no colours there are no transition clauses, so nothing forces a run.
- Approach4Meaning.SpecComplete: requires that no line raises. A raising line has no clauses to model.
- Approach2Meaning.SpecSound: requires at least one puzzle cell. Without cell clauses the `not clauses` check skips every line with blocks.
- AutomatonMeaning.AcceptsIffPainted: requires every block to have at least one cell. A block of size 0 with a fixed colour is admitted by approach 1's arrangements, but its automaton has no state for it and rejects every line (`AutomatonMeaning.EmptyFixedBlock`).
- Approach4Meaning.SpecCompleteShown: requires every parsed clue to have blocks of size at least 1, for the same reason.
- Approach1.Encode: the contract states that the numbering is positive, injective and covers every key the clauses mention. It does not pin the first-use order in which the registry hands out the numbers. Satisfiability and the decoded models do not depend on that order. The same holds for Approach2.Encode and Approach4.Encode.
- Approach2Meaning.SpecComplete: requires that `encode` succeeds. A palette error or an exposed cell can raise even when an admissible arrangement exists.
