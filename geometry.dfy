/**
 * The puzzle parser (`parse_clues` in `solvers/parser.py`), from the lines of a `.clues` file:
 * the header, the palette, the raw clues, and the cells and ordered lines of a rectangular or a
 * hexagonal grid.
 */
module Geometry {
  import opened Wrappers
  import opened Keys
  import Clue
  import Seqs

  datatype Topology = Rect(height: nat, width: nat) | Hex(size: nat)

  /** A line: its raw clue text and its cells in reading order. */
  datatype Line = Line(clue: string, cells: seq<Coord>)

  datatype Puzzle = Puzzle(kind: Topology, colors: seq<string>, cells: seq<Coord>, lines: seq<Line>)

  datatype ParseError =
    | EmptyFile                            // ValueError: the file has no line
    | MissingField                         // IndexError: a header token, the palette line or a clue is missing
    | BadNumber(text: string)              // ValueError from int()
    | ClueCount(expected: int, found: nat) // ValueError: a hexagonal file has the wrong number of clues
    | Unsupported(kind: string)            // NotImplementedError: the first token is neither rect nor hex

  /** Every cell a line mentions is a cell of the puzzle. */
  predicate WellFormed(p: Puzzle) {
    forall l, c :: l in p.lines && c in l.cells ==> c in p.cells
  }

  // ---------------------------------------------------------------------------------------------
  // Orders on coordinates

  predicate LexLess(a: Coord, b: Coord) {
    a.0 < b.0 || (a.0 == b.0 && a.1 < b.1)
  }

  /** Strictly increasing in (first, second) order: row-major, without repetitions. */
  predicate StrictlyLex(s: seq<Coord>) {
    forall i, j :: 0 <= i < j < |s| ==> LexLess(s[i], s[j])
  }

  // ---------------------------------------------------------------------------------------------
  // Rectangular grids

  function Row(r: int, width: nat): (line: seq<Coord>)
    ensures |line| == width && forall c :: 0 <= c < width ==> line[c] == (r, c)
  {
    seq(width, c requires 0 <= c < width => (r, c))
  }

  function Column(c: int, height: nat): (line: seq<Coord>)
    ensures |line| == height && forall r :: 0 <= r < height ==> line[r] == (r, c)
  {
    seq(height, r requires 0 <= r < height => (r, c))
  }

  /** `[(r, c) for r in range(height) for c in range(width)]` */
  function RectCells(height: nat, width: nat): seq<Coord> {
    if height == 0 then [] else RectCells(height - 1, width) + Row(height - 1, width)
  }

  predicate InGrid(height: nat, width: nat, c: Coord) {
    0 <= c.0 < height && 0 <= c.1 < width
  }

  /** The rectangular cells are exactly the height × width grid, in row-major order. */
  lemma {:induction false} RectCellsMeaning(height: nat, width: nat)
    ensures |RectCells(height, width)| == height * width
    ensures forall c :: c in RectCells(height, width) <==> InGrid(height, width, c)
    ensures StrictlyLex(RectCells(height, width))
  {
    if height > 0 {
      RectCellsMeaning(height - 1, width);
      var pre, row := RectCells(height - 1, width), Row(height - 1, width);
      var s := pre + row;
      forall i, j | 0 <= i < j < |s| ensures LexLess(s[i], s[j]) {
        if j < |pre| {
          assert s[i] == pre[i] && s[j] == pre[j];
        } else if i < |pre| {
          assert s[i] == pre[i] && pre[i] in pre;
        }
      }
      forall c | InGrid(height, width, c) ensures c in s {
        if c.0 == height - 1 {
          assert row[c.1] == c;
        } else {
          assert c in pre;
        }
      }
    }
  }

  /** The rows top to bottom, then the columns left to right (lines 25-27 of the parser). */
  method BuildRectLines(height: nat, width: nat) returns (lines: seq<seq<Coord>>)
    ensures |lines| == height + width
    ensures forall r :: 0 <= r < height ==> lines[r] == Row(r, width)
    ensures forall c :: 0 <= c < width ==> lines[height + c] == Column(c, height)
  {
    lines := [];
    for r := 0 to height
      invariant |lines| == r && forall i :: 0 <= i < r ==> lines[i] == Row(i, width)
    {
      lines := lines + [Row(r, width)];
    }
    for c := 0 to width
      invariant |lines| == height + c
      invariant forall i :: 0 <= i < height ==> lines[i] == Row(i, width)
      invariant forall i :: 0 <= i < c ==> lines[height + i] == Column(i, height)
    {
      lines := lines + [Column(c, height)];
    }
  }

  /** Every cell of every row and column is one of the rectangular cells. */
  lemma RectLinesInside(height: nat, width: nat, lines: seq<seq<Coord>>)
    requires |lines| == height + width
    requires forall r :: 0 <= r < height ==> lines[r] == Row(r, width)
    requires forall c :: 0 <= c < width ==> lines[height + c] == Column(c, height)
    ensures forall i, c :: 0 <= i < |lines| && c in lines[i] ==> c in RectCells(height, width)
  {
    RectCellsMeaning(height, width);
    forall i, c | 0 <= i < |lines| && c in lines[i] ensures InGrid(height, width, c) {
      var k :| 0 <= k < |lines[i]| && lines[i][k] == c;
      if i < height {
        assert lines[i] == Row(i, width);
      } else {
        assert lines[i] == Column(i - height, height);
      }
    }
  }

  /** Every grid cell lies on exactly one row and exactly one column. */
  lemma RectLinesCover(height: nat, width: nat, cell: Coord)
    requires InGrid(height, width, cell)
    ensures forall r :: 0 <= r < height ==> (cell in Row(r, width) <==> r == cell.0)
    ensures forall c :: 0 <= c < width ==> (cell in Column(c, height) <==> c == cell.1)
  {
    assert Row(cell.0, width)[cell.1] == cell;
    assert Column(cell.1, height)[cell.0] == cell;
  }

  // ---------------------------------------------------------------------------------------------
  // Hexagonal grids in axial coordinates (q, r), with the implicit third coordinate s = -q-r

  function Abs(x: int): nat { if x < 0 then -x else x }

  predicate InHex(size: nat, c: Coord) {
    -(size - 1) <= c.0 <= size - 1 && -(size - 1) <= c.1 <= size - 1 && Abs(-c.0 - c.1) < size
  }

  /** The cells of a hexagon of the given size: q outer, r inner (lines 44-48 of the parser). */
  method BuildHexCoords(size: nat) returns (coords: seq<Coord>)
    ensures forall c :: c in coords <==> InHex(size, c)
    ensures StrictlyLex(coords)
  {
    coords := [];
    var lo := -(size - 1);
    var q := lo;
    while q < size
      invariant lo <= q && (q <= size || q == lo)
      invariant forall c :: c in coords <==> InHex(size, c) && c.0 < q
      invariant StrictlyLex(coords)
      decreases size - q
    {
      var r := lo;
      while r < size
        invariant lo <= r && (r <= size || r == lo)
        invariant forall c :: c in coords <==> InHex(size, c) && (c.0 < q || (c.0 == q && c.1 < r))
        invariant StrictlyLex(coords)
        decreases size - r
      {
        if Abs(-q - r) < size {
          forall i | 0 <= i < |coords| ensures LexLess(coords[i], (q, r)) {
            assert coords[i] in coords;
          }
          coords := coords + [(q, r)];
        }
        r := r + 1;
      }
      q := q + 1;
    }
  }

  /** The three directions of hexagonal lines, in the order their clues appear. */
  datatype Direction = ConstR | ConstQ | ConstS

  /** The coordinate that is constant along a line of direction `d`. */
  function LineValue(d: Direction, c: Coord): int {
    match d
    case ConstR => c.1
    case ConstQ => c.0
    case ConstS => -c.0 - c.1
  }

  /**
   * The reading order of a line of direction `d`, as an increasing key: increasing q along
   * constant r, decreasing r along constant q, decreasing q along constant s.
   */
  function SortKey(d: Direction, c: Coord): int {
    match d
    case ConstR => c.0
    case ConstQ => -c.1
    case ConstS => -c.0
  }

  function Filter(s: seq<Coord>, d: Direction, v: int): (f: seq<Coord>)
    ensures forall c :: c in f <==> c in s && LineValue(d, c) == v
  {
    if s == [] then []
    else if LineValue(d, s[|s| - 1]) == v then Filter(s[..|s| - 1], d, v) + [s[|s| - 1]]
    else Filter(s[..|s| - 1], d, v)
  }

  function Reverse(s: seq<Coord>): (r: seq<Coord>)
    ensures |r| == |s| && forall i :: 0 <= i < |s| ==> r[i] == s[|s| - 1 - i]
  {
    seq(|s|, i requires 0 <= i < |s| => s[|s| - 1 - i])
  }

  /**
   * `sorted([c for c in coords if <constant> == v], key=..., reverse=...)`.  The cells are listed in
   * row-major order, so the filtered list is already in increasing q (constant r), increasing r
   * (constant q) or increasing q (constant s); sorting with `reverse=True` reverses it.
   * `HexLineSorted` and `SortedUnique` show that this is the sorted list.
   */
  function HexLine(coords: seq<Coord>, d: Direction, v: int): seq<Coord> {
    if d == ConstR then Filter(coords, d, v) else Reverse(Filter(coords, d, v))
  }

  predicate SortedBy(d: Direction, s: seq<Coord>) {
    forall i, j :: 0 <= i < j < |s| ==> SortKey(d, s[i]) < SortKey(d, s[j])
  }

  lemma {:induction false} FilterLex(s: seq<Coord>, d: Direction, v: int)
    requires StrictlyLex(s)
    ensures StrictlyLex(Filter(s, d, v))
  {
    if s != [] {
      var pre := s[..|s| - 1];
      FilterLex(pre, d, v);
      var f := Filter(pre, d, v);
      if LineValue(d, s[|s| - 1]) == v {
        forall i | 0 <= i < |f| ensures LexLess(f[i], s[|s| - 1]) {
          assert f[i] in pre;
        }
      }
    }
  }

  /** A line holds exactly the cells with its constant coordinate, in strictly increasing reading order. */
  lemma HexLineSorted(coords: seq<Coord>, d: Direction, v: int)
    requires StrictlyLex(coords)
    ensures forall c :: c in HexLine(coords, d, v) <==> c in coords && LineValue(d, c) == v
    ensures SortedBy(d, HexLine(coords, d, v))
  {
    var f := Filter(coords, d, v);
    FilterLex(coords, d, v);
    var line := HexLine(coords, d, v);
    forall i, j | 0 <= i < j < |line| ensures SortKey(d, line[i]) < SortKey(d, line[j]) {
      if d == ConstR {
        assert f[i] in f && f[j] in f;
      } else {
        var a, b := f[|f| - 1 - j], f[|f| - 1 - i];
        assert LexLess(a, b);
        assert a in f && b in f;
      }
    }
    forall c ensures c in line <==> c in f {
      if d != ConstR {
        if c in f {
          var k :| 0 <= k < |f| && f[k] == c;
          assert line[|f| - 1 - k] == c;
        }
      }
    }
  }

  /** Two lists that hold the same cells are empty together. */
  lemma SameCellsEmpty(s: seq<Coord>, t: seq<Coord>)
    requires forall c :: c in s <==> c in t
    ensures s == [] <==> t == []
  {
    if s != [] {
      assert s[0] in s;
    }
    if t != [] {
      assert t[0] in t;
    }
  }

  /** Two lists strictly ordered by the same key and holding the same cells start with the same cell. */
  lemma SortedHead(d: Direction, s: seq<Coord>, t: seq<Coord>)
    requires SortedBy(d, s) && SortedBy(d, t) && s != []
    requires forall c :: c in s <==> c in t
    ensures t != [] && s[0] == t[0]
  {
    assert s[0] in s;
    var i :| 0 <= i < |t| && t[i] == s[0];
    assert t[0] in t;
    var j :| 0 <= j < |s| && s[j] == t[0];
  }

  /** Removing the common first cell leaves lists that still hold the same cells. */
  lemma SortedTail(d: Direction, s: seq<Coord>, t: seq<Coord>)
    requires SortedBy(d, s) && SortedBy(d, t) && s != [] && t != [] && s[0] == t[0]
    requires forall c :: c in s <==> c in t
    ensures forall c :: c in s[1..] <==> c in t[1..]
  {
    forall c | c in s[1..] ensures c in t[1..] {
      var k :| 1 <= k < |s| && s[k] == c;
      assert SortKey(d, s[0]) < SortKey(d, s[k]);
      assert c in t;
      var m :| 0 <= m < |t| && t[m] == c;
      assert t[1..][m - 1] == c;
    }
    forall c | c in t[1..] ensures c in s[1..] {
      var k :| 1 <= k < |t| && t[k] == c;
      assert SortKey(d, t[0]) < SortKey(d, t[k]);
      assert c in s;
      var m :| 0 <= m < |s| && s[m] == c;
      assert s[1..][m - 1] == c;
    }
  }

  /**
   * Sorting by a key is determined by its result: two lists strictly ordered by the same key and
   * holding the same cells are equal.
   */
  lemma {:induction false} SortedUnique(d: Direction, s: seq<Coord>, t: seq<Coord>)
    requires SortedBy(d, s) && SortedBy(d, t)
    requires forall c :: c in s <==> c in t
    ensures s == t
    decreases |s|
  {
    if s == [] || t == [] {
      SameCellsEmpty(s, t);
    } else {
      SortedHead(d, s, t);
      SortedTail(d, s, t);
      assert SortedBy(d, s[1..]) && SortedBy(d, t[1..]) by {
        forall i, j | 0 <= i < j < |s| - 1 ensures SortKey(d, s[1..][i]) < SortKey(d, s[1..][j]) {
          assert s[1..][i] == s[i + 1] && s[1..][j] == s[j + 1];
        }
        forall i, j | 0 <= i < j < |t| - 1 ensures SortKey(d, t[1..][i]) < SortKey(d, t[1..][j]) {
          assert t[1..][i] == t[i + 1] && t[1..][j] == t[j + 1];
        }
      }
      SortedUnique(d, s[1..], t[1..]);
      assert s == [s[0]] + s[1..] && t == [t[0]] + t[1..];
    }
  }

  /** One direction group: the line of every constant value from -(size-1) to size-1 (lines 54-66). */
  method BuildHexGroup(coords: seq<Coord>, size: nat, d: Direction) returns (group: seq<seq<Coord>>)
    requires size >= 1
    ensures |group| == 2 * size - 1
    ensures forall k :: 0 <= k < |group| ==> group[k] == HexLine(coords, d, k - (size - 1))
  {
    group := [];
    var v := -(size - 1);
    while v < size
      invariant -(size - 1) <= v <= size
      invariant |group| == v + (size - 1)
      invariant forall k :: 0 <= k < |group| ==> group[k] == HexLine(coords, d, k - (size - 1))
      decreases size - v
    {
      group := group + [HexLine(coords, d, v)];
      v := v + 1;
    }
  }

  /**
   * Every cell of the hexagon lies on exactly one line of each direction group, the one whose
   * constant coordinate it has.
   */
  lemma HexGroupPartition(coords: seq<Coord>, size: nat, d: Direction, c: Coord)
    requires size >= 1 && StrictlyLex(coords)
    requires forall x :: x in coords <==> InHex(size, x)
    requires InHex(size, c)
    ensures -(size - 1) <= LineValue(d, c) <= size - 1
    ensures forall v :: -(size - 1) <= v <= size - 1 ==> (c in HexLine(coords, d, v) <==> v == LineValue(d, c))
  {
    forall v | -(size - 1) <= v <= size - 1
      ensures c in HexLine(coords, d, v) <==> v == LineValue(d, c)
    {
      HexLineSorted(coords, d, v);
    }
  }

  // ---------------------------------------------------------------------------------------------
  // The file

  /** `line.rstrip()`: the line without trailing whitespace. */
  function RStrip(s: string): (r: string)
    ensures |r| <= |s| && r == s[..|r|]
    ensures r == [] || !Clue.IsSpace(r[|r| - 1])
    ensures forall i :: |r| <= i < |s| ==> Clue.IsSpace(s[i])
  {
    if s == [] || !Clue.IsSpace(s[|s| - 1]) then s else RStrip(s[..|s| - 1])
  }

  /** `int(token)`, with the token missing (IndexError) or not a number (ValueError). */
  function HeaderNumber(first: seq<string>, i: nat): Result<nat, ParseError> {
    if i >= |first| then Err(MissingField)
    else match Clue.ParseNat(first[i])
      case None => Err(BadNumber(first[i]))
      case Some(n) => Ok(n)
  }

  /** The topology the header tokens declare, with the errors raised while reading them. */
  function Header(first: seq<string>): Result<Topology, ParseError> {
    if first == [] then Err(MissingField)
    else if first[0] == "rect" then
      match HeaderNumber(first, 1)
      case Err(e) => Err(e)
      case Ok(h) =>
        match HeaderNumber(first, 2)
        case Err(e) => Err(e)
        case Ok(w) => Ok(Rect(h, w))
    else if first[0] == "hex" then
      match HeaderNumber(first, 1)
      case Err(e) => Err(e)
      case Ok(n) => Ok(Hex(n))
    else Err(Unsupported(first[0]))
  }

  /** `len(xs[start:stop])` for a list of length `n` (a negative stop counts from the end). */
  function SliceLen(n: nat, start: nat, stop: int): nat {
    var hi := if stop < 0 then (if n + stop < 0 then 0 else n + stop) else (if stop > n then n else stop);
    var lo := if start > n then n else start;
    if hi > lo then hi - lo else 0
  }

  /** The clue lines `[line.rstrip() for line in txt[2:2 + count]]`, for a file that has them all. */
  function RawClues(txt: seq<string>, count: nat): (raw: seq<string>)
    requires 2 + count <= |txt|
    ensures |raw| == count && forall i :: 0 <= i < count ==> raw[i] == RStrip(txt[2 + i])
  {
    seq(count, i requires 0 <= i < count => RStrip(txt[2 + i]))
  }

  function Zip(clues: seq<string>, cells: seq<seq<Coord>>): (lines: seq<Line>)
    requires |clues| == |cells|
    ensures |lines| == |cells| && forall i :: 0 <= i < |cells| ==> lines[i] == Line(clues[i], cells[i])
  {
    seq(|cells|, i requires 0 <= i < |cells| => Line(clues[i], cells[i]))
  }

  /** The puzzle a rectangular file of the given size describes. */
  ghost predicate RectPuzzle(txt: seq<string>, h: nat, w: nat, p: Puzzle) {
    && |txt| >= 2 + h + w
    && p.kind == Rect(h, w)
    && p.colors == Clue.Split(txt[1])
    && p.cells == RectCells(h, w)
    && |p.lines| == h + w
    && (forall i :: 0 <= i < h + w ==> p.lines[i].clue == RStrip(txt[2 + i]))
    && (forall i :: 0 <= i < h ==> p.lines[i].cells == Row(i, w))
    && (forall j :: 0 <= j < w ==> p.lines[h + j].cells == Column(j, h))
  }

  /** The puzzle a hexagonal file of the given size describes. */
  ghost predicate HexPuzzle(txt: seq<string>, n: nat, p: Puzzle) {
    && n >= 1
    && |txt| >= 2 + 3 * (2 * n - 1)
    && p.kind == Hex(n)
    && p.colors == Clue.Split(txt[1])
    && (forall c :: c in p.cells <==> InHex(n, c))
    && StrictlyLex(p.cells)
    && |p.lines| == 3 * (2 * n - 1)
    && (forall i :: 0 <= i < |p.lines| ==> p.lines[i].clue == RStrip(txt[2 + i]))
    && (forall i :: 0 <= i < |p.lines| ==>
          p.lines[i].cells == HexLineAt(p.cells, n, i))
  }

  /** The rectangular branch: no count check, a short file fails when a missing clue is indexed. */
  method ParseRect(txt: seq<string>, h: nat, w: nat) returns (r: Result<Puzzle, ParseError>)
    requires |txt| >= 2
    ensures |txt| - 2 < h + w ==> r == Err(MissingField)
    ensures |txt| - 2 >= h + w ==> r.Ok? && RectPuzzle(txt, h, w, r.value) && WellFormed(r.value)
  {
    if |txt| - 2 < h + w {
      return Err(MissingField);
    }
    var raw := RawClues(txt, h + w);
    var cells := RectCells(h, w);
    var lines := BuildRectLines(h, w);
    RectLinesInside(h, w, lines);
    var p := Puzzle(Rect(h, w), Clue.Split(txt[1]), cells, Zip(raw, lines));
    forall l, c | l in p.lines && c in l.cells ensures c in p.cells {
      var i :| 0 <= i < |p.lines| && p.lines[i] == l;
      assert c in lines[i];
    }
    r := Ok(p);
  }

  /** The hexagonal branch: exactly 3(2S-1) clue lines are needed, further lines are ignored. */
  method ParseHex(txt: seq<string>, n: nat) returns (r: Result<Puzzle, ParseError>)
    requires |txt| >= 2
    ensures var expected := 3 * (2 * n - 1);
            var found := SliceLen(|txt|, 2, 2 + expected);
            && (found != expected ==> r == Err(ClueCount(expected, found)))
            && (found == expected ==> r.Ok? && HexPuzzle(txt, n, r.value) && WellFormed(r.value))
  {
    var expected := 3 * (2 * n - 1);
    var found := SliceLen(|txt|, 2, 2 + expected);
    if found != expected {
      return Err(ClueCount(expected, found));
    }
    var raw := RawClues(txt, expected);
    var coords := BuildHexCoords(n);
    var all := BuildHexLines(coords, n);
    var p := Puzzle(Hex(n), Clue.Split(txt[1]), coords, Zip(raw, all));
    HexLinesInside(coords, n, all);
    r := Ok(p);
  }

  /**
   * Line `i` of a hexagon of the given size: the lines of constant r come first, then those of
   * constant q, then those of constant s, each group by increasing constant from -(S-1).
   */
  function HexLineAt(coords: seq<Coord>, n: nat, i: nat): seq<Coord>
    requires n >= 1
  {
    HexLine(coords, GroupOf(n, i), IndexInGroup(n, i) - (n - 1))
  }

  /** The direction group of line `i`: the first 2S-1 lines are of constant r, then q, then s. */
  function GroupOf(n: nat, i: nat): Direction
    requires n >= 1
  {
    if i < 2 * n - 1 then ConstR else if i < 2 * (2 * n - 1) then ConstQ else ConstS
  }

  /** The position of line `i` within its direction group. */
  function IndexInGroup(n: nat, i: nat): int
    requires n >= 1
  {
    if i < 2 * n - 1 then i else if i < 2 * (2 * n - 1) then i - (2 * n - 1) else i - 2 * (2 * n - 1)
  }

  /** Line `i` of the three concatenated direction groups is the `i`-th hexagon line. */
  lemma HexConcatAt(coords: seq<Coord>, n: nat, g1: seq<seq<Coord>>, g2: seq<seq<Coord>>, g3: seq<seq<Coord>>, i: nat)
    requires n >= 1
    requires |g1| == |g2| == |g3| == 2 * n - 1
    requires forall k :: 0 <= k < |g1| ==> g1[k] == HexLine(coords, ConstR, k - (n - 1))
    requires forall k :: 0 <= k < |g2| ==> g2[k] == HexLine(coords, ConstQ, k - (n - 1))
    requires forall k :: 0 <= k < |g3| ==> g3[k] == HexLine(coords, ConstS, k - (n - 1))
    requires i < |g1| + |g2| + |g3|
    ensures (g1 + g2 + g3)[i] == HexLineAt(coords, n, i)
  {
    var m := 2 * n - 1;
    Seqs.ConcatAt(g1, g2, g3, i);
    if i < m {
      assert GroupOf(n, i) == ConstR && IndexInGroup(n, i) == i;
    } else if i < 2 * m {
      assert GroupOf(n, i) == ConstQ && IndexInGroup(n, i) == i - m;
    } else {
      assert GroupOf(n, i) == ConstS && IndexInGroup(n, i) == i - 2 * m;
    }
  }

  /** `dir_group1 + dir_group2 + dir_group3` (lines 54-69). */
  method BuildHexLines(coords: seq<Coord>, n: nat) returns (all: seq<seq<Coord>>)
    requires n >= 1
    ensures |all| == 3 * (2 * n - 1)
    ensures forall i :: 0 <= i < |all| ==> all[i] == HexLineAt(coords, n, i)
  {
    var g1 := BuildHexGroup(coords, n, ConstR);
    var g2 := BuildHexGroup(coords, n, ConstQ);
    var g3 := BuildHexGroup(coords, n, ConstS);
    all := g1 + g2 + g3;
    forall i | 0 <= i < |all| ensures all[i] == HexLineAt(coords, n, i) {
      HexConcatAt(coords, n, g1, g2, g3, i);
    }
  }

  lemma HexLinesInside(coords: seq<Coord>, n: nat, all: seq<seq<Coord>>)
    requires n >= 1 && StrictlyLex(coords)
    requires forall i :: 0 <= i < |all| ==> all[i] == HexLineAt(coords, n, i)
    ensures forall i, c :: 0 <= i < |all| && c in all[i] ==> c in coords
  {
    forall i, c | 0 <= i < |all| && c in all[i] ensures c in coords {
      HexLineSorted(coords, GroupOf(n, i), IndexInGroup(n, i) - (n - 1));
    }
  }

  /** `parse_clues`, from the lines of the file (reading the file is not part of this model). */
  method ParseClues(txt: seq<string>) returns (r: Result<Puzzle, ParseError>)
    ensures r == Err(EmptyFile) <==> txt == []
    ensures r.Ok? ==> WellFormed(r.value)
    ensures txt != [] ==>
              match Header(Clue.Split(txt[0]))
              case Err(e) => r == Err(e)
              case Ok(kind) =>
                if |txt| < 2 then r == Err(MissingField)
                else match kind
                  case Rect(h, w) =>
                    && (|txt| - 2 < h + w ==> r == Err(MissingField))
                    && (|txt| - 2 >= h + w ==> r.Ok? && RectPuzzle(txt, h, w, r.value))
                  case Hex(n) =>
                    var expected := 3 * (2 * n - 1);
                    var found := SliceLen(|txt|, 2, 2 + expected);
                    && (found != expected ==> r == Err(ClueCount(expected, found)))
                    && (found == expected ==> r.Ok? && HexPuzzle(txt, n, r.value))
  {
    if txt == [] {
      return Err(EmptyFile);
    }
    var header := Header(Clue.Split(txt[0]));
    if header.Err? {
      return Err(header.error);
    }
    if |txt| < 2 {
      return Err(MissingField);
    }
    match header.value
    case Rect(h, w) =>
      r := ParseRect(txt, h, w);
    case Hex(n) =>
      r := ParseHex(txt, n);
  }
}
