/**
 * The clue tokenizer (`parse_clue_line` in `solvers/approach1.py`): a clue such as `"3a, 1?"` is
 * split on commas and whitespace into tokens `<digits><marker>`, where the marker is a lowercase
 * letter (a fixed colour, `a` = rank 0) or `?` (any non-background colour).
 */
module Clue {
  import opened Wrappers

  /** A run of `size` cells; `colour` is the letter rank of a fixed colour, `None` for `?`. */
  datatype Block = Block(size: nat, colour: Option<nat>)

  datatype ClueError =
    | InvalidToken(token: string)  // the last character is neither a letter nor '?'
    | BadLength(token: string)     // the part before the marker is not a number

  // ---------------------------------------------------------------------------------------------
  // Characters and numbers

  /**
   * The characters `str.isspace()` accepts, on which `str.split()` separates and `str.rstrip()`
   * strips: tab to carriage return, the four ASCII separators 28-31, the space, and the Unicode
   * spaces and line/paragraph separators (NEL, no-break space, Ogham space mark, the spaces
   * U+2000 to U+200A, U+2028, U+2029, U+202F, U+205F and the ideographic space).
   */
  predicate IsSpace(c: char) {
    var n := c as int;
    9 <= n <= 13 || 28 <= n <= 32 || n == 0x85 || n == 0xA0 || n == 0x1680 ||
    0x2000 <= n <= 0x200A || n == 0x2028 || n == 0x2029 || n == 0x202F || n == 0x205F ||
    n == 0x3000
  }

  predicate IsDigit(c: char) { '0' <= c <= '9' }

  predicate IsLower(c: char) { 'a' <= c <= 'z' }

  predicate AllDigits(s: string) { forall i :: 0 <= i < |s| ==> IsDigit(s[i]) }

  /** The value of a non-empty digit string, read left to right. */
  function DigitsValue(s: string): nat
    requires s != [] && AllDigits(s)
  {
    var d := (s[|s| - 1] as int - '0' as int) as nat;
    if |s| == 1 then d else 10 * DigitsValue(s[..|s| - 1]) + d
  }

  /** `int(s)` on the strings the model admits: a non-empty run of decimal digits. */
  function ParseNat(s: string): Option<nat> {
    if s != [] && AllDigits(s) then Some(DigitsValue(s)) else None
  }

  function NatToString(n: nat): (s: string)
    ensures s != [] && AllDigits(s)
  {
    var d := ['0' + (n % 10) as char];
    if n < 10 then d else NatToString(n / 10) + d
  }

  lemma {:induction false} ParseNatToString(n: nat)
    ensures ParseNat(NatToString(n)) == Some(n)
  {
    var s := NatToString(n);
    if n >= 10 {
      ParseNatToString(n / 10);
      assert s[..|s| - 1] == NatToString(n / 10);
    }
  }

  // ---------------------------------------------------------------------------------------------
  // Splitting: `clue_line.replace(',', ' ').split()`

  function ReplaceCommas(s: string): (r: string)
    ensures |r| == |s|
    ensures forall i :: 0 <= i < |s| ==> r[i] == if s[i] == ',' then ' ' else s[i]
  {
    seq(|s|, i requires 0 <= i < |s| => if s[i] == ',' then ' ' else s[i])
  }

  /** A token: non-empty and free of whitespace. */
  predicate IsWord(w: string) {
    w != [] && forall i :: 0 <= i < |w| ==> !IsSpace(w[i])
  }

  /** The length of the longest whitespace-free prefix of `s`. */
  function WordLen(s: string): (n: nat)
    ensures n <= |s| && IsWord(s[..n]) == (n > 0)
    ensures n < |s| ==> IsSpace(s[n])
  {
    if s == [] || IsSpace(s[0]) then 0
    else
      var m := WordLen(s[1..]);
      assert s[..m + 1] == [s[0]] + s[1..][..m];
      1 + m
  }

  /** `str.split()` with no argument: the maximal whitespace-free runs, in order. */
  function Split(s: string): (ws: seq<string>)
    ensures forall i :: 0 <= i < |ws| ==> IsWord(ws[i])
    decreases |s|
  {
    if s == [] then []
    else if IsSpace(s[0]) then Split(s[1..])
    else
      var n := WordLen(s);
      [s[..n]] + Split(s[n..])
  }

  // ---------------------------------------------------------------------------------------------
  // Tokens

  predicate IsMarker(c: char) { IsLower(c) || c == '?' }

  /** One token: the marker decides the colour, `int()` of the rest the length. */
  function ParseToken(token: string): Result<Block, ClueError>
    requires IsWord(token)
  {
    var last := token[|token| - 1];
    if IsMarker(last) then
      match ParseNat(token[..|token| - 1])
      case None => Err(BadLength(token))
      case Some(n) =>
        Ok(Block(n, if last == '?' then None else Some((last as int - 'a' as int) as nat)))
    else Err(InvalidToken(token))
  }

  /** The tokens in order; the first bad token decides the error. */
  function ParseTokens(ts: seq<string>): Result<seq<Block>, ClueError>
    requires forall i :: 0 <= i < |ts| ==> IsWord(ts[i])
  {
    if ts == [] then Ok([])
    else
      match ParseTokens(ts[..|ts| - 1])
      case Err(e) => Err(e)
      case Ok(bs) =>
        match ParseToken(ts[|ts| - 1])
        case Err(e) => Err(e)
        case Ok(b) => Ok(bs + [b])
  }

  function Tokens(clue: string): (ts: seq<string>)
    ensures forall i :: 0 <= i < |ts| ==> IsWord(ts[i])
  {
    Split(ReplaceCommas(clue))
  }

  /** What `parse_clue_line(clue)` returns or raises. */
  function ParseClue(clue: string): Result<seq<Block>, ClueError> {
    ParseTokens(Tokens(clue))
  }

  /**
   * `parse_clue_line`: the loop over the tokens, appending one block per token and stopping at the
   * first malformed one.  (The source strips each token and skips empty ones; `split()` never
   * yields such tokens, see `Split`.)
   */
  method ParseClueLine(clue: string) returns (r: Result<seq<Block>, ClueError>)
    ensures r == ParseClue(clue)
  {
    var parts := Tokens(clue);
    var parsed: seq<Block> := [];
    for i := 0 to |parts|
      invariant ParseTokens(parts[..i]) == Ok(parsed)
    {
      var token := parts[i];
      assert parts[..i + 1][..i] == parts[..i];
      match ParseToken(token)
      case Err(e) =>
        assert ParseTokens(parts[..i + 1]) == Err(e);
        ErrPersists(parts, i + 1);
        assert parts[..|parts|] == parts;
        return Err(e);
      case Ok(b) =>
        parsed := parsed + [b];
    }
    assert parts[..|parts|] == parts;
    r := Ok(parsed);
  }

  /** Once a prefix of the tokens fails, the whole sequence fails with the same error. */
  lemma {:induction false} ErrPersists(ts: seq<string>, n: nat)
    requires forall i :: 0 <= i < |ts| ==> IsWord(ts[i])
    requires n <= |ts| && ParseTokens(ts[..n]).Err?
    ensures ParseTokens(ts) == ParseTokens(ts[..n])
    decreases |ts| - n
  {
    if n < |ts| {
      assert ts[..n + 1][..n] == ts[..n];
      ErrPersists(ts, n + 1);
    } else {
      assert ts[..n] == ts;
    }
  }

  // ---------------------------------------------------------------------------------------------
  // What the tokenizer accepts

  /** The token grammar `<digits>(<lowercase letter>|?)`. */
  predicate WellFormedToken(t: string) {
    |t| >= 2 && AllDigits(t[..|t| - 1]) && IsMarker(t[|t| - 1])
  }

  /** A well-formed token is accepted, and only a well-formed one; a bad marker is reported as such. */
  lemma TokenGrammar(t: string)
    requires IsWord(t)
    ensures ParseToken(t).Ok? <==> WellFormedToken(t)
    ensures !IsMarker(t[|t| - 1]) ==> ParseToken(t) == Err(InvalidToken(t))
  {
  }

  /**
   * The tokens of a clue are accepted exactly when each is well-formed, and the blocks then follow
   * the tokens one for one.
   */
  lemma {:induction false} ParseTokensOk(ts: seq<string>)
    requires forall i :: 0 <= i < |ts| ==> IsWord(ts[i])
    ensures ParseTokens(ts).Ok? <==> forall i :: 0 <= i < |ts| ==> WellFormedToken(ts[i])
    ensures ParseTokens(ts).Ok? ==>
              |ParseTokens(ts).value| == |ts| &&
              forall i :: 0 <= i < |ts| ==> ParseToken(ts[i]) == Ok(ParseTokens(ts).value[i])
  {
    if ts != [] {
      var pre := ts[..|ts| - 1];
      var last := ts[|ts| - 1];
      ParseTokensOk(pre);
      TokenGrammar(last);
      assert forall j :: 0 <= j < |ts| - 1 ==> ts[j] == pre[j];
      if ParseTokens(pre).Ok? && ParseToken(last).Ok? {
        var bs := ParseTokens(pre).value + [ParseToken(last).value];
        assert ParseTokens(ts) == Ok(bs);
      }
    }
  }

  /** A rejected clue is rejected for its first malformed token. */
  lemma {:induction false} ParseTokensErr(ts: seq<string>)
    requires forall i :: 0 <= i < |ts| ==> IsWord(ts[i])
    requires ParseTokens(ts).Err?
    ensures exists i :: 0 <= i < |ts| && !WellFormedToken(ts[i]) &&
                        (forall j :: 0 <= j < i ==> WellFormedToken(ts[j])) &&
                        ParseToken(ts[i]) == Err(ParseTokens(ts).error)
  {
    var pre := ts[..|ts| - 1];
    var last := ts[|ts| - 1];
    assert forall j :: 0 <= j < |ts| - 1 ==> ts[j] == pre[j];
    if ParseTokens(pre).Err? {
      ParseTokensErr(pre);
      var i :| 0 <= i < |pre| && !WellFormedToken(pre[i]) &&
               (forall j :: 0 <= j < i ==> WellFormedToken(pre[j])) &&
               ParseToken(pre[i]) == Err(ParseTokens(pre).error);
      assert ts[i] == pre[i];
    } else {
      ParseTokensOk(pre);
      TokenGrammar(last);
      assert ParseToken(last) == Err(ParseTokens(ts).error);
    }
  }

  /** A clue of only commas and whitespace has no blocks. */
  lemma EmptyClue(clue: string)
    requires forall i :: 0 <= i < |clue| ==> clue[i] == ',' || IsSpace(clue[i])
    ensures ParseClue(clue) == Ok([])
  {
    SplitAllSpace(ReplaceCommas(clue));
  }

  lemma {:induction false} SplitAllSpace(s: string)
    requires forall i :: 0 <= i < |s| ==> IsSpace(s[i])
    ensures Split(s) == []
    decreases |s|
  {
    if s != [] {
      SplitAllSpace(s[1..]);
    }
  }

  // ---------------------------------------------------------------------------------------------
  // Writing a clue back: the tokenizer inverts it

  function TokenText(b: Block): string
    requires b.colour.Some? ==> b.colour.value < 26
  {
    NatToString(b.size) + [if b.colour.None? then '?' else 'a' + b.colour.value as char]
  }

  function Join(ws: seq<string>, sep: char): string {
    if ws == [] then []
    else if |ws| == 1 then ws[0]
    else ws[0] + [sep] + Join(ws[1..], sep)
  }

  /** A clue for `blocks`, tokens separated by `sep`. */
  function Render(blocks: seq<Block>, sep: char): string
    requires forall i :: 0 <= i < |blocks| ==> blocks[i].colour.Some? ==> blocks[i].colour.value < 26
  {
    Join(seq(|blocks|, i requires 0 <= i < |blocks| => TokenText(blocks[i])), sep)
  }

  lemma {:induction false} SplitWordThen(w: string, t: string)
    requires IsWord(w)
    requires t == [] || IsSpace(t[0])
    ensures Split(w + t) == [w] + Split(t)
  {
    var s := w + t;
    assert !IsSpace(s[0]);
    WordLenOf(w, t);
    assert s[..|w|] == w && s[|w|..] == t;
  }

  lemma {:induction false} WordLenOf(w: string, t: string)
    requires IsWord(w)
    requires t == [] || IsSpace(t[0])
    ensures WordLen(w + t) == |w|
    decreases |w|
  {
    var s := w + t;
    if |w| > 1 {
      assert s[1..] == w[1..] + t;
      WordLenOf(w[1..], t);
    } else {
      assert s[1..] == t;
    }
  }

  lemma {:induction false} SplitJoin(ws: seq<string>, sep: char)
    requires IsSpace(sep)
    requires forall i :: 0 <= i < |ws| ==> IsWord(ws[i])
    ensures Split(Join(ws, sep)) == ws
  {
    if |ws| == 1 {
      SplitWordThen(ws[0], []);
      assert ws[0] + [] == ws[0];
    } else if |ws| > 1 {
      var rest := Join(ws[1..], sep);
      SplitJoin(ws[1..], sep);
      assert ws[0] + [sep] + rest == ws[0] + ([sep] + rest);
      SplitWordThen(ws[0], [sep] + rest);
      assert ([sep] + rest)[1..] == rest;
    }
  }

  lemma {:induction false} ReplaceCommasJoin(ws: seq<string>, sep: char)
    requires sep == ',' || IsSpace(sep)
    requires forall i :: 0 <= i < |ws| ==> forall k :: 0 <= k < |ws[i]| ==> ws[i][k] != ','
    ensures ReplaceCommas(Join(ws, sep)) == Join(ws, if sep == ',' then ' ' else sep)
  {
    var s := Join(ws, sep);
    var sep' := if sep == ',' then ' ' else sep;
    if |ws| == 1 {
      assert ReplaceCommas(ws[0]) == ws[0];
    } else if |ws| > 1 {
      ReplaceCommasJoin(ws[1..], sep);
      var rest := Join(ws[1..], sep);
      assert ReplaceCommas(s) == ReplaceCommas(ws[0]) + [sep'] + ReplaceCommas(rest);
      assert ReplaceCommas(ws[0]) == ws[0];
    }
  }

  lemma {:induction false} ParseTokensOfBlocks(blocks: seq<Block>)
    requires forall i :: 0 <= i < |blocks| ==> blocks[i].colour.Some? ==> blocks[i].colour.value < 26
    ensures ParseTokens(seq(|blocks|, i requires 0 <= i < |blocks| => TokenText(blocks[i]))) == Ok(blocks)
  {
    var ts := seq(|blocks|, i requires 0 <= i < |blocks| => TokenText(blocks[i]));
    if blocks != [] {
      var pre := blocks[..|blocks| - 1];
      ParseTokensOfBlocks(pre);
      assert ts[..|ts| - 1] == seq(|pre|, i requires 0 <= i < |pre| => TokenText(pre[i]));
      var b := blocks[|blocks| - 1];
      ParseTokenText(b);
      assert blocks == pre + [b];
    }
  }

  /** The token written for one block parses back to it. */
  lemma ParseTokenText(b: Block)
    requires b.colour.Some? ==> b.colour.value < 26
    ensures IsWord(TokenText(b)) && ParseToken(TokenText(b)) == Ok(b)
  {
    var t := TokenText(b);
    ParseNatToString(b.size);
    assert t[..|t| - 1] == NatToString(b.size);
    forall k | 0 <= k < |t| - 1 ensures !IsSpace(t[k]) {
      assert IsDigit(t[..|t| - 1][k]);
    }
  }

  /**
   * Round trip: writing blocks as a clue, separated by commas or by any whitespace, and
   * tokenizing it gives the blocks back.
   */
  lemma RoundTrip(blocks: seq<Block>, sep: char)
    requires forall i :: 0 <= i < |blocks| ==> blocks[i].colour.Some? ==> blocks[i].colour.value < 26
    requires sep == ',' || IsSpace(sep)
    ensures ParseClue(Render(blocks, sep)) == Ok(blocks)
  {
    var ts := seq(|blocks|, i requires 0 <= i < |blocks| => TokenText(blocks[i]));
    forall i | 0 <= i < |ts| ensures IsWord(ts[i]) && forall k :: 0 <= k < |ts[i]| ==> ts[i][k] != ',' {
      var t := ts[i];
      assert t[..|t| - 1] == NatToString(blocks[i].size);
      forall k | 0 <= k < |t| ensures t[k] != ',' && !IsSpace(t[k]) {
        if k < |t| - 1 {
          assert IsDigit(t[..|t| - 1][k]);
        }
      }
    }
    ReplaceCommasJoin(ts, sep);
    SplitJoin(ts, if sep == ',' then ' ' else sep);
    ParseTokensOfBlocks(blocks);
  }
}
