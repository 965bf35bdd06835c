/**
 * The word search of `scramble.rb`: `Cell#find_words`, a depth-first walk
 * over the board's neighbour graph pruned by the trie, and the driver that
 * unions its results over every starting cell. The search reads a snapshot of
 * the board (the sequence of its cells) and of the trie (its node arena); it
 * changes neither.
 */
module Search {
  import opened Wrappers
  import opened Grid
  import opened Text
  import opened Lexicon

  /**
   * The cells `find_words` recurses into from cell `i` at node `n`: the union,
   * over the node's `next_letters`, of the neighbours carrying that letter,
   * minus the used cells.
   */
  function Candidates(cells: seq<Cell>, nodes: seq<Stub>, i: nat, n: nat, used: seq<nat>): set<nat>
    requires InRange(cells) && i < |cells| && n < |nodes|
  {
    set j | j in cells[i].neighbors && j !in used && cells[j].letter.Some? && cells[j].letter.value in NextLetters(nodes[n])
  }

  /** The child of node `n` for the letter of cell `j`: `wordstub.next(cell.letter)` on a key that exists. */
  function NextFor(cells: seq<Cell>, nodes: seq<Stub>, j: nat, n: nat): nat
    requires j < |cells| && n < |nodes| && cells[j].letter.Some? && cells[j].letter.value in nodes[n].hash
  {
    nodes[n].hash[cells[j].letter.value]
  }

  /** The cells of the board not yet used: the measure that the search shrinks. */
  function Unvisited(count: nat, used: seq<nat>): set<nat> {
    set k | 0 <= k < count && k !in used
  }

  /** Passing `used_cells + [self]` shrinks the unvisited cells, or leaves them as they are when `self` was already used. */
  lemma UnvisitedShrinks(count: nat, used: seq<nat>, i: nat)
    requires i < count
    ensures i !in used ==> Unvisited(count, used + [i]) < Unvisited(count, used)
    ensures i in used ==> Unvisited(count, used + [i]) == Unvisited(count, used)
  {
    if i !in used {
      assert i in Unvisited(count, used) && i !in Unvisited(count, used + [i]);
    }
  }

  /**
   * `find_words(wordstub, used_cells)` on cell `i`, where `n` is `wordstub`:
   * the node's own word if it is terminal, united with the words found from
   * every candidate neighbour, at the child for its letter, with `i` added to
   * the used cells. Results are sets: `Array#|` keeps no duplicates, and their
   * order is not modelled.
   */
  function FindWords(cells: seq<Cell>, nodes: seq<Stub>, i: nat, n: nat, used: seq<nat>): set<string>
    requires InRange(cells) && Closed(nodes) && i < |cells| && n < |nodes|
    decreases Unvisited(|cells|, used), if i in used then 1 else 0
  {
    var own := if IsWord(nodes[n]) then {nodes[n].word} else {};
    UnvisitedShrinks(|cells|, used, i);
    own + set j, w | j in Candidates(cells, nodes, i, n, used) && w in FindWords(cells, nodes, j, NextFor(cells, nodes, j, n), used + [i]) :: w
  }

  /**
   * A path the search may take from `p[0]` with `used` already used: every
   * cell on the board, each one a neighbour of the one before, no cell twice,
   * and none after the first in `used`.
   */
  ghost predicate Trail(cells: seq<Cell>, used: seq<nat>, p: seq<nat>) {
    && |p| >= 1
    && (forall k :: 0 <= k < |p| ==> p[k] < |cells|)
    && (forall k :: 1 <= k < |p| ==> p[k] in cells[p[k - 1]].neighbors)
    && (forall k, l :: 0 <= k < l < |p| ==> p[k] != p[l])
    && (forall k :: 1 <= k < |p| ==> p[k] !in used)
  }

  /** Every cell of `q` is on the board and has a letter. */
  ghost predicate Lettered(cells: seq<Cell>, q: seq<nat>) {
    forall k :: 0 <= k < |q| ==> q[k] < |cells| && cells[q[k]].letter.Some?
  }

  /** The letters of the cells of `q`, in order. */
  ghost function Spell(cells: seq<Cell>, q: seq<nat>): seq<string>
    requires Lettered(cells, q)
  {
    if q == [] then [] else [cells[q[0]].letter.value] + Spell(cells, q[1..])
  }

  /** The walk ended at a terminal node whose word is `w`. */
  ghost predicate Yields(nodes: seq<Stub>, r: Option<nat>, w: string) {
    r.Some? && r.value < |nodes| && IsWord(nodes[r.value]) && nodes[r.value].word == w
  }

  /** `w` is reachable from cell `i` at node `n`: some trail from `i` spells, after `i`, a path from `n` to a terminal node with word `w`. */
  ghost predicate Found(cells: seq<Cell>, nodes: seq<Stub>, i: nat, n: nat, used: seq<nat>, w: string) {
    exists p :: Trail(cells, used, p) && p[0] == i && Lettered(cells, p[1..]) && Yields(nodes, Walk(nodes, n, Spell(cells, p[1..])), w)
  }

  /** Putting `i` in front of a trail that avoids `i` and starts at a neighbour of `i` gives a trail. */
  lemma ExtendTrail(cells: seq<Cell>, used: seq<nat>, i: nat, q: seq<nat>)
    requires Irreflexive(cells) && i < |cells|
    requires Trail(cells, used + [i], q) && q[0] in cells[i].neighbors && q[0] !in used
    ensures Trail(cells, used, [i] + q)
  {
    var p := [i] + q;
    forall k | 1 <= k < |p| ensures p[k] in cells[p[k - 1]].neighbors {
      if k > 1 {
        assert p[k] == q[k - 1] && p[k - 1] == q[k - 2];
      }
    }
    forall k, l | 0 <= k < l < |p| ensures p[k] != p[l] {
      if k > 0 {
        assert p[k] == q[k - 1] && p[l] == q[l - 1];
      } else if l > 1 {
        assert p[l] == q[l - 1] && q[l - 1] !in used + [i];
      }
    }
    forall k | 1 <= k < |p| ensures p[k] !in used {
      if k > 1 {
        assert p[k] == q[k - 1] && q[k - 1] !in used + [i];
      }
    }
  }

  /** Dropping the first cell of a trail of two or more cells gives a trail that also avoids that cell. */
  lemma TrailTail(cells: seq<Cell>, used: seq<nat>, p: seq<nat>)
    requires Trail(cells, used, p) && |p| >= 2
    ensures Trail(cells, used + [p[0]], p[1..])
  {
    var q := p[1..];
    forall k | 1 <= k < |q| ensures q[k] !in used + [p[0]] {
      assert q[k] == p[k + 1];
    }
    forall k | 1 <= k < |q| ensures q[k] in cells[q[k - 1]].neighbors {
      assert q[k] == p[k + 1] && q[k - 1] == p[k];
    }
  }

  /** Soundness of `find_words`: every word it returns is reachable along a trail from the cell, ending at a terminal node with that word. */
  lemma {:induction false} FindWordsSound(cells: seq<Cell>, nodes: seq<Stub>, i: nat, n: nat, used: seq<nat>, w: string)
    requires InRange(cells) && Irreflexive(cells) && Closed(nodes) && i < |cells| && n < |nodes|
    requires w in FindWords(cells, nodes, i, n, used)
    ensures Found(cells, nodes, i, n, used, w)
    decreases Unvisited(|cells|, used), if i in used then 1 else 0
  {
    if IsWord(nodes[n]) && w == nodes[n].word {
      var p := [i];
      assert p[1..] == [];
      assert Trail(cells, used, p);
    } else {
      var j :| j in Candidates(cells, nodes, i, n, used) && w in FindWords(cells, nodes, j, NextFor(cells, nodes, j, n), used + [i]);
      UnvisitedShrinks(|cells|, used, i);
      FindWordsSound(cells, nodes, j, NextFor(cells, nodes, j, n), used + [i], w);
      FoundStep(cells, nodes, i, n, used, j, w);
    }
  }

  /** A word reachable from a candidate neighbour, one node further down, is reachable from the cell. */
  lemma FoundStep(cells: seq<Cell>, nodes: seq<Stub>, i: nat, n: nat, used: seq<nat>, j: nat, w: string)
    requires InRange(cells) && Irreflexive(cells) && Closed(nodes) && i < |cells| && n < |nodes|
    requires j in Candidates(cells, nodes, i, n, used)
    requires Found(cells, nodes, j, NextFor(cells, nodes, j, n), used + [i], w)
    ensures Found(cells, nodes, i, n, used, w)
  {
    var c := NextFor(cells, nodes, j, n);
    var q :| Trail(cells, used + [i], q) && q[0] == j && Lettered(cells, q[1..]) && Yields(nodes, Walk(nodes, c, Spell(cells, q[1..])), w);
    ExtendTrail(cells, used, i, q);
    var p := [i] + q;
    assert p[1..] == q;
    assert q == [q[0]] + q[1..];
    assert Lettered(cells, q);
    assert Spell(cells, q) == [cells[j].letter.value] + Spell(cells, q[1..]);
    assert Walk(nodes, n, Spell(cells, q)) == Walk(nodes, c, Spell(cells, q[1..]));
  }

  /** Completeness of `find_words`: every word reachable along a trail from the cell is returned. */
  lemma {:induction false} FindWordsComplete(cells: seq<Cell>, nodes: seq<Stub>, i: nat, n: nat, used: seq<nat>, p: seq<nat>, w: string)
    requires InRange(cells) && Closed(nodes) && i < |cells| && n < |nodes|
    requires Trail(cells, used, p) && p[0] == i && Lettered(cells, p[1..])
    requires Yields(nodes, Walk(nodes, n, Spell(cells, p[1..])), w)
    ensures w in FindWords(cells, nodes, i, n, used)
    decreases |p|
  {
    if |p| == 1 {
      assert p[1..] == [];
    } else {
      var q := p[1..];
      var j := q[0];
      var letter := cells[j].letter.value;
      assert q == [j] + q[1..];
      assert Spell(cells, q) == [letter] + Spell(cells, q[1..]);
      assert letter in nodes[n].hash;
      var c := NextFor(cells, nodes, j, n);
      assert Walk(nodes, n, Spell(cells, q)) == Walk(nodes, c, Spell(cells, q[1..]));
      assert j in Candidates(cells, nodes, i, n, used);
      TrailTail(cells, used, p);
      assert q[1..] == p[2..];
      assert Lettered(cells, q[1..]);
      FindWordsComplete(cells, nodes, j, c, used + [i], q, w);
    }
  }

  /** `find_words` returns exactly the words reachable from the cell. */
  lemma FindWordsCorrect(cells: seq<Cell>, nodes: seq<Stub>, i: nat, n: nat, used: seq<nat>, w: string)
    requires InRange(cells) && Irreflexive(cells) && Closed(nodes) && i < |cells| && n < |nodes|
    ensures w in FindWords(cells, nodes, i, n, used) <==> Found(cells, nodes, i, n, used, w)
  {
    if w in FindWords(cells, nodes, i, n, used) {
      FindWordsSound(cells, nodes, i, n, used, w);
    }
    if Found(cells, nodes, i, n, used, w) {
      var p :| Trail(cells, used, p) && p[0] == i && Lettered(cells, p[1..]) && Yields(nodes, Walk(nodes, n, Spell(cells, p[1..])), w);
      FindWordsComplete(cells, nodes, i, n, used, p, w);
    }
  }

  /** `w` is spelled, from the root, along a trail starting at a cell below `bound`. */
  ghost predicate SpelledBelow(cells: seq<Cell>, nodes: seq<Stub>, bound: nat, w: string) {
    exists p :: Trail(cells, [], p) && p[0] < bound && Lettered(cells, p) && Yields(nodes, Walk(nodes, 0, Spell(cells, p)), w)
  }

  /** A solution of the puzzle: a word of the trie spelled, from the root, by the letters along some trail of the board. */
  ghost predicate Solution(cells: seq<Cell>, nodes: seq<Stub>, w: string) {
    exists p :: Trail(cells, [], p) && Lettered(cells, p) && Yields(nodes, Walk(nodes, 0, Spell(cells, p)), w)
  }

  /**
   * What one pass of the driver adds for the cell `i`: the words spelled from
   * the root along trails that start at `i`; none when the cell's letter has
   * no child at the root.
   */
  lemma StartCell(cells: seq<Cell>, nodes: seq<Stub>, i: nat, w: string)
    requires InRange(cells) && Irreflexive(cells) && Closed(nodes) && 1 <= |nodes|
    requires i < |cells| && cells[i].letter.Some?
    ensures var letter := cells[i].letter.value;
      (letter in nodes[0].hash && w in FindWords(cells, nodes, i, nodes[0].hash[letter], [])) <==>
      exists p :: Trail(cells, [], p) && p[0] == i && Lettered(cells, p) && Yields(nodes, Walk(nodes, 0, Spell(cells, p)), w)
  {
    var letter := cells[i].letter.value;
    forall p | Trail(cells, [], p) && p[0] == i && Lettered(cells, p)
      ensures Walk(nodes, 0, Spell(cells, p)) ==
        if letter in nodes[0].hash then Walk(nodes, nodes[0].hash[letter], Spell(cells, p[1..])) else None
    {
      assert p == [i] + p[1..];
      assert Lettered(cells, p[1..]);
      assert Spell(cells, p) == [letter] + Spell(cells, p[1..]);
    }
    if letter in nodes[0].hash {
      var c := nodes[0].hash[letter];
      FindWordsCorrect(cells, nodes, i, c, [], w);
      if Found(cells, nodes, i, c, [], w) {
        var p :| Trail(cells, [], p) && p[0] == i && Lettered(cells, p[1..]) && Yields(nodes, Walk(nodes, c, Spell(cells, p[1..])), w);
        assert Lettered(cells, p);
      }
    }
  }

  /**
   * The driver: for every cell, in board order, `find_words` starting at the
   * root's child for the cell's letter, united into one result. It returns
   * exactly the solutions of the puzzle.
   */
  method FindAllWords(board: Board, lex: Lexicon) returns (words: set<string>)
    requires board.Valid() && lex.Valid()
    requires forall k :: 0 <= k < board.cells.Length ==> board.cells[k].letter.Some?
    ensures forall w :: w in words <==> Solution(board.cells[..], lex.nodes, w)
  {
    var cells := board.cells[..];
    var nodes := lex.nodes;
    WiredIsGraph(board.rows, board.cols, cells);
    TrieIsClosed(nodes, lex.keys);
    words := {};
    for i := 0 to |cells|
      invariant forall w :: w in words <==> SpelledBelow(cells, nodes, i, w)
    {
      var letter := cells[i].letter.value;
      var found := {};
      if letter in nodes[0].hash {
        found := FindWords(cells, nodes, i, nodes[0].hash[letter], []);
      }
      forall w ensures w in words + found <==> SpelledBelow(cells, nodes, i + 1, w) {
        StartCell(cells, nodes, i, w);
      }
      words := words + found;
    }
  }

  /** A path of distinct cells, each a king move from the one before, none after the first in `used`. */
  ghost predicate KingPath(rows: int, cols: int, used: seq<nat>, p: seq<nat>) {
    && |p| >= 1 && p[0] < CellCount(rows, cols)
    && (forall k :: 1 <= k < |p| ==> Adjacent(rows, cols, p[k - 1], p[k]))
    && (forall k, l :: 0 <= k < l < |p| ==> p[k] != p[l])
    && (forall k :: 1 <= k < |p| ==> p[k] !in used)
  }

  /** On a board wired by `define_neighbors`, the trails are exactly the simple king-move paths over the grid. */
  lemma TrailIsKingPath(rows: int, cols: int, cells: seq<Cell>, used: seq<nat>, p: seq<nat>)
    requires Wired(rows, cols, cells)
    ensures Trail(cells, used, p) <==> KingPath(rows, cols, used, p)
  {
    if Trail(cells, used, p) {
      forall k | 1 <= k < |p| ensures Adjacent(rows, cols, p[k - 1], p[k]) {
        NeighborsAreAdjacent(rows, cols, p[k - 1], p[k]);
      }
    }
    if KingPath(rows, cols, used, p) {
      forall k | 0 <= k < |p| ensures p[k] < |cells| {
        if k > 0 {
          assert Adjacent(rows, cols, p[k - 1], p[k]);
        }
      }
      forall k | 1 <= k < |p| ensures p[k] in cells[p[k - 1]].neighbors {
        NeighborsAreAdjacent(rows, cols, p[k - 1], p[k]);
      }
    }
  }

  /**
   * With no `.` in any accepted line, every solution is an accepted line of the
   * dictionary: the trail spells the line's downcased tokens, and the word is
   * their concatenation.
   */
  lemma SolutionIsDictionaryLine(cells: seq<Cell>, nodes: seq<Stub>, keys: seq<seq<string>>, dict: seq<string>, lo: int, hi: int, w: string)
    returns (k: nat)
    requires Trie(nodes, keys) && Built(keys, dict, lo, hi) && NoSentinel(dict, lo, hi)
    requires Solution(cells, nodes, w)
    ensures k < |dict| && Accepted(dict[k], lo, hi) && w == Concat(WordTokens(dict[k]))
  {
    var p :| Trail(cells, [], p) && Lettered(cells, p) && Yields(nodes, Walk(nodes, 0, Spell(cells, p)), w);
    var s := Spell(cells, p);
    assert Terminal(nodes, s);
    TerminalIsAcceptedLine(nodes, keys, dict, lo, hi, s);
    k :| 0 <= k < |dict| && Accepted(dict[k], lo, hi) && WordTokens(dict[k]) == s;
    WordIsSpelledPath(nodes, keys, s);
  }

  /** An accepted line whose downcased tokens are the letters along some trail of the board is a solution. */
  lemma SpelledLineIsSolution(cells: seq<Cell>, nodes: seq<Stub>, keys: seq<seq<string>>, dict: seq<string>, lo: int, hi: int, k: nat, p: seq<nat>)
    requires Trie(nodes, keys) && Built(keys, dict, lo, hi)
    requires k < |dict| && Accepted(dict[k], lo, hi)
    requires Trail(cells, [], p) && Lettered(cells, p) && Spell(cells, p) == WordTokens(dict[k])
    ensures Solution(cells, nodes, Concat(WordTokens(dict[k])))
  {
    AcceptedLineIsWord(nodes, keys, dict, lo, hi, k);
    assert Yields(nodes, Walk(nodes, 0, Spell(cells, p)), Concat(WordTokens(dict[k])));
  }

  /** A trie built from no lines has no words, so no board has a solution. */
  lemma EmptyDictionaryHasNoSolutions(cells: seq<Cell>, nodes: seq<Stub>, keys: seq<seq<string>>, lo: int, hi: int, w: string)
    requires Trie(nodes, keys) && Built(keys, [], lo, hi)
    ensures !Solution(cells, nodes, w)
  {
    forall p | Trail(cells, [], p) && Lettered(cells, p) ensures !Yields(nodes, Walk(nodes, 0, Spell(cells, p)), w) {
      TerminalIffInserted(nodes, keys, [], lo, hi, Spell(cells, p));
    }
  }
}
