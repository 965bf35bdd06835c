/**
 * A worked puzzle: a 2 by 2 board reading `a t / c s` and a dictionary holding
 * `cat` and `cats`, both accepted by the range 3..4. Every two cells of a
 * 2 by 2 board are neighbours, so both words are spelled (c, a, t and then s)
 * and nothing else is.
 */
module Scenario {
  import opened Wrappers
  import opened Text
  import opened Grid
  import opened Lexicon
  import opened Search

  /** The tokens of `cat` and `cats`, as `from_dict` computes them. */
  lemma CatTokens()
    ensures WordTokens("cat") == ["c", "a", "t"]
    ensures WordTokens("cats") == ["c", "a", "t", "s"]
    ensures Concat(["c", "a", "t"]) == "cat" && Concat(["c", "a", "t", "s"]) == "cats"
  {
    var cats := "cats";
    assert Chomp("cat") == "cat" && Chomp(cats) == cats;
    assert cats[1..] == "ats" && cats[2..] == "ts" && cats[3..] == "s" && cats[4..] == "";
    assert "cat"[1..] == "at" && "cat"[2..] == "t" && "cat"[3..] == "";
    assert Tokenize("s") == ["s"];
    assert Tokenize("t") == ["t"] && Tokenize("ts") == ["t", "s"];
    assert Tokenize("at") == ["a", "t"] && Tokenize("ats") == ["a", "t", "s"];
    assert Tokenize("cat") == ["c", "a", "t"] && Tokenize(cats) == ["c", "a", "t", "s"];
    assert Downcase("c") == "c" && Downcase("a") == "a" && Downcase("t") == "t" && Downcase("s") == "s";
    assert ["c", "a", "t", "s"][..3] == ["c", "a", "t"];
    assert ["c", "a", "t"][..2] == ["c", "a"] && ["c", "a"][..1] == ["c"] && ["c"][..0] == [];
  }

  /** On a 2 by 2 grid, the cells 2, 0, 1, 3 (c, a, t, s) are a simple king-move path. */
  lemma CatPaths()
    ensures KingPath(2, 2, [], [2, 0, 1]) && KingPath(2, 2, [], [2, 0, 1, 3])
  {
    assert Adjacent(2, 2, 2, 0) && Adjacent(2, 2, 0, 1) && Adjacent(2, 2, 1, 3);
  }

  /** The letters along cells 2, 0, 1, 3 of the board `a t / c s`. */
  lemma CatSpellings(cells: seq<Cell>)
    requires |cells| == 4
    requires cells[0].letter == Some("a") && cells[1].letter == Some("t")
    requires cells[2].letter == Some("c") && cells[3].letter == Some("s")
    ensures Lettered(cells, [2, 0, 1]) && Spell(cells, [2, 0, 1]) == ["c", "a", "t"]
    ensures Lettered(cells, [2, 0, 1, 3]) && Spell(cells, [2, 0, 1, 3]) == ["c", "a", "t", "s"]
  {
    var cat, cats := [2, 0, 1], [2, 0, 1, 3];
    assert cat[1..] == [0, 1] && [0, 1][1..] == [1] && [1][1..] == [];
    assert Spell(cells, [1]) == ["t"];
    assert Spell(cells, [0, 1]) == ["a", "t"];
    assert cats[1..] == [0, 1, 3] && [0, 1, 3][1..] == [1, 3] && [1, 3][1..] == [3] && [3][1..] == [];
    assert Spell(cells, [3]) == ["s"];
    assert Spell(cells, [1, 3]) == ["t", "s"];
    assert Spell(cells, [0, 1, 3]) == ["a", "t", "s"];
  }

  /** On the lettered board, those paths are trails spelling c, a, t and c, a, t, s. */
  lemma CatTrails(cells: seq<Cell>)
    requires Wired(2, 2, cells)
    requires cells[0].letter == Some("a") && cells[1].letter == Some("t")
    requires cells[2].letter == Some("c") && cells[3].letter == Some("s")
    ensures Trail(cells, [], [2, 0, 1]) && Lettered(cells, [2, 0, 1]) && Spell(cells, [2, 0, 1]) == ["c", "a", "t"]
    ensures Trail(cells, [], [2, 0, 1, 3]) && Lettered(cells, [2, 0, 1, 3]) && Spell(cells, [2, 0, 1, 3]) == ["c", "a", "t", "s"]
  {
    CatPaths();
    TrailIsKingPath(2, 2, cells, [], [2, 0, 1]);
    TrailIsKingPath(2, 2, cells, [], [2, 0, 1, 3]);
    CatSpellings(cells);
  }

  /** Both lines are accepted by 3..4, and neither contains the end marker. */
  lemma CatsAccepted()
    ensures Accepted(["cat", "cats"][0], 3, 4) && Accepted(["cat", "cats"][1], 3, 4)
    ensures NoSentinel(["cat", "cats"], 3, 4)
  {
    CatTokens();
    var dict := ["cat", "cats"];
    assert Chomp(dict[0]) == "cat" && Chomp(dict[1]) == "cats";
    assert WordTokens(dict[0]) == ["c", "a", "t"] && WordTokens(dict[1]) == ["c", "a", "t", "s"];
    assert EndMark !in ["c", "a", "t", "s"] && EndMark !in ["c", "a", "t"];
  }

  /** Every solution of the puzzle is `cat` or `cats`. */
  lemma CatsSound(cells: seq<Cell>, nodes: seq<Stub>, keys: seq<seq<string>>, w: string)
    requires Trie(nodes, keys) && Built(keys, ["cat", "cats"], 3, 4)
    requires Solution(cells, nodes, w)
    ensures w == "cat" || w == "cats"
  {
    CatsAccepted();
    var k := SolutionIsDictionaryLine(cells, nodes, keys, ["cat", "cats"], 3, 4, w);
    CatTokens();
    assert ["cat", "cats"][0] == "cat" && ["cat", "cats"][1] == "cats";
  }

  /** The puzzle's solutions are exactly `cat` and `cats`. */
  lemma CatsScenario(cells: seq<Cell>, nodes: seq<Stub>, keys: seq<seq<string>>, w: string)
    requires Wired(2, 2, cells)
    requires cells[0].letter == Some("a") && cells[1].letter == Some("t")
    requires cells[2].letter == Some("c") && cells[3].letter == Some("s")
    requires Trie(nodes, keys) && Built(keys, ["cat", "cats"], 3, 4)
    ensures Solution(cells, nodes, w) <==> w == "cat" || w == "cats"
  {
    if Solution(cells, nodes, w) {
      CatsSound(cells, nodes, keys, w);
    }
    var dict := ["cat", "cats"];
    CatsAccepted();
    CatTokens();
    CatTrails(cells);
    assert dict[0] == "cat" && dict[1] == "cats";
    SpelledLineIsSolution(cells, nodes, keys, dict, 3, 4, 0, [2, 0, 1]);
    SpelledLineIsSolution(cells, nodes, keys, dict, 3, 4, 1, [2, 0, 1, 3]);
  }

  /** `parse "a t\nc s"` first strips the blanks, leaving `atcs`. */
  lemma CatBoardStrip()
    ensures Strip("a t\nc s") == "atcs"
  {
    assert Strip("c s") == "cs" by {
      assert "c s" == "c" + [' '] + "s";
      StripDropsBlank("c", ' ', "s");
      StripKeepsText("c");
      StripKeepsText("s");
    }
    assert Strip("t\nc s") == "tcs" by {
      assert "t\nc s" == "t" + ['\n'] + "c s";
      StripDropsBlank("t", '\n', "c s");
      StripKeepsText("t");
    }
    assert "a t\nc s" == "a" + [' '] + "t\nc s";
    StripDropsBlank("a", ' ', "t\nc s");
    StripKeepsText("a");
  }

  /** The stripped board text yields one token per cell. */
  lemma CatBoardTokens()
    ensures Tokenize(Strip("a t\nc s")) == ["a", "t", "c", "s"]
  {
    CatBoardStrip();
    var stripped := "atcs";
    assert stripped[1..] == "tcs" && stripped[2..] == "cs" && stripped[3..] == "s" && stripped[4..] == "";
    assert Tokenize("s") == ["s"];
    assert Tokenize("cs") == ["c", "s"];
    assert Tokenize("tcs") == ["t", "c", "s"];
  }

  /** Cells that took the parsed tokens through `letter=` from no letter read `a t / c s`. */
  lemma CatCells(cells: seq<Cell>)
    requires |cells| == 4
    requires forall k :: 0 <= k < |cells| ==> cells[k].letter == Assigned(None, TokenFor(Tokenize(Strip("a t\nc s")), k))
    ensures cells[0].letter == Some("a") && cells[1].letter == Some("t")
    ensures cells[2].letter == Some("c") && cells[3].letter == Some("s")
    ensures forall k :: 0 <= k < |cells| ==> cells[k].letter.Some?
  {
    CatBoardTokens();
    assert IsAsciiLetter("a"[0]) && IsAsciiLetter("t"[0]) && IsAsciiLetter("c"[0]) && IsAsciiLetter("s"[0]);
    assert cells[0].letter == Assigned(None, Some("a")) && cells[1].letter == Assigned(None, Some("t"));
    assert cells[2].letter == Assigned(None, Some("c")) && cells[3].letter == Assigned(None, Some("s"));
  }

  /** Whatever returns exactly the solutions of this puzzle returns `cat` and `cats`. */
  lemma CatsFound(cells: seq<Cell>, nodes: seq<Stub>, keys: seq<seq<string>>, words: set<string>)
    requires Wired(2, 2, cells)
    requires cells[0].letter == Some("a") && cells[1].letter == Some("t")
    requires cells[2].letter == Some("c") && cells[3].letter == Some("s")
    requires Trie(nodes, keys) && Built(keys, ["cat", "cats"], 3, 4)
    requires forall w :: w in words <==> Solution(cells, nodes, w)
    ensures words == {"cat", "cats"}
  {
    forall w ensures w in words <==> w in {"cat", "cats"} {
      CatsScenario(cells, nodes, keys, w);
    }
  }

  /**
   * The script run on this puzzle: `Board.new 2, 2`, `parse`, `from_dict` over
   * the two lines with the range 3..4, and the per-cell union. The words found
   * are exactly `cat` and `cats`.
   */
  method SolveCats() returns (words: set<string>)
    ensures words == {"cat", "cats"}
  {
    var board := CatBoard();
    var lex := Lexicon.FromDict(["cat", "cats"], 3, 4);
    words := FindAllWords(board, lex);
    CatsFound(board.cells[..], lex.nodes, lex.keys, words);
  }

  /** `Board.new 2, 2` followed by `parse "a t\nc s"` gives the wired board reading `a t / c s`. */
  method CatBoard() returns (board: Board)
    ensures board.Valid() && Wired(2, 2, board.cells[..])
    ensures board.cells[..][0].letter == Some("a") && board.cells[..][1].letter == Some("t")
    ensures board.cells[..][2].letter == Some("c") && board.cells[..][3].letter == Some("s")
    ensures forall k :: 0 <= k < board.cells.Length ==> board.cells[k].letter.Some?
  {
    board := new Board(2, 2);
    board.Parse("a t\nc s");
    CatCells(board.cells[..]);
  }
}
