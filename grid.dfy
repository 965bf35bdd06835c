/**
 * The board of `scramble.rb`: `rows * cols` cells in row-major order, each
 * wired once, at construction, to its in-bounds king-move neighbours, and
 * filled with letter tokens by `parse`. A cell is identified by its index in
 * the array (`row * cols + col`), so a neighbour set is a set of indices.
 */
module Grid {
  import opened Wrappers
  import opened Text

  /** A `Cell`: its `@letter` (nil until assigned) and its `@neighbors` set. */
  datatype Cell = Cell(letter: Option<string>, neighbors: set<nat>)

  /** The length of `(0..(rows * cols)-1).map { ... }`, which is empty unless the product is positive. */
  function CellCount(rows: int, cols: int): nat {
    if rows * cols > 0 then rows * cols else 0
  }

  lemma {:induction false} MulAtLeast(e: int, d: int)
    requires d > 0
    ensures e >= 1 ==> e * d >= d
    ensures e <= -1 ==> e * d <= -d
    decreases if e < 0 then -e else e
  {
    if e > 1 {
      MulAtLeast(e - 1, d);
      assert e * d == (e - 1) * d + d;
    } else if e < -1 {
      MulAtLeast(e + 1, d);
      assert e * d == (e + 1) * d - d;
    }
  }

  lemma DivModOfIndex(q: int, r: int, d: int)
    requires d > 0 && 0 <= r < d
    ensures (q * d + r) / d == q && (q * d + r) % d == r
  {
    var x := q * d + r;
    var e := x / d - q;
    assert e * d == r - x % d by {
      assert x == (x / d) * d + x % d;
      assert (x / d) * d == e * d + q * d;
    }
    MulAtLeast(e, d);
  }

  lemma IndexBelow(row: int, col: int, rows: int, cols: int)
    requires 0 <= row < rows && 0 <= col < cols
    ensures 0 <= row * cols + col < rows * cols
  {
    MulAtLeast(rows - row, cols);
    assert rows * cols == (rows - row) * cols + row * cols;
    MulAtLeast(row + 1, cols);
  }

  lemma RowBelow(k: int, rows: int, cols: int)
    requires cols > 0 && 0 <= k < rows * cols
    ensures 0 <= k / cols < rows
  {
    var q := k / cols;
    assert k == q * cols + k % cols;
    MulAtLeast(q + 1, cols);
    MulAtLeast(q - rows + 1, cols);
    assert (q - rows + 1) * cols == q * cols + cols - rows * cols;
    assert (q + 1) * cols == q * cols + cols;
  }

  /**
   * `Board#cell(row, col)`: the index `row * cols + col` when the position
   * lies in `[0, rows) x [0, cols)`, and nothing otherwise.
   */
  function CellAt(rows: int, cols: int, row: int, col: int): (r: Option<nat>)
    ensures r.Some? <==> 0 <= row < rows && 0 <= col < cols
    ensures r.Some? ==> r.value < CellCount(rows, cols)
  {
    if 0 <= row < rows && 0 <= col < cols then
      IndexBelow(row, col, rows, cols);
      Some(row * cols + col)
    else
      None
  }

  /** The cell `cell(row, col)` returns lies on row `row` and column `col`: the lookup is injective. */
  lemma CellAtDecodes(rows: int, cols: int, row: int, col: int)
    requires CellAt(rows, cols, row, col).Some?
    ensures var k := CellAt(rows, cols, row, col).value; k / cols == row && k % cols == col
  {
    DivModOfIndex(row, col, cols);
  }

  /** Every cell of the board is `cell(row, col)` of its own row and column: the lookup is onto. */
  lemma CellAtCovers(rows: int, cols: int, k: int)
    requires rows > 0 && cols > 0 && 0 <= k < CellCount(rows, cols)
    ensures CellAt(rows, cols, k / cols, k % cols) == Some(k)
  {
    RowBelow(k, rows, cols);
    assert k == (k / cols) * cols + k % cols;
  }

  /** What `define_neighbors` adds to the cell at (row, col): the eight king moves, each skipped when `cell` returns nil. */
  function KingMoves(rows: int, cols: int, row: int, col: int): set<nat> {
    Elements(CellAt(rows, cols, row - 1, col - 1)) + Elements(CellAt(rows, cols, row - 1, col)) +
    Elements(CellAt(rows, cols, row - 1, col + 1)) + Elements(CellAt(rows, cols, row, col - 1)) +
    Elements(CellAt(rows, cols, row, col + 1)) + Elements(CellAt(rows, cols, row + 1, col - 1)) +
    Elements(CellAt(rows, cols, row + 1, col)) + Elements(CellAt(rows, cols, row + 1, col + 1))
  }

  /** The neighbour set the cell with index `k` has once the board is built; the loops of `define_neighbors` run only when both dimensions are positive. */
  function Neighbors(rows: int, cols: int, k: nat): set<nat> {
    if rows > 0 && cols > 0 then KingMoves(rows, cols, k / cols, k % cols) else {}
  }

  /** Two distinct cells whose rows and columns each differ by at most one. */
  predicate Adjacent(rows: int, cols: int, i: nat, j: nat) {
    && rows > 0 && cols > 0
    && i < CellCount(rows, cols) && j < CellCount(rows, cols) && i != j
    && -1 <= i / cols - j / cols <= 1
    && -1 <= i % cols - j % cols <= 1
  }

  /** The cell one king move (dr, dc) away from cell `i`, when there is one, is adjacent to `i`. */
  lemma OffsetIsAdjacent(rows: int, cols: int, i: nat, dr: int, dc: int, j: nat)
    requires rows > 0 && cols > 0 && i < CellCount(rows, cols)
    requires -1 <= dr <= 1 && -1 <= dc <= 1 && (dr != 0 || dc != 0)
    requires CellAt(rows, cols, i / cols + dr, i % cols + dc) == Some(j)
    ensures Adjacent(rows, cols, i, j)
  {
    CellAtDecodes(rows, cols, i / cols + dr, i % cols + dc);
  }

  /** Every member of `KingMoves` is `cell(row + dr, col + dc)` for one of the eight offsets. */
  lemma KingMoveOffset(rows: int, cols: int, row: int, col: int, j: nat) returns (dr: int, dc: int)
    requires j in KingMoves(rows, cols, row, col)
    ensures -1 <= dr <= 1 && -1 <= dc <= 1 && (dr != 0 || dc != 0)
    ensures CellAt(rows, cols, row + dr, col + dc) == Some(j)
  {
    if j in Elements(CellAt(rows, cols, row - 1, col - 1)) { dr, dc := -1, -1; }
    else if j in Elements(CellAt(rows, cols, row - 1, col)) { dr, dc := -1, 0; }
    else if j in Elements(CellAt(rows, cols, row - 1, col + 1)) { dr, dc := -1, 1; }
    else if j in Elements(CellAt(rows, cols, row, col - 1)) { dr, dc := 0, -1; }
    else if j in Elements(CellAt(rows, cols, row, col + 1)) { dr, dc := 0, 1; }
    else if j in Elements(CellAt(rows, cols, row + 1, col - 1)) { dr, dc := 1, -1; }
    else if j in Elements(CellAt(rows, cols, row + 1, col)) { dr, dc := 1, 0; }
    else { dr, dc := 1, 1; }
  }

  /** Each of the eight offsets that stays on the board contributes its cell to `KingMoves`. */
  lemma OffsetIsKingMove(rows: int, cols: int, row: int, col: int, dr: int, dc: int)
    requires -1 <= dr <= 1 && -1 <= dc <= 1 && (dr != 0 || dc != 0)
    requires CellAt(rows, cols, row + dr, col + dc).Some?
    ensures CellAt(rows, cols, row + dr, col + dc).value in KingMoves(rows, cols, row, col)
  {
    var at := CellAt(rows, cols, row + dr, col + dc);
    if dr == -1 && dc == -1 { assert at == CellAt(rows, cols, row - 1, col - 1); }
    else if dr == -1 && dc == 0 { assert at == CellAt(rows, cols, row - 1, col); }
    else if dr == -1 { assert at == CellAt(rows, cols, row - 1, col + 1); }
    else if dr == 0 && dc == -1 { assert at == CellAt(rows, cols, row, col - 1); }
    else if dr == 0 { assert at == CellAt(rows, cols, row, col + 1); }
    else if dc == -1 { assert at == CellAt(rows, cols, row + 1, col - 1); }
    else if dc == 0 { assert at == CellAt(rows, cols, row + 1, col); }
    else { assert at == CellAt(rows, cols, row + 1, col + 1); }
  }

  /** A cell reached by one of the eight king moves from an in-bounds cell is adjacent to it. */
  lemma KingMoveIsAdjacent(rows: int, cols: int, i: nat, j: nat)
    requires rows > 0 && cols > 0 && i < CellCount(rows, cols)
    requires j in KingMoves(rows, cols, i / cols, i % cols)
    ensures Adjacent(rows, cols, i, j)
  {
    var dr, dc := KingMoveOffset(rows, cols, i / cols, i % cols, j);
    OffsetIsAdjacent(rows, cols, i, dr, dc, j);
  }

  /** Every cell adjacent to an in-bounds cell is one of its eight king moves. */
  lemma AdjacentIsKingMove(rows: int, cols: int, i: nat, j: nat)
    requires Adjacent(rows, cols, i, j)
    ensures j in KingMoves(rows, cols, i / cols, i % cols)
  {
    var r, c := i / cols, i % cols;
    RowBelow(j, rows, cols);
    CellAtCovers(rows, cols, j);
    OffsetIsKingMove(rows, cols, r, c, j / cols - r, j % cols - c);
  }

  /** The neighbour set of a cell is exactly the set of cells adjacent to it. */
  lemma NeighborsAreAdjacent(rows: int, cols: int, i: nat, j: nat)
    requires i < CellCount(rows, cols)
    ensures j in Neighbors(rows, cols, i) <==> Adjacent(rows, cols, i, j)
  {
    if rows > 0 && cols > 0 {
      if j in Neighbors(rows, cols, i) {
        KingMoveIsAdjacent(rows, cols, i, j);
      }
      if Adjacent(rows, cols, i, j) {
        AdjacentIsKingMove(rows, cols, i, j);
      }
    }
  }

  /** The neighbour relation is symmetric. */
  lemma NeighborsSymmetric(rows: int, cols: int, i: nat, j: nat)
    requires i < CellCount(rows, cols) && j < CellCount(rows, cols)
    ensures j in Neighbors(rows, cols, i) <==> i in Neighbors(rows, cols, j)
  {
    NeighborsAreAdjacent(rows, cols, i, j);
    NeighborsAreAdjacent(rows, cols, j, i);
  }

  /** No cell is its own neighbour, and every neighbour is a cell of the board. */
  lemma NeighborsIrreflexive(rows: int, cols: int, i: nat)
    requires i < CellCount(rows, cols)
    ensures i !in Neighbors(rows, cols, i)
    ensures forall j :: j in Neighbors(rows, cols, i) ==> j < CellCount(rows, cols)
  {
    NeighborsAreAdjacent(rows, cols, i, i);
    forall j | j in Neighbors(rows, cols, i) ensures j < CellCount(rows, cols) {
      NeighborsAreAdjacent(rows, cols, i, j);
    }
  }

  /** A cell has at most eight neighbours. */
  lemma AtMostEightNeighbors(rows: int, cols: int, k: nat)
    ensures |Neighbors(rows, cols, k)| <= 8
  {
  }

  /** Neighbour indices of a board snapshot stay inside the board. */
  ghost predicate InRange(cells: seq<Cell>) {
    forall i, j :: 0 <= i < |cells| && j in cells[i].neighbors ==> j < |cells|
  }

  /** No cell of a board snapshot is its own neighbour. */
  ghost predicate Irreflexive(cells: seq<Cell>) {
    forall i :: 0 <= i < |cells| ==> i !in cells[i].neighbors
  }

  /** The neighbour sets of a snapshot are those the board was built with. */
  ghost predicate Wired(rows: int, cols: int, cells: seq<Cell>) {
    |cells| == CellCount(rows, cols) &&
    forall k :: 0 <= k < |cells| ==> cells[k].neighbors == Neighbors(rows, cols, k)
  }

  /** A built board is an undirected graph without loops on its own cells. */
  lemma WiredIsGraph(rows: int, cols: int, cells: seq<Cell>)
    requires Wired(rows, cols, cells)
    ensures InRange(cells) && Irreflexive(cells)
    ensures forall i, j :: 0 <= i < |cells| && 0 <= j < |cells| ==> (j in cells[i].neighbors <==> i in cells[j].neighbors)
  {
    forall i | 0 <= i < |cells| ensures i !in cells[i].neighbors && forall j :: j in cells[i].neighbors ==> j < |cells| {
      NeighborsIrreflexive(rows, cols, i);
    }
    forall i, j | 0 <= i < |cells| && 0 <= j < |cells| ensures j in cells[i].neighbors <==> i in cells[j].neighbors {
      NeighborsSymmetric(rows, cols, i, j);
    }
  }

  /** `Cell#letter=`: the value is stored only if it is a string containing an ASCII letter; nil and letterless strings leave the letter as it was. */
  function Assigned(current: Option<string>, value: Option<string>): Option<string> {
    if value.Some? && HasLetter(value.value) then value else current
  }

  /** The value `letters.shift` hands to the k-th cell: the k-th token, or nil once the tokens run out. */
  function TokenFor(tokens: seq<string>, k: nat): Option<string> {
    if k < |tokens| then Some(tokens[k]) else None
  }

  /** Board text made only of letters and blanks tokenises into tokens that `letter=` accepts. */
  lemma LetterTextGivesLetterTokens(s: string)
    requires forall k :: 0 <= k < |s| ==> IsBlank(s[k]) || IsAsciiLetter(s[k])
    ensures forall t :: t in Tokenize(Strip(s)) ==> HasLetter(t)
  {
    var toks := Tokenize(Strip(s));
    forall t | t in toks ensures HasLetter(t) {
      if t == "qu" {
        assert IsAsciiLetter(t[0]);
      } else {
        TokenCharsFromInput(Strip(s), t);
        FilterMembers(s, NotBlank, t[0]);
        assert IsAsciiLetter(t[0]);
      }
    }
  }

  class Board {
    const rows: int
    const cols: int
    const cells: array<Cell>

    ghost predicate Valid()
      reads this, cells
    {
      Wired(rows, cols, cells[..])
    }

    /** `Board.new rows, cols`: every cell starts without a letter and is wired to its neighbours. */
    constructor (rows: int, cols: int)
      ensures Valid() && fresh(cells)
      ensures this.rows == rows && this.cols == cols
      ensures forall k :: 0 <= k < cells.Length ==> cells[k].letter == None
    {
      this.rows := rows;
      this.cols := cols;
      cells := new Cell[CellCount(rows, cols)](_ => Cell(None, {}));
      new;
      DefineNeighbors();
    }

    /** `Cell#add_neighbor`: the cell, if there is one, joins the neighbour set of cell `i`. */
    method AddNeighbor(i: nat, other: Option<nat>)
      requires i < cells.Length
      modifies cells
      ensures cells[i] == Cell(old(cells[i].letter), old(cells[i].neighbors) + Elements(other))
      ensures forall k :: 0 <= k < cells.Length && k != i ==> cells[k] == old(cells[k])
    {
      cells[i] := Cell(cells[i].letter, cells[i].neighbors + Elements(other));
    }

    /** The body of the inner loop of `define_neighbors`: `c = cell(row, col)` followed by its eight `add_neighbor` calls. */
    method WireCell(row: int, col: int)
      requires 0 <= row < rows && 0 <= col < cols && cells.Length == CellCount(rows, cols)
      modifies cells
      ensures row * cols + col < cells.Length
      ensures var c := row * cols + col;
        cells[c] == Cell(old(cells[c].letter), old(cells[c].neighbors) + KingMoves(rows, cols, row, col))
      ensures forall k :: 0 <= k < cells.Length && k != row * cols + col ==> cells[k] == old(cells[k])
    {
      var c := CellAt(rows, cols, row, col).value;
      AddNeighbor(c, CellAt(rows, cols, row - 1, col - 1));
      AddNeighbor(c, CellAt(rows, cols, row - 1, col));
      AddNeighbor(c, CellAt(rows, cols, row - 1, col + 1));
      AddNeighbor(c, CellAt(rows, cols, row, col - 1));
      AddNeighbor(c, CellAt(rows, cols, row, col + 1));
      AddNeighbor(c, CellAt(rows, cols, row + 1, col - 1));
      AddNeighbor(c, CellAt(rows, cols, row + 1, col));
      AddNeighbor(c, CellAt(rows, cols, row + 1, col + 1));
    }

    /** `define_neighbors`: row by row, column by column, add the eight king moves of each cell. */
    method DefineNeighbors()
      requires cells.Length == CellCount(rows, cols)
      requires forall k :: 0 <= k < cells.Length ==> cells[k].neighbors == {}
      modifies cells
      ensures Valid()
      ensures forall k :: 0 <= k < cells.Length ==> cells[k].letter == old(cells[k].letter)
    {
      var row := 0;
      ghost var done := 0;  // cells wired so far, always row * cols + col
      while row < rows
        invariant 0 <= row && (rows > 0 ==> row <= rows)
        invariant cols > 0 ==> done == row * cols
        invariant forall k :: 0 <= k < cells.Length ==> cells[k].letter == old(cells[k].letter)
        invariant forall k :: 0 <= k < cells.Length ==>
          cells[k].neighbors == if k < done then Neighbors(rows, cols, k) else {}
      {
        var col := 0;
        while col < cols
          invariant 0 <= col && (cols > 0 ==> col <= cols)
          invariant cols > 0 ==> done == row * cols + col
          invariant forall k :: 0 <= k < cells.Length ==> cells[k].letter == old(cells[k].letter)
          invariant forall k :: 0 <= k < cells.Length ==>
            cells[k].neighbors == if k < done then Neighbors(rows, cols, k) else {}
        {
          WireCell(row, col);
          CellAtDecodes(rows, cols, row, col);
          done, col := done + 1, col + 1;
        }
        assert cols > 0 ==> done == (row + 1) * cols;
        row := row + 1;
      }
    }

    /** `Cell#letter=` on cell `i`. */
    method SetLetter(i: nat, value: Option<string>)
      requires i < cells.Length
      modifies cells
      ensures cells[..] == old(cells[..])[i := old(cells[i]).(letter := Assigned(old(cells[i].letter), value))]
    {
      if value.Some? && HasLetter(value.value) {
        cells[i] := cells[i].(letter := value);
      }
    }

    /**
     * `Board#parse`: the text, with `\r`, `\n`, `\t` and spaces removed, is cut
     * into tokens, and the cells take them in row-major order through `letter=`;
     * surplus tokens are ignored and cells past the last token are offered nil.
     */
    method Parse(s: string)
      requires Valid()
      modifies cells
      ensures Valid()
      ensures forall k :: 0 <= k < cells.Length ==>
        cells[k].letter == Assigned(old(cells[k].letter), TokenFor(Tokenize(Strip(s)), k))
    {
      var letters := Tokenize(Strip(s));
      ghost var tokens := letters;
      var i := 0;
      while i < cells.Length
        invariant 0 <= i <= cells.Length
        invariant letters == if i <= |tokens| then tokens[i..] else []
        invariant forall k :: 0 <= k < cells.Length ==> cells[k].neighbors == old(cells[k].neighbors)
        invariant forall k :: 0 <= k < i ==> cells[k].letter == Assigned(old(cells[k].letter), TokenFor(tokens, k))
        invariant forall k :: i <= k < cells.Length ==> cells[k] == old(cells[k])
      {
        var value := None;
        if letters != [] {
          value := Some(letters[0]);
          letters := letters[1..];
        }
        SetLetter(i, value);
        i := i + 1;
      }
    }
  }

  /** After `parse` on a fresh board, a text of letters and blanks with at least one token per cell leaves every cell with a letter. */
  lemma ParsedBoardIsLettered(s: string, n: nat, letters: seq<Option<string>>)
    requires forall k :: 0 <= k < |s| ==> IsBlank(s[k]) || IsAsciiLetter(s[k])
    requires n <= |Tokenize(Strip(s))| && |letters| == n
    requires forall k :: 0 <= k < n ==> letters[k] == Assigned(None, TokenFor(Tokenize(Strip(s)), k))
    ensures forall k :: 0 <= k < n ==> letters[k] == Some(Tokenize(Strip(s))[k])
  {
    LetterTextGivesLetterTokens(s);
  }
}
