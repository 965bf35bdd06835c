# scramble.rb, modelled in Dafny

`scramble.rb` solves a Boggle-style word search. It has three parts:

- A `Board` of `rows * cols` cells. At construction, every cell is wired to its in-bounds king-move neighbours. `parse` then fills the cells with letter tokens, treating `qu` as one token.
- A prefix tree of `WordStub` nodes, built by `from_dict` from a word list and a length range. Each node carries its prefix `word` and an auto-vivifying hash from token to child. A node is a word when the key `"."` is present.
- `Cell#find_words`, a depth-first walk over the neighbour graph that the trie prunes. The driver unites its results over every starting cell.

The model has six modules, one file each:

| file | module | models |
|---|---|---|
| `wrappers.dfy` | `Wrappers` | `Option` (Ruby's `nil`) |
| `text.dfy` | `Text` | the string handling: the `gsub`/`split` tokeniser, `chomp`, ASCII `downcase`, and the `letter=` regex |
| `grid.dfy` | `Grid` | `Board` and `Cell`: `initialize`, `cell`, `define_neighbors`, `add_neighbor`, `letter=`, `parse` |
| `lexicon.dfy` | `Lexicon` | `WordStub`: `initialize`, `dict_hash`, `next`, `next_letters`, `is_word?`, `from_dict` |
| `search.dfy` | `Search` | `find_words` and the driver loop |
| `scenario.dfy` | `Scenario` | the script run on one concrete puzzle: a 2 by 2 board parsed from `a t / c s`, and a dictionary holding `cat` and `cats` |

Representation:

- A cell is identified by its index `row * cols + col` in the board's array. A neighbour set is therefore a set of indices.
- `Board` is a class over an `array<Cell>`, and its methods update the cells in place.
- A trie node is identified by its index in the node sequence of the `Lexicon` class, which stands for `WordStub` object identity. A ghost sequence `keys` gives every node's token path from the root.
- `find_words` mutates nothing. It is a function over snapshots of the board (`seq<Cell>`) and of the trie (`seq<Stub>`), and it returns a set.

Main results:

- **Neighbours.** The neighbour set of each cell is exactly the set of distinct in-bounds cells whose row and column differ by at most one. The relation is therefore symmetric and irreflexive.
- **`parse`.** It assigns the tokens in row-major order through `letter=`.
- **Trie invariant.** The root's word is `""`. The child reached by `t` has the parent's word plus `t`, and its path is the parent's path plus `[t]`.
- **`from_dict`.** After building, the root paths are exactly the prefixes of the marked token paths of the accepted lines. Every accepted line is a word whose `word` is the concatenation of its tokens. A line outside the range adds nothing.
- **`find_words`.** It is sound and complete. It returns exactly the words of terminal nodes reached from the given node along the letters of a trail: a path of distinct, successively adjacent cells that avoids `used_cells`. The driver returns exactly the solutions of the puzzle.

Where the code and an idealised reading of it differ, the model follows the code:

- `Board.new` accepts any dimensions and raises no error. A non-positive product gives no cells. A product that is positive only because both dimensions are negative gives cells without neighbours.
- `parse` removes only `\r`, `\n`, `\t` and space before tokenising, and it does not lowercase the board. Only the dictionary's tokens are downcased.
- The length filter of `from_dict` counts the raw characters of the chomped line. It counts neither tokens nor letters, so `quit` has length 4.
- The dictionary line is not stripped before tokenising. All whitespace still vanishes in the split, but a `q` separated from `u` by a space is not merged there.
- The end marker `"."` is also an ordinary token. A dictionary line containing `.` inserts it as a path step, so a prefix of that line becomes a word: `e.g.` makes `e` a word (`Lexicon.DotInLineMarksPrefix`). The exact characterisation of terminal nodes as accepted lines (`Lexicon.TerminalIsAcceptedLine`) is therefore proved under the hypothesis that no accepted line contains `.`. The general statement is `Lexicon.TerminalIffInserted`.

## Model

| member | source | states |
|---|---|---|
| Text.Strip | scramble.rb:16 | `gsub(/[\r\n\t ]/, '')`: characterised by `Text.FilterMembers`, `Text.FilterAppend`, `Text.StripDropsBlank` and `Text.StripKeepsText` |
| Text.HasLetter | scramble.rb:63 | the unanchored `/[a-z]+/i =~ value` test: some character of the value is an ASCII letter; used by `Grid.Board.SetLetter` and `Grid.LetterTextGivesLetterTokens` |
| Text.Tokenize | scramble.rb:16 | every token of the `gsub(//, " ").gsub("q u", "qu").split(" ")` pipeline is either `"qu"` or a single non-whitespace character |
| Text.TokenizeQu | scramble.rb:16 | an adjacent lower-case `q`, `u` becomes the single token `"qu"` whatever surrounds it, and the text on either side tokenises on its own |
| Text.TokenizeSpace | scramble.rb:16 | a whitespace character yields no token and only separates: the text on either side tokenises on its own, so a `q` and a `u` split by it stay two tokens |
| Text.TokenCharsFromInput | scramble.rb:16 | a one-character token is a character of the text it came from |
| Text.TokenizeRoundTrip | scramble.rb:16 | joining the tokens gives back the text with its whitespace removed: the split loses nothing but whitespace, and `qu` merging loses no characters |
| Text.ConcatCons | scramble.rb:98-137 | the string a token path spells, built one `word + letter` at a time, is its first token followed by the rest |
| Text.QuRoundTrip | scramble.rb:16 | the merged token `"qu"` spells exactly the two characters it replaces |
| Text.Filter | scramble.rb:16 | the `gsub(/[\r\n\t ]/, '')` deletion is never longer than its input and keeps only wanted characters |
| Text.FilterMembers | scramble.rb:16 | a character survives the deletion exactly when it occurs in the input and is not deleted |
| Text.FilterAppend | scramble.rb:16 | the deletion works piecewise: what survives of `a + b` is what survives of `a` followed by what survives of `b`, so the order of the kept characters is preserved |
| Text.FilterCons | scramble.rb:16 | a leading character is kept or deleted, and then the rest is filtered |
| Text.StripDropsBlank | scramble.rb:16 | deleting one of `\r`, `\n`, `\t`, space only joins the text on either side of it |
| Text.StripKeepsText | scramble.rb:16 | a text without those four characters is left unchanged |
| Text.LowerChar | scramble.rb:110 | `downcase` maps an upper-case ASCII letter to the lower-case letter at the same place in the alphabet and leaves every other character alone |
| Text.Downcase | scramble.rb:110 | `letter.downcase` keeps the length, leaves no upper-case letter, lowers each upper-case letter to the same letter, and keeps every other character in place |
| Text.Chomp | scramble.rb:107 | `chomp` returns a prefix of the line from which only `\r` and `\n` are removed: a trailing `\r\n` as a pair, otherwise exactly one trailing `\r` or `\n`, and nothing when the line ends in neither |
| Grid.CellCount | scramble.rb:9 | the number of cells `(0..(rows * cols)-1).map` creates: `rows * cols` when positive, else none; the length of the array `Grid.Board.constructor` ensures |
| Grid.KingMoves | scramble.rb:41-48 | the eight `add_neighbor cell(row + dr, col + dc)` calls for one position: characterised by `Grid.KingMoveOffset`, `Grid.OffsetIsKingMove` and `Grid.AtMostEightNeighbors` |
| Grid.Neighbors | scramble.rb:37-51 | a cell's neighbour set once `define_neighbors` has run: characterised by `Grid.NeighborsAreAdjacent`, `Grid.NeighborsSymmetric` and `Grid.NeighborsIrreflexive` |
| Grid.CellAt | scramble.rb:29-33 | `cell(row, col)` returns a cell exactly when `0 <= row < rows` and `0 <= col < cols`, and that cell is on the board |
| Grid.CellAtDecodes | scramble.rb:29-33 | the index returned for (row, col) has row `row` and column `col`, so the lookup is injective |
| Grid.CellAtCovers | scramble.rb:29-33 | every cell of the row-major board is `cell` of its own row and column |
| Grid.KingMoveOffset | scramble.rb:41-48 | each neighbour added for a position is `cell(row + dr, col + dc)` for one of the eight non-zero offsets |
| Grid.OffsetIsKingMove | scramble.rb:41-48 | each of the eight offsets that stays on the board adds its cell |
| Grid.KingMoveIsAdjacent | scramble.rb:37-51 | every neighbour added to a cell is a distinct cell that is at most one row and one column away |
| Grid.AdjacentIsKingMove | scramble.rb:37-51 | every cell at most one row and one column away is added as a neighbour |
| Grid.NeighborsAreAdjacent | scramble.rb:37-51 | a cell's neighbour set is exactly the set of adjacent cells |
| Grid.NeighborsSymmetric | scramble.rb:37-51 | `j` is a neighbour of `i` exactly when `i` is a neighbour of `j` |
| Grid.NeighborsIrreflexive | scramble.rb:37-51 | no cell is its own neighbour, and neighbours are cells of the board |
| Grid.AtMostEightNeighbors | scramble.rb:41-48 | a neighbour set, being the union of the eight at-most-one-cell lookups, has at most eight members |
| Grid.WiredIsGraph | scramble.rb:37-51 | a board wired by `define_neighbors` has in-range, loop-free, symmetric neighbour sets |
| Grid.Assigned | scramble.rb:62-65 | `letter=`: the new letter is the value when it contains an ASCII letter, otherwise the old one; the state change `Grid.Board.SetLetter` ensures |
| Grid.TokenFor | scramble.rb:18 | `letters.shift` for the k-th cell: the k-th token, or nil past the end; what `Grid.Board.Parse` offers to cell k |
| Grid.LetterTextGivesLetterTokens | scramble.rb:15-20 | a text made only of letters and blanks tokenises into tokens that `letter=` accepts |
| Grid.ParsedBoardIsLettered | scramble.rb:15-20 | on a fresh board, such a text with enough tokens gives every cell the token of its position |
| Grid.Board.constructor | scramble.rb:6-13 | `Board.new` gives `rows * cols` cells (none when that is not positive), all without letters and wired to their neighbours |
| Grid.Board.AddNeighbor | scramble.rb:67-69 | the cell, if any, is added to cell `i`'s neighbour set, and nothing else changes |
| Grid.Board.WireCell | scramble.rb:40-48 | the cell at (row, col) gains its eight king moves, and no other cell changes |
| Grid.Board.DefineNeighbors | scramble.rb:37-51 | after the nested loops every cell's neighbour set is its set of king moves, and letters are untouched |
| Grid.Board.SetLetter | scramble.rb:62-65 | `letter=` stores the value only when it contains an ASCII letter, and otherwise leaves the cell unchanged |
| Grid.Board.Parse | scramble.rb:15-20 | cell `k` is offered the `k`-th token (nil past the end) through `letter=`, surplus tokens are ignored, and the neighbours are untouched |
| Lexicon.IsWord | scramble.rb:129-131 | `is_word?`: the `"."` key is present; characterised by `Lexicon.TerminalIffMarkedKey` and `Lexicon.TerminalIffInserted` |
| Lexicon.NextLetters | scramble.rb:121-123 | `next_letters`: the keys of the node's hash, the letters `Search.Candidates` matches against |
| Lexicon.Walk | scramble.rb:117-119 | a chain of `next` lookups along a token path: characterised by `Lexicon.WalkSnoc`, `Lexicon.WalkExtendsKey`, `Lexicon.RootPathsAreKeys` and `Lexicon.WalkPersists` |
| Lexicon.Accepted | scramble.rb:107 | `length_range.include? word.chomp.length` for an inclusive range `lo..hi`; its effect is stated by `Lexicon.Lexicon.AddLine` and `Lexicon.RejectedLineAddsNothing` |
| Lexicon.WordTokens | scramble.rb:109-110 | the downcased tokens of the chomped line that `from_dict` walks; characterised by `Lexicon.AcceptedLineIsWord` and `Lexicon.TerminalIsAcceptedLine` |
| Lexicon.TrieIsClosed | scramble.rb:135-137 | every child index stored in a hash is a node of the trie |
| Lexicon.WalkSnoc | scramble.rb:117-119 | following `s + [t]` is following `s` and then one `next(t)` lookup |
| Lexicon.WalkExtendsKey | scramble.rb:98-137 | following a path from a node extends its key by that path, and its word by the path's concatenation |
| Lexicon.RootPathsAreKeys | scramble.rb:117-137 | a path can be followed from the root exactly when it is the key of a node, namely the node reached |
| Lexicon.WordIsSpelledPath | scramble.rb:98-137 | the `word` of the node a root path reaches is the concatenation of the path |
| Lexicon.TerminalIffMarkedKey | scramble.rb:129-131 | `is_word?` holds of a node exactly when its key followed by `"."` is also a key |
| Lexicon.WalkPersists | scramble.rb:136 | adding nodes and edges never changes where an existing path leads |
| Lexicon.AddChild | scramble.rb:136 | the auto-vivified child is appended with word `parent.word + letter` and an empty hash; the parent keeps its word and gains exactly the edge `letter` to the new node; every other node is unchanged; and when the key was missing, every existing edge persists |
| Lexicon.AddChildKeepsTrie | scramble.rb:98-137 | creating a child for a missing key preserves the prefix invariant |
| Lexicon.PrefixesOfSnoc | scramble.rb:109-112 | the prefixes of a path extended by one token are the old prefixes and the extended path |
| Lexicon.TerminalIffInserted | scramble.rb:104-131 | in the trie built from a word list, a path is a word exactly when the path followed by `"."` is a prefix of some accepted line's marked path |
| Lexicon.AcceptedLineIsWord | scramble.rb:104-131 | every line whose chomped length is in range has its downcased tokens lead from the root to a word whose `word` is their concatenation |
| Lexicon.TerminalIsAcceptedLine | scramble.rb:104-131 | when no accepted line contains `.`, the words of the trie are exactly the token paths of the accepted lines |
| Lexicon.MarkedPrefixIsPath | scramble.rb:112 | for a path without `"."`, the end marker closes only the whole path |
| Lexicon.RejectedLineAddsNothing | scramble.rb:107 | a line outside the length range leaves the set of inserted paths as it was |
| Lexicon.DotInLineMarksPrefix | scramble.rb:107-131 | the line `e.g.`, with range 3..8, tokenises as `e . g .` and makes the path `e` a word |
| Lexicon.Lexicon.constructor | scramble.rb:98-105 | `WordStub.new ""` is a root with an empty hash, satisfying the prefix invariant |
| Lexicon.Lexicon.Next | scramble.rb:117-137 | `next(letter)` returns the existing child unchanged, or appends a new child with word `word + letter`; the invariant is kept, and the new key set is the old plus the extended path |
| Lexicon.Lexicon.AddLine | scramble.rb:107-112 | one pass of `from_dict` adds exactly the prefixes of the line's marked path when the line is accepted, and nothing otherwise |
| Lexicon.Lexicon.FromDict | scramble.rb:104-115 | the built trie satisfies the prefix invariant, and its root paths are exactly those inserted by the accepted lines |
| Search.Candidates | scramble.rb:76-80 | the neighbours carrying one of the node's `next_letters`, minus `used_cells`; characterised through `Search.FoundStep` and `Search.FindWordsCorrect` |
| Search.NextFor | scramble.rb:83 | `wordstub.next(cell.letter)` for a candidate cell, whose letter is a key of the node |
| Search.FindWords | scramble.rb:75-84 | `find_words(wordstub, used_cells)`: characterised by `Search.FindWordsSound`, `Search.FindWordsComplete` and `Search.FindWordsCorrect` as exactly the reachable words `Search.Found` |
| Search.UnvisitedShrinks | scramble.rb:83 | passing `used_cells + [self]` strictly shrinks the unvisited cells unless `self` was already used, which is why `find_words` terminates |
| Search.ExtendTrail | scramble.rb:78-83 | putting a cell in front of a trail that starts at one of its unused neighbours and avoids it gives a trail |
| Search.TrailTail | scramble.rb:83 | the rest of a trail is a trail that also avoids its first cell |
| Search.FoundStep | scramble.rb:77-83 | a word reachable from a candidate neighbour, at the child for its letter, is reachable from the cell |
| Search.FindWordsSound | scramble.rb:75-84 | every word `find_words` returns is the word of a terminal node reached from the given node along the letters of a trail from the cell that avoids `used_cells` |
| Search.FindWordsComplete | scramble.rb:75-84 | every such word reachable along such a trail is returned |
| Search.FindWordsCorrect | scramble.rb:75-84 | `find_words` returns exactly the reachable words |
| Search.StartCell | scramble.rb:151 | the driver's pass for one cell adds exactly the words spelled from the root along trails starting there, and none when its letter starts nothing |
| Search.FindAllWords | scramble.rb:149-152 | the driver returns exactly the words of the trie spelled from the root along some trail of the board |
| Search.TrailIsKingPath | scramble.rb:75-84 | on a wired board, the trails are exactly the simple paths of king moves |
| Search.SolutionIsDictionaryLine | scramble.rb:149-152 | when no accepted line contains `.`, every solution is an accepted line of the word list, spelled by its downcased tokens |
| Search.SpelledLineIsSolution | scramble.rb:149-152 | an accepted line whose tokens are the letters along some trail is a solution |
| Search.EmptyDictionaryHasNoSolutions | scramble.rb:149-152 | a trie built from an empty word list gives no solutions on any board |
| Scenario.CatTokens | scramble.rb:109-110 | `cat` and `cats` tokenise as `c a t` and `c a t s` |
| Scenario.CatPaths | scramble.rb:37-51 | on a 2 by 2 grid, cells 2, 0, 1, 3 form a simple path of king moves |
| Scenario.CatSpellings | scramble.rb:75-84 | on the board `a t / c s`, the letters that `find_words` matches along cells 2, 0, 1 (and then 3) spell `c a t` (and `c a t s`) |
| Scenario.CatTrails | scramble.rb:75-84 | on the board `a t / c s`, c, a, t and c, a, t, s are trails |
| Scenario.CatsAccepted | scramble.rb:107 | both lines are accepted by 3..4 and contain no `.` |
| Scenario.CatsSound | scramble.rb:149-152 | every solution of the puzzle is `cat` or `cats` |
| Scenario.CatsScenario | scramble.rb:149-152 | the puzzle's solutions are exactly `cat` and `cats` |
| Scenario.CatBoardStrip | scramble.rb:16 | deleting the blanks of `"a t\nc s"` leaves `atcs` |
| Scenario.CatBoardTokens | scramble.rb:16 | `"a t\nc s"` tokenises as `a t c s` |
| Scenario.CatCells | scramble.rb:15-20 | four fresh cells offered those tokens through `letter=` read `a t / c s` |
| Scenario.CatBoard | scramble.rb:6-20 | `Board.new 2, 2` followed by `parse "a t\nc s"` gives a wired 2 by 2 board reading `a t / c s` |
| Scenario.CatsFound | scramble.rb:149-152 | any set holding exactly the puzzle's solutions is `{cat, cats}` |
| Scenario.SolveCats | scramble.rb:140-152 | the script run on that board with `from_dict` over `cat`, `cats` and the range 3..4 finds exactly `cat` and `cats` |

## Left out

- Reading the word list from a file (`File.readlines`): `from_dict` takes the lines as a sequence of strings.
- The hard-coded 4 by 4 board, the dictionary path `/usr/share/dict/web2`, and printing the result sorted by length with `puts` and `sort_by`: these are script glue and output.
- `to_s`, `inspect`, and the `"row/col"` names given to cells: these are diagnostics only. A cell is identified by its index instead.
- `Board#each` and `Cell#neighbors`: these are plain iteration and an accessor. Loops over the array, and the `neighbors` field of a cell, take their place.
- The iteration order of Ruby's `Hash` and `Set`, and with it the order of the words in the result. Results are sets. Because `Array#|` keeps no duplicates, nothing about multiplicity is lost.
- Search.FindAllWords: the driver's `d.next(cell.letter)` auto-vivifies an empty root child when a letter begins no dictionary word. The model looks the child up read-only and adds nothing in that case. This yields the same words, but the model does not show the extra, wordless nodes being created.
- Search.FindAllWords: a cell without a letter makes `word + letter` raise a `TypeError` in the driver. The model requires every cell to carry a letter instead of modelling the exception.
- Inside `find_words`, `next` is called only with keys that `next_letters` has just listed. The model therefore uses a plain lookup there, which changes nothing.
- Text.LowerChar: `downcase` is modelled for ASCII only. Ruby's full Unicode case mapping is not modelled.
- Text.Downcase: for the same reason the token keeps its length and every non-ASCII character unchanged. Ruby's Unicode `downcase` can change non-ASCII characters and even the length of a token (`"İ"` becomes two characters). `Lexicon.WordTokens`, and through it every dictionary path, inherits this.
- Text.Tokenize: the whitespace dropped by `split(" ")` is modelled as space, `\t`, `\n`, `\v`, `\f` and `\r`.
- Grid.Board.SetLetter: the `/[a-z]+/i` test is modelled as "contains an ASCII letter". The non-ASCII case-folding matches of `/i` are not modelled.
- Lexicon.Lexicon.FromDict: only an inclusive integer range `lo..hi` is modelled as the length filter. Other `Range` objects, and other objects with an `include?` method, are not.
- Text.Chomp: only the default record separator is modelled.
