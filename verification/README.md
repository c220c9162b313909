# Crossword placement engine in Dafny

A model of the placement engine of a small crossword generator
(`crossword_game.py`), with proofs about it. The generator lays a list of
words on a square grid. It seeds the longest word across the middle row. Then
it crosses each further word with a letter already on the grid, first fit
wins, and silently drops words that do not fit. Last, a row-major scan numbers
the cells where across and down answers start and binds those numbers to
clues.

Modules, one file each, following the generator's components:

- `Grids` (`grids.dfy`): the N×N grid of optional letters, coordinates that
  may be negative, and the two orientations.
- `Placement` (`placement.dfy`): `WordEntry`, `PlacedWord`, the validator
  `can_place` and the writer `place_word`.
- `Search` (`search.dfy`): the first-fit crossing search `try_place_word`.
- `Layout` (`layout.dfy`): the stable longest-first sort and
  `generate_crossword` on an already selected list.
- `Numbering` (`numbering.dfy`): `number_grid`.
- `Scenarios` (`scenarios.dfy`): two worked examples. One is the size-13 run
  on PYTHON, JAVA and RUST. The other is the empty candidate list.

The grid is an immutable value (`seq<seq<Option<char>>>`). Every source loop
is a recursive function: the validator loop, the writer loop, the three nested
search loops, the crossing loop and the numbering scan. Each states its loop
invariant as its contract.

## Model

| member | source | states |
|---|---|---|
| Grids.EmptyGrid | crossword_game.py:74-76 | the fresh grid is `n` by `n` and every cell is empty |
| Grids.Write | crossword_game.py:149 | writing one cell changes that cell to the given value and no other cell |
| Placement.CellFits | crossword_game.py:96-122 | index `i` passes iff its target cell lies in `[0, size)` on both axes, is empty or holds the word's letter `i`, and, when empty, has no letter in the neighbours across the word's axis (above and below for across, left and right for down) that lie on the grid |
| Placement.CellsFitFrom | crossword_game.py:95-122 | the validator loop from index `i` succeeds iff every later index passes the bounds, conflict and perpendicular-adjacency checks |
| Placement.CellsFitMeans | crossword_game.py:95-122 | the per-index checks all pass iff every letter's cell is on the grid, every filled cell it lands on holds the same letter, and every empty cell it lands on has empty neighbours across the word's axis |
| Placement.CanPlace | crossword_game.py:80-140 | `can_place` holds iff all four conditions hold: every cell in `[0, size)` on both axes, no letter conflict (a matching letter is allowed), no occupied perpendicular neighbour of a newly filled cell, and no letter in the cell just before the start or just after the end (a cell off the grid counts as empty) |
| Placement.FitsOnlyShortWords | crossword_game.py:95-100 | a placement that passes the validator has a word no longer than the grid's side, so a longer word is never placed |
| Placement.PlaceFrom | crossword_game.py:146-149 | the writer loop from index `i` puts each later letter in its cell and leaves every cell off that part of the path unchanged |
| Placement.PlaceWord | crossword_game.py:144-149 | after writing, every target cell reads the word's letter at that index, and every cell off the word's path is unchanged |
| Placement.PlaceKeepsLetters | crossword_game.py:102-104 | after a validated write, every cell that held a letter still holds the same letter |
| Placement.PlaceKeepsConsistent | crossword_game.py:183-185 | committing a validated placement keeps every earlier placed word spelled on the grid and spells the new one |
| Placement.PlaceKeepsCovered | crossword_game.py:144-149 | writing a validated placement keeps every filled cell on the path of some placed word, the new word included |
| Placement.SharedCellsAgree | crossword_game.py:102-104 | two words spelled on the same grid have equal letters at any cell they share |
| Search.Anchor | crossword_game.py:174-181 | the candidate's position from a letter pair: it carries the candidate's entry, runs in the opposite orientation to the placed word, and puts the candidate's letter `j` on the cell of the placed word's letter `i` |
| Search.AnchorIsDetermined | crossword_game.py:174-181 | those three facts determine the position: any placement with that entry, the opposite orientation and letter `j` on letter `i`'s cell is the anchor |
| Search.FitsCrosses | crossword_game.py:171-181 | a matching letter pair gives an anchor of the opposite orientation whose letter `j` lies on the placed word's letter `i`, with equal letters |
| Search.ScanCandidate | crossword_game.py:170-185 | the innermost loop returns the first candidate index `j` from its start whose anchor fits, or reports that none fits |
| Search.ScanLetters | crossword_game.py:169-185 | the middle loop returns the first fitting `(i, j)` in loop order for one placed word, or reports that none fits |
| Search.ScanPlaced | crossword_game.py:167-186 | the outer loop returns the first fitting `(placed word, i, j)` in loop order, or reports that none fits |
| Search.TryPlaceWord | crossword_game.py:153-186 | None exactly when no `(placed word, i, j)` fits, and then the grid is unchanged; otherwise the result is the anchor of the first fitting triple in loop order, crosses that placed word at the shared letter with the opposite orientation, passed the validator, and the new grid is the written grid and spells it |
| Layout.InsertByLength | crossword_game.py:205 | inserting into a longest-first list keeps it longest-first and adds exactly the new entry |
| Layout.InsertKeepsOrderOfLength | crossword_game.py:205 | insertion puts the entry first among entries of its length and keeps the order of entries of every other length |
| Layout.SortByLength | crossword_game.py:205 | the sorted list is longest-first and is a permutation of the input |
| Layout.SortIsStable | crossword_game.py:205 | for every length, the entries of that length keep their input order (stability of the sort) |
| Layout.SortPutsLongestFirst | crossword_game.py:211-213 | the seed taken from the sorted list is a longest selected word |
| Layout.SortedEntries | crossword_game.py:205 | the sorted list has the input's length and non-empty words, and every entry in it was selected |
| Layout.AppendKeepsLinked | crossword_game.py:220-223 | appending a word that crosses an earlier one keeps every non-seed word crossing an earlier word |
| Layout.CommitKeepsInvariants | crossword_game.py:220-223 | a successful crossing attempt keeps all placed words spelled, all non-seed words linked, and every filled cell on the path of some placed word |
| Layout.CrossAll | crossword_game.py:219-225 | the crossing loop keeps every placed word spelled on the grid, keeps every non-seed word crossing an earlier word, keeps every filled cell on the path of some placed word, only appends, appends no more words than there are candidates, appends only candidates, and with nothing placed leaves the grid unchanged; which candidates are appended is the subject of Layout.CrossAllTriesEach |
| Layout.CrossAllPicksInOrder | crossword_game.py:219-225 | the words the loop appends are candidates taken in candidate order, each candidate at most once: their entries are the candidate list with some entries left out |
| Layout.CrossAllTriesEach | crossword_game.py:219-225 | each candidate is tried against the layout the earlier candidates built: the loop over `rest + [e]` equals the loop over `rest` followed by one more turn on `e`, which appends the search's placement and keeps its grid when the search succeeds and changes nothing when it fails |
| Layout.SeedColumn | crossword_game.py:215 | the seed column is never negative; when the word fits, it fits inside the row and is centred, with the space to its right equal to the space to its left or one more; when the word is at least the grid's side, the column is 0 |
| Layout.Seed | crossword_game.py:212-215 | the seed placement carries the first entry, runs across, starts at the centring column, and its row leaves as many rows above it as below it, or one more above, which pins it to `size // 2` |
| Layout.SeedFitsIff | crossword_game.py:213-216 | on the empty grid, the seed placement (row `size // 2`, column `max(0, (size - L) // 2)`, across) is legal exactly when `L <= size` |
| Layout.SeedPuzzle | crossword_game.py:211-218 | the seed goes across at row `size // 2`, column `max(0, (size - L) // 2)` when it fits, and then the grid's only letters are the seed's; otherwise the grid stays empty with nothing placed |
| Layout.GenerateCrossword | crossword_game.py:205-225 | the grid is `size` by `size` and spells every placed word; every filled cell lies on some placed word; each non-seed word crosses an earlier one; placed words come from the input; an empty list gives an empty grid and no words; otherwise a word is placed iff the longest word fits, and then the first placed word is that longest word at the seed position |
| Layout.PlacedWordsFit | crossword_game.py:95-100 | no word spelled on the grid is longer than the grid's side |
| Numbering.StartsAcross | crossword_game.py:259-269 | a cell starts an across answer iff it holds a letter, is in the first column or has an empty left neighbour, and has a right neighbour on the grid holding a letter |
| Numbering.StartsDown | crossword_game.py:259-273 | a cell starts a down answer iff it holds a letter, is in the first row or has an empty cell above, and has a cell below on the grid holding a letter |
| Numbering.FirstAnchored | crossword_game.py:279-287 | the clue lookup finds the first placed word with the given orientation and anchor, or reports there is none |
| Numbering.ClueAt | crossword_game.py:277-287 | no clue iff no placed word runs in the given direction from the given cell; otherwise the clue of the first such word in list order (the `break` keeps the first) |
| Numbering.BindAt | crossword_game.py:277-287 | given a clue map that binds exactly the numbered start cells of its direction with an anchored placed word, each to the first such word's clue, the map after numbering `at` with a fresh number still binds exactly those cells, `at` included |
| Numbering.Visit | crossword_game.py:259-288 | the counter moves on by exactly one iff the cell starts an across or a down answer; one visit carries the scan invariant from this cell to the next: numbers `1..next-1` on start cells in row-major order, every earlier start cell numbered, both clue maps exact |
| Numbering.VisitKeepsOrder | crossword_game.py:274-288 | numbering a start cell keeps the numbers `1..next-1` on start cells, in strictly increasing row-major order |
| Numbering.VisitKeepsAllBefore | crossword_game.py:257-275 | after visiting a cell, every start cell up to and including it has a number |
| Numbering.NumberFrom | crossword_game.py:257-288 | the row-major scan from a cell to the end numbers every start cell, in order, with no gaps, and binds the clues |
| Numbering.NumberGrid | crossword_game.py:243-289 | the keys are exactly `1..k`; every numbered cell holds a letter and starts an across or down answer; coordinates strictly increase in row-major order, so one number per cell even when both directions start there; every start cell is numbered; across and down keys are numbers of across and down starts, bound to the first anchored placed word's clue |
| Numbering.EmptyGridNumbersNothing | crossword_game.py:257-289 | an empty grid gets no numbers and no clues |
| Scenarios.SortTwoEqual | crossword_game.py:205 | two words of equal length keep their arrival order under the sort |
| Scenarios.SortScenario | crossword_game.py:205 | PYTHON, JAVA, RUST sort to the same order, JAVA staying before RUST |
| Scenarios.SeedGrid | crossword_game.py:144-149 | writing a six-letter word at row 6, column 3 of an empty size-13 grid fills exactly row 6, columns 3 to 8, with its letters in order |
| Scenarios.PythonSeeded | crossword_game.py:210-218 | with size 13, PYTHON is seeded across at row 6, column `(13 - 6) // 2 = 3`, on the otherwise empty grid |
| Scenarios.JavaDropped | crossword_game.py:167-186 | JAVA shares no letter with PYTHON and is dropped |
| Scenarios.RustFits | crossword_game.py:80-140 | RUST down column 5 from row 3 passes the validator: its last letter lands on PYTHON's T and its other cells and their neighbours are empty |
| Scenarios.OnlyCommonLetter | crossword_game.py:171-172 | T is the only letter pair PYTHON and RUST share |
| Scenarios.RustCrossingFits | crossword_game.py:171-181 | RUST's letter 3 on PYTHON's letter 2 gives the anchor (3, 5) down, which passes the validator |
| Scenarios.RustPlaced | crossword_game.py:153-186 | the search places RUST down at (3, 5) |
| Scenarios.GenerateUnfolds | crossword_game.py:205-220 | after sorting and seeding, JAVA then RUST remain to be crossed |
| Scenarios.JavaStep | crossword_game.py:220-224 | dropping JAVA leaves the layout as it was |
| Scenarios.CrossOne | crossword_game.py:220-223 | crossing a single candidate that the search places appends that placement |
| Scenarios.RustStep | crossword_game.py:220-223 | crossing RUST appends it after PYTHON |
| Scenarios.RustScenario | crossword_game.py:190-225 | size 13 with PYTHON, JAVA, RUST places PYTHON across at (6, 3) and RUST down at (3, 5), crossing at the shared T |
| Scenarios.EmptyListScenario | crossword_game.py:207-211 | an empty candidate list gives an empty grid, no placed words and no numbering |

## Left out

- `load_database` (crossword_game.py:51-62) reads a JSON file. Only its filter matters here, and only in part. Words are required to be non-empty, which is what makes `can_place` safe. Upper-casing and the alphabetic check are not modelled because placement only compares letters for equality.
- `select_words` (crossword_game.py:66-70) shuffles at random. The model takes the selected list as input, so `max_words` plays no part.
- `print_crossword` and `main` (crossword_game.py:293-338) are console output and file paths.
- The `placed_lookup` dictionary in `number_grid` (crossword_game.py:249-255) is built but never read.
- Mutation is not modelled. The grid is a value threaded through the functions, so "the numbering does not change the grid" and "numbering twice gives the same maps" hold because the model is built from pure functions. No lemma states them.
- The grid size is a `nat`. With a negative size the source builds an empty grid and places nothing; that case is not modelled.
- Direction is a two-valued datatype. The source passes integers but only ever uses 0 and 1.
- An empty candidate list is handled as the code handles it: an empty grid and no placed words. When the database yields no words at all, `main` prints a message and returns (crossword_game.py:330-332); that is console handling outside the core.
- Layout.CrossAll: its own contract does not say which candidates are appended, only invariants and bounds. Layout.CrossAllTriesEach states that each candidate is appended exactly when the search places it on the layout built so far.
- Layout.GenerateCrossword: the contract does not say which of the non-seed words end up placed. Layout.CrossAllTriesEach states the step that decides it, one candidate at a time, and Search.TryPlaceWord's contract pins each step down.
