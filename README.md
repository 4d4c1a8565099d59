# Constraint-propagation Sudoku solver, modelled in Dafny

This project models the solver in `solution.py`. The solver keeps a board
that maps each of the 81 boxes (`A1` … `I9`) to a string of candidate digits.
It shrinks those strings with three rules:

- **eliminate**: a solved box's digit is deleted from its peers.
- **only choice**: a digit that only one box of a unit still allows is written
  into that box.
- **naked twins**: two boxes with the same two candidates clear both digits
  from the row or column they share.

`reduce_puzzle` repeats the three rules until a pass solves no new box.
`search` then fixes the unsolved box with the fewest candidates and recurses.
Every write of the rules goes through `assign_value`, which appends a snapshot
of the board to the assignment history whenever a box is left with a single
digit. `grid_values` turns an 81-character string into the starting board.

Modules, in dependency order:

- `Lists` (`lists.dfy`): list filtering, `list.remove`, and counting facts.
- `Candidates` (`candidates.dfy`): candidate strings, Python's
  `str.replace(p, '')`, deletion of a set of digits, and the subsequence order.
- `Topology` (`topology.dfy`): `cross`, `boxes`, the 27 units, `units` and
  `peers`.
- `BoardState` (`board.dfy`):
  - boards;
  - the write primitive `assign_value`, with the history as an explicit
    sequence of snapshots;
  - refinement, meaning only deletions;
  - solutions, and the solutions a board still admits.
- `Grid` (`grid.dfy`): `grid_values`, and its round trip with the string form
  of a board.
- `Rules` (`rules.dfy`): `eliminate`, `only_choice` and `naked_twins`.
- `Solver` (`search.dfy`): `reduce_puzzle`, the choice of the branch box, and
  `search`.

How the model represents the program:

- **Boards are values.** A board is a `map<Cell, string>`. The source updates
  the dictionary in place. Each method here takes the board and the history
  and returns the new pair, and it keeps the source's loops.
- **Iteration order.**
  - Dictionary iteration follows `Boxes()`, which is row by row.
  - Iteration over a peer set picks any remaining element, because a Python
    set has no order the program relies on.
- **Behaviour that is modelled as written:**
  - There are no diagonal units.
  - naked_twins cleans only a shared row or column. It never cleans a shared
    square.
  - naked_twins removes each visited box from the list it is iterating over,
    so the entry after the removed one is skipped. The model reproduces this
    visit order exactly.
  - naked_twins reads `values[dual_box][1]` and `values[dual_box][0]`. An
    earlier pair can leave that box with fewer than two candidates, and Python
    then raises IndexError. The model has no precondition for this; it guards
    the read instead. The cleaning methods report `ok == false` when this
    happens, `reduce_puzzle` turns that into the outcome `IndexError`, and
    `search` passes it on.
  - search tries only the first candidate of the branch box, because it
    returns inside its loop. The write of that candidate bypasses
    `assign_value`, so it is not recorded in the history.
- **What the code does not do.** The model follows the code as written:
  - the unit list has rows, columns and squares only, and no diagonal units;
  - search does not backtrack past the first candidate;
  - naked twins clean only the shared row and the shared column, never a
    shared square.

Beyond the promises of the code itself, the model proves that no rule deletes
a solution:

- A solution is a filled grid with no two peers equal.
- Whenever the input board admits a solution (the solution's digit is among
  every box's candidates), the board after eliminate, after only_choice, after
  a successful naked_twins, and after `reduce_puzzle` admits it too.
- When `reduce_puzzle` reports an empty box, the input board admits no
  solution.

## Model

| member | source | states |
|---|---|---|
| Topology.CrossMember | solution.py:4-6 | a box is in `cross(rs, cs)` exactly when its row is in `rs` and its column is in `cs` |
| Topology.CrossLength | solution.py:4-6 | `cross(rs, cs)` has `len(rs) * len(cs)` entries |
| Topology.CrossIndex | solution.py:4-6 | entry `i * len(cs) + j` of `cross(rs, cs)` is the box of `rs[i]` and `cs[j]`, so the order is row by row |
| Topology.CrossDistinct | solution.py:4-6 | `cross` of two lists without repeats has no repeats |
| Topology.BoxesAreCross | solution.py:9-11 | the box list is exactly `cross(rows, cols)` |
| Topology.BoxesRowMajor | solution.py:9-11 | there are 81 boxes, and the box at position `9 * r + c` is the box of row `r` and column `c` |
| Topology.BoxesComplete | solution.py:9-11 | every box occurs in the box list, and none occurs twice |
| Topology.InRowUnit | solution.py:23 | a box is in row unit `r` exactly when it lies in row `r` |
| Topology.InColumnUnit | solution.py:24 | a box is in column unit `c` exactly when it lies in column `c` |
| Topology.InSquareUnit | solution.py:25 | a box is in square unit `k` exactly when `k` is the index of its 3x3 square |
| Topology.UnitlistShape | solution.py:23-26 | the unit list has 27 units, each of 9 distinct boxes |
| Topology.UnitlistAt | solution.py:26 | units 0-8 are the rows, 9-17 the columns, 18-26 the squares; there are no diagonal units |
| Topology.UnitsOf | solution.py:27 | `units[s]` is exactly `[row of s, column of s, square of s]`, in that order |
| Topology.ThreeUnitsPerCell | solution.py:27 | every box lies in exactly three distinct units, and each of them contains it |
| Topology.UnitsAreTheContainingUnits | solution.py:27 | a unit of the unit list contains `s` exactly when it is listed in `units[s]` |
| Topology.PeersCharacterization | solution.py:28 | `c` is a peer of `s` exactly when `c != s` and the two share a row, a column or a square |
| Topology.PeersIrreflexiveSymmetric | solution.py:28 | a box is never its own peer, and the peer relation is symmetric |
| Topology.SameUnitPeers | solution.py:26-28 | two different boxes of one unit are peers |
| Topology.Name | solution.py:4-11 | the name of a box is two characters, its row letter from `'ABCDEFGHI'` followed by its column digit from `'123456789'` |
| Topology.LabelsAt | solution.py:9-10 | the `i`-th row label is the `i`-th letter of `'ABCDEFGHI'` and the `j`-th column label the `j`-th digit of `'123456789'` |
| Topology.LabelOrder | solution.py:64-70 | comparing row letters (`box[0]`) or column digits (`box[1]`), for equality or order, is the same as comparing the row or column indices |
| Topology.StrLessAsymmetric | solution.py:162 | Python's lexicographic string order never puts two strings before each other |
| Topology.StrLessTrans | solution.py:162 | Python's lexicographic string order is transitive |
| Topology.StrLessTotal | solution.py:162 | any two different strings are ordered one way or the other |
| Topology.NameOrder | solution.py:162 | comparing box names as strings orders boxes row by row, and different boxes have different names |
| Lists.Select | solution.py:55 | a list comprehension with a filter keeps exactly the elements that satisfy it and never grows the list |
| Lists.RemoveFirst | solution.py:57 | `list.remove(x)` is applied only to a value in the list, and shortens the list by one |
| Lists.RemoveFirstContents | solution.py:57 | `list.remove(x)` takes away exactly one copy of `x` and keeps every other element |
| Lists.RemoveFirstAt | solution.py:56-57 | on a list without repeats, removing the element at position `i` leaves the rest in order, keeps the list free of repeats and drops only that element |
| Candidates.Replace | solution.py:73-74 | `s.replace(p, '')` only deletes characters of `s` |
| Candidates.ReplaceChar | solution.py:125 | replacing a one-character digit string with `''` deletes exactly that digit |
| Candidates.WithoutWithout | solution.py:73-74 | deleting one set of digits and then another is the same as deleting their union |
| Candidates.NineDigits | solution.py:132 | nine different digits include every digit of `'123456789'` |
| BoardState.AssignValue | solution.py:30-42 | an unchanged value leaves the board and the history as they were; otherwise only `box` is rewritten, and exactly one snapshot of the new board is appended when the new value has one character |
| BoardState.AssignRefines | solution.py:36-42 | a write that only deletes candidates refines the board, and a snapshot it appends lies between the old and the new board |
| BoardState.SolvedStays | solution.py:125 | under refinement, a solved box keeps its digit or becomes empty |
| BoardState.SolvedCount | solution.py:143-149 | the number of solved boxes is at most 81, and it is 81 exactly when every box is solved |
| BoardState.SolvedCountMonotone | solution.py:143-150 | refining a board with no empty box never lowers the solved count (at most 81), and an equal count means no box became solved |
| BoardState.TotalCandidatesMonotone | solution.py:163-166 | refinement never raises the total number of candidates, and deleting from a box lowers it |
| BoardState.EmptyAdmitsNone | solution.py:151-152 | a board with an empty box admits no solution |
| BoardState.UnitHoldsDigit | solution.py:131-135 | in a solution every unit holds every digit |
| BoardState.KeepsSolutionsTrans | solution.py:145-147 | steps that each keep every admitted solution compose into one that does |
| Grid.Expand | solution.py:94-97 | a digit contributes itself, '.' contributes all nine digits, and any other character contributes nothing |
| Grid.Kept | solution.py:93-97 | one entry is collected per digit or '.' of the input (as many as the characters the filter keeps), each a single digit or all nine digits |
| Grid.KeptAppend | solution.py:93-97 | what is collected from two strings in sequence is the concatenation of what each gives |
| Grid.ZipBoxes | solution.py:99 | `dict(zip(boxes, chars))` covers every box and maps `boxes[i]` to `chars[i]` |
| Grid.ParseGrid | solution.py:91-99 | the grid parses exactly when 81 entries are collected, and then box `i` holds the `i`-th entry; otherwise the length assertion fails; the model records the count of collected entries, which the source's bare `assert` does not report |
| Grid.GridValues | solution.py:91-99 | the parsing loop computes ParseGrid |
| Grid.ShortGridRejected | solution.py:98 | a string shorter than 81 characters is always rejected |
| Grid.ParseRender | solution.py:91-99 | parsing the string form of a board in which every box holds one digit or all nine gives that board back |
| Grid.RenderParse | solution.py:91-99 | an 81-character string of digits and '.' parses, and its board renders back to the string |
| Rules.EliminateFrom | solution.py:123-125 | one solved box's digit is deleted from each of its peers, no other box changes, and an emptied box changes nothing |
| Rules.SolvedBoxes | solution.py:121 | the solved list holds exactly the solved boxes |
| Rules.Eliminate | solution.py:120-127 | candidates only shrink; with no conflicting peers, every solved box keeps its digit and no peer of it still lists that digit; with a conflict, some box ends up empty; every deleted candidate is the digit of a solved peer; every admitted solution is kept |
| Rules.EliminateKeepsSolutions | solution.py:120-127 | deleting only digits that a solved peer holds keeps every solution the board admits |
| Rules.Places | solution.py:133 | `dplaces` holds exactly the boxes of the unit that still list the digit |
| Rules.OnlyChoice | solution.py:130-136 | candidates only shrink, the history grows with snapshots between the two boards, every box keeps its entry or becomes one of its own candidate digits, and every admitted solution is kept |
| Rules.OnlyPlaceKeepsSolutions | solution.py:133-135 | writing a digit into the only box of a unit that lists it keeps every admitted solution |
| Rules.RowMates | solution.py:64-66 | the row part of `boxes_to_clean` holds exactly the other boxes of the first twin's row |
| Rules.ColumnMates | solution.py:68-70 | the column part holds exactly the other boxes of the first twin's column |
| Rules.BoxesToClean | solution.py:62-70 | a box is to be cleaned exactly when it shares with both twins a row or a column that the twins share, and is neither twin |
| Rules.PairBoxes | solution.py:55 | `dual_boxes` holds exactly the boxes with two candidates, without repeats |
| Rules.SameEntry | solution.py:58-59 | `second_dual_boxes` holds exactly the remaining boxes whose entry equals the current box's |
| Rules.CleanBox | solution.py:73-74 | the box is rewritten to its entry with the second, then the first twin digit deleted, and the history grows accordingly |
| Rules.CleanStep | solution.py:73-74 | the two replacements together delete exactly the twin's two digits |
| Rules.CleanBoxes | solution.py:72-75 | the loop fails (IndexError) exactly when there is a box to clean and the first twin has fewer than two candidates; otherwise every box to clean loses the twin's digits and no other box changes |
| Rules.CleanPair | solution.py:61-75 | one twin pair cleans its shared row or column, failing exactly as the index read does |
| Rules.CleanTwins | solution.py:61-75 | every twin of the box is processed in turn; on success the box itself is untouched, every deletion is explained by one of its twins, and failure means the box had lost a candidate |
| Rules.NakedTwins | solution.py:45-77 | candidates only shrink; on success every deleted candidate is a digit of a twin pair of the input board that shares the box's row or column, and every admitted solution is kept; failure means a box that started with two candidates lost one |
| Rules.NakedTwinsKeepsSolutions | solution.py:58-74 | deletions explained by twin pairs keep every admitted solution |
| Rules.TwinsTakeBothDigits | solution.py:58-74 | in a solution, no box sharing a row or column with two twins holds either twin digit |
| Solver.EmptyBoxes | solution.py:151 | the empty-box list holds exactly the boxes with no candidate |
| Solver.EmptyBoxesExact | solution.py:151 | the empty-box list is non-empty exactly when some box is empty |
| Solver.StalledSound | solution.py:148-150 | a pass that solves no new box and empties none cannot bring a board with conflicting peers to a fully solved one |
| Solver.ReducePuzzle | solution.py:139-153 | the loop ends; candidates only shrink; a board returned has no empty box, and if fully solved it has no conflicting peers; `False` means an empty box, and then the input admitted no solution; a returned board keeps every admitted solution |
| Solver.EverySolved | solution.py:160 | `all(len(values[s]) == 1 for s in boxes)` holds exactly when every box of the board is solved |
| Solver.KeyLess | solution.py:162 | the `(len, name)` key of `min` orders boxes by candidate count first and then row by row, column by column |
| Solver.KeyLessTotal | solution.py:162 | two different boxes are always ordered by `(len, name)` one way or the other |
| Solver.KeyLessTrans | solution.py:162 | the `(len, name)` order is transitive |
| Solver.SelectBranchCell | solution.py:162 | the chosen box is unsolved, and it comes before every other unsolved box in `(len, name)` order |
| Solver.BranchRefines | solution.py:163-165 | fixing the branch box to its first candidate refines the board and solves that box |
| Solver.Search | solution.py:156-166 | the recursion ends; a board returned refines the input, has every box solved and has no two peers sharing a digit; the history only grows, by snapshots that refine the input and, when a board is returned, are refined by it |

## Left out

- `display` (solution.py:102-117) is console output only.
- The `print("Tried naked twin")` call (solution.py:75) has no logical content.
- The `__main__` block, which replays the history with `pygame`, is not part of this model. It is I/O and a foreign library.
- The global `values` dictionary, `init_grid` and `solve` (solution.py:13-21 and 169-193) are not part of this model. The global `assignments` list is an explicit history parameter instead.
- In-place mutation and aliasing of the dictionary are not modelled. Boards are values, and each operation returns the new board. This is faithful because every call mutates the dictionary it then returns, and no core caller reads an older copy afterwards. The callers that discard the return of `assign_value` (solution.py:73, 74, 125, 135) go on using the same, mutated dictionary, and `search` copies the board before its own write (solution.py:164).
- The order in which a Python set yields the peers of a box is not modelled. The model picks any remaining peer, so its contracts hold for every order.
- Lists.RemoveFirst: the `ValueError` that `list.remove` raises for an absent value is not modelled; the model requires the value to be present. At solution.py:57 the removed box is always the element the loop is visiting, so it is present.
- Solver.Search: for the outcomes `Unsolvable` and `IndexError` there is no returned board to bound the new snapshots from below, so the contract says only that earlier entries are kept and that new snapshots refine the input. On `Done`, every new snapshot lies between the input and the returned board.
- Solver.Search: there is no contract that an `Unsolvable` result means the puzzle has no solution. The code tries only the first candidate of the branch box, so a solvable puzzle can be reported as unsolvable.
- Boxes are row and column indices, not strings. String names appear in the model only for the `min` at solution.py:162. The character comparisons `dual_box[0] == second_dual_box[0]`, `box[0] == dual_box[0]` and their `[1]` forms at solution.py:64-70 are modelled as comparisons of `.row` and `.col`; Topology.LabelOrder shows that the two agree.
