# Sudokant candidate elimination, modelled in Dafny

Sudokant, the Sudoku servant, shows for each open cell of a 9×9 puzzle the
digits that two rules still allow:

- **at-most-one**: a digit given in a row, column or square cannot appear
  again in that group;
- **at-least-one**: a digit that only one open cell of a group can still
  take must go in that cell.

The repository holds two Rust programs that compute this, and both are
modelled here.

- `src/bin/sudoku-rust-idioms.rs` keeps a `Board` of 82 `Value`s. Each value
  is a given character or a list of nine `Choice`s, each choice tagged with
  the `Rule` that excluded it, if any. `Board::eval` applies both rules in
  place and `Board::solve` repeats promote-then-eval for at most ten rounds.
- `src/bin/sudoku-rust-port.rs` pads the query string to 81 characters and
  strips given digits from per-cell candidate strings. It then builds a
  `unique` map from cell to forced digit and decides, per candidate, whether
  the page shows it grey or as a link to the board with that digit filled in.

Cell indices are block-major in both programs: a square is a run of nine
consecutive indices, and rows and columns are lookup tables.

The modules:

| module | file | what it holds |
|---|---|---|
| `Wrappers` | wrappers.dfy | `Option` |
| `Digits` | digits.dfy | `"123456789"`, ascending strings, and that two ascending strings with the same characters are equal |
| `Groups` | groups.dfy | the row, column and square tables (one table serves both programs, whose tables are identical), their partition proofs and closed forms |
| `IdiomsValue` | idioms_value.dfy | `Rule`, `Choice`, `Value` and its operations |
| `IdiomsBoard` | idioms_board.dfy | every board operation of the idioms program as a function on `seq<Value>`, with the soundness, completeness and monotonicity lemmas |
| `IdiomsSolve` | idioms_solve.dfy | the rounds of `Board::solve` and its stop rule |
| `Idioms` | idioms.dfy | `class Board`: the same operations with loops that update `values` in place, each proved to produce the function's result |
| `Port` | port.dfy | the logic of the port's `main`: padding, the at-most-one loop (a method with its three nested loops), the `counts`/`where_`/`unique` maps, `next_givens` and the grey-or-link decision |
| `Agreement` | agreement.dfy | the two programs' at-most-one passes leave the same candidates for every open cell |

Where a loop of the source updates state, the model has a method with that
loop. Its `ensures` ties the new state to a fold function of the old
state, and the properties are lemmas about the fold. A Rust panic
(an index out of range, an `unwrap` of `None`) becomes a precondition.

## Model

| member | source | states |
|---|---|---|
| Groups.RowTable | src/bin/sudoku-rust-idioms.rs:161-174 | the row table has 9 rows of 9 cells, and the k-th cell of row r is given by a closed formula |
| Groups.ColTable | src/bin/sudoku-rust-idioms.rs:176-189 | the column table has 9 columns of 9 cells, each cell given by a closed formula |
| Groups.SquareTable | src/bin/sudoku-rust-idioms.rs:191-204 | square s is the run of cells 9s..9s+8 (block-major layout) |
| Groups.RowsPartition | src/bin/sudoku-rust-idioms.rs:161-174 | the rows partition cells 0..80: every cell lies in exactly one row, the one its formula names |
| Groups.ColsPartition | src/bin/sudoku-rust-idioms.rs:176-189 | the columns partition cells 0..80 |
| Groups.SquaresPartition | src/bin/sudoku-rust-idioms.rs:191-204 | the squares partition cells 0..80 |
| Groups.SubsetsShape | src/bin/sudoku-rust-idioms.rs:206-208 | `subsets` is rows, then columns, then squares: 27 groups of 9 distinct cells, all below 81 |
| Groups.SubsetsFit | src/bin/sudoku-rust-idioms.rs:206-208 | every index of the 27 groups lies on any board of at least 81 cells (cell 81 of the 82 is in no group) |
| Groups.SubsetSizes | src/bin/sudoku-rust-idioms.rs:206-208 | the group table holds 27 groups of exactly nine cells, so no group is a single cell |
| Groups.GroupsOfCell | src/bin/sudoku-rust-port.rs:23-54 | each of the 81 cells lies in exactly three of the 27 groups: its row, its column and its square |
| IdiomsValue.LiveDigits | src/bin/sudoku-rust-idioms.rs:23-38 | a digit is listed iff some choice with that digit has no reason; ascending choices give an ascending list |
| IdiomsValue.CountReason | src/bin/sudoku-rust-idioms.rs:40-50 | the count is at most the number of choices, and zero iff no choice carries that rule |
| IdiomsValue.LastLive | src/bin/sudoku-rust-idioms.rs:61-65 | the fold finds the last choice with that digit and no reason, or none when there is no such choice |
| IdiomsValue.Search | src/bin/sudoku-rust-idioms.rs:139-142 | the binary search only finds listed digits, and on an ascending list it finds every listed digit |
| IdiomsValue.Value.Live | src/bin/sudoku-rust-idioms.rs:23-38 | `choices()` is `None` exactly on a given |
| IdiomsValue.LiveMeans | src/bin/sudoku-rust-idioms.rs:23-38 | on an open cell `choices()` lists exactly the live digits, ascending when the choices are |
| IdiomsValue.Value.Count | src/bin/sudoku-rust-idioms.rs:40-50 | a given counts 0; an open cell counts at most its choices, and 0 iff none carries the rule |
| IdiomsValue.Value.GivenDigit | src/bin/sudoku-rust-idioms.rs:52-57 | `given()` is `Some(g)` exactly on `Given(g)` |
| IdiomsValue.Value.Eliminate | src/bin/sudoku-rust-idioms.rs:59-70 | a given is unchanged; otherwise only one live choice of that digit is tagged with the rule, the digit is then no longer live (digits ascending), and a digit not live leaves the value unchanged |
| IdiomsValue.Value.Keep | src/bin/sudoku-rust-idioms.rs:72-80 | a given is unchanged; excluded choices keep their reason, choices of the digit are untouched, every other live choice gets the rule, so only the digit can stay live |
| IdiomsValue.KeepEach | src/bin/sudoku-rust-idioms.rs:72-80 | tagging the choices one at a time, each as the loop body says, gives `keep`'s result |
| IdiomsValue.Default | src/bin/sudoku-rust-idioms.rs:83-96 | the default value is well formed, lists digits 1..9 live in order and counts no exclusion of either rule |
| IdiomsValue.AllLive | src/bin/sudoku-rust-idioms.rs:23-38 | with no reasons set, the live digits are all the digits in order |
| IdiomsValue.WellFormedAscending | src/bin/sudoku-rust-idioms.rs:139-142 | a well-formed open value has ascending choices and an ascending live list, which the binary search needs |
| IdiomsValue.RefinesShrinksLive | src/bin/sudoku-rust-idioms.rs:59-80 | when reasons are only added, the live digits only shrink and well-formedness is kept |
| IdiomsValue.UpdatesRefine | src/bin/sudoku-rust-idioms.rs:59-80 | eliminate and keep only add reasons |
| IdiomsValue.RefinesTransitive | src/bin/sudoku-rust-idioms.rs:59-80 | adding reasons in two steps adds reasons |
| IdiomsBoard.Blank | src/bin/sudoku-rust-idioms.rs:103-109 | `Board::new` builds 82 cells, every one the default value (digits 1..9 live) |
| IdiomsBoard.Seed | src/bin/sudoku-rust-idioms.rs:111-121 | every non-'.' character becomes a given at its index and every other cell is unchanged |
| IdiomsBoard.SeedSnoc | src/bin/sudoku-rust-idioms.rs:111-117 | one more character of the string sets exactly that cell when it is not '.', and changes nothing when it is |
| IdiomsBoard.Givens | src/bin/sudoku-rust-idioms.rs:151-159 | one character per cell: the given, or '.' for an open cell |
| IdiomsBoard.BoardCount | src/bin/sudoku-rust-idioms.rs:123-125 | the board count of a rule is zero iff every cell counts zero for it |
| IdiomsBoard.IndexesOf | src/bin/sudoku-rust-idioms.rs:127-143 | a cell is returned iff it is in the group and its value lists the digit; the result is no longer than the group and stays on the board |
| IdiomsBoard.IndexesOfFilter | src/bin/sudoku-rust-idioms.rs:127-143 | the result is the group's cells, in the group's order, at exactly the positions whose cell lists the digit |
| IdiomsBoard.IndexesOfCount | src/bin/sudoku-rust-idioms.rs:127-143 | the result has one index per position of the group whose cell lists the digit |
| IdiomsBoard.IndexesOfNone | src/bin/sudoku-rust-idioms.rs:127-143 | the result is empty iff no position of the group lists the digit |
| IdiomsBoard.IndexesOfOne | src/bin/sudoku-rust-idioms.rs:127-143 | the result has exactly one index iff exactly one position of the group lists the digit (for the 27 groups, whose cells are distinct, exactly one cell) |
| IdiomsBoard.IndexesOfOneCell | src/bin/sudoku-rust-idioms.rs:127-143 | a one-index result is the cell of every position that lists the digit |
| IdiomsBoard.IndexesOfAllOrNone | src/bin/sudoku-rust-idioms.rs:127-143 | when every cell of a group lists the digit, all the group's indices are returned in order; when none does, none is |
| IdiomsBoard.SeedRoundTrip | src/bin/sudoku-rust-idioms.rs:103-121 | a new board seeded with a string has 82 well-formed cells, open cells have all nine digits live, and reading the givens back returns the string padded with '.' |
| IdiomsBoard.SeededCells | src/bin/sudoku-rust-idioms.rs:103-121 | seeding any board of default cells keeps it well formed, leaves the unseeded cells with all nine digits live, and reading the givens back returns the string padded with '.' |
| IdiomsBoard.RefinesKeeps | src/bin/sudoku-rust-idioms.rs:210-233 | when reasons are only added, well-formedness is kept, givens do not change and no digit becomes live |
| IdiomsBoard.NotGivenStays | src/bin/sudoku-rust-idioms.rs:210-233 | a cell that is not a given of c never becomes one by adding reasons |
| IdiomsBoard.BoardRefinesTransitive | src/bin/sudoku-rust-idioms.rs:210-233 | adding reasons in two board steps adds reasons |
| IdiomsBoard.RefinesUpdate | src/bin/sudoku-rust-idioms.rs:145-149 | replacing one cell by a value with only more reasons adds reasons to the board |
| IdiomsBoard.EliminateAllRefines | src/bin/sudoku-rust-idioms.rs:145-149 | `Board::eliminate` only adds reasons |
| IdiomsBoard.EliminateAllExcludes | src/bin/sudoku-rust-idioms.rs:145-149 | after `Board::eliminate` on a well-formed board, no listed cell has the digit live |
| IdiomsBoard.EliminateAllKeepsLive | src/bin/sudoku-rust-idioms.rs:145-149 | any other digit, and any digit of an unlisted cell, stays live |
| IdiomsBoard.AtMostOneAtRefines | src/bin/sudoku-rust-idioms.rs:214-216 | one at-most-one step only adds reasons |
| IdiomsBoard.AtMostOneAtExcludes | src/bin/sudoku-rust-idioms.rs:214-216 | after the step for a given cell, no cell of its group has the given's character live |
| IdiomsBoard.AtMostOneAtKeepsLive | src/bin/sudoku-rust-idioms.rs:214-216 | the step removes nothing else |
| IdiomsBoard.AtMostOneAtKeepsExcluded | src/bin/sudoku-rust-idioms.rs:214-216 | a character already absent from every cell of the group stays absent after a step |
| IdiomsBoard.ExcludedStep | src/bin/sudoku-rust-idioms.rs:213-218 | if the steps before the n-th excluded their givens' characters and the n-th excludes its own, all n givens' characters are excluded once reasons are only added |
| IdiomsBoard.AtMostOneGroupRefines | src/bin/sudoku-rust-idioms.rs:213-218 | the at-most-one steps of a group only add reasons |
| IdiomsBoard.AtMostOneGroupSound | src/bin/sudoku-rust-idioms.rs:213-218 | after a group's steps, no cell of the group has the character of any of its given cells live |
| IdiomsBoard.AtMostOneGroupKeepsLive | src/bin/sudoku-rust-idioms.rs:213-218 | a digit stays live in a cell unless that cell's group has it as a given |
| IdiomsBoard.AtMostOnePhaseRefines | src/bin/sudoku-rust-idioms.rs:212-219 | the whole at-most-one loop only adds reasons |
| IdiomsBoard.AtMostOnePhaseSound | src/bin/sudoku-rust-idioms.rs:212-219 | after the loop, for every group and every given in it, no cell of the group has that character live |
| IdiomsBoard.AtMostOnePhaseKeepsLive | src/bin/sudoku-rust-idioms.rs:212-219 | a digit not given in any group of the cell stays live |
| IdiomsBoard.AtMostOneLive | src/bin/sudoku-rust-idioms.rs:212-219 | after the loop, a digit is live in a cell iff it was live before and no group of that cell holds it as a given |
| IdiomsBoard.AtLeastOneAtRefines | src/bin/sudoku-rust-idioms.rs:224-230 | one at-least-one step only adds reasons |
| IdiomsBoard.AtLeastOneAtForces | src/bin/sudoku-rust-idioms.rs:224-230 | when `indexes_of` yields one index (exactly one position of the group lists the digit, by `IndexesOfOne`), that cell afterwards has only that digit live and every other cell is unchanged |
| IdiomsBoard.OnlyLiveAt | src/bin/sudoku-rust-idioms.rs:224-230 | a cell whose only live digit is d still has exactly d live after any at-least-one step |
| IdiomsBoard.OnlyLiveGroup | src/bin/sudoku-rust-idioms.rs:223-231 | once a group's loop has left a cell with one live digit, the rest of that loop keeps exactly that digit live |
| IdiomsBoard.OnlyLivePhase | src/bin/sudoku-rust-idioms.rs:222-232 | a cell with one live digit keeps exactly that digit through the whole at-least-one loop |
| IdiomsBoard.KeptStays | src/bin/sudoku-rust-idioms.rs:223-231 | once a group's loop keeps a digit in a cell, that digit stays the cell's only live digit to the end of the loop, so no later character is kept there |
| IdiomsBoard.AtLeastOneGroupRefines | src/bin/sudoku-rust-idioms.rs:223-231 | the at-least-one steps of one group only add reasons |
| IdiomsBoard.AtLeastOnePhaseRefines | src/bin/sudoku-rust-idioms.rs:222-232 | the whole at-least-one loop only adds reasons |
| IdiomsBoard.ExcludedStays | src/bin/sudoku-rust-idioms.rs:222-232 | a digit excluded from a group stays excluded when reasons are only added |
| IdiomsBoard.ExcludesGivensStays | src/bin/sudoku-rust-idioms.rs:222-232 | what the at-most-one loop excluded is still excluded after the at-least-one loop |
| IdiomsBoard.ListedIsLive | src/bin/sudoku-rust-idioms.rs:127-143 | on a well-formed value, `indexes_of`'s binary search finds a digit iff it is live |
| IdiomsBoard.EvalRefines | src/bin/sudoku-rust-idioms.rs:210-233 | `eval` is monotone: reasons only go from none to some, givens never change |
| IdiomsBoard.EvalSound | src/bin/sudoku-rust-idioms.rs:210-233 | on a well-formed board, `eval` keeps it well formed, only adds reasons, and leaves no group with a given's character live |
| IdiomsBoard.AtMostOneGroupIdle | src/bin/sudoku-rust-idioms.rs:213-218 | when no given's character is listed in its group, the group's steps change nothing |
| IdiomsBoard.AtMostOnePhaseIdle | src/bin/sudoku-rust-idioms.rs:212-219 | the same for the whole at-most-one loop |
| IdiomsBoard.AtLeastOneGroupIdle | src/bin/sudoku-rust-idioms.rs:223-231 | when `indexes_of` yields one index for no character (no character is listed at exactly one position, by `IndexesOfOne`), the group's steps change nothing |
| IdiomsBoard.AtLeastOnePhaseIdle | src/bin/sudoku-rust-idioms.rs:222-232 | the same for the whole at-least-one loop |
| IdiomsBoard.EvalIdle | src/bin/sudoku-rust-idioms.rs:210-233 | under both conditions `eval` changes nothing |
| IdiomsSolve.Decide | src/bin/sudoku-rust-idioms.rs:238-247 | an open cell with exactly one live digit becomes a given of that digit; every other value is unchanged |
| IdiomsSolve.Promote | src/bin/sudoku-rust-idioms.rs:238-247 | the promotion applies to every cell independently |
| IdiomsSolve.RoundsRun | src/bin/sudoku-rust-idioms.rs:237 | `solve` runs at least one and at most the bound of rounds |
| IdiomsSolve.RoundsFirst | src/bin/sudoku-rust-idioms.rs:237 | k+1 rounds are one round followed by k rounds |
| IdiomsSolve.StopRule | src/bin/sudoku-rust-idioms.rs:237-255 | `solve` yields the board after the rounds it ran; no earlier round ended with both counts zero, and when it stopped early the last did |
| IdiomsSolve.StopResult | src/bin/sudoku-rust-idioms.rs:237-255 | the loop's board is the board after exactly the rounds it counted |
| IdiomsSolve.StopNotEarly | src/bin/sudoku-rust-idioms.rs:249-254 | no round before the last one the loop ran ended with both counts zero |
| IdiomsSolve.StopQuiet | src/bin/sudoku-rust-idioms.rs:249-254 | when the loop stops before its bound, the board after its last round has both counts zero |
| IdiomsSolve.QuietFixpoint | src/bin/sudoku-rust-idioms.rs:249-254 | on a board a round leaves unchanged with both counts zero, `solve` runs one round and changes nothing |
| IdiomsSolve.QuietMeans | src/bin/sudoku-rust-idioms.rs:249-252 | both board counts are zero iff no choice of any open cell carries a reason |
| IdiomsSolve.SolvedKeeps | src/bin/sudoku-rust-idioms.rs:237-255 | for rounds that keep givens and well-formedness, the whole loop keeps them |
| IdiomsSolve.RoundKeeps | src/bin/sudoku-rust-idioms.rs:238-248 | a round never changes a given and keeps a well-formed board well formed |
| IdiomsSolve.KeepsThrough | src/bin/sudoku-rust-idioms.rs:238-248 | promotion followed by any step that only adds reasons keeps every given and keeps a well-formed board well formed |
| IdiomsSolve.SolveKeeps | src/bin/sudoku-rust-idioms.rs:234-256 | `solve` never changes a given and keeps a well-formed board well formed |
| IdiomsSolve.OpenBoardIdle | src/bin/sudoku-rust-idioms.rs:210-233 | a board of cells with all nine digits live is left unchanged by a round, and both its counts are zero |
| IdiomsSolve.OpenGroupsIdle | src/bin/sudoku-rust-idioms.rs:222-232 | on a board of cells with all nine digits live and groups of more than one cell, no character's `indexes_of` result in a group has exactly one index |
| IdiomsSolve.OpenIndexes | src/bin/sudoku-rust-idioms.rs:127-143 | on such a board every digit is listed in every cell of a group, and no other character is listed |
| IdiomsSolve.ClosedBoardIdle | src/bin/sudoku-rust-idioms.rs:210-233 | a board whose grouped cells are all given, and whose other cells are default, is left unchanged by a round |
| IdiomsSolve.BlankSolve | src/bin/sudoku-rust-idioms.rs:234-256 | seeded with only dots, the board is the blank board, and `solve` stops after one round leaving every cell open with all nine digits live |
| IdiomsSolve.BlankSolveOver | src/bin/sudoku-rust-idioms.rs:234-256 | for any table of groups of more than one cell and any positive bound, dots seed nothing and `solve` stops after one round leaving the board of default cells as it was |
| IdiomsSolve.FullSolve | src/bin/sudoku-rust-idioms.rs:234-256 | seeded with 81 non-dot characters, `solve` stops after one round and changes nothing |
| IdiomsSolve.SeededFullIdle | src/bin/sudoku-rust-idioms.rs:234-256 | a board of default cells whose grouped cells are all seeded is left unchanged by a round and counts no exclusion |
| Idioms.Board.constructor | src/bin/sudoku-rust-idioms.rs:103-109 | the loop pushes 82 default cells: the blank board |
| Idioms.Board.Choose | src/bin/sudoku-rust-idioms.rs:119-121 | cell i becomes a given of the character and nothing else changes |
| Idioms.Board.ChooseAll | src/bin/sudoku-rust-idioms.rs:111-117 | the loop leaves the board seeded with the string (each non-'.' a given at its index) |
| Idioms.Board.EliminateAt | src/bin/sudoku-rust-idioms.rs:59-70 | the fold over live choices, in place, leaves the cell as `Value::eliminate` and every other cell unchanged |
| Idioms.Board.KeepAt | src/bin/sudoku-rust-idioms.rs:72-80 | the cell becomes as `Value::keep` leaves it and every other cell is unchanged |
| Idioms.KeepChoices | src/bin/sudoku-rust-idioms.rs:72-80 | the loop over the choices leaves them as `keep` leaves the open cell |
| Idioms.Board.Eliminate | src/bin/sudoku-rust-idioms.rs:145-149 | the loop applies eliminate to each listed cell in turn |
| Idioms.Board.Eval | src/bin/sudoku-rust-idioms.rs:210-233 | the board becomes the evaluated board; a well-formed board only gains reasons, stays well formed and has no given's character live in its groups |
| Idioms.Board.EvalOver | src/bin/sudoku-rust-idioms.rs:210-233 | the same for any table of groups that fits the board |
| Idioms.Board.AtMostOnePass | src/bin/sudoku-rust-idioms.rs:212-219 | the outer loop runs the at-most-one steps group by group |
| Idioms.Board.AtMostOneIn | src/bin/sudoku-rust-idioms.rs:213-218 | the inner loop eliminates each given's character from the cells of the group that list it |
| Idioms.Board.AtLeastOnePass | src/bin/sudoku-rust-idioms.rs:222-232 | the outer loop runs the at-least-one steps group by group, each seeing the earlier keeps |
| Idioms.Board.AtLeastOneIn | src/bin/sudoku-rust-idioms.rs:223-231 | for each character of "0123456789" in turn, a character listed at exactly one position of the group is kept in that cell |
| Idioms.Board.AtLeastOneDigit | src/bin/sudoku-rust-idioms.rs:224-230 | one character: when `indexes_of` yields one index (exactly one position of the group lists it), that cell keeps it, and otherwise nothing changes |
| Idioms.Board.PromoteDecided | src/bin/sudoku-rust-idioms.rs:238-247 | every open cell with one live digit becomes a given of it, as `Promote` says |
| Idioms.DecideCells | src/bin/sudoku-rust-idioms.rs:238-247 | the loop replaces each open cell with one live digit by a given of that digit, every other cell as it was |
| Idioms.Board.RunRound | src/bin/sudoku-rust-idioms.rs:238-248 | a round is promotion, then eval |
| Idioms.Board.Solve | src/bin/sudoku-rust-idioms.rs:234-256 | the loop leaves the board after the rounds the stop rule allows (at most ten), givens unchanged and well-formedness kept |
| Idioms.Board.SolveOver | src/bin/sudoku-rust-idioms.rs:237-255 | the same for any table of groups and any bound |
| Port.Dots | src/bin/sudoku-rust-port.rs:18 | the blank string of n dots |
| Port.Pad | src/bin/sudoku-rust-port.rs:18-20 | the givens are exactly 81 characters: the query's first ones, then '.' |
| Port.PadFixed | src/bin/sudoku-rust-port.rs:18-20 | a string of 81 characters pads to itself |
| Port.Remove | src/bin/sudoku-rust-port.rs:65 | `replace(d, "")` keeps exactly the characters other than d, and keeps a candidate string ascending and made of digits |
| Port.RemoveWellFormed | src/bin/sudoku-rust-port.rs:65 | removing a character keeps a candidate string ascending and made of digits |
| Port.Initial | src/bin/sudoku-rust-port.rs:21 | 81 candidate strings "123456789", each well formed |
| Port.RemoveInMeans | src/bin/sudoku-rust-port.rs:63-66 | after the innermost loop, c is in cell j's string iff it was and not (c is the given digit and j lies in the group) |
| Port.RemoveFromGroup | src/bin/sudoku-rust-port.rs:63-66 | the innermost loop removes the given digit from every cell of the group, as the fold says |
| Port.GroupPassMeans | src/bin/sudoku-rust-port.rs:58-67 | after a group's loop, c is in cell j's string iff it was and the group does not both contain j and give c |
| Port.EliminateInGroup | src/bin/sudoku-rust-port.rs:58-67 | the loop over a group's cells removes each given digit from the group, as the fold says |
| Port.AtMostOnePassMeans | src/bin/sudoku-rust-port.rs:57-68 | after the whole loop, c is in cell j's string iff it was and no group of j gives c |
| Port.AtMostOneCandidates | src/bin/sudoku-rust-port.rs:57-68 | starting from "123456789", each string stays an ascending subsequence of the digits, and holds d iff d is a digit that no group of the cell gives (non-digit givens remove nothing) |
| Port.EliminateGivens | src/bin/sudoku-rust-port.rs:57-68 | the three nested loops leave the candidate strings as the at-most-one fold says |
| Port.Occurrences | src/bin/sudoku-rust-port.rs:84-87 | a digit's count from one string is positive iff the string contains it, and at most one in an ascending string |
| Port.BuildAppend | src/bin/sudoku-rust-port.rs:90-93 | inserting two lists of pairs is inserting the first, then the second |
| Port.BuildSnoc | src/bin/sudoku-rust-port.rs:90-93 | one more insertion sets that key to that digit in the map |
| Port.LastInsertionWins | src/bin/sudoku-rust-port.rs:90-93 | a key is in the map iff some insertion had it, and its value is that of the last insertion with that key |
| Port.InsertedKeys | src/bin/sudoku-rust-port.rs:90-93 | a cell is a key of the map iff some insertion was for it |
| Port.WhereIsOpen | src/bin/sudoku-rust-port.rs:82-88 | a digit counted in a group was last seen in an open cell of the group that lists it |
| Port.CountZero | src/bin/sudoku-rust-port.rs:82-89 | a count of 0 means no open cell of the group lists the digit |
| Port.CountOne | src/bin/sudoku-rust-port.rs:82-89 | a count of 1 means the recorded cell is the only open cell of the group listing the digit |
| Port.GroupInsertsMeans | src/bin/sudoku-rust-port.rs:90-93 | a group inserts (w, d) iff d counts exactly once in it and w is where it was seen |
| Port.InsertsSound | src/bin/sudoku-rust-port.rs:79-94 | every pair (w, d) inserted over all groups has d a digit 1..9 counted once in some group, with w where it was seen |
| Port.InsertsComplete | src/bin/sudoku-rust-port.rs:79-94 | every group and digit 1..9 counted once in it puts (where it was seen, d) among the insertions |
| Port.SoleAt | src/bin/sudoku-rust-port.rs:82-93 | a digit counted once in a group was seen in the group's only open cell listing it |
| Port.UniqueSole | src/bin/sudoku-rust-port.rs:79-94 | every key w of `unique` has a group in which w is the only open cell listing `unique[w]` |
| Port.UniqueRecorded | src/bin/sudoku-rust-port.rs:79-94 | for every group and digit counted once in it, the cell where the digit was seen is a key of `unique` |
| Port.UniqueEntries | src/bin/sudoku-rust-port.rs:79-94 | `unique[w] = d` only when w is open and the only open cell of some group listing d; every digit counted once in a group is recorded; the last insertion wins |
| Port.Tally | src/bin/sudoku-rust-port.rs:80-89 | the loops fill `counts` and `where_` with each digit's count and last open cell in the group |
| Port.TallyAt | src/bin/sudoku-rust-port.rs:82-88 | one more cell of the group: the counts and last positions become those of the first p+1 cells (a given cell adds nothing) |
| Port.TallyCell | src/bin/sudoku-rust-port.rs:84-87 | each digit's count grows by its occurrences in the cell's string, and its position becomes the cell exactly when the string lists it |
| Port.FindUnique | src/bin/sudoku-rust-port.rs:71-94 | the loops build `unique` by the insertions in group-then-digit order, without touching the candidates |
| Port.RecordUnique | src/bin/sudoku-rust-port.rs:90-93 | the loop over "123456789" inserts (where, d) for each digit counted once, in digit order |
| Port.NextGivens | src/bin/sudoku-rust-port.rs:110-114 | same length, position i holds the digit, every other position unchanged |
| Port.LinkRoundTrip | src/bin/sudoku-rust-port.rs:130-132 | the link's query, read back by the padding, is the board with exactly that cell filled in |
| Port.Classify | src/bin/sudoku-rust-port.rs:127-133 | a candidate is grey iff the cell has a forced digit other than it; otherwise it links to the next givens |
| Port.CandidatesOf | src/bin/sudoku-rust-port.rs:123-135 | one entry per candidate of the cell, in order, each classified |
| Port.Display | src/bin/sudoku-rust-port.rs:138-144 | a given cell shows its character; an open cell shows its classified candidates |
| Port.GivenIgnoresChoices | src/bin/sudoku-rust-port.rs:138-144 | a given cell shows the same whatever the candidate strings and the map |
| Port.Render | src/bin/sudoku-rust-port.rs:138-146 | the loop lays out all 81 cells as `Display` says |
| Port.Analyse | src/bin/sudoku-rust-port.rs:18-94 | `main` up to the markup: padded givens, at-most-one candidates, the `unique` map and the 81 cells |
| Port.ForcedCellLinks | src/bin/sudoku-rust-port.rs:123-135 | on the page, a forced cell is open and has exactly one link, its forced digit; every candidate of an unforced cell is a link |
| Agreement.SameGivens | src/bin/sudoku-rust-port.rs:59-62 | on any board whose cells are given exactly where the givens string has a character other than '.', a character is a given in a group iff the port sees it among that group's givens |
| Agreement.SameGivensAll | src/bin/sudoku-rust-port.rs:59-62 | for a board of default cells seeded with the givens, a character other than '.' is given in a group of a cell iff the port sees it among that group's givens |
| Agreement.AgreesAt | src/bin/sudoku-rust-idioms.rs:212-219 | one open cell: live digits that are the fresh digits no group gives, and a candidate string of the digits the port does not see given, are the same list |
| Agreement.AgreesAll | src/bin/sudoku-rust-idioms.rs:212-219 | the same for every open cell of the 81 |
| Agreement.AtMostOneAgreesOver | src/bin/sudoku-rust-idioms.rs:212-219 | for any fitting table of groups, the idioms board's live digits after the at-most-one loop equal the port's candidate string, for every open cell |
| Agreement.AtMostOneAgrees | src/bin/sudoku-rust-port.rs:57-68 | on the same 81 givens, every open cell's candidate string in the port equals its live digits on the idioms board after the at-most-one loop |

## Left out

- The HTML page: `html()`, `table()`, the page templates, the `replacen('X', …)` filling and the font and href markup (src/bin/sudoku-rust-idioms.rs:259-344; src/bin/sudoku-rust-port.rs:7-15, 96-108, 145-181). Only the grey-or-link classification and the link's target are modelled. In the port, the script name is not modelled either.
- `terminal()` (src/bin/sudoku-rust-idioms.rs:346-377): console output only.
- `main`, clap argument parsing and `env::var("QUERY_STRING")`: the query string is a parameter of `Port.Pad`, `Port.Analyse` and `Idioms.Board.ChooseAll`.
- The `println!` of the two counts in `Board::solve` (line 251): output with no effect on the board.
- `Cow<str>`, `HashMap`, iterator adapters and `std::mem::replace` are modelled as `string`, `map` and assignment. The lazy `indexes_of` iterator of the at-least-one loop is modelled as a collected list; that loop only asks whether it has exactly one element.
- `Value::eliminate` and `Value::keep` are functions on the `Value` datatype. `Idioms.Board.EliminateAt` and `Idioms.Board.KeepAt` apply them to one cell of the board.
- Idioms.Board.KeepAt: the loop over the choices (`Idioms.KeepChoices`) runs on a copy of the cell's list, which is then written back once; the source mutates each choice through a reference.
- Idioms.Board.PromoteDecided: the loop (`Idioms.DecideCells`) runs on a copy of the cell list, which is then written back once; the source collects mutable references to the decided cells first and replaces them afterwards, which has the same result because each cell is decided from its own value.
- `binary_search` is modelled as `IdiomsValue.Search`, a halving search that agrees with the standard one on ascending lists, and live lists are always ascending.
- `Idioms.Board.EvalOver`, `Idioms.Board.SolveOver` and `IdiomsSolve.Round`: these take the group table, the round bound or both as parameters, where the source uses its constants. `Eval` and `Solve` instantiate the constants. `Round` leaves a board too small for the groups unchanged where the source would panic; every board the source builds has 82 cells.
- Panics become preconditions. `Idioms.Board.Choose` and `Idioms.Board.ChooseAll` require the index inside the board. `Port.NextGivens` requires `i < |givens|`. `Port.Tally` and `Port.FindUnique` require every candidate character to be a digit (the `unwrap` at src/bin/sudoku-rust-port.rs:85); `Port.Analyse` discharges this.
- The at-least-one rule is not claimed sound for the idioms program, and neither is `eval` being idempotent. `keep` is applied while the loop runs, so a later group or digit sees earlier keeps: a cell the loop forces to one digit keeps exactly that digit for the rest of the loop (`IdiomsBoard.KeptStays`, `IdiomsBoard.OnlyLivePhase`), and a second digit that another group or a later character would force on the same cell is never kept. Proved are monotonicity, the effect of one step (`IdiomsBoard.AtLeastOneAtForces`) and the persistence of a kept digit.
- `Agreement.AtMostOneAgrees` covers the at-most-one pass. The two at-least-one passes differ by design (sequential `keep` against a `unique` map computed once), so no agreement is claimed for them.
- Integer widths: `usize` counters are unbounded `nat`s. No count exceeds 82 × 9, so nothing wraps.
