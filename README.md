# Sudoku solving engine (sudoku.go), modelled in Dafny

`sudoku.go` solves a 9×9 sudoku with rounds of constraint propagation,
deterministic filling and a simple hypothesis/revert search. This project
models that engine:

- The candidate lists (`List`).
- Their `contains` and `RemoveElement` operations.
- The three region accessors.
- `ParseGrid`.
- `updatePossibleValues`, `fillValues`, `makeHypothesis`, `revertLastHypothesis` and `checkCompletion`.
- The `Solve` loop.

The grid is the class `Sudoku.Grid`. It has the source's fields:

- two arrays of 81 entries indexed by `i = 9 * y + x`:
  - `values`, the `cell.value` of each cell (0 means unassigned);
  - `candidates`, each cell's `possibleValues`;
- `history`, the indices of assigned cells in order;
- `hypotheses`, the hypothesis frames;
- `isPossible`.

The methods that work on lists and cells are proved to compute
specification functions over plain sequences. Those functions live in five
modules; their lemmas say what the results mean:

- `Lists`: removal of the first occurrence of a value, and filtering by a
  set of values.
- `Propagation`: what `updatePossibleValues` leaves in each cell.
- `Filling`: what one `fillValues` pass assigns and logs.
- `Backtracking`: what the hypothesis scan picks and records, and what
  reverting undoes.
- `Regions`: the index lists of lines, columns and boxes.

The steps of `Solve` are proved against functions on a value `State`, which
holds the five fields of the grid:

- `Forward`: propagation, then one fill pass.
- `Recover`: revert, then propagation.
- `Hypothesize`: `makeHypothesis`.
- `RoundStep`: one round of the loop, with its stop flag.
- `Run`: the loop, which ends after the first round with the flag set, or
  after 100 rounds.

`PropagateAndFill`, `Backtrack`, `MakeHypothesis` and `Round` each ensure
that the grid's new state (`Snapshot`) is the matching function of its old
state. `Solve` ensures that its final state and its number of rounds are
`Run` of `RoundStep` from the initial state. Lemmas about the functions
state what a round and a run keep, when they stop, and what they do to a
full grid.

Behaviours of the code that the model keeps on purpose:

- The hidden-single tally runs `k` over 0..8, so the value 9 is never found
  as a hidden single. `HiddenRange` proves that the rule only assigns 1..8.
- The hidden-single rule does not check that the cell is unassigned. It
  may overwrite a value and log the cell again.
- `makeHypothesis` does not check that the cell is unassigned either. On
  propagated lists this makes no difference, because assigned cells have no
  candidates (`HypothesisOnBlank`).
- `makeHypothesis` always appends a new frame, even when the cell already
  has one; the old frame also records the new value (`Recorded`).
- The list of stop cells in `revertLastHypothesis` is filled by a loop of
  zero rounds, so it is always empty. Every revert therefore clears every
  logged cell and empties the log (`RevertLastHypothesis`, `UnwoundClears`).
- A grid that is already solved does not stop early. `makeHypothesis`
  never clears `isPossible` when it finds no cell, and the completion check
  in `Solve` is commented out (sudoku.go:399). Such a grid runs all 100
  rounds unchanged (`SolveIdle`, from `RoundIdle` and `FullGridIdle`).

## Model

| member | source | states |
|---|---|---|
| Lists.Contains | sudoku.go:39-47 | the scan reports true exactly when `e` occurs in the list |
| Lists.RemoveElement | sudoku.go:14-28 | the result is the list with the first occurrence of `e` removed (`RemoveFirst`) |
| Lists.RemoveFirstAbsent | sudoku.go:23-25 | a list that does not hold `e` is returned unchanged |
| Lists.RemoveFirstSplices | sudoku.go:15-27 | when `k` is the first index holding `e`, removal is `l[..k] + l[k+1..]`, one element shorter |
| Lists.RemoveFirstWithout | sudoku.go:14-28 | on an ascending list filtered by a set `S`, removing `e` gives the list filtered by `S + {e}` |
| Lists.WithoutMembers | sudoku.go:14-28 | a filtered list holds exactly the elements of the original that are outside the set |
| Lists.WithoutAscending | sudoku.go:14-28 | filtering an ascending list keeps it ascending |
| Lists.WithoutHead | sudoku.go:336-338 | the first element of a filtered list is the first element of the original outside the set, and every element before it is in the set |
| Regions.Line | sudoku.go:207-214 | nine cell indices, all within the grid |
| Regions.Column | sudoku.go:198-205 | nine cell indices, all within the grid |
| Regions.MiniGrid | sudoku.go:187-196 | nine cell indices, all within the grid |
| Regions.GetLine | sudoku.go:207-214 | the loop fills the nine slots with `Line(i)` |
| Regions.GetColumn | sudoku.go:198-205 | the loop fills the nine slots with `Column(i)` |
| Regions.LineMembers | sudoku.go:207-214 | the line's indices are distinct, include `i`, and are exactly the cells with the same `i / 9` |
| Regions.ColumnMembers | sudoku.go:198-205 | the column's indices are distinct, include `i`, and are exactly the cells with the same `i % 9` |
| Regions.MiniGridMembers | sudoku.go:187-196 | the box's indices are distinct, include `i`, and are exactly the cells in the same 3x3 box |
| Regions.BoxCell | sudoku.go:189-195 | box cell `k` lies `k / 3` lines below and `k % 3` columns right of the box's top-left cell |
| Propagation.DigitsAscending | sudoku.go:230 | the fresh list is 1..9 in ascending order |
| Propagation.PeerValuesMembers | sudoku.go:235-246 | the values struck from a cell are exactly those held by a cell in its line, column or box |
| Propagation.StruckStep | sudoku.go:240-245 | round `j` of the peer scan strikes the values at position `j` of the line, the column and the box |
| Propagation.StruckAll | sudoku.go:240-246 | after nine rounds the scan has struck every peer value |
| Propagation.StrikeThree | sudoku.go:241-245 | three removals from a filtered digit list are filtering by three more values |
| Propagation.WithoutAllDigits | sudoku.go:230-234 | removing every digit 1..9 from an assigned cell's list leaves it empty |
| Propagation.CandidateListWithout | sudoku.go:241-245 | filtering keeps a list ascending within 1..9, and takes elements only from the original |
| Propagation.PropagatedMeaning | sudoku.go:226-249 | an assigned cell's list is empty; an unassigned cell's list is ascending and holds exactly the digits that no peer holds |
| Filling.TallyZero | sudoku.go:268-276 | a tally of zero means no cell of the region lists the value |
| Filling.TallyOne | sudoku.go:268-276 | a tally of one, for a value that the cell at position `p` lists, means no other cell of the region lists it |
| Filling.HiddenMembers | sudoku.go:277-282 | the rule assigns exactly the values `k < n` that the cell lists and that have a tally of one |
| Filling.HiddenRange | sudoku.go:277-282 | the rule only assigns values 1..8, each one the cell lists; 9 is never found |
| Filling.HiddenSingleMeaning | sudoku.go:266-314 | a value is assigned to the cell at position `p` of a region exactly when it is in 1..8, the cell lists it, and no other cell of the region does |
| Filling.HitsAreDigits | sudoku.go:256-314 | every value either rule assigns is a digit 1..9 |
| Filling.HiddenOfNone | sudoku.go:277-282 | a cell with no candidates gets no hidden single |
| Filling.AssignedCellUntouched | sudoku.go:256-314 | an assigned cell with no candidates is hit by no rule |
| Filling.HitCellHoldsDigit | sudoku.go:256-314 | a cell that some rule hits ends up holding a digit 1..9 |
| Filling.FillLogMembers | sudoku.go:252-318 | the log of a pass names exactly the cells some rule hit |
| Filling.FillLogNone | sudoku.go:252-318 | when no rule hits any cell, the pass logs nothing |
| Filling.FillAssignsOnlyBlanks | sudoku.go:252-318 | on propagated lists a pass keeps every assigned cell, logs exactly the blank cells it fills, and fills them only with digits 1..9 |
| Filling.FillLogEmpty | sudoku.go:252-318 | a pass that logs nothing changes no value |
| Filling.FilledBelowFrames | sudoku.go:254-317 | part way through a pass the visited cells hold their final values and the others their old ones; the pass starts from the old values and ends at `FilledValues` |
| Filling.FillStep | sudoku.go:254-317 | visiting cell `n` sets it to its outcome and appends its log entries after the earlier ones |
| Backtracking.TestedMembers | sudoku.go:326-335 | a value is struck from cell `i` exactly when it is a digit that some frame of `i` recorded |
| Backtracking.LastFrameUpTo | sudoku.go:323-328 | `alreadyConsidered` is the last frame of cell `i`, or -1 when there is none |
| Backtracking.Pick | sudoku.go:321-337 | the scan stops at the first cell whose two-candidate list keeps a candidate after pruning, or reports 81 when there is none |
| Backtracking.PrunedBelowMeaning | sudoku.go:321-335 | once the scan has passed cells `0..n-1`, a cell keeps a value exactly when it listed it, unless it was passed, had two candidates, and some frame of that cell records the value |
| Backtracking.PrunedShape | sudoku.go:329-335 | pruning keeps a list in candidate shape and takes elements only from it |
| Backtracking.HypothesisChoice | sudoku.go:336-339 | the value committed is a digit the cell listed that no frame of the cell has recorded, and every candidate before it has been recorded |
| Backtracking.RecordedRemembers | sudoku.go:340-346 | exactly one frame is appended; it holds `{[v], c}`; earlier frames keep their cells; `v` is now recorded for `c`, and nothing that was recorded is lost |
| Backtracking.UnwoundClears | sudoku.go:361-371 | unwinding the whole log zeroes exactly the logged cells and keeps every other value |
| Sudoku.PropagatedBoard | sudoku.go:226-249 | propagated lists are in candidate shape, and assigned cells have none |
| Sudoku.HypothesisOnBlank | sudoku.go:320-337 | on propagated lists, the cell a hypothesis picks is unassigned |
| Sudoku.FullGridIdle | sudoku.go:385-415 | on a fully assigned grid, a fill pass changes and logs nothing and reports no contradiction, and no cell is eligible for a hypothesis |
| Sudoku.KeptChain | sudoku.go:385-415 | keeping unlogged values is transitive across the steps of a round |
| Sudoku.FillKeeps | sudoku.go:252-318 | a pass on propagated lists keeps every value that is not logged and logs none of those cells |
| Sudoku.UnwoundKeeps | sudoku.go:356-372 | reverting touches only logged cells and leaves an empty log |
| Sudoku.HypothesisKeeps | sudoku.go:336-339 | on propagated lists, committing a hypothesis keeps every value that is not logged |
| Sudoku.Grid.ParseGrid | sudoku.go:93-105 | the grid holds the given values, every list is 1..9, the log and the frames are empty, and the grid is deemed possible |
| Sudoku.Grid.CellCandidates | sudoku.go:228-247 | the list built for cell `i` is `Propagated(values, i)` |
| Sudoku.Grid.StrikePeers | sudoku.go:235-246 | the scan of line, column and box removes every peer value from the list |
| Sudoku.Grid.UpdatePossibleValues | sudoku.go:226-249 | every cell's list becomes what propagation computes from the values; nothing else changes |
| Sudoku.Grid.CountCandidates | sudoku.go:268-276 | entry `k` of the tally is the number of cells of the region that list `k`, for `k` in 0..8 |
| Sudoku.Grid.HiddenSingle | sudoku.go:277-282 | cell `i` ends with the last value the rule assigns over that region, no other cell changes, and the cell is logged once per assignment |
| Sudoku.Grid.HiddenSingles | sudoku.go:266-314 | the rule over box, then column, then line: the cell's outcome and log entries, in that order |
| Sudoku.Grid.NakedSingle | sudoku.go:256-265 | a blank cell with one candidate takes it and is logged; a blank cell with none clears `isPossible` |
| Sudoku.Grid.FillCell | sudoku.go:255-317 | one step: cell `i` settles to the last hit of either rule, all other cells keep their values, it is logged once per hit, and a contradiction clears `isPossible` |
| Sudoku.Grid.FillValues | sudoku.go:252-318 | the values become `FilledValues`, the log is extended by `FillLog`, and `isPossible` ends false exactly when it was false or some cell was contradictory |
| Sudoku.Grid.StrikeTested | sudoku.go:329-334 | for one frame, the inner scan over 1..9 removes every digit that frame tested |
| Sudoku.Grid.PruneTested | sudoku.go:325-335 | cell `i`'s list loses every digit recorded by any frame of `i`, and the last such frame is returned |
| Sudoku.Grid.ScanCells | sudoku.go:321-337 | the scan stops at `Pick`, having pruned exactly the cells up to it, with that cell's last frame |
| Sudoku.Grid.Commit | sudoku.go:338-348 | the first candidate becomes the value, the cell is logged, the frames become `Recorded`, and the grid is deemed possible |
| Sudoku.Grid.MakeHypothesis | sudoku.go:320-354 | prunes up to the picked cell and commits its first remaining candidate, or changes no value, log, frame or flag when no cell is eligible; on propagated lists, unlogged values are kept; the new state is `Hypothesize` of the old one |
| Sudoku.Grid.RevertLastHypothesis | sudoku.go:356-372 | every logged cell is zeroed, the others keep their values, and the log ends empty |
| Sudoku.Grid.CheckCompletion | sudoku.go:374-382 | true exactly when no cell is unassigned |
| Sudoku.Grid.PropagateAndFill | sudoku.go:389-392 | the lists become `PropagatedAll` of the old values, the values become `FilledValues` over them, the log grows by `FillLog`, the frames are unchanged, and `isPossible` is cleared exactly when some cell is contradictory; the new state is `Forward` of the old one |
| Sudoku.Grid.Backtrack | sudoku.go:393-398 | the values become `Unwound` of the old values and log, so logged cells are zeroed and the others kept; the log ends empty; the lists become `PropagatedAll` of the values left; frames and flag are unchanged; the new state is `Recover` of the old one |
| Sudoku.Grid.Round | sudoku.go:389-408 | the new state and the stop flag are `RoundStep` of the old state, and the round stops exactly when it leaves the grid impossible |
| Sudoku.Grid.Solve | sudoku.go:385-415 | the final grid and the number of rounds are `Run` of `RoundStep` from the initial grid: between 1 and 100 rounds, and fewer than 100 only when the grid ended impossible |
| Sudoku.Grid.SolveRound | sudoku.go:388-413 | one pass of the loop body on the way to the run's result: the run ends after it when the round stops or the counter reaches 100, and otherwise continues from the new grid |
| Sudoku.ForwardLogs | sudoku.go:389-392 | the forward step appends to the log exactly the cells some fill rule hits |
| Sudoku.ForwardKeeps | sudoku.go:389-392 | the forward step keeps every value that is not logged and logs none of those cells |
| Sudoku.ForwardSettled | sudoku.go:389-400 | a forward step that logs nothing changes no value, so its lists are still the propagated ones |
| Sudoku.ForwardIdle | sudoku.go:389-392 | on a full, possible grid the forward step changes no value and no log entry, reports no contradiction, and leaves no cell for a hypothesis |
| Sudoku.RecoverClears | sudoku.go:393-398 | recovery empties the log, zeroes exactly the logged cells, keeps the frames and the flag, and leaves the propagated lists |
| Sudoku.HypothesizeLogs | sudoku.go:320-354 | one cell is logged exactly when a cell is picked; otherwise values, log, frames and flag are unchanged |
| Sudoku.RoundStep | sudoku.go:389-408 | a round's stop flag is set exactly when the grid it leaves is impossible |
| Sudoku.RoundKeeps | sudoku.go:389-408 | a round keeps every value that is not logged at its start |
| Sudoku.RoundIdle | sudoku.go:389-408 | a round on a full, possible grid changes no value and no log entry and does not stop |
| Sudoku.RoundStepProperties | sudoku.go:389-408 | the round flags exactly the impossible grids, keeps unlogged values, and leaves full grids alone, for every grid |
| Sudoku.Run | sudoku.go:386-414 | the loop from round `counter` runs at least one more round and at most up to round 100 |
| Sudoku.RunFrom | sudoku.go:388-414 | the run from round `n` ends in the grid after its last round; no round before the last set the flag, and the last one did unless round 100 was reached |
| Sudoku.StopsAtFirstImpossible | sudoku.go:400-414 | for a step that flags exactly the impossible grids, a run ends at the first round that leaves the grid impossible, or at round 100 |
| Sudoku.RunKeeps | sudoku.go:388-414 | for a step that keeps unlogged values, the whole run keeps them |
| Sudoku.RunIdle | sudoku.go:399-414 | for a step that leaves full grids alone, a run from a full grid goes to round 100 and changes no value and no log entry |
| Sudoku.RunAdvance | sudoku.go:409-413 | from one round to the next, a run either ends or goes on from the new grid |
| Sudoku.SolveStops | sudoku.go:400-414 | `Solve` stops at the first round that leaves the grid impossible, or after 100 rounds; every earlier round left it possible |
| Sudoku.SolveKeeps | sudoku.go:385-415 | `Solve` keeps every given value that is not logged |
| Sudoku.SolveIdle | sudoku.go:385-415 | `Solve` on a full, possible grid runs all 100 rounds and changes no value and no log entry |

## Left out

- `LoadGrid` and `check` read a grid file. This is file I/O, so the model starts from the 81 numbers that `ParseGrid` receives.
- `Grid.ToString`, `PrintPossibleValues` and `List.ToString` only format text for display.
- `main` is the interactive prompt around `LoadGrid` and `Solve`.
- Every `fmt.Println` call is console output with no effect on the state.
- `setCellValue` is never called by the solver. It also writes to a copy of the cell, so it has no effect on the grid.
- `cell.xIndex`, `cell.yIndex` and `GetPosition` are derived from the index (`i % 9`, `i / 9`). They are only used in a console message, so cells are named by their index.
- In Go, `possibleValues` is a pointer and `RemoveElement` appends onto a prefix of the same backing array. The model treats every list as a value that the caller stores back. Sharing between lists is not modelled; in the engine no two cells share a list.
- The zero-round loop in `revertLastHypothesis`, which would fill the stop list, is not written out. The stop list is the empty list it always yields.
- `uint8` arithmetic: `Valid` keeps every value within 0..255. The engine only writes 0..9 to cells, cell indices below 81 to the log, and tallies of at most 9, so no `uint8` wrap-around can occur; it is not modelled.
- The Go `Solve` returns nothing. The model's `rounds` is a ghost result that only the contract reads.
- Sudoku.Grid.CountCandidates: the Go tally counts in `uint8`; the model counts in `int`, with the same values (at most 9).
