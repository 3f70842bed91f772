# Wolves and sheep: a Dafny model of the simulation engine

This project models the engine of a predator–prey simulation. Sheep graze a 100×100 resource grid, share their stores with nearby sheep and reproduce. Wolves hunt sheep and reproduce. The model covers:

- the agent rules of `framework.py`: construction, the edge-forced random walk, grazing, sharing, reproduction, the distance tests and the wolf's prey search;
- one tick of `maincode.py`'s `update`: shuffle, sheep pass, wolf pass, deletion of the prey;
- `set_wolves`.

It proves properties of each of these.

Files:

- `framework.dfy` (module `Framework`):
  - the `Agent` record, shared by sheep and wolves;
  - `NewAgent` (`Agent.__init__`);
  - `Move` and the function `Walk` that gives where a move lands;
  - the squared distances;
  - `FirstInStrike`, the nested search loop of `Wolf.eat`;
  - `ShareStep`/`Shared`, the specification of `share_with_neighbours`, with lemmas on conservation, non-negativity and untouched far sheep.
- `removal.dfy` (module `Removal`):
  - `SortDescending`, which is `sorted(..., reverse=True)`;
  - `DeleteAll`, the loop of `del flock[k]`, where `None` is the `IndexError`;
  - `Without`, the flock with a set of positions taken out;
  - lemmas about exact removal and about repeated indices.
- `simulation.dfy` (module `Simulation`):
  - `Shuffle` (`random.shuffle`) and `SetWolves`;
  - the per-turn specifications `SheepStep` and `WolfStep`, the loop traces `SheepPassTrace` and `WolfPassTrace`, `Reported`, the list of prey indices, and `Grazes`/`Visits`, which give what a cell holds after the sheep that landed on it have eaten;
  - the class `World`, which owns the grid (`array2<real>` indexed `[y, x]`, updated in place by grazing) and the two lists `flock` and `wolves`.

  In the source every agent holds the shared list and the environment. Here an agent operation takes the agent's index into a `World` list, so when sheep `i` meets index `i` while sharing, that is the self-pair (a no-op average). `Update` is the tick. It returns, as ghost values, the traces of its two loops: the flock before each sheep's turn and the value that sheep found on its cell, the cell each sheep landed on, and the pack before each wolf's turn and that wolf's answer.

Randomness is passed in as parameters:

- the two coins of a move (`random.random() < 0.5`);
- the `randint(0, 100)` draws of a construction;
- the `randbelow(i + 1)` draws of `random.shuffle`'s swap loop.

Real numbers stand in for floats. Each `** 0.5` distance test becomes an exact comparison of squared integer distances:

- `dx*dx + dy*dy <= n*n` for the sharing neighbourhood;
- `dx*dx + dy*dy <= 2` for the strike range.

Python's `% 100` agrees with Dafny's `%` because the divisor is positive. Both give a result in [0, 99], even for a negative operand.

Behaviours of the code that the model keeps as written:

- The walk wraps: an interior 99 plus 1 becomes 0.
- The x edge branch tests the already-moved y, which is never 100, so x = 0 and x = 100 both become 1.
- When a cell holds less than 10, `Sheep.eat` replaces the store with the cell's value instead of adding to it.
- `range(len(...))` fixes the number of agents each pass visits before any birth, so lambs and cubs born in a tick are not moved in it. Later sheep in the same pass still share with the lambs.
- A wolf takes the first sheep in list order that is within strike range, not the nearest one.
- `Wolf.eat`'s inner loop over its own pack ignores the pack member it visits. The search therefore finds nothing only when the pack is empty or no sheep is in range.
- The prey indices are not de-duplicated. Deleting a repeated index removes the sheep that shifted into that slot, or fails with an `IndexError` when the index named the last sheep. `RepeatedIndexRemovesNeighbour` and `RepeatedLastIndexFails` show both cases. Exact removal is proved for distinct indices (`DeleteDistinctIndices`, `Update`).

## Model

| member | source | states |
|---|---|---|
| Framework.NewAgent | framework.py:35-51 | the store starts at 0; a given coordinate is kept; a `None` coordinate is the draw, an integer in [0, 100] |
| Framework.Walk | framework.py:80-104 | y = 100 goes to 99 and y = 0 to 1 with no coin, otherwise y steps by its coin mod 100; x at 0 or 100 always lands on 1, otherwise x steps by its coin mod 100; the store is kept; from any integer start the agent lands inside [0, 99] |
| Framework.Move | framework.py:80-104 | the moved agent is `Walk` of the old one: the nested branches, including the x-edge test on the already-moved y, land where `Walk` says |
| Framework.SheepDistanceSq | framework.py:168-171 | the squared distance is non-negative and is 0 exactly when the two sheep share a cell |
| Framework.WolfDistanceSq | framework.py:204-207 | the squared distance from the wolf to (x, y) is non-negative and is 0 exactly at the wolf's own cell; the agent argument plays no part |
| Framework.StrikeIsAdjacency | framework.py:229 | a sheep is within strike range (squared distance at most 2) exactly when it is on the wolf's cell or one of the eight around it |
| Framework.FirstInStrike | framework.py:220-232 | with an empty pack nothing is found; otherwise the result is the lowest sheep index within strike range, and `None` means that no sheep is in range |
| Framework.ShareStep | framework.py:156-162 | one pairing keeps the length and every position, changes no sheep other than the pair, and is a no-op when the sheep meets itself |
| Framework.Shared | framework.py:153-162 | sharing with the whole list in order keeps its length and every sheep's position |
| Framework.ShareStepAverages | framework.py:158-162 | a pair within the neighbourhood ends with equal stores, each the mean of the two |
| Framework.ShareStepSkipsFar | framework.py:158 | a pair farther apart than the neighbourhood is left unchanged |
| Framework.PairAverageConserves | framework.py:159-162 | giving two distinct sheep the mean of their two stores keeps the flock's total store |
| Framework.NearStepConserves | framework.py:158-162 | averaging a sheep with a different sheep within its neighbourhood keeps the flock's total store |
| Framework.ShareStepConserves | framework.py:159-162 | one averaging step keeps the flock's total store |
| Framework.SharedConserves | framework.py:153-162 | sharing with the whole flock keeps the flock's total store |
| Framework.SharedKeepsNonNegative | framework.py:153-162 | sharing keeps every store non-negative |
| Framework.ShareSameCellExample | framework.py:153-162 | two sheep on one cell with stores 10 and 30 (neighbourhood 5) both hold 20 once the first has shared |
| Framework.SharedLeavesFar | framework.py:153-162 | a sheep whose squared distance from the sharer exceeds neighbourhood² keeps its record unchanged |
| Removal.SortDescending | maincode.py:230 | `sorted(reverse=True)` returns the same indices (same multiset and length), largest first |
| Removal.SortDistinctIsStrict | maincode.py:230 | sorting distinct indices gives a strictly descending list holding the same indices |
| Removal.DeleteAll | maincode.py:230-231 | a run of deletions that completes removes exactly one element per index, and every survivor was in the list |
| Removal.DeleteDescendingRemovesExactly | maincode.py:229-231 | deleting strictly descending in-range indices removes exactly those positions and keeps the rest in their original order |
| Removal.DeleteDistinctIndices | maincode.py:228-231 | sorting distinct in-range indices largest first and deleting in that order removes exactly those positions, the rest kept in order |
| Removal.RepeatedIndexRemovesNeighbour | maincode.py:230-231 | a repeated index k below the last position deletes positions k and k+1: the second deletion removes the sheep that shifted down |
| Removal.RepeatedLastIndexFails | maincode.py:230-231 | a repeated index naming the last position makes the second deletion fail (IndexError) |
| Simulation.Shuffle | maincode.py:192-193 | the swap loop gives exactly `Swaps` of the list under the draws, which has the same length and the same multiset of agents, so only the order changes |
| Simulation.Swaps | maincode.py:192-193 | the swaps for indices i − 1 down to 1 keep the length and the multiset of the list |
| Simulation.SetWolves | maincode.py:127-157 | builds exactly n wolves, the k-th placed by the k-th pair of draws (x drawn first, as `Agent.__init__` does), each with store 0 and inside [0, 100] |
| Simulation.Grazes | framework.py:136-141 | a non-negative cell grazed any number of times stays between 0 and its starting value |
| Simulation.GrazesClosedForm | framework.py:136-141 | after m sheep have eaten from a cell holding v ≥ 0, it holds v − 10m when v ≥ 10m, and 0 otherwise |
| Simulation.Visits | maincode.py:200-205 | the number of sheep landing on a cell is at most the number of turns |
| Simulation.VisitsZeroIsUnvisited | maincode.py:200-205 | a cell has no visits exactly when no sheep lands on it |
| Simulation.SheepStepFacts | maincode.py:202-205 | a sheep's turn moves only that sheep, to `Walk` of it; at most one lamb is appended, on the sheep's new cell; stores stay non-negative when the cell was |
| Simulation.FirstPreyUnique | framework.py:220-232 | the wolf's answer is determined by its cell and the flock |
| Simulation.WolfStepFacts | maincode.py:218-225 | a wolf's turn moves only that wolf, to `Walk` of it, and changes no other wolf; at most one cub is appended, on the wolf's new cell; kill counts stay non-negative |
| Simulation.Reported | maincode.py:214-222 | the list of reported indices is no longer than the list of wolves |
| Simulation.ReportedMembers | maincode.py:214-222 | every reported index is some wolf's answer, and every wolf's answer that found a sheep is reported |
| Simulation.SheepPassPrefix | maincode.py:200-205 | after j turns of the sheep loop: the sheep that had their turn stand at `Walk` of their start, the others where they started, the flock grew by at most j lambs, all on the board, and no store is negative |
| Simulation.WolfPassPrefix | maincode.py:214-225 | after j turns of the wolf loop: the wolves that had their turn stand at `Walk` of their start, the others are unchanged, the pack grew by at most j cubs, all on the board, and no kill count is negative |
| Simulation.ReportedInFlock | maincode.py:214-222 | every index the wolves report is a valid index into the flock they hunted |
| Simulation.World.MoveSheep | maincode.py:202 | sheep i becomes `Walk` of itself under its coins, so it ends inside [0, 99]; no other sheep changes |
| Simulation.World.MoveWolf | maincode.py:218 | wolf j becomes `Walk` of itself under its coins, so it ends inside [0, 99]; no other wolf changes |
| Simulation.World.SheepEat | framework.py:132-141 | on a cell of at least 10, the cell drops by exactly 10 and the store rises by exactly 10; on a poorer cell, the store becomes the cell's value and the cell 0; no other cell or sheep changes; the grid and the stores stay non-negative |
| Simulation.World.ShareWithNeighbours | framework.py:145-162 | the new flock is `Shared` of the old one over the whole list, so the total store is kept, stores stay non-negative and far sheep are untouched |
| Simulation.World.SheepReproduce | framework.py:173-181 | at or above the threshold the parent's store becomes 0 and one sheep with store 0 at the parent's position is appended; below it nothing changes |
| Simulation.World.WolfEat | framework.py:210-232 | the answer satisfies `FirstPrey`: `Some` gives the lowest sheep index within strike range, and `None` means that no sheep is in range; on a hit the kill count rises by exactly 1, otherwise the pack is unchanged; the flock is never modified |
| Simulation.World.WolfReproduce | framework.py:234-243 | at or above the threshold the parent's store becomes 0 and one wolf with store 0 at the parent's position is appended; below it nothing changes |
| Simulation.World.SheepTurn | maincode.py:202-205 | the flock becomes `SheepStep` of the old one: move by the coins, eat from the landing cell, share with the whole flock, maybe reproduce. `found` is the landing cell's value before eating; that cell becomes `Leftover(found)` and no other cell changes; grid and stores stay non-negative |
| Simulation.World.SheepLoop | maincode.py:200-205 | the loop over the sheep present at the start, each turn a `SheepStep`; measured against the grid as the loop found it, each sheep finds its cell grazed by the sheep before it there, and every cell ends grazed once per sheep that landed on it |
| Simulation.World.SheepPass | maincode.py:200-205 | exactly the sheep present at the start take a turn, in index order, each a `SheepStep` (`SheepPassTrace`); what sheep j finds is its landing cell's starting value grazed once by each earlier sheep that landed there (`Grazes`, `Visits`), so at most that value and exactly it on the first visit; every cell ends grazed once per sheep that landed on it, so no cell rises and a cell no sheep lands on is unchanged; grid and stores stay non-negative |
| Simulation.World.WolfTurn | maincode.py:218-225 | the reported prey is `FirstPrey` for the moved wolf over the flock: the lowest in-range index, or `None` exactly when no sheep is in range; the pack becomes `WolfStep` of the old one: move, kill count +1 on a hit, maybe reproduce |
| Simulation.World.WolfPass | maincode.py:214-225 | exactly the wolves present at the start take a turn, in index order; each answer is `FirstPrey` for that wolf where its move left it, and each turn is a `WolfStep` (`WolfPassTrace`); `prey` is `Reported` of the answers: one entry per wolf that found a sheep, in wolf order |
| Simulation.World.RemovePrey | maincode.py:227-231 | the deletion succeeds exactly when `DeleteAll` over the descending sort does, and then leaves its result |
| Simulation.World.ShuffleAndGraze | maincode.py:191-205 | the pack becomes `Swaps` of itself; the sheep loop runs over `Swaps` of the flock as `SheepPassTrace` says; the flock at most doubles and ends on the board; what sheep j finds is its landing cell's starting value grazed by each earlier sheep there, and every cell ends grazed once per sheep that landed on it (so none rises, and unvisited cells are unchanged) |
| Simulation.World.HuntAndRemove | maincode.py:214-231 | the wolf loop runs as `WolfPassTrace` says over the flock as it stood; `prey` is `Reported` of the answers, each a valid index; the deletion succeeds exactly when `DeleteAll` over the descending sort does, and distinct indices remove exactly those sheep |
| Simulation.World.Update | maincode.py:191-231 | the sheep loop runs over `Swaps` of the flock and the wolf loop over `Swaps` of the pack, as the two traces say, with the wolves hunting the flock the sheep left (`hunted`); `prey` is `Reported` of the wolves' answers; the deletion succeeds exactly when `DeleteAll` does and leaves its result; distinct prey indices remove exactly those sheep with the rest in order; the wolf count never falls and at most doubles, and so does the flock before the hunt; at most one prey per wolf, each a valid index; after a successful deletion the flock is smaller than `hunted` by exactly the number of prey; what each sheep finds and what every cell ends with are given exactly, as in `SheepPass`; so no cell rises, none goes negative, and a cell no sheep lands on is unchanged; every wolf, and after a successful deletion every sheep, ends inside [0, 99] |

## Left out

- gui.py (windows, menus, parameter dialogs): the six parameters are taken as natural numbers.
- `create_environment` (file reading and `float` parsing): the grid is given as a 2-D array of at least 100 × 100.
- `set_sheep` (HTTP fetch and HTML scraping, with a random fallback): only its result matters, a list of agents built by `Agent.__init__`, which is `NewAgent`.
- All plotting in `update`, plus `run`, the animation and the `__main__` blocks.
- The commented-out alternative `move` at framework.py:62-78.
- The random sources: they are parameters (coins, draws, shuffle draws). No claim is made about their distribution.
- Floating point and `sqrt`: stores and cells are `real`, and the distance tests compare squared integers. These tests agree with the source's `sqrt` comparisons for coordinates of this size.
- Wolves' kill counts are held as `real` values, which only ever take whole numbers.
- Simulation.World.SheepEat: requires the sheep's cell to be inside the grid. The source would index out of range, or wrap on a negative index. Its only caller runs it right after a move, which leaves the sheep inside [0, 99].
- Simulation.World.SheepTurn: requires a grid with no negative cell and a flock with no negative store. `create_environment` parses any float, so the source accepts negative cells. On such a cell `Sheep.eat` copies the negative value into the store and raises the cell to 0 (framework.py:139-141). The environment is taken to hold only non-negative amounts of grass, and every store starts at 0, so these requires hold from the first tick. The model does not describe a tick on a grid with a negative cell, where "no cell rises" would be false.
- Simulation.World.SheepPass: requires a non-negative grid and non-negative stores, for the reason given under `SheepTurn`.
- Simulation.World.ShuffleAndGraze: requires a non-negative grid and non-negative stores, for the reason given under `SheepTurn`.
- Simulation.World.Update: requires a non-empty flock, because `flock[0]` at maincode.py:210 raises otherwise. It also requires a non-negative grid and non-negative stores, for the reason given under `SheepTurn`. When a deletion fails (`ok` false), the partly-deleted flock is not described.
- Simulation.Shuffle: takes its swap draws as a parameter. It shows that the result is a permutation of its input, not that every permutation is equally likely.
