# Game of Life genetic search: a verified model of its core

The modelled program breeds Game of Life seeds. Each individual (`player`) owns a
small seed board ("starting board") and a cellular automaton (`gameoflife_t`).
To evaluate a player, its seed is placed in the middle of the automaton's board
and the automaton runs until its recent history repeats. The player pays a cost
for each live cell it starts with. It earns a reward for every step it survives
and, after each step, a smaller reward for every cell alive then. After
each generation the best tenth of the population survives. Every other player
is mutated with a survivor as donor, the survivors being dealt out round-robin.
Usually its seed is rebuilt from the donor's seed. A complete mutation instead
fills random cells into the player's own seed and never reads the donor.

The model is split into six modules, one file each:

- `boards.dfy` (module `Boards`): boolean boards as sequences of rows, and the
  rescan count of live cells with its algebra. The automaton's running counter
  is meant to equal this count.
- `game_of_life.dfy` (module `GameOfLife`): the automaton. It covers the
  constructor, `set_cell`, `set_board`, `random_fill`, `clear_board`,
  `count_neighbours` under both edge policies, and the double-buffered B3/S23
  step. The step also exists as loop methods proved equal to the functional
  step.
- `player.dfy` (module `Player`): one individual. It covers the constructor,
  the seed operations, `init_simulation`, `step_simulation`, the bounded
  history, `detect_periodicity`, and the two run loops. The border test of the
  wall loop is a loop method.
- `mutation.dfy` (module `Mutation`): `mutate`. Every `rand()` call reads the
  next value of an oracle stream `rand: nat -> nat` at a cursor, and each
  function returns the cursor after the draws it used. A pass over the seed is
  modelled in two parts:
  - the sequence of per-cell decisions (negate, copy, relocate to a target);
  - the writes those decisions make on a cleared seed, applied in order.
- `evolution.dfy` (module `Evolution`): the selection arithmetic of `main.cpp`.
  It covers the survivor boundary, the round-robin donor index, the breeding
  loop as a method, the configured offsets, and one evaluation of a player.
- `outcomes.dfy` (module `Outcomes`): the `Result`/`Option` types. Every
  `runtime_error` the program throws becomes an `Err`.

Cell (x, y) of a board `b` is `b[y][x]`, as in `board[posY][posX]`.

## Model

| member | source | states |
|---|---|---|
| Boards.LiveCountUpdate | src/gameoflife_t.cpp:27-32 | Setting one cell changes the rescan count by the new bit minus the old bit, which is exactly the delta `set_cell` applies to the counter. |
| Boards.LiveCountZero | include/gameoflife_t.h:29 | The rescan count is 0 exactly on an all-dead board, so the cleared board and the counter value 0 agree. |
| Boards.PlacedCount | src/player.cpp:90-96 | A seed copied onto an otherwise dead board keeps its number of live cells. |
| GameOfLife.New | src/gameoflife_t.cpp:11-21 | Fails with `InvalidSize` exactly when a dimension is below 1. Otherwise the board has the given dimensions and edge policy, every cell is dead and the counter is 0. |
| GameOfLife.ClearBoard | include/gameoflife_t.h:29 | Every cell is dead and the counter is 0 and exact, whatever drift it had. Dimensions and edge policy are kept. |
| GameOfLife.SetCell | src/gameoflife_t.cpp:23-34 | Fails exactly on an out-of-range position. Otherwise only cell (x, y) changes, it takes the given state, and the distance between counter and rescan is unchanged, so an exact counter stays exact. |
| GameOfLife.CheckBoardShape | src/gameoflife_t.cpp:37-53 | Accepts exactly the boards of the automaton's dimensions. A size mismatch is reported before non-rectangularity. |
| GameOfLife.SetBoardAsWritten | src/gameoflife_t.cpp:36-62 | As the code is written: the same errors as the shape check, the board ends equal to the reference board, and the counter ends at count(reference) minus count(old board). |
| GameOfLife.SetBoardExactIffDeadBefore | src/gameoflife_t.cpp:55-60 | On an automaton with an exact counter, `set_board` as written leaves the counter exact if and only if the old board was all dead. |
| GameOfLife.SetBoardDriftWitness | src/gameoflife_t.cpp:55-60 | A 1 x 1 live cell overwritten with a dead one leaves the counter at -1, which is 2^64 - 1 as a `size_t`, on a board with no live cell. The corrected `SetBoard` leaves 0. |
| GameOfLife.SetBoard | src/gameoflife_t.cpp:36-62 | Corrected `set_board`: the same errors, the board equals the reference board and the counter is exact. |
| GameOfLife.RandomFill | src/gameoflife_t.cpp:65-73 | A cell ends alive exactly when it was alive or its draw succeeded, so no cell dies. The counter keeps its relation to the rescan. |
| GameOfLife.Prev | src/gameoflife_t.cpp:91-98 | The wrapped previous index is `(p - 1) mod size`. |
| GameOfLife.Next | src/gameoflife_t.cpp:91-98 | The wrapped next index is `(p + 1) mod size`. |
| GameOfLife.NeighboursMatchReference | src/gameoflife_t.cpp:90-110 | Both eight-term sums of `count_neighbours` equal an independent Moore count over the offset list. On a torus the offsets are taken modulo the size; on a bounded board only in-bounds neighbours count. |
| GameOfLife.CountNeighbours | src/gameoflife_t.cpp:75-111 | Fails exactly on an out-of-range position. Otherwise the result is the reference Moore count under the automaton's edge policy, and it is at most 8. |
| GameOfLife.TorusNeighboursDistinct | src/gameoflife_t.cpp:90-98 | On a torus at least 3 x 3, the eight wrapped neighbour positions are pairwise distinct and differ from the cell itself. |
| GameOfLife.NarrowTorusRepeatsColumns | src/gameoflife_t.cpp:91-98 | On a torus 1 or 2 columns wide, the left and right neighbour columns coincide. At width 1 they are the cell's own column. |
| GameOfLife.SingleCellTorusCountsItselfEightTimes | src/gameoflife_t.cpp:90-98 | A live cell on a 1 x 1 torus has 8 neighbours: itself, counted eight times. |
| GameOfLife.NextState | src/gameoflife_t.cpp:120-133 | The B3/S23 truth table. A dead cell is born with exactly 3 neighbours; a live cell survives with 2 or 3. |
| GameOfLife.StepFollowsRule | src/gameoflife_t.cpp:113-137 | Every cell of the stepped board is the B3/S23 rule applied to the cell and its reference Moore count on the board before the step. |
| GameOfLife.StepsSucc | src/gameoflife_t.cpp:114-137 | n + 1 steps are n steps followed by one more. |
| GameOfLife.StepsAdd | src/gameoflife_t.cpp:114-137 | a steps followed by c steps are a + c steps. |
| GameOfLife.StepRow | src/gameoflife_t.cpp:117-134 | The column loop for one row writes the rule's value into every cell of that row, reading neighbours only from the old board. Other rows are untouched, and the counter moves with the rescan of the buffer. |
| GameOfLife.StepOnce | src/gameoflife_t.cpp:115-136 | One pass of the double-buffered loop, including its counter updates, equals the functional step. |
| GameOfLife.StepSimulation | src/gameoflife_t.cpp:113-140 | `num_steps` passes equal `num_steps` functional steps, and an exact counter stays exact. |
| Player.NewPlayer | src/player.cpp:12-23 | Fails with `InvalidSize` exactly when a board or seed dimension is below 1. Fails with `SeedTooLarge` exactly when the dimensions are positive and the seed is larger than the board. Otherwise the player has an all-dead seed of the given dimensions, an empty history and the automaton `New` builds. |
| Player.SetStartingBoardCell | src/player.cpp:26-32 | Fails exactly on a position outside the seed. Otherwise only that seed cell changes, and nothing but the seed changes. |
| Player.RandomFillStartingBoard | src/player.cpp:35-43 | A seed cell ends alive exactly when it was alive or its draw succeeded, so no live seed cell is cleared. Nothing but the seed changes. |
| Player.ClearStartingBoard | include/player.h:41 | An all-dead seed of the declared dimensions. Board, history and score are unchanged. |
| Player.ClearGameBoard | include/player.h:40 | Only the automaton changes. It is cleared with an exact counter; the seed is kept. |
| Player.CopiedSeedIsPlaced | src/player.cpp:91-96 | The clear-then-copy loops put each seed cell at its offset and leave every other cell dead. The counter is exact and equals the seed's live count. |
| Player.PlaceSeed | src/player.cpp:91-96 | Clearing the board and then copying the seed through `set_cell` leaves the seed at the offsets and dead cells elsewhere. The counter is exact and equals the seed's live count. |
| Player.InitSimulation | src/player.cpp:79-105 | Fails exactly when an offset would put the seed off the board. Otherwise the board holds the placed seed, the history is empty, the coefficients are stored, and the score is -(live seed cells) x cost. |
| Player.StepSimulation | src/player.cpp:108-117 | The automaton advances by the step count narrowed to `unsigned int`. The seed and coefficients are kept, and exactly one snapshot, the new board, is appended without trimming. |
| Player.StepRewardOncePerCall | src/player.cpp:108-117 | One call adds the step reward once, whatever the step count, plus the per-cell reward times the live cells on the board after the steps. |
| Player.TwoSingleStepsVersusOneDoubleStep | src/player.cpp:108-117 | Two calls of one step reach the same board as one call of two steps. They earn the step reward twice, earn the per-cell reward once more for the intermediate board, and leave one more snapshot. |
| Player.StepCountNarrowedToUnsignedInt | src/player.cpp:108-109 | A step count of 2^32 leaves the board unchanged but still appends a snapshot. |
| Player.Trim | src/player.cpp:126-127 | A history of at most 20 is kept. A longer one loses exactly its oldest snapshot. |
| Player.IdenticalIffEqual | src/player.cpp:182-190 | The cell-by-cell comparison loop succeeds exactly when the two boards are equal. |
| Player.ScanFrom | src/player.cpp:181-194 | The downward scan from index i returns 1 exactly when some board at index 0..i equals the last one. |
| Player.DetectPeriodicity | src/player.cpp:172-197 | Returns 0 for fewer than two boards. Otherwise it returns 1 exactly when the last board equals some earlier board. |
| Player.IterateFacts | src/player.cpp:123-129 | One loop iteration steps the automaton once and keeps the seed and coefficients. It appends the new board and keeps the history within 20. It adds the step reward plus the per-cell reward times the counter after the step; with an exact counter that is the live cells of the new board, and with no per-cell reward it is the step reward alone. |
| Player.IteratedFacts | src/player.cpp:120-133 | k iterations step the automaton k generations and keep the seed and coefficients. The history grows by at most one per iteration and never beyond 20, unless it was already longer. |
| Player.Earned | src/player.cpp:111 | k step rewards added one at a time sum to k times the reward. |
| Player.CellRewardIsProduct | src/player.cpp:112 | Paying the per-cell reward cell by cell equals the product of the counter and the reward, for any integer counter. |
| Player.AliveEarnedExact | src/player.cpp:112 | With an exact counter, the first generation's per-cell reward is the reward times the live cells of the stepped board, and the counter stays exact for the rest. |
| Player.IterateScore | src/player.cpp:111-112 | One iteration adds the step reward and the per-cell reward for the counter after the step, and keeps both coefficients. |
| Player.IteratedScore | src/player.cpp:120-133 | k iterations add k step rewards plus, for each of the k generations, the per-cell reward for the counter after that generation. |
| Player.PeriodicFromFound | src/player.cpp:120-133 | The iteration count found is the least one in range after which the history repeats. |
| Player.PeriodicFromNone | src/player.cpp:120-133 | Finding no count means the history repeats after none of the counts in range. |
| Player.StepUntilPeriodic | src/player.cpp:120-133 | The loop stops after exactly the first iteration count at which `detect_periodicity` holds. It returns that count and the player after that many iterations. `None` means no count within the fuel. |
| Player.PeriodicRunFacts | src/player.cpp:120-133 | A finished run has stepped the automaton once per iteration and kept the seed and coefficients. Its history stays within 20 (unless it started longer), and history length plus steps is at least 2, so from an empty history the count is at least 2. |
| Player.PeriodicRunScore | src/player.cpp:120-133 | A finished run scores its start score plus one step reward per iteration and the per-cell reward for every generation it reached. |
| Player.WallHit | src/player.cpp:140-155 | The two border loops report a hit exactly when some cell of the first or last row or column is alive. |
| Player.StoppedFromFound | src/player.cpp:136-169 | The iteration count found is the least one in range after which a border cell is alive or the history repeats. |
| Player.StoppedFromNone | src/player.cpp:136-169 | Finding no count means neither condition holds after any count in range. |
| Player.StepUntilWallOrPeriodic | src/player.cpp:136-169 | The loop stops after exactly the first iteration count at which a border cell is alive or the history repeats, and it returns that player. |
| Player.WallStopsAtOnce | src/player.cpp:136-169 | A player whose board already has a live border cell stops the wall loop at once, with 0 steps and the player unchanged. |
| Player.SeedOnLeftWallStopsAtOnce | src/player.cpp:136-169 | A seed placed at column 0 with a live cell in its first column stops the wall loop at once, with 0 steps and the player unchanged. |
| Mutation.ChanceEdges | src/player.cpp:206 | A negative percentage never succeeds, and a draw of 0 succeeds at any non-negative percentage. Any draw up to `RAND_MAX` succeeds at 101 percent or more. |
| Mutation.RowMajor | src/player.cpp:228-229 | The nested loops visit every seed cell exactly once, in bounds, in strict row-major order. |
| Mutation.Probe | src/player.cpp:238-245 | The probe loop stops at the first probe that finds a dead donor cell, or at the 20th probe whatever that probe finds. |
| Mutation.ProbeOnFullDonor | src/player.cpp:241-247 | On an all-live donor every probe fails and the loop stops at the last one. |
| Mutation.VisitCell | src/player.cpp:230-251 | The cell is negated exactly when the change test succeeds. It is relocated exactly when that test fails, the donor cell is alive and the relocate test succeeds, and the target is the probe the loop stops at. Otherwise it is copied. The cursor advances by the draws used: one for a negation, one or two for a copy (two when the donor cell is alive), and for a relocation two plus two per probe. |
| Mutation.Scan | src/player.cpp:228-253 | One decision per cell, the first being the first cell's visit. A relocation happens only at a live donor cell and lands in bounds, and every cell uses at least one draw. |
| Mutation.ScanFollowsCursors | src/player.cpp:228-253 | Decision k of a pass is the visit of cell k at the cursor where visit k - 1 stopped, and the pass ends at the cursor where its last visit stopped. |
| Mutation.WriteOf | src/player.cpp:231-251 | A negation writes the negated donor cell and a copy writes the donor cell, both at the cell itself. A relocation writes `true` only at its target. |
| Mutation.OutcomeCell | src/player.cpp:225-253 | A visited cell ends alive exactly in these cases: a later relocation lands on it; it negates a dead donor cell; it copies a live one; or it is relocated after some relocation up to it landed there. A later copy or negation therefore erases an earlier relocation. |
| Mutation.LaterRelocationWins | src/player.cpp:247 | A relocation that lands on a cell after the cell's own visit leaves it alive. |
| Mutation.RelocatedCellValue | src/player.cpp:237-248 | A relocated cell that no later relocation lands on is alive exactly when an earlier relocation, or its own, landed on it. |
| Mutation.Retry | src/player.cpp:223-254 | The retry loop returns a pass that changed something. The pass starts at or after the cursor and is the scan from its start. |
| Mutation.RetryStopsAtFirstChange | src/player.cpp:223-254 | A first pass that changes something ends the loop at once, whatever the fuel. |
| Mutation.RetryAfterNoChange | src/player.cpp:223-254 | A pass that changes nothing starts the next pass at the cursor where it stopped. |
| Mutation.RetryIsFirstHit | src/player.cpp:223-254 | The retry loop is a search along the chain of passes, each starting where the previous one stopped, for the first pass that changes a cell. |
| Mutation.RetryIsFirstChange | src/player.cpp:223-254 | The pass the loop returns is pass k of the chain for some k within the fuel. That pass changes a cell, and passes 0..k-1 do not. |
| Mutation.RetryNoneIff | src/player.cpp:223-254 | The loop runs out of fuel exactly when none of passes 0..fuel changes a cell. |
| Mutation.HopelessScan | src/player.cpp:228-253 | With both per-cell percentages negative every decision is a copy. |
| Mutation.HopelessRetry | src/player.cpp:223-254 | With both per-cell percentages negative the retry loop never ends, whatever the fuel. |
| Mutation.CertainScan | src/player.cpp:228-253 | At a change percentage of 101 or more every cell is negated. |
| Mutation.CertainRetry | src/player.cpp:223-254 | At a change percentage of 101 or more the loop ends after its first pass with the complement of the donor. |
| Mutation.NegatedEverywhere | src/player.cpp:231-233 | A pass that negates every cell leaves the complement of the donor. |
| Mutation.Mutate | src/player.cpp:200-260 | Returns 2 exactly when the complete test succeeds, and then no live seed cell is cleared. Returns 1 exactly when the complete test fails and the big test succeeds, and 0 otherwise. Only the seed changes. |
| Mutation.MutatedSeedFromDonor | src/player.cpp:219-254 | Outside the complete branch, the new seed is the outcome of a pass over the donor at the percentages the big test chose. That pass is the first pass of the retry loop, started two draws after the cursor, that changes a cell. The old seed plays no part. |
| Mutation.RelocationOverwrittenByLaterCopy | src/player.cpp:237-251 | At the configured percentages, a 2 x 1 donor whose live left cell relocates onto the right cell ends with an all-dead seed and code 0. The right cell's own copy erases the relocation. |
| Mutation.FullDonorRelocationIsAClone | src/player.cpp:241-247 | On a 1 x 1 live donor a relocation fails all 20 probes and still writes `true`. The new seed equals the donor although the loop counted a mutation. |
| Evolution.SurvivorBoundary | main.cpp:42 | `9n/10` rounded down. It is below n for every n of at least 1, so there is at least one survivor. |
| Evolution.Donor | main.cpp:97 | The donor index lies among the survivors, and it differs from the index of any player being mutated. |
| Evolution.DonorRoundRobin | main.cpp:97 | Players n - w apart share their donor. |
| Evolution.EachSurvivorServesNine | main.cpp:94-97 | With 1000 players the boundary is 900. Each survivor s is the donor of exactly the nine indices congruent to s - 900 modulo 100. |
| Evolution.Breed | main.cpp:94-100 | Survivors are untouched. Every player below the boundary is mutated exactly once, in index order, from its donor's seed, and each mutation reads its draws where the previous one stopped. |
| Evolution.ConfiguredOffsetsFit | main.cpp:63 | The configured offsets are (40 - 8)/2 = 16, and `init_simulation` accepts them. |
| Evolution.Evaluate | main.cpp:62-65 | One evaluation places the seed at the configured offsets and runs until periodic. It ends with a repeating history of at most 20 boards after at least 2 steps, the seed kept, and the automaton stepped once per iteration. The score is -3 per live seed cell, plus 1 per step, plus 0.1 per live cell after each step. |

## Left out

- Printing (`print_board`, `print_starting_board`) and the reporting in `main.cpp`: output only.
- The thread pool, futures and `hardware_concurrency`: evaluations are modelled one player at a time.
- `srand(time(0))` is left out. `rand()` is an oracle stream `rand: nat -> nat` read at a cursor, and `RAND_MAX` is fixed at the GNU C library's 2147483647.
- Mutation.Chance: the percentage test is exact arithmetic over the reals. The `float` division and rounding are not modelled, so a draw within rounding distance of the threshold may decide differently in the program.
- Mutation.ChanceEdges: it is stated for the exact-real `Chance` only. The program divides in `float`: `RAND_MAX` converts to 2^31, and 2^31/21474836 rounds to 100.0f. So at 100 percent the program accepts every draw, which the exact-real test does not for the largest draws. See the `Mutation.Chance` line.
- Mutation.Boosted: the big-mutation factor of 5 is applied to real percentages, without `float` rounding.
- Scores and coefficients are exact reals instead of `double`.
- The player constructor leaves `score` uninitialised; the model starts it at 0. Every evaluation resets it in `init_simulation`.
- The sort by score, the averages and the generation counter of `main.cpp`: `Evolution.Breed` takes a population already sorted in ascending order.
- The initial random fill of every player in `main.cpp` is left out. It is `RandomFillStartingBoard` applied once per player.
- The run loops and the retry loop of `mutate` need not terminate in the program. They take a `fuel` bound and return `None` when it runs out, so behaviour beyond the fuel is not modelled.
- Indices and sizes are unbounded naturals. A `size_t` overflow of `x_offset + seedX` or of `9 * population.size()` is not modelled. The live-cell counter is an unbounded integer whose value modulo 2^64 is the program's, which matters only after `set_board` drift.
- `set_board` reads `ref_board[0]` before any check, so an empty reference board is undefined behaviour in the program. The model requires at least one row.
- Mutation.Mutate: it takes the donor seed by value, whereas `mutate` takes `ref_starting_board` by reference. A player mutated from its own seed would see the donor cleared by `clear_starting_board()` (src/player.cpp:225). `main.cpp` never does this, since `Evolution.Donor` differs from the index being mutated, so the aliasing is not modelled.
- The getters of `gameoflife_t` and `player` are the fields of the `Game` and `Player` datatypes; they read the state and change nothing.

## Behaviour of the code worth knowing

The model follows the code in each of these points.

- A relocation whose 20 probes all hit live donor cells still writes `true` at the last probe, and the cell is not copied. The retry loop exists to avoid clones (src/player.cpp:219-220), but on a 1 x 1 live donor the result is still a clone (`Mutation.FullDonorRelocationIsAClone`).
- A complete mutation fills random cells into the player's own old seed without clearing it. The result therefore depends on the old seed and not on the donor (`Mutation.Mutate`, code 2).
- `player::step_simulation` does not trim the history. The trim happens in the two run loops (`Player.StepSimulation`, `Player.Iterate`).
- `player::step_simulation` passes its `size_t` count to an `unsigned int` parameter, which narrows it modulo 2^32 (`Player.StepCountNarrowedToUnsignedInt`).
- A relocation that lands on a cell visited later is overwritten by that cell's own copy or negation (`Mutation.RelocationOverwrittenByLaterCopy`).

## Findings

| source | as written | input that shows it | evidently intended | confidence | as-written member | corrected member |
|---|---|---|---|---|---|---|
| src/gameoflife_t.cpp:55-60 | `set_board` sets `live_cells = 0` but keeps the old board. It then writes every cell through `set_cell`, which adjusts the counter against the cell still on the board. The counter ends at count(new) - count(old). | A 1 x 1 automaton with its cell alive, then `set_board({{false}})`: the board has no live cell and `live_cells` is 2^64 - 1. | The board is cleared together with the counter (as `clear_board` does) before the cells are written, so the counter equals the number of live cells. | high; not executed | GameOfLife.SetBoardDriftWitness | GameOfLife.SetBoard |

`GameOfLife.SetBoardAsWritten` is the code as written, and
`GameOfLife.SetBoardExactIffDeadBefore` proves that it keeps the counter exact
only when the old board was all dead. No operation in the core calls
`set_board`: `init_simulation` clears the board before it writes cells. The
drift therefore does not reach the evaluation.
