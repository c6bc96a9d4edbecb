/** One individual of the population (`player`): a seed ("starting board")
    that is placed on its own automaton at an offset, a bounded history of
    board snapshots used to detect periodicity, and the score accumulated
    while the automaton runs. */
module Player {
  import opened Boards
  import opened Outcomes
  import opened GameOfLife

  /** `MAX_HISTORY_SIZE`: the number of snapshots the run loops keep. */
  const MaxHistorySize: nat := 20

  /** Number of values of the `unsigned int` that `gameoflife_t::step_simulation`
      takes its step count as. */
  const UIntModulus: nat := 0x1_0000_0000

  /** Default coefficients of a freshly constructed player. */
  const DefaultCostPerStartingCell: real := 20.0
  const DefaultRewardPerStepCompleted: real := 1.0
  const DefaultRewardPerAliveCellEveryStep: real := 0.0

  /** The fields of `player`. Scores and coefficients are C++ doubles, kept
      here as exact reals. */
  datatype Player = Player(
    game: Game,
    seed: Board,
    seedX: nat,
    seedY: nat,
    history: seq<Board>,
    costPerStartingCell: real,
    rewardPerStepCompleted: real,
    rewardPerAliveCellEveryStep: real,
    score: real)

  /** The shape every constructed player keeps: a well-formed automaton, a
      seed of its declared dimensions that fits on the board, and snapshots of
      the board's dimensions. */
  predicate Consistent(p: Player) {
    && GameOfLife.WellFormed(p.game)
    && 1 <= p.seedX <= p.game.sizeX
    && 1 <= p.seedY <= p.game.sizeY
    && IsRect(p.seed, p.seedX, p.seedY)
    && forall k | 0 <= k < |p.history| :: IsRect(p.history[k], p.game.sizeX, p.game.sizeY)
  }

  /** `a` and `b` differ at most in their seed. */
  predicate SameExceptSeed(a: Player, b: Player) {
    a.(seed := b.seed) == b
  }

  /** The constructor: the automaton is built first (and rejects a board
      dimension below 1), then a seed dimension below 1 and then a seed larger
      than the board are rejected; otherwise the seed is all dead. */
  function NewPlayer(boardX: nat, boardY: nat, seedX: nat, seedY: nat, wrapEdges: bool): (r: Result<Player>)
    ensures r.Err? <==> boardX < 1 || boardY < 1 || seedX < 1 || seedY < 1 || seedX > boardX || seedY > boardY
    ensures r.Err? ==> r.error == (if boardX < 1 || boardY < 1 || seedX < 1 || seedY < 1 then InvalidSize else SeedTooLarge)
    ensures r.Ok? ==> Consistent(r.value) && r.value.history == []
    ensures r.Ok? ==> r.value.seedX == seedX && r.value.seedY == seedY && AllDead(r.value.seed)
    ensures r.Ok? ==> New(boardX, boardY, wrapEdges) == Ok(r.value.game)
  {
    match New(boardX, boardY, wrapEdges)
    case Err(e) => Err(e)
    case Ok(g) =>
      if seedX < 1 || seedY < 1 then Err(InvalidSize)
      else if seedX > boardX || seedY > boardY then Err(SeedTooLarge)
      else Ok(Player(g, Blank(seedX, seedY), seedX, seedY, [],
                     DefaultCostPerStartingCell, DefaultRewardPerStepCompleted,
                     DefaultRewardPerAliveCellEveryStep, 0.0))
  }

  /** `set_starting_board_cell`: fails exactly on a position outside the seed;
      otherwise only that seed cell changes. */
  function SetStartingBoardCell(p: Player, x: nat, y: nat, state: bool): (r: Result<Player>)
    requires Consistent(p)
    ensures r.Err? <==> x >= p.seedX || y >= p.seedY
    ensures r.Err? ==> r.error == OutOfBounds
    ensures r.Ok? ==> Consistent(r.value) && SameExceptSeed(r.value, p) && r.value.seed[y][x] == state
    ensures r.Ok? ==> forall i, j | 0 <= i < p.seedY && 0 <= j < p.seedX && (i != y || j != x) ::
                        r.value.seed[i][j] == p.seed[i][j]
  {
    if x >= p.seedX || y >= p.seedY then Err(OutOfBounds)
    else Ok(p.(seed := Update(p.seed, x, y, state)))
  }

  /** `random_fill_starting_board`, with the outcome of each cell's random
      test supplied as `draws[y][x]`: a successful draw sets the cell alive, a
      failed one leaves it as it was, so no live cell is ever cleared. */
  function RandomFillStartingBoard(p: Player, draws: Board): (r: Player)
    requires Consistent(p) && IsRect(draws, p.seedX, p.seedY)
    ensures Consistent(r) && SameExceptSeed(r, p)
    ensures forall i, j | 0 <= i < p.seedY && 0 <= j < p.seedX :: r.seed[i][j] == (p.seed[i][j] || draws[i][j])
  {
    var s := seq(p.seedY, i requires 0 <= i < p.seedY =>
               seq(p.seedX, j requires 0 <= j < p.seedX => if draws[i][j] then true else p.seed[i][j]));
    p.(seed := s)
  }

  /** `clear_starting_board`: an all-dead seed of the declared dimensions;
      board, history and score are untouched. */
  function ClearStartingBoard(p: Player): (r: Player)
    requires Consistent(p)
    ensures Consistent(r) && SameExceptSeed(r, p)
    ensures IsRect(r.seed, p.seedX, p.seedY) && AllDead(r.seed)
  {
    p.(seed := Blank(p.seedX, p.seedY))
  }

  /** `clear_game_board`: only the automaton is cleared; the seed is kept. */
  function ClearGameBoard(p: Player): (r: Player)
    requires Consistent(p)
    ensures Consistent(r) && r.(game := p.game) == p
    ensures Valid(r.game) && SameConfig(r.game, p.game) && AllDead(r.game.board)
  {
    p.(game := ClearBoard(p.game))
  }

  /** The loops of `init_simulation` that follow `clear_board`: every seed
      cell is written through `set_cell` at the offsets. The board then holds
      the seed at the offsets and is dead elsewhere, and the counter equals
      the number of live seed cells. */
  function PlaceSeed(g: Game, seed: Board, seedX: nat, seedY: nat, xOffset: nat, yOffset: nat): (r: Game)
    requires GameOfLife.WellFormed(g) && IsRect(seed, seedX, seedY)
    requires xOffset + seedX <= g.sizeX && yOffset + seedY <= g.sizeY
    ensures Valid(r) && SameConfig(r, g)
    ensures r.board == Placed(seed, seedX, seedY, xOffset, yOffset, g.sizeX, g.sizeY)
    ensures r.liveCells == LiveCount(seed)
  {
    var r := WriteRows(ClearBoard(g), CopyPlan(seed), seedX, xOffset, yOffset, 0);
    CopiedSeedIsPlaced(g, seed, seedX, seedY, xOffset, yOffset);
    r
  }

  /** Writing the seed's copy plan over a cleared board leaves exactly the
      placed seed, with an exact counter. */
  lemma CopiedSeedIsPlaced(g: Game, seed: Board, seedX: nat, seedY: nat, xOffset: nat, yOffset: nat)
    requires GameOfLife.WellFormed(g) && IsRect(seed, seedX, seedY)
    requires xOffset + seedX <= g.sizeX && yOffset + seedY <= g.sizeY
    ensures var r := WriteRows(ClearBoard(g), CopyPlan(seed), seedX, xOffset, yOffset, 0);
            && Valid(r) && SameConfig(r, g)
            && r.board == Placed(seed, seedX, seedY, xOffset, yOffset, g.sizeX, g.sizeY)
            && r.liveCells == LiveCount(seed)
  {
    var cleared := ClearBoard(g);
    var plan := CopyPlan(seed);
    var r := WriteRows(cleared, plan, seedX, xOffset, yOffset, 0);
    var placed := Placed(seed, seedX, seedY, xOffset, yOffset, g.sizeX, g.sizeY);
    forall y, x | 0 <= y < g.sizeY && 0 <= x < g.sizeX
      ensures r.board[y][x] == placed[y][x]
    {
      if yOffset <= y < yOffset + seedY && xOffset <= x < xOffset + seedX {
        assert plan[y - yOffset][x - xOffset] == Some(seed[y - yOffset][x - xOffset]);
      } else {
        assert !cleared.board[y][x];
      }
    }
    BoardExt(r.board, placed, g.sizeX, g.sizeY);
    PlacedCount(seed, seedX, seedY, xOffset, yOffset, g.sizeX, g.sizeY);
  }

  /** `init_simulation`: rejects offsets that would put the seed off the
      board; otherwise resets the score and the coefficients, clears the
      automaton, copies the seed onto it at the offsets, empties the history
      and charges `cost` for every live cell placed. */
  function InitSimulation(p: Player, xOffset: nat, yOffset: nat, cost: real, rewardStep: real, rewardAlive: real)
    : (r: Result<Player>)
    requires Consistent(p)
    ensures r.Err? <==> xOffset + p.seedX > p.game.sizeX || yOffset + p.seedY > p.game.sizeY
    ensures r.Err? ==> r.error == OffsetOutOfRange
    ensures r.Ok? ==> Consistent(r.value) && r.value.seed == p.seed && r.value.history == []
    ensures r.Ok? ==> Valid(r.value.game) && SameConfig(r.value.game, p.game)
    ensures r.Ok? ==> r.value.game.board == Placed(p.seed, p.seedX, p.seedY, xOffset, yOffset, p.game.sizeX, p.game.sizeY)
    ensures r.Ok? ==> r.value.game.liveCells == LiveCount(p.seed)
    ensures r.Ok? ==> r.value.score == -(LiveCount(p.seed) as real) * cost
    ensures r.Ok? ==> r.value.costPerStartingCell == cost && r.value.rewardPerStepCompleted == rewardStep
                      && r.value.rewardPerAliveCellEveryStep == rewardAlive
  {
    if xOffset + p.seedX > p.game.sizeX || yOffset + p.seedY > p.game.sizeY then Err(OffsetOutOfRange)
    else
      var g := PlaceSeed(p.game, p.seed, p.seedX, p.seedY, xOffset, yOffset);
      var score := 0.0 - (g.liveCells as real) * cost;
      Ok(Player(g, p.seed, p.seedX, p.seedY, [], cost, rewardStep, rewardAlive, score))
  }

  /** `step_simulation(num_steps)`: the count is narrowed to the `unsigned
      int` the automaton takes; then the step reward is added once, the
      per-cell reward once per live cell now on the board, and one snapshot of
      the board is appended to the history. */
  function StepSimulation(p: Player, numSteps: nat): (r: Player)
    requires Consistent(p)
    ensures Consistent(r)
    ensures r.seed == p.seed && r.seedX == p.seedX && r.seedY == p.seedY
    ensures r.costPerStartingCell == p.costPerStartingCell && r.rewardPerStepCompleted == p.rewardPerStepCompleted
            && r.rewardPerAliveCellEveryStep == p.rewardPerAliveCellEveryStep
    ensures r.game == Steps(p.game, numSteps % UIntModulus)
    ensures |r.history| == |p.history| + 1 && r.history[..|p.history|] == p.history
    ensures r.history[|p.history|] == r.game.board
  {
    var g := Steps(p.game, numSteps % UIntModulus);
    var s := p.score + p.rewardPerStepCompleted;
    var s' := s + (g.liveCells as real) * p.rewardPerAliveCellEveryStep;
    p.(game := g, score := s', history := p.history + [g.board])
  }

  /** On a player whose counter is exact, one call adds the step reward once,
      whatever the number of steps, plus the per-cell reward for each live
      cell found by rescanning the board after the steps. */
  lemma StepRewardOncePerCall(p: Player, numSteps: nat)
    requires Consistent(p) && Valid(p.game)
    ensures var r := StepSimulation(p, numSteps);
            r.score == p.score + p.rewardPerStepCompleted + (LiveCount(r.game.board) as real) * p.rewardPerAliveCellEveryStep
  {
  }

  /** Two calls of one step reach the same board as one call of two steps,
      but earn the step reward twice, earn the per-cell reward once more for
      the intermediate board, and leave one more snapshot. */
  lemma TwoSingleStepsVersusOneDoubleStep(p: Player)
    requires Consistent(p)
    ensures var once := StepSimulation(p, 2);
            var half := StepSimulation(p, 1);
            var twice := StepSimulation(half, 1);
            && twice.game == once.game
            && twice.score == once.score + p.rewardPerStepCompleted
                              + (half.game.liveCells as real) * p.rewardPerAliveCellEveryStep
            && |twice.history| == |once.history| + 1
  {
    StepsAdd(p.game, 1, 1);
  }

  /** A step count of 2^32 is narrowed to 0: the board stays put, yet the
      step reward is still earned and a snapshot is still appended. */
  lemma StepCountNarrowedToUnsignedInt(p: Player)
    requires Consistent(p)
    ensures StepSimulation(p, UIntModulus).game == p.game
    ensures |StepSimulation(p, UIntModulus).history| == |p.history| + 1
  {
  }

  /** The history after the `erase(begin())` of the run loops: the oldest
      snapshot is dropped once the history holds more than `MAX_HISTORY_SIZE`. */
  function Trim(h: seq<Board>): (r: seq<Board>)
    ensures |h| <= MaxHistorySize ==> r == h
    ensures |h| > MaxHistorySize ==> |r| == |h| - 1 && r == h[|h| - |r|..]
  {
    if |h| > MaxHistorySize then h[1..] else h
  }

  // ---------------------------------------------------------------------------
  // Periodicity

  function Last(boards: seq<Board>): Board
    requires |boards| > 0
  {
    boards[|boards| - 1]
  }

  /** Every board has the shape of the last one, as snapshots of one
      automaton do; the comparison loop indexes the last board with the
      indices of each earlier one. */
  predicate Uniform(boards: seq<Board>) {
    forall k | 0 <= k < |boards| :: SameShape(boards[k], Last(boards))
  }

  /** The last board equals some earlier one. */
  predicate Repeats(boards: seq<Board>) {
    |boards| >= 2 && exists k | 0 <= k < |boards| - 1 :: boards[k] == Last(boards)
  }

  /** The comparison loop of `detect_periodicity`: every cell of `a` equals
      the cell at the same indices of `last`. */
  predicate Identical(a: Board, last: Board)
    requires SameShape(a, last)
  {
    forall j, k | 0 <= j < |a| && 0 <= k < |a[j]| :: last[j][k] == a[j][k]
  }

  lemma IdenticalIffEqual(a: Board, last: Board)
    requires SameShape(a, last)
    ensures Identical(a, last) <==> a == last
  {
    if Identical(a, last) {
      forall j | 0 <= j < |a| ensures a[j] == last[j] {
        assert forall k | 0 <= k < |a[j]| :: a[j][k] == last[j][k];
      }
    }
  }

  /** The scan of `detect_periodicity` from index `i` down to 0. */
  function ScanFrom(boards: seq<Board>, i: nat): (r: int)
    requires Uniform(boards) && i < |boards| - 1
    ensures r == 0 || r == 1
    ensures r == 1 <==> exists k | 0 <= k <= i :: boards[k] == Last(boards)
    decreases i
  {
    IdenticalIffEqual(boards[i], Last(boards));
    if Identical(boards[i], Last(boards)) then 1
    else if i == 0 then 0
    else ScanFrom(boards, i - 1)
  }

  /** `detect_periodicity`: 0 for fewer than two boards; otherwise 1 exactly
      when the last board equals some earlier board cell for cell. */
  function DetectPeriodicity(boards: seq<Board>): (r: int)
    requires Uniform(boards)
    ensures r == 0 || r == 1
    ensures |boards| < 2 ==> r == 0
    ensures r == 1 <==> Repeats(boards)
  {
    if |boards| < 2 then 0 else ScanFrom(boards, |boards| - 2)
  }

  lemma ConsistentHistoryUniform(p: Player)
    requires Consistent(p)
    ensures Uniform(p.history)
  {
  }

  // ---------------------------------------------------------------------------
  // The run loops

  /** A finished run: the player after the loop and the number of iterations. */
  datatype Run = Run(player: Player, steps: nat)

  /** One iteration of the run loops: `step_simulation()` and the trim. */
  function Iterate(p: Player): (r: Player)
    requires Consistent(p)
    ensures Consistent(r)
  {
    var q := StepSimulation(p, 1);
    q.(history := Trim(q.history))
  }

  /** One iteration steps the automaton once, keeps the seed and the
      coefficients, appends the new board to the history and drops the
      oldest snapshot once there are more than `MAX_HISTORY_SIZE`. It earns
      the step reward plus the per-cell reward for each live cell the counter
      reports after the step, which with an exact counter is each live cell
      of the new board. */
  lemma IterateFacts(p: Player)
    requires Consistent(p)
    ensures var r := Iterate(p);
            && r.game == Step(p.game)
            && r.seed == p.seed && r.seedX == p.seedX && r.seedY == p.seedY
            && r.costPerStartingCell == p.costPerStartingCell
            && r.rewardPerStepCompleted == p.rewardPerStepCompleted
            && r.rewardPerAliveCellEveryStep == p.rewardPerAliveCellEveryStep
            && (|p.history| < MaxHistorySize ==> |r.history| == |p.history| + 1)
            && |r.history| <= (if |p.history| < MaxHistorySize then MaxHistorySize else |p.history|)
            && r.history != [] && Last(r.history) == r.game.board
            && r.score == p.score + p.rewardPerStepCompleted + (r.game.liveCells as real) * p.rewardPerAliveCellEveryStep
            && (Valid(p.game) ==> r.score == p.score + p.rewardPerStepCompleted
                                            + (LiveCount(r.game.board) as real) * p.rewardPerAliveCellEveryStep)
            && (p.rewardPerAliveCellEveryStep == 0.0 ==> r.score == p.score + p.rewardPerStepCompleted)
  {
  }

  /** `k` iterations in a row. */
  function Iterated(p: Player, k: nat): (r: Player)
    requires Consistent(p)
    ensures Consistent(r)
    decreases k
  {
    if k == 0 then p else Iterated(Iterate(p), k - 1)
  }

  /** The step reward earned over `k` iterations, added one iteration at a
      time as the loop does. */
  function Earned(k: nat, c: real): (e: real)
    ensures e == (k as real) * c
  {
    if k == 0 then 0.0 else Earned(k - 1, c) + c
  }

  /** `c` for each of `n` counted cells, added one cell at a time; a
      negative count (a drifted counter) pays back `c` per cell. */
  function CellReward(n: int, c: real): (e: real)
    ensures n == 0 || c == 0.0 ==> e == 0.0
    decreases if n < 0 then -n else n
  {
    if n == 0 then 0.0
    else if n > 0 then CellReward(n - 1, c) + c
    else CellReward(n + 1, c) - c
  }

  /** Counting cell by cell pays the product the program computes. */
  lemma {:induction false} CellRewardIsProduct(n: int, c: real)
    ensures CellReward(n, c) == (n as real) * c
    decreases if n < 0 then -n else n
  {
    if n > 0 {
      CellRewardIsProduct(n - 1, c);
    } else if n < 0 {
      CellRewardIsProduct(n + 1, c);
    }
  }

  /** The per-cell reward over `k` generations from `g`: after each
      generation, `c` for every live cell the counter reports, paid one
      generation at a time as the loop pays it. */
  function AliveEarned(g: Game, k: nat, c: real): (e: real)
    requires GameOfLife.WellFormed(g)
    ensures k == 0 || c == 0.0 ==> e == 0.0
    decreases k
  {
    if k == 0 then 0.0 else CellReward(Step(g).liveCells, c) + AliveEarned(Step(g), k - 1, c)
  }

  /** With an exact counter the first generation pays `c` for each of its
      live cells, and the counter stays exact for the generations after it. */
  lemma AliveEarnedExact(g: Game, k: nat, c: real)
    requires Valid(g) && k > 0
    ensures AliveEarned(g, k, c) == (LiveCount(Step(g).board) as real) * c + AliveEarned(Step(g), k - 1, c)
    ensures Valid(Step(g))
  {
    assert Drift(Step(g)) == Drift(g);
    CellRewardIsProduct(LiveCount(Step(g).board), c);
  }

  /** The score of one iteration. */
  lemma IterateScore(p: Player)
    requires Consistent(p)
    ensures Iterate(p).game == Step(p.game)
    ensures Iterate(p).rewardPerStepCompleted == p.rewardPerStepCompleted
    ensures Iterate(p).rewardPerAliveCellEveryStep == p.rewardPerAliveCellEveryStep
    ensures Iterate(p).score == p.score + p.rewardPerStepCompleted + CellReward(Step(p.game).liveCells, p.rewardPerAliveCellEveryStep)
  {
    CellRewardIsProduct(Step(p.game).liveCells, p.rewardPerAliveCellEveryStep);
  }

  /** The rewards still to come after one iteration are those of `k`
      iterations less the first. */
  lemma IterateScorePeel(p: Player, k: nat)
    requires Consistent(p) && k > 0
    ensures var q := Iterate(p);
            p.score + Earned(k, p.rewardPerStepCompleted) + AliveEarned(p.game, k, p.rewardPerAliveCellEveryStep)
            == q.score + Earned(k - 1, q.rewardPerStepCompleted) + AliveEarned(q.game, k - 1, q.rewardPerAliveCellEveryStep)
  {
    IterateScore(p);
  }

  /** `k` iterations add `k` step rewards and, after each iteration, the
      per-cell reward for the live cells the counter reports. */
  lemma {:induction false} IteratedScore(p: Player, k: nat)
    requires Consistent(p)
    ensures Iterated(p, k).score
            == p.score + Earned(k, p.rewardPerStepCompleted) + AliveEarned(p.game, k, p.rewardPerAliveCellEveryStep)
    decreases k
  {
    if k > 0 {
      var q := Iterate(p);
      IteratedScore(q, k - 1);
      IterateScorePeel(p, k);
      assert Iterated(p, k) == Iterated(q, k - 1);
    }
  }

  function MaxNat(a: nat, b: nat): nat {
    if a < b then b else a
  }

  /** `k` iterations step the automaton `k` generations, keep the seed and
      the coefficients, and grow the history by at most one snapshot each,
      never beyond `MAX_HISTORY_SIZE` unless it already was. */
  lemma {:induction false} IteratedFacts(p: Player, k: nat)
    requires Consistent(p)
    ensures var r := Iterated(p, k);
            && r.game == Steps(p.game, k)
            && r.seed == p.seed && r.seedX == p.seedX && r.seedY == p.seedY
            && r.costPerStartingCell == p.costPerStartingCell
            && r.rewardPerStepCompleted == p.rewardPerStepCompleted
            && r.rewardPerAliveCellEveryStep == p.rewardPerAliveCellEveryStep
            && |r.history| <= |p.history| + k
            && |r.history| <= MaxNat(|p.history|, MaxHistorySize)
    decreases k
  {
    if k > 0 {
      IterateFacts(p);
      IteratedFacts(Iterate(p), k - 1);
    }
  }

  /** The condition that ends `step_simulation_until_periodic`:
      `detect_periodicity` of the history is 1. */
  predicate Periodic(p: Player)
    requires Consistent(p)
  {
    ConsistentHistoryUniform(p);
    DetectPeriodicity(p.history) == 1
  }

  /** The first number of iterations in `[from, fuel]` after which the
      history shows a repetition, trying each count upward as the loop does. */
  function PeriodicFrom(p: Player, from: nat, fuel: nat): (r: Option<nat>)
    requires Consistent(p)
    decreases fuel - from
  {
    if from > fuel then None
    else if Periodic(Iterated(p, from)) then Some(from)
    else PeriodicFrom(p, from + 1, fuel)
  }

  /** The count found is in range, and it is the least one there after which the history
      repeats. */
  lemma {:induction false} PeriodicFromFound(p: Player, from: nat, fuel: nat)
    requires Consistent(p) && PeriodicFrom(p, from, fuel).Some?
    ensures var k := PeriodicFrom(p, from, fuel).value;
            && from <= k <= fuel && Periodic(Iterated(p, k))
            && forall j | from <= j < k :: !Periodic(Iterated(p, j))
    decreases fuel - from
  {
    if !Periodic(Iterated(p, from)) {
      PeriodicFromFound(p, from + 1, fuel);
    }
  }

  /** No count means the condition holds after none of the counts in range. */
  lemma {:induction false} PeriodicFromNone(p: Player, from: nat, fuel: nat)
    requires Consistent(p) && PeriodicFrom(p, from, fuel).None?
    ensures forall j | from <= j <= fuel :: !Periodic(Iterated(p, j))
    decreases fuel - from
  {
    if from <= fuel {
      PeriodicFromNone(p, from + 1, fuel);
    }
  }

  /** `step_simulation_until_periodic` with at most `fuel` iterations: it
      iterates exactly until the history first shows a repetition and returns
      the number of iterations. `None` means no repetition within `fuel`
      iterations, where the program would keep looping. */
  function StepUntilPeriodic(p: Player, fuel: nat): (r: Option<Run>)
    requires Consistent(p)
    ensures r.Some? ==> r.value.steps <= fuel && r.value.player == Iterated(p, r.value.steps)
    ensures r.Some? ==> Consistent(r.value.player) && Periodic(r.value.player)
    ensures r.Some? ==> forall k | 0 <= k < r.value.steps :: !Periodic(Iterated(p, k))
    ensures r.None? ==> forall k | 0 <= k <= fuel :: !Periodic(Iterated(p, k))
  {
    match PeriodicFrom(p, 0, fuel)
    case None => PeriodicFromNone(p, 0, fuel); None
    case Some(k) => PeriodicFromFound(p, 0, fuel); Some(Run(Iterated(p, k), k))
  }

  /** A run to periodicity ends with the automaton stepped once per
      iteration, the seed and coefficients kept, the history no longer than
      `MAX_HISTORY_SIZE` (unless it started longer) and at least two
      snapshots compared, so that a run from an empty history makes at least
      two iterations. */
  lemma PeriodicRunFacts(p: Player, fuel: nat)
    requires Consistent(p) && StepUntilPeriodic(p, fuel).Some?
    ensures var run := StepUntilPeriodic(p, fuel).value;
            && run.player.game == Steps(p.game, run.steps)
            && run.player.seed == p.seed && run.player.seedX == p.seedX && run.player.seedY == p.seedY
            && run.player.costPerStartingCell == p.costPerStartingCell
            && run.player.rewardPerStepCompleted == p.rewardPerStepCompleted
            && run.player.rewardPerAliveCellEveryStep == p.rewardPerAliveCellEveryStep
            && |run.player.history| <= MaxNat(|p.history|, MaxHistorySize)
            && |p.history| + run.steps >= 2
  {
    var run := StepUntilPeriodic(p, fuel).value;
    IteratedFacts(p, run.steps);
  }

  /** A run to periodicity earns the step reward once per iteration and the
      per-cell reward for every generation it reached. */
  lemma PeriodicRunScore(p: Player, fuel: nat)
    requires Consistent(p)
    requires StepUntilPeriodic(p, fuel).Some?
    ensures var run := StepUntilPeriodic(p, fuel).value;
            run.player.score == p.score + Earned(run.steps, p.rewardPerStepCompleted)
                                + AliveEarned(p.game, run.steps, p.rewardPerAliveCellEveryStep)
  {
    IteratedScore(p, StepUntilPeriodic(p, fuel).value.steps);
  }

  /** A live cell on the first or last row or column of the board. */
  predicate TouchesWall(b: Board, w: nat, h: nat)
    requires IsRect(b, w, h) && w >= 1 && h >= 1
  {
    || (exists j | 0 <= j < w :: b[0][j] || b[h - 1][j])
    || (exists i | 0 <= i < h :: b[i][0] || b[i][w - 1])
  }

  /** The wall test of `step_simulation_until_wall_is_hit_or_periodic`: the
      top and bottom rows are scanned, then the left and right columns, each
      loop stopping at the first live border cell. */
  method WallHit(b: Board, w: nat, h: nat) returns (hit: bool)
    requires IsRect(b, w, h) && w >= 1 && h >= 1
    ensures hit == TouchesWall(b, w, h)
  {
    hit := false;
    var j := 0;
    while j < w && !hit
      invariant j <= w
      invariant hit <==> exists jj | 0 <= jj < j :: b[0][jj] || b[h - 1][jj]
    {
      if b[0][j] {
        hit := true;
      }
      if b[h - 1][j] {
        hit := true;
      }
      j := j + 1;
    }
    var i := 0;
    while i < h && !hit
      invariant i <= h
      invariant hit ==> TouchesWall(b, w, h)
      invariant !hit ==> !(exists jj | 0 <= jj < w :: b[0][jj] || b[h - 1][jj])
      invariant !hit ==> !(exists ii | 0 <= ii < i :: b[ii][0] || b[ii][w - 1])
    {
      if b[i][0] {
        hit := true;
      }
      if b[i][w - 1] {
        hit := true;
      }
      i := i + 1;
    }
  }

  /** The condition that ends `step_simulation_until_wall_is_hit_or_periodic`:
      a live border cell, or else a repetition in the history. */
  predicate Stopped(p: Player)
    requires Consistent(p)
  {
    TouchesWall(p.game.board, p.game.sizeX, p.game.sizeY) || Periodic(p)
  }

  /** The first number of iterations in `[from, fuel]` after which a
      live cell touches the border or the history repeats, trying each count upward as the loop does. */
  function StoppedFrom(p: Player, from: nat, fuel: nat): (r: Option<nat>)
    requires Consistent(p)
    decreases fuel - from
  {
    if from > fuel then None
    else if Stopped(Iterated(p, from)) then Some(from)
    else StoppedFrom(p, from + 1, fuel)
  }

  /** The count found is in range, and it is the least one there after which the loop
      ends. */
  lemma {:induction false} StoppedFromFound(p: Player, from: nat, fuel: nat)
    requires Consistent(p) && StoppedFrom(p, from, fuel).Some?
    ensures var k := StoppedFrom(p, from, fuel).value;
            && from <= k <= fuel && Stopped(Iterated(p, k))
            && forall j | from <= j < k :: !Stopped(Iterated(p, j))
    decreases fuel - from
  {
    if !Stopped(Iterated(p, from)) {
      StoppedFromFound(p, from + 1, fuel);
    }
  }

  /** No count means the condition holds after none of the counts in range. */
  lemma {:induction false} StoppedFromNone(p: Player, from: nat, fuel: nat)
    requires Consistent(p) && StoppedFrom(p, from, fuel).None?
    ensures forall j | from <= j <= fuel :: !Stopped(Iterated(p, j))
    decreases fuel - from
  {
    if from <= fuel {
      StoppedFromNone(p, from + 1, fuel);
    }
  }

  /** `step_simulation_until_wall_is_hit_or_periodic` with at most `fuel`
      iterations: it iterates exactly until a live cell first reaches the
      border or the history first repeats. */
  function StepUntilWallOrPeriodic(p: Player, fuel: nat): (r: Option<Run>)
    requires Consistent(p)
    ensures r.Some? ==> r.value.steps <= fuel && r.value.player == Iterated(p, r.value.steps)
    ensures r.Some? ==> Consistent(r.value.player)
    ensures r.Some? ==> TouchesWall(r.value.player.game.board, r.value.player.game.sizeX, r.value.player.game.sizeY)
                        || Periodic(r.value.player)
    ensures r.Some? ==> forall k | 0 <= k < r.value.steps :: !Stopped(Iterated(p, k))
    ensures r.None? ==> forall k | 0 <= k <= fuel :: !Stopped(Iterated(p, k))
  {
    match StoppedFrom(p, 0, fuel)
    case None => StoppedFromNone(p, 0, fuel); None
    case Some(k) => StoppedFromFound(p, 0, fuel); Some(Run(Iterated(p, k), k))
  }

  /** A player whose board already has a live border cell stops at once:
      the wall loop checks before it steps and returns 0. */
  lemma WallStopsAtOnce(p: Player, fuel: nat)
    requires Consistent(p) && TouchesWall(p.game.board, p.game.sizeX, p.game.sizeY)
    ensures StepUntilWallOrPeriodic(p, fuel) == Some(Run(p, 0))
  {
    assert Iterated(p, 0) == p;
  }

  /** A seed placed flush with the left edge of the board with a live cell in
      its first column touches the wall at once: the wall loop returns 0
      without stepping. */
  lemma SeedOnLeftWallStopsAtOnce(p: Player, yOffset: nat, cost: real, rewardStep: real, rewardAlive: real, fuel: nat)
    requires Consistent(p)
    requires InitSimulation(p, 0, yOffset, cost, rewardStep, rewardAlive).Ok?
    requires exists i | 0 <= i < p.seedY :: p.seed[i][0]
    ensures var q := InitSimulation(p, 0, yOffset, cost, rewardStep, rewardAlive).value;
            StepUntilWallOrPeriodic(q, fuel) == Some(Run(q, 0))
  {
    var q := InitSimulation(p, 0, yOffset, cost, rewardStep, rewardAlive).value;
    var i :| 0 <= i < p.seedY && p.seed[i][0];
    assert q.game.board[yOffset + i][0];
    WallStopsAtOnce(q, fuel);
  }
}
