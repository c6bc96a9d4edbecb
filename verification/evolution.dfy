/** The selection arithmetic of the generation loop in `main.cpp`: after the
    population is sorted by score, the best tenth survives unchanged and
    every other player is rebuilt by `mutate` from a survivor's seed, the
    survivors being dealt out round-robin. Each player is evaluated by
    placing its seed in the middle of the board and running it until its
    history repeats. */
module Evolution {
  import Boards
  import opened Outcomes
  import opened GameOfLife
  import opened Player
  import opened Mutation

  const PopulationSize: nat := 1000
  const GameBoardSizeX: nat := 40
  const GameBoardSizeY: nat := 40
  const StartingBoardSizeX: nat := 8
  const StartingBoardSizeY: nat := 8
  const WrapEdges: bool := false
  const RandomFillPercentage: real := 30.0
  const CostPerStartingCell: real := 3.0
  const RewardPerStepCompleted: real := 1.0
  const RewardPerAliveCellPerStep: real := 0.1
  const ProbCellChangeState: real := 5.0
  const ProbCellRelocate: real := 2.0
  const ProbBigMutations: real := 7.0
  const ProbCompleteMutation: real := 7.0

  /** The seed offsets of the evaluation: the seed is centred on the board. */
  const OffsetX: nat := (GameBoardSizeX - StartingBoardSizeX) / 2
  const OffsetY: nat := (GameBoardSizeY - StartingBoardSizeY) / 2

  // ---------------------------------------------------------------------------
  // Survivors and donors

  /** `worst_best_player_index`: nine tenths of the population, rounded down.
      Players at this index and above survive. */
  function SurvivorBoundary(n: nat): (w: nat)
    ensures 10 * w <= 9 * n < 10 * w + 10
    ensures w <= n && (n >= 1 ==> w < n)
  {
    (9 * n) / 10
  }

  /** The donor of player `i`: the survivors taken in turn, `w + i % (n - w)`. */
  function Donor(n: nat, w: nat, i: nat): (d: nat)
    requires w < n
    ensures w <= d < n
    ensures i < w ==> d != i
  {
    w + i % (n - w)
  }

  /** The remainder is the only value below the divisor that differs from
      the dividend by a multiple of it. */
  lemma ModUnique(a: nat, m: nat, q: nat, r: nat)
    requires m > 0 && r < m && a == q * m + r
    ensures a % m == r && a / m == q
  {
    var q', r' := a / m, a % m;
    assert a == q' * m + r';
    if q' > q {
      MultipleAtLeast(q' - q, m);
    } else if q' < q {
      MultipleAtLeast(q - q', m);
    }
  }

  lemma {:induction false} MultipleAtLeast(d: nat, m: nat)
    requires d >= 1
    ensures d * m >= m
  {
    if d > 1 {
      MultipleAtLeast(d - 1, m);
      assert d * m == (d - 1) * m + m;
    }
  }

  /** Players `n - w` apart share their donor. */
  lemma DonorRoundRobin(n: nat, w: nat, i: nat)
    requires w < n
    ensures Donor(n, w, i + (n - w)) == Donor(n, w, i)
  {
    var m := n - w;
    assert i == (i / m) * m + i % m;
    ModUnique(i + m, m, i / m + 1, i % m);
  }

  /** The players below the boundary whose donor is `s`, for the configured
      population of 1000. */
  function Served(s: nat): set<nat> {
    set i: nat | i < 900 && Donor(1000, 900, i) == s
  }

  /** The nine indices below 900 congruent to `r` modulo 100. */
  function Congruent(r: nat): set<nat> {
    {r, r + 100, r + 200, r + 300, r + 400, r + 500, r + 600, r + 700, r + 800}
  }

  /** With the configured population of 1000, the 100 survivors are each the
      donor of exactly nine players: those whose index is congruent to the
      survivor's rank modulo 100. */
  lemma EachSurvivorServesNine(s: nat)
    requires 900 <= s < PopulationSize
    ensures SurvivorBoundary(PopulationSize) == 900
    ensures Served(s) == Congruent(s - 900)
    ensures |Served(s)| == 9
  {
    ServedWithinCongruent(s);
    CongruentWithinServed(s);
    CongruentCount(s - 900);
  }

  lemma ServedWithinCongruent(s: nat)
    requires 900 <= s < 1000
    ensures Served(s) <= Congruent(s - 900)
  {
    forall i | i in Served(s) ensures i in Congruent(s - 900) {
      ServedIsListed(i, s - 900);
    }
  }

  lemma ServedIsListed(i: nat, r: nat)
    requires i < 900 && r < 100 && i % 100 == r
    ensures i in Congruent(r)
  {
    var t := i / 100;
    assert i == t * 100 + r;
    assert t < 9;
  }

  lemma CongruentWithinServed(s: nat)
    requires 900 <= s < 1000
    ensures Congruent(s - 900) <= Served(s)
  {
    var r := s - 900;
    forall t | 0 <= t < 9 ensures r + 100 * t in Served(s) {
      ModUnique(r + 100 * t, 100, t, r);
    }
    assert r + 100 * 0 in Served(s);
    assert r + 100 * 1 in Served(s);
    assert r + 100 * 2 in Served(s);
    assert r + 100 * 3 in Served(s);
    assert r + 100 * 4 in Served(s);
    assert r + 100 * 5 in Served(s);
    assert r + 100 * 6 in Served(s);
    assert r + 100 * 7 in Served(s);
    assert r + 100 * 8 in Served(s);
  }

  lemma CongruentCount(r: nat)
    ensures |Congruent(r)| == 9
  {
  }

  // ---------------------------------------------------------------------------
  // Breeding

  /** Every player is consistent and all seeds have the same dimensions, as
      for a population copied from one constructed player. */
  predicate Population(pop: seq<Player>) {
    |pop| >= 1 && forall k | 0 <= k < |pop| ::
      Consistent(pop[k]) && pop[k].seedX == pop[0].seedX && pop[k].seedY == pop[0].seedY
  }

  /** The mutated population, the codes `mutate` returned and the cursor
      before each call (and, last, after the final one). */
  datatype Generation = Generation(population: seq<Player>, codes: seq<int>, starts: seq<nat>)

  /** The breeding loop: each player below the survivor boundary, in index
      order, is mutated from its donor's seed, each call reading the draws
      where the previous one stopped. `None` when a mutation ran out of fuel. */
  method Breed(pop: seq<Player>, rand: nat -> nat, cur: nat, fuel: nat) returns (r: Option<Generation>)
    requires Population(pop)
    ensures r.Some? ==> var g := r.value; var w := SurvivorBoundary(|pop|);
            && |g.population| == |pop| && |g.codes| == w && |g.starts| == w + 1 && g.starts[0] == cur
            && Population(g.population)
            && (forall k | w <= k < |pop| :: g.population[k] == pop[k])
            && (forall k | 0 <= k < w ::
                  Mutate(pop[k], pop[Donor(|pop|, w, k)].seed, rand, g.starts[k], ProbCellChangeState,
                         ProbCellRelocate, ProbBigMutations, ProbCompleteMutation, RandomFillPercentage, fuel)
                  == Some(Mutated(g.population[k], g.codes[k], g.starts[k + 1])))
  {
    var n := |pop|;
    var w := SurvivorBoundary(n);
    var current := pop;
    var codes: seq<int> := [];
    var starts := [cur];
    var i := 0;
    while i < w
      invariant 0 <= i <= w
      invariant |current| == n && |codes| == i && |starts| == i + 1 && starts[0] == cur
      invariant Population(current) && current[0].seedX == pop[0].seedX && current[0].seedY == pop[0].seedY
      invariant forall k | i <= k < n :: current[k] == pop[k]
      invariant forall k | 0 <= k < i ::
                  Mutate(pop[k], pop[Donor(n, w, k)].seed, rand, starts[k], ProbCellChangeState,
                         ProbCellRelocate, ProbBigMutations, ProbCompleteMutation, RandomFillPercentage, fuel)
                  == Some(Mutated(current[k], codes[k], starts[k + 1]))
    {
      var donor := current[Donor(n, w, i)];
      var m := Mutate(current[i], donor.seed, rand, starts[i], ProbCellChangeState, ProbCellRelocate,
                      ProbBigMutations, ProbCompleteMutation, RandomFillPercentage, fuel);
      if m.None? {
        return None;
      }
      current := current[i := m.value.player];
      codes := codes + [m.value.code];
      starts := starts + [m.value.next];
      i := i + 1;
    }
    return Some(Generation(current, codes, starts));
  }

  // ---------------------------------------------------------------------------
  // Evaluation

  /** A player of the configured dimensions and edge policy. */
  predicate Configured(p: Player) {
    && Consistent(p)
    && p.game.sizeX == GameBoardSizeX && p.game.sizeY == GameBoardSizeY && p.game.wrapEdges == WrapEdges
    && p.seedX == StartingBoardSizeX && p.seedY == StartingBoardSizeY
  }

  /** The configured offsets are 16 and 16, and `init_simulation` accepts
      them for a configured player. */
  lemma ConfiguredOffsetsFit(p: Player)
    requires Configured(p)
    ensures OffsetX == 16 && OffsetY == 16
    ensures InitSimulation(p, OffsetX, OffsetY, CostPerStartingCell, RewardPerStepCompleted, RewardPerAliveCellPerStep).Ok?
  {
  }

  /** One evaluation: `init_simulation` at the centred offsets with the
      configured coefficients, then the run until the history repeats. The
      score is the seed's cost plus the rewards of every generation run. */
  function Evaluate(p: Player, fuel: nat): (r: Option<Run>)
    requires Configured(p)
    ensures r.Some? ==> Consistent(r.value.player) && r.value.player.seed == p.seed
    ensures r.Some? ==> DetectPeriodicity(r.value.player.history) == 1
    ensures r.Some? ==> r.value.steps >= 2 && |r.value.player.history| <= MaxHistorySize
    ensures r.Some? ==> r.value.player.game
                        == Steps(InitSimulation(p, OffsetX, OffsetY, CostPerStartingCell, RewardPerStepCompleted,
                                                RewardPerAliveCellPerStep).value.game, r.value.steps)
    ensures r.Some? ==>
              var q := InitSimulation(p, OffsetX, OffsetY, CostPerStartingCell, RewardPerStepCompleted,
                                      RewardPerAliveCellPerStep).value;
              r.value.player.score
              == -(Boards.LiveCount(p.seed) as real) * CostPerStartingCell
                 + Earned(r.value.steps, RewardPerStepCompleted)
                 + AliveEarned(q.game, r.value.steps, RewardPerAliveCellPerStep)
  {
    ConfiguredOffsetsFit(p);
    var q := InitSimulation(p, OffsetX, OffsetY, CostPerStartingCell, RewardPerStepCompleted, RewardPerAliveCellPerStep).value;
    var r := StepUntilPeriodic(q, fuel);
    if r.Some? then PeriodicRunFacts(q, fuel); PeriodicRunScore(q, fuel); r else r
  }
}
