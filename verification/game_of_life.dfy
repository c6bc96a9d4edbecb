/** The cellular automaton `gameoflife_t`: a `sizeY` x `sizeX` board, an edge
    policy fixed at construction and a running counter of live cells that each
    mutating operation adjusts incrementally instead of rescanning. */
module GameOfLife {
  import opened Boards
  import opened Outcomes

  /** One automaton. `liveCells` is the `size_t live_cells` counter, kept here
      as a mathematical integer: every change to it is a +1 or -1 step, so its
      value modulo `SizeTModulus` is exactly the C++ value. The fields double
      as the getters `get_board`, `get_sizeX`, `get_sizeY` and
      `get_live_cells_count`, which read the state and change nothing. */
  datatype Game = Game(board: Board, sizeX: nat, sizeY: nat, wrapEdges: bool, liveCells: int)

  /** Number of values of the 64-bit `size_t` the counter is declared with. */
  const SizeTModulus: int := 0x1_0000_0000_0000_0000

  /** The shape every constructed automaton has. */
  predicate WellFormed(g: Game) {
    g.sizeX >= 1 && g.sizeY >= 1 && IsRect(g.board, g.sizeX, g.sizeY)
  }

  /** The counter agrees with a full rescan of the board. */
  predicate CounterExact(g: Game) {
    g.liveCells == LiveCount(g.board)
  }

  predicate Valid(g: Game) {
    WellFormed(g) && CounterExact(g)
  }

  /** `a` and `b` have the same dimensions and edge policy. */
  predicate SameConfig(a: Game, b: Game) {
    a.sizeX == b.sizeX && a.sizeY == b.sizeY && a.wrapEdges == b.wrapEdges
  }

  /** How far the counter is from the rescan; zero exactly when `CounterExact`. */
  function Drift(g: Game): int {
    g.liveCells - LiveCount(g.board)
  }

  /** The constructor: rejects a dimension below 1, otherwise an all-dead board. */
  function New(sizeX: nat, sizeY: nat, wrapEdges: bool): (r: Result<Game>)
    ensures r.Err? <==> sizeX < 1 || sizeY < 1
    ensures r.Err? ==> r.error == InvalidSize
    ensures r.Ok? ==> Valid(r.value) && AllDead(r.value.board) && r.value.liveCells == 0
    ensures r.Ok? ==> r.value.sizeX == sizeX && r.value.sizeY == sizeY && r.value.wrapEdges == wrapEdges
  {
    if sizeX < 1 || sizeY < 1 then Err(InvalidSize)
    else
      var b := Blank(sizeX, sizeY);
      LiveCountZero(b);
      Ok(Game(b, sizeX, sizeY, wrapEdges, 0))
  }

  /** `clear_board`: every cell dead and the counter reset to 0, which makes
      the counter exact again whatever drift it had. */
  function ClearBoard(g: Game): (r: Game)
    requires WellFormed(g)
    ensures Valid(r) && SameConfig(r, g)
    ensures AllDead(r.board) && r.liveCells == 0
  {
    var b := Blank(g.sizeX, g.sizeY);
    LiveCountZero(b);
    g.(board := b, liveCells := 0)
  }

  /** The effect of `set_cell` at an in-range position: the cell takes
      `state`, and the counter is decremented when a live cell dies and
      incremented when a dead cell comes alive. */
  function Put(g: Game, x: nat, y: nat, state: bool): (r: Game)
    requires WellFormed(g) && x < g.sizeX && y < g.sizeY
    ensures WellFormed(r) && SameConfig(r, g)
    ensures r.board == Update(g.board, x, y, state)
    ensures Drift(r) == Drift(g)
  {
    var was := g.board[y][x];
    var counter :=
      if was && !state then g.liveCells - 1
      else if !was && state then g.liveCells + 1
      else g.liveCells;
    LiveCountUpdate(g.board, x, y, state);
    g.(board := Update(g.board, x, y, state), liveCells := counter)
  }

  /** `set_cell`: fails exactly on an out-of-range position; otherwise only
      cell (x, y) changes and the counter keeps its relation to the rescan. */
  function SetCell(g: Game, x: nat, y: nat, state: bool): (r: Result<Game>)
    requires WellFormed(g)
    ensures r.Err? <==> x >= g.sizeX || y >= g.sizeY
    ensures r.Err? ==> r.error == OutOfBounds
    ensures r.Ok? ==> WellFormed(r.value) && SameConfig(r.value, g) && r.value.board[y][x] == state
    ensures r.Ok? ==> forall i, j | 0 <= i < g.sizeY && 0 <= j < g.sizeX && (i != y || j != x) ::
                        r.value.board[i][j] == g.board[i][j]
    ensures r.Ok? ==> Drift(r.value) == Drift(g)
    ensures r.Ok? && CounterExact(g) ==> CounterExact(r.value)
  {
    if x >= g.sizeX || y >= g.sizeY then Err(OutOfBounds)
    else Ok(Put(g, x, y, state))
  }

  // ---------------------------------------------------------------------------
  // Row-major write loops

  /** A write plan: entry (i, j) is the value the loop body writes through
      `set_cell` at that position, or `None` when the body writes nothing. */
  type Plan = seq<seq<Option<bool>>>

  /** The inner loop `for j ...: set_cell(x0 + j, y, ...)` from column `j` on. */
  function WriteRow(g: Game, row: seq<Option<bool>>, x0: nat, y: nat, j: nat): (r: Game)
    requires WellFormed(g) && y < g.sizeY && x0 + |row| <= g.sizeX && j <= |row|
    ensures WellFormed(r) && SameConfig(r, g)
    ensures Drift(r) == Drift(g)
    ensures forall yy, xx | 0 <= yy < g.sizeY && 0 <= xx < g.sizeX ::
      r.board[yy][xx] ==
        if yy == y && x0 + j <= xx < x0 + |row| && row[xx - x0].Some? then row[xx - x0].value
        else g.board[yy][xx]
    decreases |row| - j
  {
    if j == |row| then g
    else
      var g' := if row[j].Some? then Put(g, x0 + j, y, row[j].value) else g;
      WriteRow(g', row, x0, y, j + 1)
  }

  /** The nested loops `for i ...: for j ...: set_cell(x0 + j, y0 + i, ...)`
      from row `i` on. */
  function WriteRows(g: Game, plan: Plan, w: nat, x0: nat, y0: nat, i: nat): (r: Game)
    requires WellFormed(g) && IsRect(plan, w, |plan|)
    requires x0 + w <= g.sizeX && y0 + |plan| <= g.sizeY && i <= |plan|
    ensures WellFormed(r) && SameConfig(r, g)
    ensures Drift(r) == Drift(g)
    ensures forall yy, xx | 0 <= yy < g.sizeY && 0 <= xx < g.sizeX ::
      r.board[yy][xx] ==
        if y0 + i <= yy < y0 + |plan| && x0 <= xx < x0 + w && plan[yy - y0][xx - x0].Some?
        then plan[yy - y0][xx - x0].value
        else g.board[yy][xx]
    decreases |plan| - i
  {
    if i == |plan| then g
    else WriteRows(WriteRow(g, plan[i], x0, y0 + i, 0), plan, w, x0, y0, i + 1)
  }

  /** The plan that writes every cell of `b`. */
  function CopyPlan(b: Board): (p: Plan)
    ensures |p| == |b| && forall i | 0 <= i < |b| :: |p[i]| == |b[i]|
    ensures forall i, j | 0 <= i < |b| && 0 <= j < |b[i]| :: p[i][j] == Some(b[i][j])
  {
    seq(|b|, i requires 0 <= i < |b| => seq(|b[i]|, j requires 0 <= j < |b[i]| => Some(b[i][j])))
  }

  /** The plan of `random_fill`: a cell is set alive where its draw succeeded
      and left alone elsewhere. */
  function RevivePlan(draws: Board): (p: Plan)
    ensures |p| == |draws| && forall i | 0 <= i < |draws| :: |p[i]| == |draws[i]|
    ensures forall i, j | 0 <= i < |draws| && 0 <= j < |draws[i]| ::
      p[i][j] == if draws[i][j] then Some(true) else None
  {
    seq(|draws|, i requires 0 <= i < |draws| =>
      seq(|draws[i]|, j requires 0 <= j < |draws[i]| => if draws[i][j] then Some(true) else None))
  }

  /** Two rectangles of equal dimensions that agree cell by cell are equal. */
  lemma BoardExt(a: Board, b: Board, w: nat, h: nat)
    requires IsRect(a, w, h) && IsRect(b, w, h)
    requires forall y, x | 0 <= y < h && 0 <= x < w :: a[y][x] == b[y][x]
    ensures a == b
  {
    forall y | 0 <= y < h ensures a[y] == b[y] {
      assert forall x | 0 <= x < w :: a[y][x] == b[y][x];
    }
  }

  /** The validation of `set_board`: the size check comes before the
      rectangularity check. `ref[0]` is read unconditionally, so the program
      demands a non-empty `ref`. */
  function CheckBoardShape(g: Game, ref: Board): (r: Option<Error>)
    requires WellFormed(g) && |ref| >= 1
    ensures r.None? <==> IsRect(ref, g.sizeX, g.sizeY)
    ensures r.Some? ==> r.value == if |ref| != g.sizeY || |ref[0]| != g.sizeX then SizeMismatch else NotRectangular
  {
    var rowsIdentical := forall k | 0 <= k < |ref| :: |ref[k]| == |ref[0]|;
    if |ref| != g.sizeY || |ref[0]| != g.sizeX then Some(SizeMismatch)
    else if !rowsIdentical then Some(NotRectangular)
    else None
  }

  /** `set_board` as written: after validation it zeroes only the counter and
      then writes every cell through `set_cell`, which adjusts the counter
      against the cells still on the board. The board ends equal to `ref`, but
      the counter ends as count(ref) - count(old board). */
  function SetBoardAsWritten(g: Game, ref: Board): (r: Result<Game>)
    requires WellFormed(g) && |ref| >= 1
    ensures r.Err? <==> !IsRect(ref, g.sizeX, g.sizeY)
    ensures r.Err? ==> r.error == if |ref| != g.sizeY || |ref[0]| != g.sizeX then SizeMismatch else NotRectangular
    ensures r.Ok? ==> WellFormed(r.value) && SameConfig(r.value, g) && r.value.board == ref
    ensures r.Ok? ==> r.value.liveCells == LiveCount(ref) - LiveCount(g.board)
  {
    match CheckBoardShape(g, ref)
    case Some(e) => Err(e)
    case None =>
      var z := g.(liveCells := 0);
      var r := WriteRows(z, CopyPlan(ref), g.sizeX, 0, 0, 0);
      BoardExt(r.board, ref, g.sizeX, g.sizeY);
      Ok(r)
  }

  /** `set_board` with the board cleared together with the counter before the
      cells are written, so that the counter is exact afterwards. */
  function SetBoard(g: Game, ref: Board): (r: Result<Game>)
    requires WellFormed(g) && |ref| >= 1
    ensures r.Err? <==> !IsRect(ref, g.sizeX, g.sizeY)
    ensures r.Err? ==> r.error == if |ref| != g.sizeY || |ref[0]| != g.sizeX then SizeMismatch else NotRectangular
    ensures r.Ok? ==> Valid(r.value) && SameConfig(r.value, g) && r.value.board == ref
  {
    match CheckBoardShape(g, ref)
    case Some(e) => Err(e)
    case None =>
      var r := WriteRows(ClearBoard(g), CopyPlan(ref), g.sizeX, 0, 0, 0);
      BoardExt(r.board, ref, g.sizeX, g.sizeY);
      Ok(r)
  }

  /** `set_board` as written keeps the counter exact exactly when the board
      it overwrites was all dead. */
  lemma SetBoardExactIffDeadBefore(g: Game, ref: Board)
    requires Valid(g) && IsRect(ref, g.sizeX, g.sizeY)
    ensures SetBoardAsWritten(g, ref).Ok?
    ensures CounterExact(SetBoardAsWritten(g, ref).value) <==> AllDead(g.board)
  {
    LiveCountZero(g.board);
  }

  /** A 1 x 1 board holding a live cell, overwritten by `set_board` with a
      dead cell: the counter ends at -1, which as a `size_t` is 2^64 - 1,
      while the board holds no live cell. The corrected `SetBoard` ends at 0. */
  lemma SetBoardDriftWitness()
    ensures var g := New(1, 1, false).value;
            var alive := SetCell(g, 0, 0, true).value;
            var r := SetBoardAsWritten(alive, [[false]]).value;
            && LiveCount(r.board) == 0
            && r.liveCells == -1
            && r.liveCells % SizeTModulus == SizeTModulus - 1
            && SetBoard(alive, [[false]]).value.liveCells == 0
  {
    var g := New(1, 1, false).value;
    var alive := SetCell(g, 0, 0, true).value;
    BoardExt(alive.board, [[true]], 1, 1);
    assert LiveCount([[true]]) == 1;
    assert LiveCount([[false]]) == 0;
  }

  /** `random_fill`, with the outcome of each cell's random test supplied as
      `draws[y][x]`: cells whose draw succeeds are set alive, no cell is ever
      set dead, and the counter keeps its relation to the rescan. */
  function RandomFill(g: Game, draws: Board): (r: Game)
    requires WellFormed(g) && IsRect(draws, g.sizeX, g.sizeY)
    ensures WellFormed(r) && SameConfig(r, g)
    ensures forall y, x | 0 <= y < g.sizeY && 0 <= x < g.sizeX :: r.board[y][x] == (g.board[y][x] || draws[y][x])
    ensures Drift(r) == Drift(g)
    ensures CounterExact(g) ==> CounterExact(r)
  {
    WriteRows(g, RevivePlan(draws), g.sizeX, 0, 0, 0)
  }

  // ---------------------------------------------------------------------------
  // Neighbour counting

  /** The row or column before `p`, wrapping from 0 to `size - 1`. */
  function Prev(p: nat, size: nat): (q: nat)
    requires p < size
    ensures q < size && q == (p - 1) % size
  {
    if p == 0 then size - 1 else p - 1
  }

  /** The row or column after `p`, wrapping from `size - 1` to 0. */
  function Next(p: nat, size: nat): (q: nat)
    requires p < size
    ensures q < size && q == (p + 1) % size
  {
    if p == size - 1 then 0 else p + 1
  }

  /** The eight-term sums of `count_neighbours` for cell (x, y): under wrap
      every neighbour index is taken through `Prev`/`Next`, otherwise each
      neighbour is added only when its position lies on the board. */
  function Neighbours(b: Board, w: nat, h: nat, wrap: bool, x: nat, y: nat): nat
    requires IsRect(b, w, h) && x < w && y < h
  {
    if wrap then
      Bit(b[Prev(y, h)][Prev(x, w)]) + Bit(b[Prev(y, h)][x]) + Bit(b[Prev(y, h)][Next(x, w)]) +
      Bit(b[y][Prev(x, w)]) + Bit(b[y][Next(x, w)]) +
      Bit(b[Next(y, h)][Prev(x, w)]) + Bit(b[Next(y, h)][x]) + Bit(b[Next(y, h)][Next(x, w)])
    else
      (if y > 0 && x > 0 then Bit(b[y - 1][x - 1]) else 0) +
      (if y > 0 then Bit(b[y - 1][x]) else 0) +
      (if y > 0 && x < w - 1 then Bit(b[y - 1][x + 1]) else 0) +
      (if x > 0 then Bit(b[y][x - 1]) else 0) +
      (if x < w - 1 then Bit(b[y][x + 1]) else 0) +
      (if y < h - 1 && x > 0 then Bit(b[y + 1][x - 1]) else 0) +
      (if y < h - 1 then Bit(b[y + 1][x]) else 0) +
      (if y < h - 1 && x < w - 1 then Bit(b[y + 1][x + 1]) else 0)
  }

  /** The eight Moore offsets (dx, dy), in the order the program adds them. */
  const MooreOffsets: seq<(int, int)> :=
    [(-1, -1), (0, -1), (1, -1), (-1, 0), (1, 0), (-1, 1), (0, 1), (1, 1)]

  /** Reference definition of one neighbour: the cell at offset (dx, dy) from
      (x, y), located modulo the board size on a torus and required to lie on
      the board otherwise. */
  function NeighbourAlive(b: Board, w: nat, h: nat, wrap: bool, x: nat, y: nat, dx: int, dy: int): bool
    requires IsRect(b, w, h) && x < w && y < h
  {
    var nx, ny := x + dx, y + dy;
    if wrap then b[ny % h][nx % w]
    else 0 <= nx < w && 0 <= ny < h && b[ny][nx]
  }

  /** Reference count: live neighbours over the offsets `MooreOffsets[k..]`. */
  function MooreCountFrom(b: Board, w: nat, h: nat, wrap: bool, x: nat, y: nat, k: nat): nat
    requires IsRect(b, w, h) && x < w && y < h && k <= |MooreOffsets|
    decreases |MooreOffsets| - k
  {
    if k == |MooreOffsets| then 0
    else Bit(NeighbourAlive(b, w, h, wrap, x, y, MooreOffsets[k].0, MooreOffsets[k].1))
         + MooreCountFrom(b, w, h, wrap, x, y, k + 1)
  }

  function MooreCount(b: Board, w: nat, h: nat, wrap: bool, x: nat, y: nat): nat
    requires IsRect(b, w, h) && x < w && y < h
  {
    MooreCountFrom(b, w, h, wrap, x, y, 0)
  }

  /** The ternary index expressions of `count_neighbours` are the offsets
      -1, 0 and +1 taken modulo the board size. */
  lemma WrapIndex(p: nat, size: nat)
    requires p < size
    ensures (p + -1) % size == Prev(p, size)
    ensures (p + 0) % size == p
    ensures (p + 1) % size == Next(p, size)
  {
  }

  lemma MooreCountUnfold(b: Board, w: nat, h: nat, wrap: bool, x: nat, y: nat)
    requires IsRect(b, w, h) && x < w && y < h
    ensures MooreCount(b, w, h, wrap, x, y) ==
      Bit(NeighbourAlive(b, w, h, wrap, x, y, -1, -1)) + Bit(NeighbourAlive(b, w, h, wrap, x, y, 0, -1)) +
      Bit(NeighbourAlive(b, w, h, wrap, x, y, 1, -1)) + Bit(NeighbourAlive(b, w, h, wrap, x, y, -1, 0)) +
      Bit(NeighbourAlive(b, w, h, wrap, x, y, 1, 0)) + Bit(NeighbourAlive(b, w, h, wrap, x, y, -1, 1)) +
      Bit(NeighbourAlive(b, w, h, wrap, x, y, 0, 1)) + Bit(NeighbourAlive(b, w, h, wrap, x, y, 1, 1))
  {
    assert MooreCountFrom(b, w, h, wrap, x, y, 8) == 0;
    assert MooreCountFrom(b, w, h, wrap, x, y, 7) == Bit(NeighbourAlive(b, w, h, wrap, x, y, 1, 1));
    assert MooreCountFrom(b, w, h, wrap, x, y, 6) == Bit(NeighbourAlive(b, w, h, wrap, x, y, 0, 1)) + MooreCountFrom(b, w, h, wrap, x, y, 7);
    assert MooreCountFrom(b, w, h, wrap, x, y, 5) == Bit(NeighbourAlive(b, w, h, wrap, x, y, -1, 1)) + MooreCountFrom(b, w, h, wrap, x, y, 6);
    assert MooreCountFrom(b, w, h, wrap, x, y, 4) == Bit(NeighbourAlive(b, w, h, wrap, x, y, 1, 0)) + MooreCountFrom(b, w, h, wrap, x, y, 5);
    assert MooreCountFrom(b, w, h, wrap, x, y, 3) == Bit(NeighbourAlive(b, w, h, wrap, x, y, -1, 0)) + MooreCountFrom(b, w, h, wrap, x, y, 4);
    assert MooreCountFrom(b, w, h, wrap, x, y, 2) == Bit(NeighbourAlive(b, w, h, wrap, x, y, 1, -1)) + MooreCountFrom(b, w, h, wrap, x, y, 3);
    assert MooreCountFrom(b, w, h, wrap, x, y, 1) == Bit(NeighbourAlive(b, w, h, wrap, x, y, 0, -1)) + MooreCountFrom(b, w, h, wrap, x, y, 2);
  }

  /** The index arithmetic of `count_neighbours` computes the Moore
      neighbourhood: on a torus the neighbours modulo the board size, on a
      bounded board the in-bounds neighbours only. */
  lemma NeighboursMatchReference(b: Board, w: nat, h: nat, wrap: bool, x: nat, y: nat)
    requires IsRect(b, w, h) && x < w && y < h
    ensures Neighbours(b, w, h, wrap, x, y) == MooreCount(b, w, h, wrap, x, y)
  {
    MooreCountUnfold(b, w, h, wrap, x, y);
    if wrap {
      WrapIndex(x, w);
      WrapIndex(y, h);
    }
  }

  /** `count_neighbours`: fails exactly on an out-of-range position; the count
      is the reference Moore count under the automaton's edge policy and lies
      in [0, 8]. */
  function CountNeighbours(g: Game, x: nat, y: nat): (r: Result<nat>)
    requires WellFormed(g)
    ensures r.Err? <==> x >= g.sizeX || y >= g.sizeY
    ensures r.Err? ==> r.error == OutOfBounds
    ensures r.Ok? ==> r.value <= 8
    ensures r.Ok? ==> r.value == MooreCount(g.board, g.sizeX, g.sizeY, g.wrapEdges, x, y)
  {
    if x >= g.sizeX || y >= g.sizeY then Err(OutOfBounds)
    else
      NeighboursMatchReference(g.board, g.sizeX, g.sizeY, g.wrapEdges, x, y);
      Ok(Neighbours(g.board, g.sizeX, g.sizeY, g.wrapEdges, x, y))
  }

  /** Offsets -1, 0 and +1 modulo a size of at least 3 land on three
      different positions. */
  lemma WrapInjective(p: nat, size: nat, d1: int, d2: int)
    requires size >= 3 && p < size && -1 <= d1 <= 1 && -1 <= d2 <= 1
    ensures (p + d1) % size == (p + d2) % size ==> d1 == d2
  {
    WrapIndex(p, size);
    assert (p + d1) % size == if d1 == -1 then Prev(p, size) else if d1 == 0 then p else Next(p, size);
    assert (p + d2) % size == if d2 == -1 then Prev(p, size) else if d2 == 0 then p else Next(p, size);
  }

  /** On a torus at least 3 cells wide and 3 cells high, the eight wrapped
      neighbour positions are pairwise distinct and differ from (x, y), so
      each neighbouring cell is counted exactly once. */
  lemma TorusNeighboursDistinct(w: nat, h: nat, x: nat, y: nat)
    requires w >= 3 && h >= 3 && x < w && y < h
    ensures forall a, c | 0 <= a < c < |MooreOffsets| ::
      ((x + MooreOffsets[a].0) % w, (y + MooreOffsets[a].1) % h) !=
      ((x + MooreOffsets[c].0) % w, (y + MooreOffsets[c].1) % h)
    ensures forall a | 0 <= a < |MooreOffsets| ::
      ((x + MooreOffsets[a].0) % w, (y + MooreOffsets[a].1) % h) != (x, y)
  {
    forall a, c | 0 <= a < c < |MooreOffsets|
      ensures ((x + MooreOffsets[a].0) % w, (y + MooreOffsets[a].1) % h) !=
              ((x + MooreOffsets[c].0) % w, (y + MooreOffsets[c].1) % h)
    {
      assert MooreOffsets[a] != MooreOffsets[c];
      WrapInjective(x, w, MooreOffsets[a].0, MooreOffsets[c].0);
      WrapInjective(y, h, MooreOffsets[a].1, MooreOffsets[c].1);
    }
    forall a | 0 <= a < |MooreOffsets|
      ensures ((x + MooreOffsets[a].0) % w, (y + MooreOffsets[a].1) % h) != (x, y)
    {
      assert MooreOffsets[a] != (0, 0);
      WrapInjective(x, w, MooreOffsets[a].0, 0);
      WrapInjective(y, h, MooreOffsets[a].1, 0);
    }
  }

  /** On a torus one or two cells wide the left and right neighbour are the
      same column, so `count_neighbours` counts that column twice; one cell
      wide, both are the cell's own column. */
  lemma NarrowTorusRepeatsColumns(w: nat, x: nat)
    requires 1 <= w <= 2 && x < w
    ensures Prev(x, w) == Next(x, w)
    ensures w == 1 ==> Prev(x, w) == x
  {
  }

  /** A single live cell on a 1 x 1 torus is its own eight neighbours. */
  lemma SingleCellTorusCountsItselfEightTimes()
    ensures Neighbours([[true]], 1, 1, true, 0, 0) == 8
  {
  }

  // ---------------------------------------------------------------------------
  // The synchronous step

  /** The branches of the step loop for one cell with `n` live neighbours:
      fewer than 2 or more than 3 kills it, exactly 3 makes it alive, and 2
      keeps its state. */
  function NextState(alive: bool, n: nat): (r: bool)
    ensures !alive ==> (r <==> n == 3)
    ensures alive ==> (r <==> n == 2 || n == 3)
  {
    if n < 2 || n > 3 then false
    else if n == 3 then true
    else alive
  }

  /** The next state of cell (x, y), computed from the board `b` alone. */
  function NextCell(b: Board, w: nat, h: nat, wrap: bool, x: nat, y: nat): bool
    requires IsRect(b, w, h) && x < w && y < h
  {
    NextState(b[y][x], Neighbours(b, w, h, wrap, x, y))
  }

  /** The board one generation later, every cell computed from the old board. */
  function NextBoard(b: Board, w: nat, h: nat, wrap: bool): (r: Board)
    requires IsRect(b, w, h)
    ensures IsRect(r, w, h)
    ensures forall y, x | 0 <= y < h && 0 <= x < w :: r[y][x] == NextCell(b, w, h, wrap, x, y)
  {
    seq(h, y requires 0 <= y < h => seq(w, x requires 0 <= x < w => NextCell(b, w, h, wrap, x, y)))
  }

  /** One generation: the new board, and the counter moved by the change in
      the number of live cells. */
  function Step(g: Game): (r: Game)
    requires WellFormed(g)
    ensures WellFormed(r) && SameConfig(r, g)
    ensures Drift(r) == Drift(g)
  {
    var nb := NextBoard(g.board, g.sizeX, g.sizeY, g.wrapEdges);
    g.(board := nb, liveCells := g.liveCells + LiveCount(nb) - LiveCount(g.board))
  }

  /** Every cell of the stepped board follows B3/S23 applied to its Moore
      neighbourhood on the board before the step. */
  lemma StepFollowsRule(g: Game)
    requires WellFormed(g)
    ensures forall y, x | 0 <= y < g.sizeY && 0 <= x < g.sizeX ::
      Step(g).board[y][x] == NextState(g.board[y][x], MooreCount(g.board, g.sizeX, g.sizeY, g.wrapEdges, x, y))
  {
    forall y, x | 0 <= y < g.sizeY && 0 <= x < g.sizeX
      ensures Step(g).board[y][x] == NextState(g.board[y][x], MooreCount(g.board, g.sizeX, g.sizeY, g.wrapEdges, x, y))
    {
      NeighboursMatchReference(g.board, g.sizeX, g.sizeY, g.wrapEdges, x, y);
    }
  }

  /** `n` generations in a row. */
  function Steps(g: Game, n: nat): (r: Game)
    requires WellFormed(g)
    ensures WellFormed(r) && SameConfig(r, g)
    ensures Drift(r) == Drift(g)
    ensures n == 0 ==> r == g
    decreases n
  {
    if n == 0 then g else Steps(Step(g), n - 1)
  }

  lemma {:induction false} StepsSucc(g: Game, n: nat)
    requires WellFormed(g)
    ensures Steps(g, n + 1) == Step(Steps(g, n))
    decreases n
  {
    if n > 0 {
      StepsSucc(Step(g), n - 1);
    }
  }

  /** Stepping `a` generations and then `c` more is stepping `a + c`. */
  lemma {:induction false} StepsAdd(g: Game, a: nat, c: nat)
    requires WellFormed(g)
    ensures Steps(Steps(g, a), c) == Steps(g, a + c)
    decreases a
  {
    if a > 0 {
      StepsAdd(Step(g), a - 1, c);
    }
  }

  /** The body of the column loop of `step_simulation` for row `i`: each
      cell's neighbours are counted on the old board `g.board`; the copy
      `newBoard` is overwritten with dead where the count is below 2 or above
      3 and with alive where it is 3, and `live` moves with each change. */
  method StepRow(g: Game, newBoard: Board, live: int, i: nat) returns (nb: Board, lv: int)
    requires WellFormed(g) && i < g.sizeY && IsRect(newBoard, g.sizeX, g.sizeY)
    requires live - LiveCount(newBoard) == Drift(g)
    requires forall x | 0 <= x < g.sizeX :: newBoard[i][x] == g.board[i][x]
    ensures IsRect(nb, g.sizeX, g.sizeY)
    ensures lv - LiveCount(nb) == Drift(g)
    ensures forall x | 0 <= x < g.sizeX :: nb[i][x] == NextCell(g.board, g.sizeX, g.sizeY, g.wrapEdges, x, i)
    ensures forall y, x | 0 <= y < g.sizeY && 0 <= x < g.sizeX && y != i :: nb[y][x] == newBoard[y][x]
  {
    nb, lv := newBoard, live;
    var j := 0;
    while j < g.sizeX
      invariant j <= g.sizeX
      invariant IsRect(nb, g.sizeX, g.sizeY)
      invariant lv - LiveCount(nb) == Drift(g)
      invariant forall x | 0 <= x < j :: nb[i][x] == NextCell(g.board, g.sizeX, g.sizeY, g.wrapEdges, x, i)
      invariant forall x | j <= x < g.sizeX :: nb[i][x] == g.board[i][x]
      invariant forall y, x | 0 <= y < g.sizeY && 0 <= x < g.sizeX && y != i :: nb[y][x] == newBoard[y][x]
    {
      var n := Neighbours(g.board, g.sizeX, g.sizeY, g.wrapEdges, j, i);
      if n < 2 || n > 3 {
        LiveCountUpdate(nb, j, i, false);
        nb := Update(nb, j, i, false);
        if g.board[i][j] {
          lv := lv - 1;
        }
      }
      if n == 3 {
        LiveCountUpdate(nb, j, i, true);
        nb := Update(nb, j, i, true);
        if !g.board[i][j] {
          lv := lv + 1;
        }
      }
      j := j + 1;
    }
  }

  /** One pass of `step_simulation`: `new_board = board`, the row loop over
      the copy, then `board = new_board`. The result is the synchronous step. */
  method StepOnce(g: Game) returns (r: Game)
    requires WellFormed(g)
    ensures r == Step(g)
  {
    var newBoard := g.board;
    var live := g.liveCells;
    var i := 0;
    while i < g.sizeY
      invariant i <= g.sizeY
      invariant IsRect(newBoard, g.sizeX, g.sizeY)
      invariant live - LiveCount(newBoard) == Drift(g)
      invariant forall y, x | 0 <= y < i && 0 <= x < g.sizeX ::
        newBoard[y][x] == NextCell(g.board, g.sizeX, g.sizeY, g.wrapEdges, x, y)
      invariant forall y, x | i <= y < g.sizeY && 0 <= x < g.sizeX :: newBoard[y][x] == g.board[y][x]
    {
      newBoard, live := StepRow(g, newBoard, live, i);
      i := i + 1;
    }
    var next := NextBoard(g.board, g.sizeX, g.sizeY, g.wrapEdges);
    BoardExt(newBoard, next, g.sizeX, g.sizeY);
    r := g.(board := newBoard, liveCells := live);
  }

  /** `step_simulation(num_steps)`: `num_steps` synchronous passes. */
  method StepSimulation(g: Game, numSteps: nat) returns (r: Game)
    requires WellFormed(g)
    ensures r == Steps(g, numSteps)
    ensures CounterExact(g) ==> CounterExact(r)
  {
    r := g;
    var s := 0;
    while s < numSteps
      invariant s <= numSteps
      invariant r == Steps(g, s)
    {
      StepsSucc(g, s);
      r := StepOnce(r);
      s := s + 1;
    }
  }
}
