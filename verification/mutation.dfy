/** `player::mutate`: a player's seed is rebuilt from a donor's seed. Every
    random decision of the program is a call of `rand()`, so the model reads
    one stream of draws, `rand(0), rand(1), ...`, from a cursor and returns
    the cursor after the last draw it used. The decisions depend only on the
    donor and on the draws, never on the seed being written, so a pass is
    modelled as the list of decisions it takes, one per cell in row-major
    order, and the new seed as the replay of the writes those decisions make,
    in the same order, on a cleared seed. */
module Mutation {
  import opened Boards
  import opened Outcomes
  import opened Player

  /** `RAND_MAX` of the GNU C library, the largest value `rand()` returns. */
  const RandMax: nat := 2147483647

  /** `RAND_MAX/100`, an integer division, the divisor of every chance test. */
  const Scale: nat := RandMax / 100

  /** Probes a relocation makes before it gives up looking for a dead cell. */
  const MaxAttempts: nat := 20

  /** Factor applied to both per-cell percentages by a big mutation. */
  const BigFactor: real := 5.0

  /** `rand()/(RAND_MAX/100) <= percentage` for the draw `v`, with exact
      division in place of the float one; the divisor is positive, so the
      test is stated multiplied out. */
  predicate Chance(v: nat, percentage: real) {
    (v as real) <= percentage * (Scale as real)
  }

  /** A negative percentage never succeeds, a draw of 0 succeeds for any
      percentage that is not negative, and every draw up to `RAND_MAX`
      succeeds from 101 percent on. */
  lemma ChanceEdges(percentage: real)
    ensures percentage < 0.0 ==> forall v: nat {:trigger Chance(v, percentage)} :: !Chance(v, percentage)
    ensures percentage >= 0.0 ==> Chance(0, percentage)
    ensures percentage >= 101.0 ==> forall v: nat {:trigger Chance(v, percentage)} :: v <= RandMax ==> Chance(v, percentage)
  {
    assert Scale == 21474836;
    if percentage >= 101.0 {
      forall v: nat | v <= RandMax ensures Chance(v, percentage) {
        assert (v as real) <= 2147483647.0;
      }
    }
  }

  // ---------------------------------------------------------------------------
  // Cells in row-major order

  datatype Cell = Cell(x: nat, y: nat)

  predicate InBounds(c: Cell, sx: nat, sy: nat) {
    c.x < sx && c.y < sy
  }

  /** `a` is visited before `b` by the nested loops over rows, then columns. */
  predicate Before(a: Cell, b: Cell) {
    a.y < b.y || (a.y == b.y && a.x < b.x)
  }

  /** The cells of an `sx` x `sy` seed in the order of the nested loops:
      each cell exactly once, every one in bounds, strictly in row-major
      order. */
  function RowMajor(sx: nat, sy: nat): (r: seq<Cell>)
    ensures forall k | 0 <= k < |r| :: InBounds(r[k], sx, sy)
    ensures forall x: nat, y: nat | x < sx && y < sy :: Cell(x, y) in r
    ensures forall k, l | 0 <= k < l < |r| :: Before(r[k], r[l])
  {
    if sy == 0 then []
    else
      var front := RowMajor(sx, sy - 1);
      var row := seq(sx, j requires 0 <= j < sx => Cell(j, sy - 1));
      assert forall x: nat, y: nat | x < sx && y < sy :: Cell(x, y) in front + row by {
        forall x: nat, y: nat | x < sx && y < sy ensures Cell(x, y) in front + row {
          if y == sy - 1 { assert row[x] == Cell(x, y); }
        }
      }
      front + row
  }

  lemma RowMajorDistinct(cells: seq<Cell>, k: nat, l: nat)
    requires forall i, j | 0 <= i < j < |cells| :: Before(cells[i], cells[j])
    requires k < |cells| && l < |cells| && k != l
    ensures cells[k] != cells[l]
  {
    if k < l { assert Before(cells[k], cells[l]); } else { assert Before(cells[l], cells[k]); }
  }

  // ---------------------------------------------------------------------------
  // One cell's decision

  datatype Action = Negate | Copy | Relocate(target: Cell)

  /** The position that probe number `a` of a relocation reads from the two
      draws at `cur + 2a` (column) and `cur + 2a + 1` (row). */
  function ProbeAt(rand: nat -> nat, cur: nat, a: nat, sx: nat, sy: nat): (c: Cell)
    requires sx > 0 && sy > 0
    ensures InBounds(c, sx, sy)
  {
    Cell(rand(cur + 2 * a) % sx, rand(cur + 2 * a + 1) % sy)
  }

  function Alive(ref: Board, c: Cell, sx: nat, sy: nat): bool
    requires IsRect(ref, sx, sy) && InBounds(c, sx, sy)
  {
    ref[c.y][c.x]
  }

  /** The probe loop of a relocation from probe `a` on: the number of the
      probe it stops at. It stops at the first probe that finds a dead donor
      cell, or at the last allowed probe whatever that probe finds. */
  function Probe(ref: Board, sx: nat, sy: nat, rand: nat -> nat, cur: nat, a: nat): (t: nat)
    requires IsRect(ref, sx, sy) && sx > 0 && sy > 0 && a < MaxAttempts
    ensures a <= t < MaxAttempts
    ensures forall b | a <= b < t :: Alive(ref, ProbeAt(rand, cur, b, sx, sy), sx, sy)
    ensures t < MaxAttempts - 1 ==> !Alive(ref, ProbeAt(rand, cur, t, sx, sy), sx, sy)
    decreases MaxAttempts - a
  {
    if Alive(ref, ProbeAt(rand, cur, a, sx, sy), sx, sy) && a + 1 < MaxAttempts then
      Probe(ref, sx, sy, rand, cur, a + 1)
    else a
  }

  /** On a donor whose every cell is alive, every probe fails and the loop
      stops at the last one, whose position is then written alive. */
  lemma ProbeOnFullDonor(ref: Board, sx: nat, sy: nat, rand: nat -> nat, cur: nat)
    requires IsRect(ref, sx, sy) && sx > 0 && sy > 0
    requires forall i, j | 0 <= i < sy && 0 <= j < sx :: ref[i][j]
    ensures Probe(ref, sx, sy, rand, cur, 0) == MaxAttempts - 1
  {
  }

  /** A decision and the cursor after the draws it used. */
  datatype Visit = Visit(action: Action, next: nat)

  /** The body of the nested loops for one cell: a change-state test; if it
      fails and the donor cell is alive, a relocate test; if that succeeds,
      the probe loop. The relocate test draws only when the donor cell is
      alive, by the short-circuit `&&`. */
  function VisitCell(ref: Board, sx: nat, sy: nat, rand: nat -> nat, cur: nat,
                     change: real, relocate: real, c: Cell): (v: Visit)
    requires IsRect(ref, sx, sy) && InBounds(c, sx, sy)
    ensures v.action == Negate <==> Chance(rand(cur), change)
    ensures v.action.Relocate? <==>
              !Chance(rand(cur), change) && Alive(ref, c, sx, sy) && Chance(rand(cur + 1), relocate)
    ensures v.action.Relocate? ==> InBounds(v.action.target, sx, sy)
    ensures v.action.Relocate? ==>
              v.action.target == ProbeAt(rand, cur + 2, Probe(ref, sx, sy, rand, cur + 2, 0), sx, sy)
    ensures cur < v.next <= cur + 2 + 2 * MaxAttempts
    ensures v.action == Negate ==> v.next == cur + 1
    ensures v.action.Relocate? ==> v.next == cur + 4 + 2 * Probe(ref, sx, sy, rand, cur + 2, 0)
    ensures v.action == Copy ==> v.next == cur + 1 + Bit(Alive(ref, c, sx, sy))
  {
    if Chance(rand(cur), change) then Visit(Negate, cur + 1)
    else if Alive(ref, c, sx, sy) && Chance(rand(cur + 1), relocate) then
      var t := Probe(ref, sx, sy, rand, cur + 2, 0);
      Visit(Relocate(ProbeAt(rand, cur + 2, t, sx, sy)), cur + 2 + 2 * (t + 1))
    else if Alive(ref, c, sx, sy) then Visit(Copy, cur + 2)
    else Visit(Copy, cur + 1)
  }

  // ---------------------------------------------------------------------------
  // A pass over the seed

  datatype Pass = Pass(actions: seq<Action>, next: nat)

  /** The decisions for `cells`, visited in order, each reading its draws
      where the previous one stopped. */
  function Scan(ref: Board, sx: nat, sy: nat, rand: nat -> nat, cur: nat,
                change: real, relocate: real, cells: seq<Cell>): (r: Pass)
    requires IsRect(ref, sx, sy)
    requires forall k | 0 <= k < |cells| :: InBounds(cells[k], sx, sy)
    ensures |r.actions| == |cells|
    ensures forall k | 0 <= k < |cells| :: r.actions[k].Relocate? ==>
              InBounds(r.actions[k].target, sx, sy) && Alive(ref, cells[k], sx, sy)
    ensures r.next >= cur + |cells|
    ensures |cells| > 0 ==> r.actions[0] == VisitCell(ref, sx, sy, rand, cur, change, relocate, cells[0]).action
    decreases |cells|
  {
    if |cells| == 0 then Pass([], cur)
    else
      var v := VisitCell(ref, sx, sy, rand, cur, change, relocate, cells[0]);
      var rest := Scan(ref, sx, sy, rand, v.next, change, relocate, cells[1..]);
      Pass([v.action] + rest.actions, rest.next)
  }

  /** The cursor before each visit of a pass over `cells` and, last, the
      cursor after the pass. */
  function Cursors(ref: Board, sx: nat, sy: nat, rand: nat -> nat, cur: nat,
                   change: real, relocate: real, cells: seq<Cell>): (cs: seq<nat>)
    requires IsRect(ref, sx, sy)
    requires forall k | 0 <= k < |cells| :: InBounds(cells[k], sx, sy)
    ensures |cs| == |cells| + 1 && cs[0] == cur
    decreases |cells|
  {
    if |cells| == 0 then [cur]
    else
      var v := VisitCell(ref, sx, sy, rand, cur, change, relocate, cells[0]);
      [cur] + Cursors(ref, sx, sy, rand, v.next, change, relocate, cells[1..])
  }

  /** One visit, then the rest of the pass from where it stopped. */
  lemma ScanUnfold(ref: Board, sx: nat, sy: nat, rand: nat -> nat, cur: nat,
                   change: real, relocate: real, cells: seq<Cell>)
    requires IsRect(ref, sx, sy)
    requires forall k | 0 <= k < |cells| :: InBounds(cells[k], sx, sy)
    requires |cells| > 0
    ensures var v := VisitCell(ref, sx, sy, rand, cur, change, relocate, cells[0]);
            var rest := Scan(ref, sx, sy, rand, v.next, change, relocate, cells[1..]);
            && Scan(ref, sx, sy, rand, cur, change, relocate, cells) == Pass([v.action] + rest.actions, rest.next)
            && Cursors(ref, sx, sy, rand, cur, change, relocate, cells)
               == [cur] + Cursors(ref, sx, sy, rand, v.next, change, relocate, cells[1..])
  {
  }

  /** Decision `k` of a pass is the visit of cell `k` at the cursor where
      visit `k - 1` stopped, and the pass ends where its last visit stopped. */
  lemma {:induction false} ScanFollowsCursors(ref: Board, sx: nat, sy: nat, rand: nat -> nat, cur: nat,
                                              change: real, relocate: real, cells: seq<Cell>)
    requires IsRect(ref, sx, sy)
    requires forall k | 0 <= k < |cells| :: InBounds(cells[k], sx, sy)
    ensures var cs := Cursors(ref, sx, sy, rand, cur, change, relocate, cells);
            && Scan(ref, sx, sy, rand, cur, change, relocate, cells).next == cs[|cells|]
            && forall k | 0 <= k < |cells| ::
                 var v := VisitCell(ref, sx, sy, rand, cs[k], change, relocate, cells[k]);
                 Scan(ref, sx, sy, rand, cur, change, relocate, cells).actions[k] == v.action && cs[k + 1] == v.next
    decreases |cells|
  {
    if |cells| > 0 {
      var v := VisitCell(ref, sx, sy, rand, cur, change, relocate, cells[0]);
      var tail := cells[1..];
      ScanFollowsCursors(ref, sx, sy, rand, v.next, change, relocate, tail);
      ScanUnfold(ref, sx, sy, rand, cur, change, relocate, cells);
      var cs := Cursors(ref, sx, sy, rand, cur, change, relocate, cells);
      var cs' := Cursors(ref, sx, sy, rand, v.next, change, relocate, tail);
      var r := Scan(ref, sx, sy, rand, cur, change, relocate, cells);
      var r' := Scan(ref, sx, sy, rand, v.next, change, relocate, tail);
      forall k | 0 <= k < |cells|
        ensures r.actions[k] == VisitCell(ref, sx, sy, rand, cs[k], change, relocate, cells[k]).action
        ensures cs[k + 1] == VisitCell(ref, sx, sy, rand, cs[k], change, relocate, cells[k]).next
      {
        if k > 0 {
          assert cs[k] == cs'[k - 1] && cs[k + 1] == cs'[k] && cells[k] == tail[k - 1];
          assert r.actions[k] == r'.actions[k - 1];
        }
      }
    }
  }

  /** The loop flag `mutations_happened`: some cell was negated or relocated. */
  predicate Happened(actions: seq<Action>) {
    exists k | 0 <= k < |actions| :: actions[k] != Copy
  }

  // ---------------------------------------------------------------------------
  // The writes of a pass

  datatype Write = Write(at: Cell, value: bool)

  /** The one write a decision makes: the negated or copied donor cell at the
      cell itself, or `true` at the relocation target. A relocated cell itself
      is not written. */
  function WriteOf(ref: Board, sx: nat, sy: nat, c: Cell, a: Action): (w: Write)
    requires IsRect(ref, sx, sy) && InBounds(c, sx, sy)
    requires a.Relocate? ==> InBounds(a.target, sx, sy)
    ensures InBounds(w.at, sx, sy)
    ensures w.at == c <==> !a.Relocate? || a.target == c
    ensures a.Relocate? ==> w.value
  {
    match a
    case Negate => Write(c, !Alive(ref, c, sx, sy))
    case Copy => Write(c, Alive(ref, c, sx, sy))
    case Relocate(t) => Write(t, true)
  }

  predicate PassShape(sx: nat, sy: nat, cells: seq<Cell>, actions: seq<Action>) {
    && |actions| == |cells|
    && (forall k | 0 <= k < |cells| :: InBounds(cells[k], sx, sy))
    && (forall k | 0 <= k < |actions| :: actions[k].Relocate? ==> InBounds(actions[k].target, sx, sy))
  }

  function Writes(ref: Board, sx: nat, sy: nat, cells: seq<Cell>, actions: seq<Action>): (ws: seq<Write>)
    requires IsRect(ref, sx, sy) && PassShape(sx, sy, cells, actions)
    ensures |ws| == |cells|
    ensures forall k | 0 <= k < |ws| :: ws[k] == WriteOf(ref, sx, sy, cells[k], actions[k])
  {
    seq(|cells|, k requires 0 <= k < |cells| => WriteOf(ref, sx, sy, cells[k], actions[k]))
  }

  predicate WritesIn(ws: seq<Write>, sx: nat, sy: nat) {
    forall k | 0 <= k < |ws| :: InBounds(ws[k].at, sx, sy)
  }

  /** The writes performed one after the other on `b`. */
  function Apply(b: Board, sx: nat, sy: nat, ws: seq<Write>): (r: Board)
    requires IsRect(b, sx, sy) && WritesIn(ws, sx, sy)
    ensures IsRect(r, sx, sy)
  {
    if |ws| == 0 then b
    else
      var w := ws[|ws| - 1];
      Update(Apply(b, sx, sy, ws[..|ws| - 1]), w.at.x, w.at.y, w.value)
  }

  /** Writes after position `m` that miss a cell leave it as it was after
      the first `m` writes. */
  lemma {:induction false} ApplyFrame(b: Board, sx: nat, sy: nat, ws: seq<Write>, m: nat, c: Cell)
    requires IsRect(b, sx, sy) && WritesIn(ws, sx, sy) && InBounds(c, sx, sy)
    requires m <= |ws|
    requires forall l | m <= l < |ws| :: ws[l].at != c
    ensures Apply(b, sx, sy, ws)[c.y][c.x] == Apply(b, sx, sy, ws[..m])[c.y][c.x]
    decreases |ws|
  {
    if |ws| > m {
      var front := ws[..|ws| - 1];
      assert front[..m] == ws[..m];
      ApplyFrame(b, sx, sy, front, m, c);
    } else {
      assert ws[..m] == ws;
    }
  }

  /** A cell's value is the value of the last write to it. */
  lemma LastWriteWins(b: Board, sx: nat, sy: nat, ws: seq<Write>, k: nat)
    requires IsRect(b, sx, sy) && WritesIn(ws, sx, sy)
    requires k < |ws| && forall l | k < l < |ws| :: ws[l].at != ws[k].at
    ensures Apply(b, sx, sy, ws)[ws[k].at.y][ws[k].at.x] == ws[k].value
  {
    ApplyFrame(b, sx, sy, ws, k + 1, ws[k].at);
    assert ws[..k + 1][..k] == ws[..k];
  }

  /** A cell no write touches keeps its value. */
  lemma Untouched(b: Board, sx: nat, sy: nat, ws: seq<Write>, c: Cell)
    requires IsRect(b, sx, sy) && WritesIn(ws, sx, sy) && InBounds(c, sx, sy)
    requires forall l | 0 <= l < |ws| :: ws[l].at != c
    ensures Apply(b, sx, sy, ws)[c.y][c.x] == b[c.y][c.x]
  {
    ApplyFrame(b, sx, sy, ws, 0, c);
    assert ws[..0] == [];
  }

  /** A cell that some write after position `m` touches, where every such
      write stores `true`, ends alive. */
  lemma {:induction false} LastWritesAlive(b: Board, sx: nat, sy: nat, ws: seq<Write>, m: nat, c: Cell)
    requires IsRect(b, sx, sy) && WritesIn(ws, sx, sy) && InBounds(c, sx, sy)
    requires exists l | m <= l < |ws| :: ws[l].at == c
    requires forall l | m <= l < |ws| && ws[l].at == c :: ws[l].value
    ensures Apply(b, sx, sy, ws)[c.y][c.x]
    decreases |ws|
  {
    var w := ws[|ws| - 1];
    if w.at != c {
      var front := ws[..|ws| - 1];
      var l :| m <= l < |ws| && ws[l].at == c;
      assert front[l] == ws[l];
      LastWritesAlive(b, sx, sy, front, m, c);
    }
  }

  // ---------------------------------------------------------------------------
  // The seed a pass produces

  /** The seed after `clear_starting_board` and the writes of one pass. */
  function Outcome(ref: Board, sx: nat, sy: nat, cells: seq<Cell>, actions: seq<Action>): (s: Board)
    requires IsRect(ref, sx, sy) && PassShape(sx, sy, cells, actions)
    ensures IsRect(s, sx, sy)
  {
    Apply(Blank(sx, sy), sx, sy, Writes(ref, sx, sy, cells, actions))
  }

  /** Some decision strictly after position `k`, or at or before it, relocates
      to `c`. */
  predicate RelocatedLater(actions: seq<Action>, k: nat, c: Cell) {
    exists l | k < l < |actions| :: actions[l] == Relocate(c)
  }

  predicate RelocatedUpTo(actions: seq<Action>, k: nat, c: Cell) {
    exists l | 0 <= l <= k && l < |actions| :: actions[l] == Relocate(c)
  }

  /** Apart from the own write of position `k`, the writes that touch the
      cell visited there are the relocations that land on it. */
  lemma OtherWritesAreRelocations(ref: Board, sx: nat, sy: nat, cells: seq<Cell>, actions: seq<Action>, k: nat)
    requires IsRect(ref, sx, sy) && PassShape(sx, sy, cells, actions)
    requires forall i, j | 0 <= i < j < |cells| :: Before(cells[i], cells[j])
    requires k < |cells|
    ensures var ws := Writes(ref, sx, sy, cells, actions);
            forall l | 0 <= l < |ws| && l != k :: ws[l].at == cells[k] <==> actions[l] == Relocate(cells[k])
  {
    forall l | 0 <= l < |cells| && l != k {
      RowMajorDistinct(cells, k, l);
    }
  }

  /** The cell visited at position `k` ends alive exactly when a later
      relocation lands on it, or else when its own decision negates a dead
      donor cell, copies a live one, or relocates it after some decision up
      to this one landed on it. A later copy or negation therefore erases an
      earlier relocation that landed on it. */
  lemma OutcomeCell(ref: Board, sx: nat, sy: nat, cells: seq<Cell>, actions: seq<Action>, k: nat)
    requires IsRect(ref, sx, sy) && PassShape(sx, sy, cells, actions)
    requires forall i, j | 0 <= i < j < |cells| :: Before(cells[i], cells[j])
    requires k < |cells|
    ensures var c := cells[k];
            Outcome(ref, sx, sy, cells, actions)[c.y][c.x] ==
              (|| RelocatedLater(actions, k, c)
               || (actions[k] == Negate && !Alive(ref, c, sx, sy))
               || (actions[k] == Copy && Alive(ref, c, sx, sy))
               || (actions[k].Relocate? && RelocatedUpTo(actions, k, c)))
  {
    var c := cells[k];
    OtherWritesAreRelocations(ref, sx, sy, cells, actions, k);
    if RelocatedLater(actions, k, c) {
      LaterRelocationWins(ref, sx, sy, cells, actions, k);
    } else if !actions[k].Relocate? {
      LastWriteWins(Blank(sx, sy), sx, sy, Writes(ref, sx, sy, cells, actions), k);
    } else {
      RelocatedCellValue(ref, sx, sy, cells, actions, k);
    }
  }

  lemma LaterRelocationWins(ref: Board, sx: nat, sy: nat, cells: seq<Cell>, actions: seq<Action>, k: nat)
    requires IsRect(ref, sx, sy) && PassShape(sx, sy, cells, actions)
    requires forall i, j | 0 <= i < j < |cells| :: Before(cells[i], cells[j])
    requires k < |cells| && RelocatedLater(actions, k, cells[k])
    ensures Outcome(ref, sx, sy, cells, actions)[cells[k].y][cells[k].x]
  {
    var c := cells[k];
    var ws := Writes(ref, sx, sy, cells, actions);
    OtherWritesAreRelocations(ref, sx, sy, cells, actions, k);
    var l :| k < l < |actions| && actions[l] == Relocate(c);
    assert ws[l].at == c;
    LastWritesAlive(Blank(sx, sy), sx, sy, ws, k + 1, c);
  }

  lemma RelocatedCellValue(ref: Board, sx: nat, sy: nat, cells: seq<Cell>, actions: seq<Action>, k: nat)
    requires IsRect(ref, sx, sy) && PassShape(sx, sy, cells, actions)
    requires forall i, j | 0 <= i < j < |cells| :: Before(cells[i], cells[j])
    requires k < |cells| && actions[k].Relocate? && !RelocatedLater(actions, k, cells[k])
    ensures Outcome(ref, sx, sy, cells, actions)[cells[k].y][cells[k].x] == RelocatedUpTo(actions, k, cells[k])
  {
    var c := cells[k];
    var ws := Writes(ref, sx, sy, cells, actions);
    var b := Blank(sx, sy);
    OtherWritesAreRelocations(ref, sx, sy, cells, actions, k);
    ApplyFrame(b, sx, sy, ws, k + 1, c);
    var front := ws[..k + 1];
    assert forall l | 0 <= l < |front| :: front[l].at == c <==> actions[l] == Relocate(c);
    TrueWritesOnly(b, sx, sy, front, c);
  }

  /** When every write to a cell stores `true`, the cell ends alive exactly
      when it was alive before or some write touches it. */
  lemma {:induction false} TrueWritesOnly(b: Board, sx: nat, sy: nat, ws: seq<Write>, c: Cell)
    requires IsRect(b, sx, sy) && WritesIn(ws, sx, sy) && InBounds(c, sx, sy)
    requires forall l | 0 <= l < |ws| && ws[l].at == c :: ws[l].value
    ensures Apply(b, sx, sy, ws)[c.y][c.x] == (b[c.y][c.x] || exists l | 0 <= l < |ws| :: ws[l].at == c)
    decreases |ws|
  {
    if |ws| > 0 {
      var front := ws[..|ws| - 1];
      TrueWritesOnly(b, sx, sy, front, c);
      if exists l | 0 <= l < |front| :: front[l].at == c {
        var l :| 0 <= l < |front| && front[l].at == c;
        assert ws[l].at == c;
      }
    }
  }

  // ---------------------------------------------------------------------------
  // The retry loop and `mutate`

  /** A pass that happened and the cursor it started from. */
  datatype Attempt = Attempt(start: nat, pass: Pass)

  /** The `do ... while(!mutations_happened)` loop with at most `fuel`
      repetitions: full passes over the seed until one negates or relocates
      some cell. `None` means the fuel ran out, where the program would keep
      trying. */
  function Retry(ref: Board, sx: nat, sy: nat, rand: nat -> nat, cur: nat,
                 change: real, relocate: real, fuel: nat): (r: Option<Attempt>)
    requires IsRect(ref, sx, sy)
    ensures r.Some? ==> r.value.start >= cur
    ensures r.Some? ==> r.value.pass == Scan(ref, sx, sy, rand, r.value.start, change, relocate, RowMajor(sx, sy))
    ensures r.Some? ==> Happened(r.value.pass.actions)
    decreases fuel
  {
    var pass := Scan(ref, sx, sy, rand, cur, change, relocate, RowMajor(sx, sy));
    if Happened(pass.actions) then Some(Attempt(cur, pass))
    else if fuel == 0 then None
    else Retry(ref, sx, sy, rand, pass.next, change, relocate, fuel - 1)
  }

  /** A first pass that changes something ends the loop at once, whatever
      the fuel. */
  lemma RetryStopsAtFirstChange(ref: Board, sx: nat, sy: nat, rand: nat -> nat, cur: nat,
                                change: real, relocate: real, fuel: nat)
    requires IsRect(ref, sx, sy)
    requires Happened(Scan(ref, sx, sy, rand, cur, change, relocate, RowMajor(sx, sy)).actions)
    ensures Retry(ref, sx, sy, rand, cur, change, relocate, fuel)
            == Some(Attempt(cur, Scan(ref, sx, sy, rand, cur, change, relocate, RowMajor(sx, sy))))
  {
  }

  /** With both per-cell percentages negative every decision is a copy. */
  lemma {:induction false} HopelessScan(ref: Board, sx: nat, sy: nat, rand: nat -> nat, cur: nat,
                                        change: real, relocate: real, cells: seq<Cell>)
    requires IsRect(ref, sx, sy) && forall k | 0 <= k < |cells| :: InBounds(cells[k], sx, sy)
    requires change < 0.0 && relocate < 0.0
    ensures !Happened(Scan(ref, sx, sy, rand, cur, change, relocate, cells).actions)
    decreases |cells|
  {
    if |cells| > 0 {
      ChanceEdges(change);
      ChanceEdges(relocate);
      var v := VisitCell(ref, sx, sy, rand, cur, change, relocate, cells[0]);
      HopelessScan(ref, sx, sy, rand, v.next, change, relocate, cells[1..]);
      var r := Scan(ref, sx, sy, rand, cur, change, relocate, cells);
      var rest := Scan(ref, sx, sy, rand, v.next, change, relocate, cells[1..]);
      assert r.actions == [v.action] + rest.actions;
      forall k | 0 <= k < |r.actions| ensures r.actions[k] == Copy {
        if k > 0 { assert r.actions[k] == rest.actions[k - 1]; }
      }
    }
  }

  /** `step` applied `k` times from `cur`. */
  function Iter(step: nat -> nat, cur: nat, k: nat): nat
    decreases k
  {
    if k == 0 then cur else Iter(step, step(cur), k - 1)
  }

  /** The first of `cur`, `step(cur)`, ..., at most `fuel` steps on, that
      satisfies `hit`. */
  function FirstHit(step: nat -> nat, hit: nat -> bool, cur: nat, fuel: nat): Option<nat>
    decreases fuel
  {
    if hit(cur) then Some(cur)
    else if fuel == 0 then None
    else FirstHit(step, hit, step(cur), fuel - 1)
  }

  /** The search finds nothing exactly when none of the first `fuel + 1`
      points of the chain is a hit. */
  lemma {:induction false} FirstHitNone(step: nat -> nat, hit: nat -> bool, cur: nat, fuel: nat)
    ensures FirstHit(step, hit, cur, fuel).None? <==> forall j | 0 <= j <= fuel :: !hit(Iter(step, cur, j))
    decreases fuel
  {
    assert Iter(step, cur, 0) == cur;
    if hit(cur) {
      assert FirstHit(step, hit, cur, fuel) == Some(cur);
      assert hit(Iter(step, cur, 0));
      assert !(forall j | 0 <= j <= fuel :: !hit(Iter(step, cur, j)));
    } else if fuel == 0 {
      assert FirstHit(step, hit, cur, fuel) == None;
      forall j | 0 <= j <= fuel ensures !hit(Iter(step, cur, j)) {
        assert j == 0;
      }
    } else {
      FirstHitNone(step, hit, step(cur), fuel - 1);
      assert FirstHit(step, hit, cur, fuel) == FirstHit(step, hit, step(cur), fuel - 1);
      if FirstHit(step, hit, cur, fuel).None? {
        forall j | 0 <= j <= fuel ensures !hit(Iter(step, cur, j)) {
          if j > 0 {
            assert Iter(step, cur, j) == Iter(step, step(cur), j - 1);
            assert !hit(Iter(step, step(cur), j - 1));
          } else {
            assert !hit(cur);
          }
        }
      } else {
        var j :| 0 <= j <= fuel - 1 && hit(Iter(step, step(cur), j));
        assert Iter(step, cur, j + 1) == Iter(step, step(cur), j);
      }
    }
  }

  /** Point `k` of the chain is the first hit and is what the search found. */
  predicate FirstHitAt(step: nat -> nat, hit: nat -> bool, cur: nat, fuel: nat, k: nat)
    requires FirstHit(step, hit, cur, fuel).Some?
  {
    && k <= fuel
    && FirstHit(step, hit, cur, fuel).value == Iter(step, cur, k)
    && hit(Iter(step, cur, k))
    && forall j | 0 <= j < k :: !hit(Iter(step, cur, j))
  }

  /** What the search finds is the first hit of the chain. */
  lemma {:induction false} FirstHitSome(step: nat -> nat, hit: nat -> bool, cur: nat, fuel: nat)
    requires FirstHit(step, hit, cur, fuel).Some?
    ensures exists k: nat :: FirstHitAt(step, hit, cur, fuel, k)
    decreases fuel
  {
    assert Iter(step, cur, 0) == cur;
    if hit(cur) {
      assert FirstHitAt(step, hit, cur, fuel, 0);
    } else {
      FirstHitSome(step, hit, step(cur), fuel - 1);
      var k: nat :| FirstHitAt(step, hit, step(cur), fuel - 1, k);
      forall j | 1 <= j <= k + 1
        ensures Iter(step, cur, j) == Iter(step, step(cur), j - 1)
      {
      }
      assert FirstHitAt(step, hit, cur, fuel, k + 1);
    }
  }

  /** Where a pass that starts at a cursor stops. */
  function PassEnd(ref: Board, sx: nat, sy: nat, rand: nat -> nat, change: real, relocate: real): nat -> nat
    requires IsRect(ref, sx, sy)
  {
    (c: nat) => Scan(ref, sx, sy, rand, c, change, relocate, RowMajor(sx, sy)).next
  }

  /** Whether a pass that starts at a cursor changes a cell. */
  function PassChanges(ref: Board, sx: nat, sy: nat, rand: nat -> nat, change: real, relocate: real): nat -> bool
    requires IsRect(ref, sx, sy)
  {
    (c: nat) => Happened(Scan(ref, sx, sy, rand, c, change, relocate, RowMajor(sx, sy)).actions)
  }

  /** The cursor at which pass `k` of the retry loop starts, counting from
      0, each pass starting where the previous one stopped. */
  function PassStart(ref: Board, sx: nat, sy: nat, rand: nat -> nat, cur: nat,
                     change: real, relocate: real, k: nat): nat
    requires IsRect(ref, sx, sy)
  {
    Iter(PassEnd(ref, sx, sy, rand, change, relocate), cur, k)
  }

  /** Pass `k` of the retry loop. */
  function NthPass(ref: Board, sx: nat, sy: nat, rand: nat -> nat, cur: nat,
                   change: real, relocate: real, k: nat): Pass
    requires IsRect(ref, sx, sy)
  {
    Scan(ref, sx, sy, rand, PassStart(ref, sx, sy, rand, cur, change, relocate, k), change, relocate, RowMajor(sx, sy))
  }

  /** The search's hit test at point `j` of the chain is whether pass `j`
      changes a cell. */
  lemma NthPassChanges(ref: Board, sx: nat, sy: nat, rand: nat -> nat, cur: nat,
                       change: real, relocate: real, j: nat)
    requires IsRect(ref, sx, sy)
    ensures PassChanges(ref, sx, sy, rand, change, relocate)(Iter(PassEnd(ref, sx, sy, rand, change, relocate), cur, j))
            == Happened(NthPass(ref, sx, sy, rand, cur, change, relocate, j).actions)
  {
  }

  /** The retry loop is the search for the first pass that changes a cell. */
  lemma {:induction false} RetryIsFirstHit(ref: Board, sx: nat, sy: nat, rand: nat -> nat, cur: nat,
                                           change: real, relocate: real, fuel: nat)
    requires IsRect(ref, sx, sy)
    ensures Retry(ref, sx, sy, rand, cur, change, relocate, fuel)
            == match FirstHit(PassEnd(ref, sx, sy, rand, change, relocate),
                              PassChanges(ref, sx, sy, rand, change, relocate), cur, fuel)
               case None => None
               case Some(s) => Some(Attempt(s, Scan(ref, sx, sy, rand, s, change, relocate, RowMajor(sx, sy))))
    decreases fuel
  {
    var pass := Scan(ref, sx, sy, rand, cur, change, relocate, RowMajor(sx, sy));
    if !Happened(pass.actions) && fuel > 0 {
      RetryIsFirstHit(ref, sx, sy, rand, pass.next, change, relocate, fuel - 1);
    }
  }

  /** The retry loop runs out of fuel exactly when none of the chained
      passes 0..fuel changes a cell. */
  lemma RetryNoneIff(ref: Board, sx: nat, sy: nat, rand: nat -> nat, cur: nat,
                     change: real, relocate: real, fuel: nat)
    requires IsRect(ref, sx, sy)
    ensures Retry(ref, sx, sy, rand, cur, change, relocate, fuel).None? <==>
            forall j | 0 <= j <= fuel :: !Happened(NthPass(ref, sx, sy, rand, cur, change, relocate, j).actions)
  {
    if Retry(ref, sx, sy, rand, cur, change, relocate, fuel).None? {
      var step, hit := PassEnd(ref, sx, sy, rand, change, relocate), PassChanges(ref, sx, sy, rand, change, relocate);
      RetryIsFirstHit(ref, sx, sy, rand, cur, change, relocate, fuel);
      FirstHitNone(step, hit, cur, fuel);
      forall j | 0 <= j <= fuel
        ensures !Happened(NthPass(ref, sx, sy, rand, cur, change, relocate, j).actions)
      {
        NthPassChanges(ref, sx, sy, rand, cur, change, relocate, j);
      }
    } else {
      RetryIsFirstChange(ref, sx, sy, rand, cur, change, relocate, fuel);
    }
  }

  /** The pass the retry loop returns is the first of the chained passes
      that changes a cell. */
  lemma RetryIsFirstChange(ref: Board, sx: nat, sy: nat, rand: nat -> nat, cur: nat,
                           change: real, relocate: real, fuel: nat)
    requires IsRect(ref, sx, sy)
    requires Retry(ref, sx, sy, rand, cur, change, relocate, fuel).Some?
    ensures exists k | 0 <= k <= fuel ::
              && Retry(ref, sx, sy, rand, cur, change, relocate, fuel).value
                 == Attempt(PassStart(ref, sx, sy, rand, cur, change, relocate, k),
                            NthPass(ref, sx, sy, rand, cur, change, relocate, k))
              && Happened(NthPass(ref, sx, sy, rand, cur, change, relocate, k).actions)
              && forall j | 0 <= j < k :: !Happened(NthPass(ref, sx, sy, rand, cur, change, relocate, j).actions)
  {
    var step, hit := PassEnd(ref, sx, sy, rand, change, relocate), PassChanges(ref, sx, sy, rand, change, relocate);
    RetryIsFirstHit(ref, sx, sy, rand, cur, change, relocate, fuel);
    FirstHitSome(step, hit, cur, fuel);
    var k: nat :| FirstHitAt(step, hit, cur, fuel, k);
    forall j | 0 <= j <= k
      ensures hit(Iter(step, cur, j)) == Happened(NthPass(ref, sx, sy, rand, cur, change, relocate, j).actions)
    {
      NthPassChanges(ref, sx, sy, rand, cur, change, relocate, j);
    }
    assert Retry(ref, sx, sy, rand, cur, change, relocate, fuel).value
           == Attempt(PassStart(ref, sx, sy, rand, cur, change, relocate, k),
                      NthPass(ref, sx, sy, rand, cur, change, relocate, k));
  }

  /** With both per-cell percentages negative no pass ever changes a cell,
      so the retry loop never ends, whatever the fuel. */
  lemma HopelessRetry(ref: Board, sx: nat, sy: nat, rand: nat -> nat, cur: nat,
                      change: real, relocate: real, fuel: nat)
    requires IsRect(ref, sx, sy) && change < 0.0 && relocate < 0.0
    ensures Retry(ref, sx, sy, rand, cur, change, relocate, fuel) == None
  {
    RetryNoneIff(ref, sx, sy, rand, cur, change, relocate, fuel);
    forall j | 0 <= j <= fuel
      ensures !Happened(NthPass(ref, sx, sy, rand, cur, change, relocate, j).actions)
    {
      HopelessScan(ref, sx, sy, rand, PassStart(ref, sx, sy, rand, cur, change, relocate, j),
                   change, relocate, RowMajor(sx, sy));
    }
  }

  /** A pass that changes nothing ends the loop without a result when the
      fuel is spent, and otherwise starts the next pass where it stopped. */
  lemma RetryAfterNoChange(ref: Board, sx: nat, sy: nat, rand: nat -> nat, cur: nat,
                           change: real, relocate: real, fuel: nat)
    requires IsRect(ref, sx, sy)
    requires !Happened(Scan(ref, sx, sy, rand, cur, change, relocate, RowMajor(sx, sy)).actions)
    ensures var next := Scan(ref, sx, sy, rand, cur, change, relocate, RowMajor(sx, sy)).next;
            Retry(ref, sx, sy, rand, cur, change, relocate, fuel)
            == if fuel == 0 then None else Retry(ref, sx, sy, rand, next, change, relocate, fuel - 1)
  {
  }

  /** A change-state percentage of 101 or more negates every cell. */
  lemma {:induction false} CertainScan(ref: Board, sx: nat, sy: nat, rand: nat -> nat, cur: nat,
                                       change: real, relocate: real, cells: seq<Cell>)
    requires IsRect(ref, sx, sy) && forall k | 0 <= k < |cells| :: InBounds(cells[k], sx, sy)
    requires change >= 101.0 && forall i: nat :: rand(i) <= RandMax
    ensures forall k | 0 <= k < |cells| :: Scan(ref, sx, sy, rand, cur, change, relocate, cells).actions[k] == Negate
    decreases |cells|
  {
    if |cells| > 0 {
      ChanceEdges(change);
      var v := VisitCell(ref, sx, sy, rand, cur, change, relocate, cells[0]);
      CertainScan(ref, sx, sy, rand, v.next, change, relocate, cells[1..]);
      var r := Scan(ref, sx, sy, rand, cur, change, relocate, cells);
      var rest := Scan(ref, sx, sy, rand, v.next, change, relocate, cells[1..]);
      assert r.actions == [v.action] + rest.actions;
      forall k | 0 <= k < |r.actions| ensures r.actions[k] == Negate {
        if k > 0 { assert r.actions[k] == rest.actions[k - 1]; }
      }
    }
  }

  /** A change-state percentage of 101 or more ends the loop after one pass
      with the complement of the donor. */
  lemma CertainRetry(ref: Board, sx: nat, sy: nat, rand: nat -> nat, cur: nat,
                     change: real, relocate: real, fuel: nat)
    requires IsRect(ref, sx, sy) && sx > 0 && sy > 0
    requires change >= 101.0 && forall i: nat :: rand(i) <= RandMax
    ensures var r := Retry(ref, sx, sy, rand, cur, change, relocate, fuel);
            && r.Some? && r.value.start == cur
            && PassShape(sx, sy, RowMajor(sx, sy), r.value.pass.actions)
            && forall i, j | 0 <= i < sy && 0 <= j < sx ::
                 Outcome(ref, sx, sy, RowMajor(sx, sy), r.value.pass.actions)[i][j] == !ref[i][j]
  {
    var cells := RowMajor(sx, sy);
    CertainScan(ref, sx, sy, rand, cur, change, relocate, cells);
    var actions := Scan(ref, sx, sy, rand, cur, change, relocate, cells).actions;
    assert Cell(0, 0) in cells;
    var k0 :| 0 <= k0 < |cells| && cells[k0] == Cell(0, 0);
    assert actions[k0] != Copy;
    RetryStopsAtFirstChange(ref, sx, sy, rand, cur, change, relocate, fuel);
    NegatedEverywhere(ref, sx, sy, actions);
  }

  /** A pass that negates every cell leaves the complement of the donor. */
  lemma NegatedEverywhere(ref: Board, sx: nat, sy: nat, actions: seq<Action>)
    requires IsRect(ref, sx, sy) && PassShape(sx, sy, RowMajor(sx, sy), actions)
    requires forall k | 0 <= k < |actions| :: actions[k] == Negate
    ensures forall i, j | 0 <= i < sy && 0 <= j < sx ::
              Outcome(ref, sx, sy, RowMajor(sx, sy), actions)[i][j] == !ref[i][j]
  {
    var cells := RowMajor(sx, sy);
    forall i, j | 0 <= i < sy && 0 <= j < sx
      ensures Outcome(ref, sx, sy, cells, actions)[i][j] == !ref[i][j]
    {
      assert Cell(j, i) in cells;
      var k :| 0 <= k < |cells| && cells[k] == Cell(j, i);
      OutcomeCell(ref, sx, sy, cells, actions, k);
    }
  }

  /** The percentages of the per-cell tests, multiplied by five on a big
      mutation. */
  function Boosted(percentage: real, big: bool): real {
    if big then percentage * BigFactor else percentage
  }

  /** The draws of `random_fill_starting_board`, one per seed cell in
      row-major order from the cursor `cur`. */
  function FillDraws(rand: nat -> nat, cur: nat, percentage: real, sx: nat, sy: nat): (d: Board)
    ensures IsRect(d, sx, sy)
  {
    seq(sy, i requires 0 <= i < sy =>
      seq(sx, j requires 0 <= j < sx => Chance(rand(cur + i * sx + j), percentage)))
  }

  /** The cursor at which `mutate`'s retry loop starts: after the draws of
      the complete-mutation and the big-mutation tests. */
  function RetryCursor(cur: nat): nat {
    cur + 2
  }

  /** A finished mutation: the player, the returned code and the cursor. */
  datatype Mutated = Mutated(player: Player, code: int, next: nat)

  /** `mutate`: a complete-mutation test; if it succeeds, a random fill of
      the current seed and code 2. Otherwise a big-mutation test, which
      multiplies both per-cell percentages by five, then the retry loop on a
      cleared seed, and code 1 for a big mutation, 0 otherwise. */
  function Mutate(p: Player, ref: Board, rand: nat -> nat, cur: nat,
                  change: real, relocate: real, big: real, complete: real, fill: real,
                  fuel: nat): (r: Option<Mutated>)
    requires Consistent(p) && IsRect(ref, p.seedX, p.seedY)
    ensures Chance(rand(cur), complete) ==> r.Some? && r.value.code == 2
    ensures r.Some? ==> Consistent(r.value.player) && SameExceptSeed(r.value.player, p)
    ensures r.Some? ==> r.value.next > cur
    ensures r.Some? ==> (r.value.code == 2 <==> Chance(rand(cur), complete))
    ensures r.Some? ==> (r.value.code == 1 <==> !Chance(rand(cur), complete) && Chance(rand(cur + 1), big))
    ensures r.Some? ==> 0 <= r.value.code <= 2
    ensures r.Some? && r.value.code == 2 ==>
              forall i, j | 0 <= i < p.seedY && 0 <= j < p.seedX :: p.seed[i][j] ==> r.value.player.seed[i][j]
  {
    var sx, sy := p.seedX, p.seedY;
    if Chance(rand(cur), complete) then
      Some(Mutated(RandomFillStartingBoard(p, FillDraws(rand, cur + 1, fill, sx, sy)), 2, cur + 1 + sx * sy))
    else
      var isBig := Chance(rand(cur + 1), big);
      match Retry(ref, sx, sy, rand, RetryCursor(cur), Boosted(change, isBig), Boosted(relocate, isBig), fuel)
      case None => None
      case Some(a) =>
        var seed := Outcome(ref, sx, sy, RowMajor(sx, sy), a.pass.actions);
        Some(Mutated(p.(seed := seed), if isBig then 1 else 0, a.pass.next))
  }

  /** Outside the complete branch the new seed is the outcome of a pass over
      the donor that changed something, at the percentages the big test
      chose: the first such pass of the retry loop, which starts two draws
      after the cursor. The old seed plays no part. */
  lemma MutatedSeedFromDonor(p: Player, ref: Board, rand: nat -> nat, cur: nat,
                             change: real, relocate: real, big: real, complete: real, fill: real,
                             fuel: nat, s: Board)
    requires Consistent(p) && IsRect(ref, p.seedX, p.seedY) && IsRect(s, p.seedX, p.seedY)
    requires !Chance(rand(cur), complete)
    requires Mutate(p, ref, rand, cur, change, relocate, big, complete, fill, fuel).Some?
    ensures var m := Mutate(p, ref, rand, cur, change, relocate, big, complete, fill, fuel).value;
            var isBig := Chance(rand(cur + 1), big);
            exists start: nat | start >= cur + 2 ::
              var pass := Scan(ref, p.seedX, p.seedY, rand, start, Boosted(change, isBig),
                               Boosted(relocate, isBig), RowMajor(p.seedX, p.seedY));
              && Happened(pass.actions)
              && m.player.seed == Outcome(ref, p.seedX, p.seedY, RowMajor(p.seedX, p.seedY), pass.actions)
              && m.next == pass.next
    ensures var m := Mutate(p, ref, rand, cur, change, relocate, big, complete, fill, fuel).value;
            var isBig := Chance(rand(cur + 1), big);
            exists k: nat | k <= fuel ::
              && Happened(NthPass(ref, p.seedX, p.seedY, rand, RetryCursor(cur), Boosted(change, isBig), Boosted(relocate, isBig), k).actions)
              && (forall j | 0 <= j < k :: !Happened(NthPass(ref, p.seedX, p.seedY, rand, RetryCursor(cur), Boosted(change, isBig), Boosted(relocate, isBig), j).actions))
              && m.player.seed == Outcome(ref, p.seedX, p.seedY, RowMajor(p.seedX, p.seedY),
                                          NthPass(ref, p.seedX, p.seedY, rand, RetryCursor(cur), Boosted(change, isBig), Boosted(relocate, isBig), k).actions)
              && m.next == NthPass(ref, p.seedX, p.seedY, rand, RetryCursor(cur), Boosted(change, isBig), Boosted(relocate, isBig), k).next
    ensures Mutate(p.(seed := s), ref, rand, cur, change, relocate, big, complete, fill, fuel)
            == Mutate(p, ref, rand, cur, change, relocate, big, complete, fill, fuel)
  {
    var isBig := Chance(rand(cur + 1), big);
    var a := Retry(ref, p.seedX, p.seedY, rand, RetryCursor(cur), Boosted(change, isBig), Boosted(relocate, isBig), fuel).value;
    assert a.start >= cur + 2;
    RetryIsFirstChange(ref, p.seedX, p.seedY, rand, RetryCursor(cur), Boosted(change, isBig), Boosted(relocate, isBig), fuel);
  }

  // ---------------------------------------------------------------------------
  // Two runs of `mutate` at the percentages the program uses (5, 2, 7, 7, 30)

  /** Draws for a 2 x 1 seed from cursor 0: no complete or big mutation, no
      change of state anywhere, a relocation of the left cell whose first
      probe lands on the right cell. */
  function OverwriteDraws(i: nat): nat {
    if i == 3 || i == 5 then 0 else if i == 4 then 1 else RandMax
  }

  lemma OverwriteVisits()
    ensures VisitCell([[true, false]], 2, 1, OverwriteDraws, 2, 5.0, 2.0, Cell(0, 0)) == Visit(Relocate(Cell(1, 0)), 6)
    ensures VisitCell([[true, false]], 2, 1, OverwriteDraws, 6, 5.0, 2.0, Cell(1, 0)) == Visit(Copy, 7)
  {
    ChanceEdges(5.0);
    ChanceEdges(2.0);
    assert Probe([[true, false]], 2, 1, OverwriteDraws, 4, 0) == 0;
  }

  lemma OverwritePass()
    ensures Scan([[true, false]], 2, 1, OverwriteDraws, 2, 5.0, 2.0, RowMajor(2, 1))
            == Pass([Relocate(Cell(1, 0)), Copy], 7)
  {
    var ref := [[true, false]];
    var cells := RowMajor(2, 1);
    assert cells == [Cell(0, 0), Cell(1, 0)];
    OverwriteVisits();
    assert cells[1..] == [Cell(1, 0)] && cells[1..][1..] == [];
    assert Scan(ref, 2, 1, OverwriteDraws, 7, 5.0, 2.0, cells[1..][1..]) == Pass([], 7);
    assert Scan(ref, 2, 1, OverwriteDraws, 6, 5.0, 2.0, cells[1..]) == Pass([Copy], 7);
  }

  lemma OverwriteRetry()
    ensures Retry([[true, false]], 2, 1, OverwriteDraws, RetryCursor(0), Boosted(5.0, false), Boosted(2.0, false), 0)
            == Some(Attempt(2, Pass([Relocate(Cell(1, 0)), Copy], 7)))
  {
    OverwritePass();
  }

  lemma OverwriteOutcome()
    ensures RowMajor(2, 1) == [Cell(0, 0), Cell(1, 0)]
    ensures Outcome([[true, false]], 2, 1, [Cell(0, 0), Cell(1, 0)], [Relocate(Cell(1, 0)), Copy]) == [[false, false]]
  {
    var ref := [[true, false]];
    var cells := [Cell(0, 0), Cell(1, 0)];
    var ws := Writes(ref, 2, 1, cells, [Relocate(Cell(1, 0)), Copy]);
    assert ws == [Write(Cell(1, 0), true), Write(Cell(1, 0), false)];
    assert ws[..1] == [Write(Cell(1, 0), true)] && ws[..1][..0] == [];
    assert Blank(2, 1)[0][0] == false && Blank(2, 1)[0][1] == false;
    assert Blank(2, 1)[0] == [false, false];
    assert Blank(2, 1) == [[false, false]];
    assert Apply(Blank(2, 1), 2, 1, ws[..1][..0]) == [[false, false]];
    assert [false, false][1 := true] == [false, true];
    assert Apply(Blank(2, 1), 2, 1, ws[..1]) == Update([[false, false]], 1, 0, true) == [[false, true]];
    assert [false, true][1 := false] == [false, false];
    assert Apply(Blank(2, 1), 2, 1, ws) == Update([[false, true]], 1, 0, false) == [[false, false]];
  }

  /** A 2 x 1 donor whose left cell is alive: that cell is relocated to the
      dead right cell, and the right cell's own copy of the dead donor cell
      then overwrites the relocation. The mutation counts as one, yet the new
      seed has no live cell at all. */
  lemma RelocationOverwrittenByLaterCopy(p: Player)
    requires Consistent(p) && p.seedX == 2 && p.seedY == 1
    ensures Mutate(p, [[true, false]], OverwriteDraws, 0, 5.0, 2.0, 7.0, 7.0, 30.0, 0)
            == Some(Mutated(p.(seed := [[false, false]]), 0, 7))
  {
    assert !Chance(OverwriteDraws(0), 7.0) && !Chance(OverwriteDraws(1), 7.0) by {
      assert Scale == 21474836;
    }
    OverwriteRetry();
    OverwriteOutcome();
  }

  /** Draws for a 1 x 1 seed from cursor 0: no complete or big mutation, no
      change of state, a relocation of the only cell. */
  function CloneDraws(i: nat): nat {
    if i == 3 then 0 else RandMax
  }

  lemma CloneVisit()
    ensures VisitCell([[true]], 1, 1, CloneDraws, 2, 5.0, 2.0, Cell(0, 0)) == Visit(Relocate(Cell(0, 0)), 44)
  {
    ChanceEdges(5.0);
    ChanceEdges(2.0);
    ProbeOnFullDonor([[true]], 1, 1, CloneDraws, 4);
  }

  lemma ClonePass()
    ensures Scan([[true]], 1, 1, CloneDraws, 2, 5.0, 2.0, RowMajor(1, 1)) == Pass([Relocate(Cell(0, 0))], 44)
  {
    var cells := RowMajor(1, 1);
    assert cells == [Cell(0, 0)];
    CloneVisit();
    assert cells[1..] == [];
  }

  lemma CloneRetry()
    ensures Retry([[true]], 1, 1, CloneDraws, RetryCursor(0), Boosted(5.0, false), Boosted(2.0, false), 0)
            == Some(Attempt(2, Pass([Relocate(Cell(0, 0))], 44)))
  {
    ClonePass();
  }

  lemma CloneOutcome()
    ensures RowMajor(1, 1) == [Cell(0, 0)]
    ensures Outcome([[true]], 1, 1, [Cell(0, 0)], [Relocate(Cell(0, 0))]) == [[true]]
  {
    var ws := Writes([[true]], 1, 1, [Cell(0, 0)], [Relocate(Cell(0, 0))]);
    assert ws == [Write(Cell(0, 0), true)];
    assert ws[..0] == [];
    assert Blank(1, 1)[0][0] == false;
    assert Blank(1, 1)[0] == [false];
    assert Blank(1, 1) == [[false]];
    assert Apply(Blank(1, 1), 1, 1, ws[..0]) == [[false]];
    assert [false][0 := true] == [true];
    assert Apply(Blank(1, 1), 1, 1, ws) == Update([[false]], 0, 0, true) == [[true]];
  }

  /** A 1 x 1 live donor whose cell is relocated: all twenty probes land on
      that live cell, and the write after the last one makes the new seed
      equal to the donor, a clone, although the loop counts a mutation. */
  lemma FullDonorRelocationIsAClone(p: Player)
    requires Consistent(p) && p.seedX == 1 && p.seedY == 1
    ensures Mutate(p, [[true]], CloneDraws, 0, 5.0, 2.0, 7.0, 7.0, 30.0, 0)
            == Some(Mutated(p.(seed := [[true]]), 0, 44))
  {
    assert !Chance(CloneDraws(0), 7.0) && !Chance(CloneDraws(1), 7.0) by {
      assert Scale == 21474836;
    }
    CloneRetry();
    CloneOutcome();
  }
}
