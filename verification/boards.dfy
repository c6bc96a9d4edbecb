/** Boolean boards as the program stores them: a sequence of rows, each row a
    sequence of cells, `true` for a live cell. Cell (x, y) is `b[y][x]`, as in
    `board[posY][posX]`. The module also defines the rescan count that the
    running `live_cells` counter of the automaton is meant to equal. */
module Boards {

  type Board = seq<seq<bool>>

  /** `m` has exactly `h` rows of exactly `w` entries each. */
  predicate IsRect<T>(m: seq<seq<T>>, w: nat, h: nat) {
    |m| == h && forall i | 0 <= i < h :: |m[i]| == w
  }

  /** Two boards with the same number of rows and the same row lengths. */
  predicate SameShape(a: Board, b: Board) {
    |a| == |b| && forall i | 0 <= i < |a| :: |a[i]| == |b[i]|
  }

  /** A boolean read as the integer the C++ `bool` converts to. */
  function Bit(v: bool): nat {
    if v then 1 else 0
  }

  predicate AllDead(b: Board) {
    forall i, j | 0 <= i < |b| && 0 <= j < |b[i]| :: !b[i][j]
  }

  /** An all-dead board of `h` rows of `w` cells, the value of
      `vector<vector<bool>>(h, vector<bool>(w, false))`. */
  function Blank(w: nat, h: nat): (b: Board)
    ensures IsRect(b, w, h)
    ensures AllDead(b)
  {
    seq(h, _ => seq(w, _ => false))
  }

  /** Number of live cells of one row, counted by a full scan. */
  function RowCount(r: seq<bool>): nat {
    if |r| == 0 then 0 else Bit(r[0]) + RowCount(r[1..])
  }

  /** Number of live cells of a board, counted by a full scan. */
  function LiveCount(b: Board): nat {
    if |b| == 0 then 0 else RowCount(b[0]) + LiveCount(b[1..])
  }

  /** `b` with cell (x, y) set to `v`; every other cell is kept. */
  function Update(b: Board, x: nat, y: nat, v: bool): (r: Board)
    requires y < |b| && x < |b[y]|
    ensures SameShape(r, b)
    ensures r[y][x] == v
    ensures forall i, j | 0 <= i < |b| && 0 <= j < |b[i]| && (i != y || j != x) :: r[i][j] == b[i][j]
  {
    b[y := b[y][x := v]]
  }

  /** The board of `h` rows of `w` cells that is dead everywhere except the
      `sw` x `sh` rectangle at column `xo`, row `yo`, which holds `seed`. */
  function Placed(seed: Board, sw: nat, sh: nat, xo: nat, yo: nat, w: nat, h: nat): (b: Board)
    requires IsRect(seed, sw, sh) && xo + sw <= w && yo + sh <= h
    ensures IsRect(b, w, h)
  {
    seq(h, y requires 0 <= y < h =>
      seq(w, x requires 0 <= x < w =>
        if yo <= y < yo + sh && xo <= x < xo + sw then seed[y - yo][x - xo] else false))
  }

  // ---------------------------------------------------------------------------
  // Facts about the rescan count

  lemma {:induction false} RowCountUpdate(r: seq<bool>, x: nat, v: bool)
    requires x < |r|
    ensures RowCount(r[x := v]) == RowCount(r) - Bit(r[x]) + Bit(v)
  {
    if x == 0 {
      assert r[x := v][1..] == r[1..];
    } else {
      assert r[x := v][1..] == r[1..][x - 1 := v];
      RowCountUpdate(r[1..], x - 1, v);
    }
  }

  /** Setting one cell changes the rescan count by exactly the signed
      difference between the new and the old value of that cell. */
  lemma {:induction false} LiveCountUpdate(b: Board, x: nat, y: nat, v: bool)
    requires y < |b| && x < |b[y]|
    ensures LiveCount(Update(b, x, y, v)) == LiveCount(b) - Bit(b[y][x]) + Bit(v)
  {
    if y == 0 {
      assert Update(b, x, y, v)[1..] == b[1..];
      RowCountUpdate(b[0], x, v);
    } else {
      assert Update(b, x, y, v)[1..] == Update(b[1..], x, y - 1, v);
      LiveCountUpdate(b[1..], x, y - 1, v);
    }
  }

  lemma {:induction false} RowCountZero(r: seq<bool>)
    ensures RowCount(r) == 0 <==> forall j | 0 <= j < |r| :: !r[j]
  {
    if |r| > 0 {
      RowCountZero(r[1..]);
      if RowCount(r) == 0 {
        forall j | 0 <= j < |r| ensures !r[j] {
          if j > 0 { assert r[j] == r[1..][j - 1]; }
        }
      }
      if forall j | 0 <= j < |r| :: !r[j] {
        assert forall j | 0 <= j < |r[1..]| :: !r[1..][j] by {
          forall j | 0 <= j < |r[1..]| ensures !r[1..][j] { assert r[1..][j] == r[j + 1]; }
        }
      }
    }
  }

  /** The rescan count is zero exactly on all-dead boards. */
  lemma {:induction false} LiveCountZero(b: Board)
    ensures LiveCount(b) == 0 <==> AllDead(b)
  {
    if |b| > 0 {
      LiveCountZero(b[1..]);
      RowCountZero(b[0]);
      if LiveCount(b) == 0 {
        forall i, j | 0 <= i < |b| && 0 <= j < |b[i]| ensures !b[i][j] {
          if i > 0 { assert b[i] == b[1..][i - 1]; }
        }
      }
      if AllDead(b) {
        assert AllDead(b[1..]) by {
          forall i, j | 0 <= i < |b[1..]| && 0 <= j < |b[1..][i]| ensures !b[1..][i][j] {
            assert b[1..][i] == b[i + 1];
          }
        }
      }
    }
  }

  lemma {:induction false} RowCountAppend(a: seq<bool>, c: seq<bool>)
    ensures RowCount(a + c) == RowCount(a) + RowCount(c)
  {
    if |a| > 0 {
      assert (a + c)[1..] == a[1..] + c;
      RowCountAppend(a[1..], c);
    } else {
      assert a + c == c;
    }
  }

  lemma {:induction false} LiveCountAppend(a: Board, c: Board)
    ensures LiveCount(a + c) == LiveCount(a) + LiveCount(c)
  {
    if |a| > 0 {
      assert (a + c)[1..] == a[1..] + c;
      LiveCountAppend(a[1..], c);
    } else {
      assert a + c == c;
    }
  }

  /** Boards whose rows have pairwise equal counts have equal counts. */
  lemma {:induction false} LiveCountRowwise(a: Board, c: Board)
    requires |a| == |c|
    requires forall k | 0 <= k < |a| :: RowCount(a[k]) == RowCount(c[k])
    ensures LiveCount(a) == LiveCount(c)
  {
    if |a| > 0 {
      assert forall k | 0 <= k < |a[1..]| :: a[1..][k] == a[k + 1] && c[1..][k] == c[k + 1];
      LiveCountRowwise(a[1..], c[1..]);
    }
  }

  /** A row that is dead outside the window `[xo, xo + |inner|)`, where it
      holds `inner`, counts as many live cells as `inner`. */
  lemma PaddedRowCount(row: seq<bool>, inner: seq<bool>, xo: nat)
    requires xo + |inner| <= |row|
    requires row[xo..xo + |inner|] == inner
    requires forall x | 0 <= x < |row| && (x < xo || x >= xo + |inner|) :: !row[x]
    ensures RowCount(row) == RowCount(inner)
  {
    var left, right := row[..xo], row[xo + |inner|..];
    assert row == left + inner + right;
    RowCountAppend(left + inner, right);
    RowCountAppend(left, inner);
    RowCountZero(left);
    assert forall j | 0 <= j < |right| :: right[j] == row[xo + |inner| + j];
    RowCountZero(right);
  }

  /** A seed placed on an otherwise dead board keeps its live-cell count. */
  lemma PlacedCount(seed: Board, sw: nat, sh: nat, xo: nat, yo: nat, w: nat, h: nat)
    requires IsRect(seed, sw, sh) && xo + sw <= w && yo + sh <= h
    ensures LiveCount(Placed(seed, sw, sh, xo, yo, w, h)) == LiveCount(seed)
  {
    var p := Placed(seed, sw, sh, xo, yo, w, h);
    var top, mid, bottom := p[..yo], p[yo..yo + sh], p[yo + sh..];
    assert p == top + mid + bottom;
    LiveCountAppend(top + mid, bottom);
    LiveCountAppend(top, mid);
    LiveCountZero(top);
    assert forall i | 0 <= i < |bottom| :: bottom[i] == p[yo + sh + i];
    LiveCountZero(bottom);
    forall k | 0 <= k < sh ensures RowCount(mid[k]) == RowCount(seed[k]) {
      assert mid[k] == p[yo + k];
      PlacedRowCount(seed, sw, sh, xo, yo, w, h, k);
    }
    LiveCountRowwise(mid, seed);
  }

  /** Row `yo + k` of a placed seed counts as many live cells as seed row `k`. */
  lemma PlacedRowCount(seed: Board, sw: nat, sh: nat, xo: nat, yo: nat, w: nat, h: nat, k: nat)
    requires IsRect(seed, sw, sh) && xo + sw <= w && yo + sh <= h && k < sh
    ensures RowCount(Placed(seed, sw, sh, xo, yo, w, h)[yo + k]) == RowCount(seed[k])
  {
    var row := Placed(seed, sw, sh, xo, yo, w, h)[yo + k];
    assert forall x | 0 <= x < sw :: row[xo..xo + sw][x] == row[xo + x] == seed[k][x];
    assert row[xo..xo + sw] == seed[k];
    PaddedRowCount(row, seed[k], xo);
  }
}
