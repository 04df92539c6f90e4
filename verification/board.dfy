// The grid of fixed blocks (`fixedBlocks`) and the pure questions asked of
// it: collision of a placed piece, the board after a piece locks, the board
// after full rows are cleared, and the game-over test on the top row.
module Board {
  import opened Shapes

  /** A grid cell: `0` in the source (empty), or `{fixed: 1, color}`. */
  datatype Cell = Empty | Fixed(color: Color)

  type Row = seq<Cell>

  /** A shape matrix whose top-left corner sits on column `x`, row `y`. */
  datatype Placement = Placement(shape: Matrix, x: int, y: int)

  /** `rows` rows of `cols` cells each. */
  predicate IsBoard(b: seq<Row>, rows: nat, cols: nat) {
    |b| == rows && forall i :: 0 <= i < |b| ==> |b[i]| == cols
  }

  // --------------------------------------------------------------- collision

  /** The test `checkCollision` applies to one occupied cell landing on column
      `px` of row `py`: left wall, right wall, floor, or a fixed block. Rows
      above the floor are indexed without a lower bound, so `py` must not be
      negative. */
  predicate CellCollides(b: seq<Row>, cols: nat, px: int, py: int)
    requires IsBoard(b, |b|, cols) && py >= 0
  {
    px < 0 || px >= cols || py >= |b| || b[py][px].Fixed?
  }

  /** The inner `row.some(...)`, over the cells of `row` from index `c` on. */
  function RowCollides(b: seq<Row>, cols: nat, row: seq<bool>, x: int, y: int, c: nat): (hit: bool)
    requires IsBoard(b, |b|, cols) && y >= 0 && c <= |row|
    ensures hit <==> exists j :: c <= j < |row| && row[j] && CellCollides(b, cols, x + j, y)
    decreases |row| - c
  {
    c < |row| && ((row[c] && CellCollides(b, cols, x + c, y)) || RowCollides(b, cols, row, x, y, c + 1))
  }

  /** The outer `shape.some(...)`, over the rows of `shape` from index `r` on. */
  function ShapeCollides(b: seq<Row>, cols: nat, shape: Matrix, x: int, y: int, r: nat): (hit: bool)
    requires IsBoard(b, |b|, cols) && y >= 0 && r <= |shape|
    ensures hit <==> exists i, j :: r <= i < |shape| && 0 <= j < |shape[i]| && shape[i][j] && CellCollides(b, cols, x + j, y + i)
    decreases |shape| - r
  {
    r < |shape| && (RowCollides(b, cols, shape[r], x, y + r, 0) || ShapeCollides(b, cols, shape, x, y, r + 1))
  }

  /** `checkCollision`: true exactly when some occupied cell of the piece lands
      left of column 0, right of the last column, at or below the floor, or on
      a fixed block. */
  function CheckCollision(b: seq<Row>, cols: nat, p: Placement): (hit: bool)
    requires IsBoard(b, |b|, cols) && p.y >= 0
    ensures hit <==> exists i, j :: 0 <= i < |p.shape| && 0 <= j < |p.shape[i]| && p.shape[i][j] &&
                       (p.x + j < 0 || p.x + j >= cols || p.y + i >= |b| || b[p.y + i][p.x + j].Fixed?)
  {
    ShapeCollides(b, cols, p.shape, p.x, p.y, 0)
  }

  // ----------------------------------------------------------------- locking

  /** Whether placement `p` puts an occupied cell on row `i`, column `j`. */
  predicate Covers(p: Placement, i: int, j: int) {
    0 <= i - p.y < |p.shape| && 0 <= j - p.x < |p.shape[i - p.y]| && p.shape[i - p.y][j - p.x]
  }

  /** The board after `fixTetromino`: every board cell the piece covers holds
      a fixed block of the piece's colour; covered cells off the board are
      dropped. */
  function Locked(b: seq<Row>, p: Placement, color: Color): seq<Row> {
    seq(|b|, i requires 0 <= i < |b| =>
      seq(|b[i]|, j requires 0 <= j < |b[i]| => if Covers(p, i, j) then Fixed(color) else b[i][j]))
  }

  /** Locking keeps the board's dimensions and every block already fixed, and
      a piece that covers some board cell collides, once locked, with itself
      where it stood. */
  lemma LockedThenCollides(b: seq<Row>, cols: nat, p: Placement, color: Color, i: int, j: int)
    requires IsBoard(b, |b|, cols) && p.y >= 0
    requires 0 <= i < |b| && 0 <= j < cols && Covers(p, i, j)
    ensures IsBoard(Locked(b, p, color), |b|, cols)
    ensures forall r, c :: 0 <= r < |b| && 0 <= c < |b[r]| && b[r][c].Fixed? ==> Locked(b, p, color)[r][c].Fixed?
    ensures CheckCollision(Locked(b, p, color), cols, p)
  {
    var lb := Locked(b, p, color);
    assert lb[i][j] == Fixed(color);
    assert p.shape[i - p.y][j - p.x];
  }

  // ------------------------------------------------------------ line clearing

  /** `row.every(block => block.fixed === 1)`. */
  predicate IsFull(row: Row) {
    forall j :: 0 <= j < |row| ==> row[j].Fixed?
  }

  /** `Array(COLS).fill(0)`. */
  function EmptyRow(cols: nat): (row: Row)
    ensures |row| == cols
  {
    seq(cols, _ => Empty)
  }

  /** `n` empty rows. */
  function Blank(n: nat, cols: nat): (rows: seq<Row>)
    ensures |rows| == n
  {
    seq(n, _ => EmptyRow(cols))
  }

  /** The rows of `b` that are not full, in their original order. */
  function Survivors(b: seq<Row>): (s: seq<Row>)
    ensures |s| <= |b|
    ensures forall i :: 0 <= i < |s| ==> !IsFull(s[i])
    decreases |b|
  {
    if b == [] then []
    else Survivors(b[..|b| - 1]) + (if IsFull(b[|b| - 1]) then [] else [b[|b| - 1]])
  }

  /** The indices of the rows of `b` that are not full, ascending. */
  function SurvivorIndices(b: seq<Row>): (idx: seq<nat>)
    ensures |idx| == |Survivors(b)|
    ensures forall k :: 0 <= k < |idx| ==> idx[k] < |b|
    decreases |b|
  {
    if b == [] then []
    else SurvivorIndices(b[..|b| - 1]) + (if IsFull(b[|b| - 1]) then [] else [|b| - 1])
  }

  // Together, the next three lemmas say that the survivors are exactly the
  // non-full rows of `b`, each once, in their original order.

  /** Each survivor is the row of `b` at the matching index. */
  lemma {:induction false} SurvivorsAt(b: seq<Row>)
    ensures forall k :: 0 <= k < |Survivors(b)| ==> Survivors(b)[k] == b[SurvivorIndices(b)[k]]
    decreases |b|
  {
    if b != [] {
      var front := b[..|b| - 1];
      SurvivorsAt(front);
      var fi, fs := SurvivorIndices(front), Survivors(front);
      var idx, sv := SurvivorIndices(b), Survivors(b);
      forall k | 0 <= k < |sv| ensures sv[k] == b[idx[k]] {
        if k < |fs| {
          assert idx[k] == fi[k] && sv[k] == fs[k] && front[fi[k]] == b[fi[k]];
        }
      }
    }
  }

  /** The indices ascend. */
  lemma {:induction false} SurvivorIndicesAscend(b: seq<Row>)
    ensures forall k, l :: 0 <= k < l < |SurvivorIndices(b)| ==> SurvivorIndices(b)[k] < SurvivorIndices(b)[l]
    decreases |b|
  {
    if b != [] {
      var front := b[..|b| - 1];
      SurvivorIndicesAscend(front);
      var fi, idx := SurvivorIndices(front), SurvivorIndices(b);
      forall k, l | 0 <= k < l < |idx| ensures idx[k] < idx[l] {
        assert idx == fi + if IsFull(b[|b| - 1]) then [] else [|b| - 1];
        if l < |fi| {
          assert idx[k] == fi[k] && idx[l] == fi[l];
        } else {
          assert idx[k] == fi[k] < |front| && idx[l] == |b| - 1;
        }
      }
    }
  }

  /** Every row that is not full is among them. */
  lemma {:induction false} NonFullSurvive(b: seq<Row>)
    ensures forall i :: 0 <= i < |b| && !IsFull(b[i]) ==> i in SurvivorIndices(b)
    decreases |b|
  {
    if b != [] {
      var front := b[..|b| - 1];
      NonFullSurvive(front);
      var fi, idx := SurvivorIndices(front), SurvivorIndices(b);
      forall i | 0 <= i < |b| && !IsFull(b[i]) ensures i in idx {
        if i < |front| {
          assert front[i] == b[i] && i in fi;
        }
      }
    }
  }

  /** The number of full rows of `b`. */
  function FullCount(b: seq<Row>): (n: nat)
    ensures n + |Survivors(b)| == |b|
    decreases |b|
  {
    if b == [] then 0
    else FullCount(b[..|b| - 1]) + (if IsFull(b[|b| - 1]) then 1 else 0)
  }

  /** The board after `clearLines`: one empty row on top for each full row
      removed, then the remaining rows in their original order. */
  function Cleared(b: seq<Row>, cols: nat): (r: seq<Row>)
    ensures |r| == |b|
  {
    Blank(FullCount(b), cols) + Survivors(b)
  }

  /** Clearing, one more row at a time, as `clearLines` scans: when the next
      row is full an empty row goes on top and the count of full rows rises
      by one, otherwise the row stays below what has been cleared so far. */
  lemma ClearedSnoc(front: seq<Row>, last: Row, cols: nat)
    ensures FullCount(front + [last]) == FullCount(front) + if IsFull(last) then 1 else 0
    ensures Cleared(front + [last], cols) == if IsFull(last) then [EmptyRow(cols)] + Cleared(front, cols)
                                             else Cleared(front, cols) + [last]
  {
    var b := front + [last];
    assert b[..|b| - 1] == front;
    if IsFull(last) {
      var n := FullCount(front);
      assert Blank(n + 1, cols) == [EmptyRow(cols)] + Blank(n, cols);
    }
  }

  /** One iteration of the `clearLines` scan at row `y`: the board holds the
      cleared first `y` rows followed by the untouched rest, so row `y` is
      still the original one, and splicing it out and putting an empty row on
      top (when full) or leaving it (when not) gives the cleared first `y + 1`
      rows followed by the rest. */
  lemma ScanStep(orig: seq<Row>, y: nat, board: seq<Row>, cols: nat)
    requires y < |orig| && board == Cleared(orig[..y], cols) + orig[y..]
    ensures board[y] == orig[y]
    ensures FullCount(orig[..y + 1]) == FullCount(orig[..y]) + if IsFull(orig[y]) then 1 else 0
    ensures IsFull(orig[y]) ==>
              [EmptyRow(cols)] + board[..y] + board[y + 1..] == Cleared(orig[..y + 1], cols) + orig[y + 1..]
    ensures !IsFull(orig[y]) ==> board == Cleared(orig[..y + 1], cols) + orig[y + 1..]
  {
    var done, row, rest := orig[..y], orig[y], orig[y + 1..];
    assert orig[..y + 1] == done + [row];
    assert orig[y..] == [row] + rest;
    ClearedSnoc(done, row, cols);
    var c := Cleared(done, cols);
    assert board[..y] == c && board[y + 1..] == rest;
  }

  /** Clearing keeps the board's dimensions and leaves no row full. */
  lemma ClearedShape(b: seq<Row>, rows: nat, cols: nat)
    requires IsBoard(b, rows, cols) && cols > 0
    ensures IsBoard(Cleared(b, cols), rows, cols)
    ensures forall i :: 0 <= i < rows ==> !IsFull(Cleared(b, cols)[i])
  {
    var c := Cleared(b, cols);
    SurvivorsAt(b);
    forall i | 0 <= i < rows
      ensures |c[i]| == cols && !IsFull(c[i])
    {
      if i < FullCount(b) {
        assert c[i] == EmptyRow(cols) && c[i][0] == Empty;
      } else {
        var k := i - FullCount(b);
        assert c[i] == Survivors(b)[k] == b[SurvivorIndices(b)[k]];
      }
    }
  }

  /** Each row value occurs among the survivors as often as among the rows of
      `b`, unless it is full: no row is lost other than the full ones. */
  lemma {:induction false} SurvivorsCount(b: seq<Row>, row: Row)
    ensures multiset(Survivors(b))[row] == if IsFull(row) then 0 else multiset(b)[row]
    decreases |b|
  {
    if b != [] {
      var front, last := b[..|b| - 1], b[|b| - 1];
      SurvivorsCount(front, row);
      assert multiset(b) == multiset(front) + multiset{last} by {
        assert b == front + [last];
      }
      var tail := if IsFull(last) then [] else [last];
      assert multiset(Survivors(b)) == multiset(Survivors(front)) + multiset(tail);
    }
  }

  /** A board without full rows is left as it is. */
  lemma {:induction false} ClearedNoFullRows(b: seq<Row>, cols: nat)
    requires forall i :: 0 <= i < |b| ==> !IsFull(b[i])
    ensures FullCount(b) == 0 && Cleared(b, cols) == b
    decreases |b|
  {
    if b != [] {
      var front := b[..|b| - 1];
      ClearedNoFullRows(front, cols);
      assert b == front + [b[|b| - 1]];
    }
  }

  /** Clearing a second time changes nothing. */
  lemma ClearedIdempotent(b: seq<Row>, rows: nat, cols: nat)
    requires IsBoard(b, rows, cols) && cols > 0
    ensures Cleared(Cleared(b, cols), cols) == Cleared(b, cols)
  {
    ClearedShape(b, rows, cols);
    ClearedNoFullRows(Cleared(b, cols), cols);
  }

  // ---------------------------------------------------------------- game over

  /** `row.some(block => block.fixed === 1)` over the cells from index `c` on. */
  function AnyFixed(row: Row, c: nat): (found: bool)
    requires c <= |row|
    ensures found <==> exists j :: c <= j < |row| && row[j].Fixed?
    decreases |row| - c
  {
    c < |row| && (row[c].Fixed? || AnyFixed(row, c + 1))
  }

  /** `checkEndGame`: some cell of the top row holds a fixed block. */
  function CheckEndGame(b: seq<Row>): (over: bool)
    requires |b| > 0
    ensures over <==> exists j :: 0 <= j < |b[0]| && b[0][j].Fixed?
  {
    AnyFixed(b[0], 0)
  }
}
