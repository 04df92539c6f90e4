// The game state the script keeps in globals (`fixedBlocks`, `score`,
// `gameRunning`, `gamePaused`, `tetrominoBag`, `currentInterval`,
// `currentTetromino`) gathered into one object, with the operations that
// change it: locking, line clearing, drawing from the bag, the speed ramp,
// one timer tick, the key handler and the start/pause/reset controls.
module Game {
  import opened Shapes
  import opened Board
  import opened Bag
  import opened Speed
  import opened Pieces

  /** Points awarded per cleared row. */
  const RowAward: int := 100

  /** The keys the handler reacts to; any other key moves nothing. */
  datatype Key = ArrowLeft | ArrowRight | ArrowDown | ArrowUp | OtherKey

  /** The move or turn a key proposes, before it is checked. */
  function Propose(p: Placement, key: Key): Placement
    requires IsMatrix(p.shape)
  {
    match key
    case ArrowLeft => p.(x := p.x - 1)
    case ArrowRight => p.(x := p.x + 1)
    case ArrowDown => p.(y := p.y + 1)
    case ArrowUp => p.(shape := Rotate(p.shape))
    case OtherKey => p
  }

  /** How the handler takes back a proposal that collides: the opposite move,
      one row back up, or three more quarter turns. */
  function Undo(p: Placement, key: Key): Placement
    requires IsMatrix(p.shape)
  {
    match key
    case ArrowLeft => p.(x := p.x + 1)
    case ArrowRight => p.(x := p.x - 1)
    case ArrowDown => p.(y := p.y - 1)
    case ArrowUp => p.(shape := Rotate(Rotate(Rotate(p.shape))))
    case OtherKey => p
  }

  /** Taking back a proposal restores the shape and position exactly. */
  lemma UndoRestores(p: Placement, key: Key)
    requires IsMatrix(p.shape)
    ensures IsMatrix(Propose(p, key).shape)
    ensures Undo(Propose(p, key), key) == p
  {
    if key == ArrowUp {
      FourRotations(p.shape);
    }
  }

  /** Where a key leaves a piece: at the proposed move or turn when that
      does not collide, otherwise exactly where it was. */
  function KeyStep(b: seq<Row>, cols: nat, p: Placement, key: Key): (q: Placement)
    requires IsBoard(b, |b|, cols) && p.y >= 0 && IsMatrix(p.shape)
    ensures IsMatrix(q.shape) && q.y >= 0
    ensures q == p || (q == Propose(p, key) && !CheckCollision(b, cols, q))
    ensures !CheckCollision(b, cols, Propose(p, key)) ==> q == Propose(p, key)
    ensures !CheckCollision(b, cols, p) ==> !CheckCollision(b, cols, q)
  {
    var r := Propose(p, key);
    if CheckCollision(b, cols, r) then p else r
  }

  /** The body of the keydown listener: apply the move or turn the key
      proposes, and take it back if the piece then collides. */
  method Steer(t: Tetromino, b: seq<Row>, cols: nat, key: Key)
    requires IsBoard(b, |b|, cols) && t.Valid()
    modifies t
    ensures t.Valid()
    ensures t.Placed() == KeyStep(b, cols, old(t.Placed()), key)
  {
    ghost var before := t.Placed();
    ghost var proposed := Propose(before, key);
    UndoRestores(before, key);
    if key == ArrowLeft {
      t.MoveLeft();
      assert t.Placed() == proposed;
      if CheckCollision(b, cols, t.Placed()) {
        t.MoveRight();
        assert t.Placed() == Undo(proposed, key);
      }
    } else if key == ArrowRight {
      t.MoveRight();
      assert t.Placed() == proposed;
      if CheckCollision(b, cols, t.Placed()) {
        t.MoveLeft();
        assert t.Placed() == Undo(proposed, key);
      }
    } else if key == ArrowDown {
      t.MoveDown();
      assert t.Placed() == proposed;
      if CheckCollision(b, cols, t.Placed()) {
        t.y := t.y - 1;
        assert t.Placed() == Undo(proposed, key);
      }
    } else if key == ArrowUp {
      t.Rotate();
      assert t.Placed() == proposed;
      if CheckCollision(b, cols, t.Placed()) {
        t.Rotate();
        t.Rotate();
        t.Rotate();
        assert t.Placed() == Undo(proposed, key);
      }
    }
  }

  class Game {
    const rows: nat
    const cols: nat
    var board: seq<Row>
    var score: int
    var running: bool
    var paused: bool
    var bag: seq<Kind>
    var interval: int
    var current: Tetromino

    /** The board keeps its `rows` by `cols` size, the active piece is well
        formed and never above the top row, the score is not negative, the bag
        holds at most 14 entries, and the interval stays between the floor and
        its starting value. */
    ghost predicate Valid()
      reads this, current
    {
      && rows > 0 && cols > 0
      && IsBoard(board, rows, cols)
      && current.Valid()
      && score >= 0
      && |bag| <= 14
      && MinimumInterval <= interval <= InitialInterval
    }

    /** The state when the script loads: an empty board, score 0, stopped and
        paused, the starting interval, and a first piece drawn from an empty
        bag with index `pick`. */
    constructor (rows: nat, cols: nat, pick: nat)
      requires rows > 0 && cols > 0 && pick < 14
      ensures Valid()
      ensures this.rows == rows && this.cols == cols
      ensures board == Blank(rows, cols) && score == 0 && !running && paused
      ensures interval == InitialInterval
      ensures bag == Draw([], pick).rest
      ensures fresh(current)
      ensures current.Placed() == Placement(ShapeOf(Draw([], pick).kind), 3, 0)
      ensures current.color == ColorOf(Draw([], pick).kind)
    {
      this.rows := rows;
      this.cols := cols;
      board := Blank(rows, cols);
      score := 0;
      running := false;
      paused := true;
      interval := InitialInterval;
      var empty: seq<Kind> := [];
      var d := Draw(empty, pick);
      bag := d.rest;
      CatalogColor(d.kind);
      current := new Tetromino(ShapeOf(d.kind));
    }

    // ------------------------------------------------------------------ bag

    /** `refillBag`: the bag becomes the catalog twice over. */
    method RefillBag()
      modifies this`bag
      ensures bag == Refilled()
    {
      var all := [I, O, T, L, J, S, Z];
      bag := all + all;
      RefilledTwice();
    }

    /** `getRandomTetromino`: refill if the bag is empty, remove the entry at
        index `pick` and return a new piece for it, at column 3 of the top row
        and coloured by its kind. */
    method GetRandomTetromino(pick: nat) returns (t: Tetromino)
      requires pick < |BeforeDraw(bag)|
      modifies this`bag
      ensures fresh(t) && t.Valid()
      ensures bag == Draw(old(bag), pick).rest
      ensures t.Placed() == Placement(ShapeOf(Draw(old(bag), pick).kind), 3, 0)
      ensures t.color == ColorOf(Draw(old(bag), pick).kind)
    {
      if |bag| == 0 {
        RefillBag();
      }
      var kind := bag[pick];
      bag := bag[..pick] + bag[pick + 1..];
      CatalogColor(kind);
      t := new Tetromino(ShapeOf(kind));
    }

    // ----------------------------------------------------------- speed ramp

    /** `updateInterval`, with `trigger` standing for the elapsed-time test. */
    method UpdateInterval(trigger: bool)
      modifies this`interval
      ensures interval == NextInterval(old(interval), trigger)
    {
      if trigger {
        interval := Max(MinimumInterval, interval - IntervalDecrementRate);
      }
    }

    // ------------------------------------------------------ lock and clear

    /** `fixTetromino`: every occupied cell of `t` that lies on the board
        becomes a fixed block of `t`'s colour; every other cell is unchanged;
        the board keeps its size. */
    method FixTetromino(t: Tetromino)
      requires IsBoard(board, rows, cols) && t.y >= 0
      modifies this`board
      ensures IsBoard(board, rows, cols)
      ensures forall i, j :: 0 <= i < rows && 0 <= j < cols ==>
                board[i][j] == if Covers(t.Placed(), i, j) then Fixed(t.color) else old(board)[i][j]
      ensures board == Locked(old(board), t.Placed(), t.color)
    {
      var p := t.Placed();
      var r := 0;
      while r < |t.shape|
        invariant 0 <= r <= |t.shape|
        invariant IsBoard(board, rows, cols)
        invariant forall i, j :: 0 <= i < rows && 0 <= j < cols ==>
                    board[i][j] == if Covers(p, i, j) && i - t.y < r then Fixed(t.color) else old(board)[i][j]
      {
        var c := 0;
        while c < |t.shape[r]|
          invariant 0 <= c <= |t.shape[r]|
          invariant IsBoard(board, rows, cols)
          invariant forall i, j :: 0 <= i < rows && 0 <= j < cols ==>
                      board[i][j] == if Covers(p, i, j) && (i - t.y < r || (i - t.y == r && j - t.x < c))
                                     then Fixed(t.color) else old(board)[i][j]
        {
          if t.shape[r][c] {
            var px, py := t.x + c, t.y + r;
            if px >= 0 && px < cols && py < rows {
              board := board[py := board[py][px := Fixed(t.color)]];
            }
          }
          c := c + 1;
        }
        r := r + 1;
      }
      ghost var lb := Locked(old(board), p, t.color);
      assert |board| == |lb|;
      forall i | 0 <= i < rows
        ensures board[i] == lb[i]
      {
        assert |board[i]| == |lb[i]|;
      }
    }

    /** `clearLines`: rows are scanned from the top; a full row is spliced
        out, an empty row is put on top, and the score rises by the award.
        Afterwards the board is `Cleared` of what it was, and the score has
        risen by the award once per row that was full. */
    method ClearLines()
      requires IsBoard(board, rows, cols)
      modifies this`board, this`score
      ensures board == Cleared(old(board), cols)
      ensures score == old(score) + RowAward * FullCount(old(board))
    {
      ghost var orig := board;
      var y := 0;
      while y < rows
        invariant 0 <= y <= rows
        invariant board == Cleared(orig[..y], cols) + orig[y..]
        invariant score == old(score) + RowAward * FullCount(orig[..y])
      {
        ScanStep(orig, y, board, cols);
        if IsFull(board[y]) {
          board := [EmptyRow(cols)] + board[..y] + board[y + 1..];
          score := score + RowAward;
        }
        y := y + 1;
      }
      assert orig[..rows] == orig;
    }

    // ------------------------------------------------------------ the tick

    /** What the game loop does when the piece cannot move down: lock it where
        it is, clear full rows (scoring for each), and draw the next piece
        with index `pick`. */
    method Land(pick: nat)
      requires Valid()
      requires pick < |BeforeDraw(bag)|
      modifies this`board, this`score, this`bag, this`current
      ensures Valid()
      ensures board == Cleared(Locked(old(board), old(current.Placed()), old(current.color)), cols)
      ensures score == old(score) + RowAward * FullCount(Locked(old(board), old(current.Placed()), old(current.color)))
      ensures fresh(current) && bag == Draw(old(bag), pick).rest
      ensures current.Placed() == Placement(ShapeOf(Draw(old(bag), pick).kind), 3, 0)
      ensures current.color == ColorOf(Draw(old(bag), pick).kind)
    {
      FixTetromino(current);
      ghost var locked := board;
      ClearLines();
      ClearedShape(locked, rows, cols);
      current := GetRandomTetromino(pick);
    }

    /** The body of the game loop's timer callback before the speed update:
        the piece moves down one row, and when that collides it is put back
        and `Land`s. */
    method Fall(pick: nat)
      requires Valid()
      requires pick < |BeforeDraw(bag)|
      modifies this`board, this`score, this`bag, this`current, current`y
      ensures Valid()
      ensures var below := old(current.Placed()).(y := old(current.y) + 1);
              if !CheckCollision(old(board), cols, below) then
                current == old(current) && current.Placed() == below
                && board == old(board) && score == old(score) && bag == old(bag)
              else
                board == Cleared(Locked(old(board), old(current.Placed()), old(current.color)), cols)
                && score == old(score) + RowAward * FullCount(Locked(old(board), old(current.Placed()), old(current.color)))
                && fresh(current) && bag == Draw(old(bag), pick).rest
                && current.Placed() == Placement(ShapeOf(Draw(old(bag), pick).kind), 3, 0)
                && current.color == ColorOf(Draw(old(bag), pick).kind)
    {
      ghost var start := current.Placed();
      current.MoveDown();
      if CheckCollision(board, cols, current.Placed()) {
        current.y := current.y - 1;
        assert current.Placed() == start;
        Land(pick);
      }
    }

    /** One run of the game loop: if a block sits in the top row the game is
        over and nothing changes; if the game is paused nothing changes;
        otherwise the piece `Fall`s (the new piece drawn on landing is not
        checked for collision) and then the interval is updated. */
    method Tick(trigger: bool, pick: nat) returns (over: bool)
      requires Valid()
      requires pick < |BeforeDraw(bag)|
      modifies this, current
      ensures Valid()
      ensures over == CheckEndGame(old(board))
      ensures running == old(running) && paused == old(paused)
      ensures over || paused ==>
                board == old(board) && score == old(score) && bag == old(bag) && interval == old(interval)
                && current == old(current) && current.Placed() == old(current.Placed())
      ensures !over && !paused ==> interval == NextInterval(old(interval), trigger)
      ensures !over && !paused && !CheckCollision(old(board), cols, old(current.Placed()).(y := old(current.y) + 1)) ==>
                current == old(current) && current.Placed() == old(current.Placed()).(y := old(current.y) + 1)
                && board == old(board) && score == old(score) && bag == old(bag)
      ensures !over && !paused && CheckCollision(old(board), cols, old(current.Placed()).(y := old(current.y) + 1)) ==>
                board == Cleared(Locked(old(board), old(current.Placed()), old(current.color)), cols)
                && score == old(score) + RowAward * FullCount(Locked(old(board), old(current.Placed()), old(current.color)))
                && fresh(current) && bag == Draw(old(bag), pick).rest
                && current.Placed() == Placement(ShapeOf(Draw(old(bag), pick).kind), 3, 0)
                && current.color == ColorOf(Draw(old(bag), pick).kind)
    {
      over := CheckEndGame(board);
      if over || paused {
        return;
      }
      Fall(pick);
      UpdateInterval(trigger);
    }

    // -------------------------------------------------------- key handling

    /** The key handler, on the active piece and the fixed blocks. The
        board, score, bag, interval and flags are untouched. */
    method KeyDown(key: Key)
      requires Valid()
      modifies current
      ensures Valid() && unchanged(this)
      ensures current.Placed() == KeyStep(board, cols, old(current.Placed()), key)
    {
      Steer(current, board, cols, key);
    }

    // ------------------------------------------------------------ controls

    /** The start control: a stopped game becomes running and unpaused; a
        running one is left alone. */
    method Start()
      modifies this`running, this`paused
      ensures running
      ensures paused == (old(running) && old(paused))
    {
      if !running {
        running := true;
        paused := false;
      }
    }

    /** The pause control toggles the paused flag. */
    method Pause()
      modifies this`paused
      ensures paused == !old(paused)
    {
      paused := !paused;
    }

    /** The reset control: the board is emptied in place, the score goes back
        to 0, a new piece is drawn with index `pick`, and the game is stopped
        and paused. The interval is left as it was. */
    method Reset(pick: nat)
      requires Valid()
      requires pick < |BeforeDraw(bag)|
      modifies this
      ensures Valid()
      ensures board == Blank(rows, cols) && score == 0 && !running && paused
      ensures interval == old(interval)
      ensures fresh(current) && bag == Draw(old(bag), pick).rest
      ensures current.Placed() == Placement(ShapeOf(Draw(old(bag), pick).kind), 3, 0)
      ensures current.color == ColorOf(Draw(old(bag), pick).kind)
    {
      var i := 0;
      while i < rows
        modifies this`board
        invariant 0 <= i <= rows
        invariant |board| == rows
        invariant board[..i] == Blank(i, cols) && board[i..] == old(board)[i..]
      {
        board := board[i := EmptyRow(cols)];
        i := i + 1;
      }
      assert board == board[..rows];
      score := 0;
      current := GetRandomTetromino(pick);
      running := false;
      paused := true;
    }
  }
}
