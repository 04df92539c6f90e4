// The `Tetromino` class: a shape matrix, its colour and the position of its
// top-left corner, changed in place by the movement methods.
module Pieces {
  import opened Shapes
  import opened Board

  class Tetromino {
    var shape: Matrix
    const color: Color
    var x: int
    var y: int

    /** The shape is a non-empty rectangle, and the piece never rises above the
        row it spawned on, so the board rows it touches can be indexed. */
    ghost predicate Valid()
      reads this
    {
      IsMatrix(shape) && y >= 0
    }

    /** Where the piece is, as a value. */
    function Placed(): Placement
      reads this
    {
      Placement(shape, x, y)
    }

    /** A new piece for a catalog matrix: coloured by `getTetrominoColor`, with
        its corner on column 3 of the top row. */
    constructor (s: Matrix)
      requires GetTetrominoColor(s).Some?
      ensures Valid()
      ensures shape == s && x == 3 && y == 0
      ensures Some(color) == GetTetrominoColor(s)
    {
      shape := s;
      color := GetTetrominoColor(s).value;
      x := 3;
      y := 0;
    }

    method MoveDown()
      modifies this`y
      ensures y == old(y) + 1
    {
      y := y + 1;
    }

    method MoveLeft()
      modifies this`x
      ensures x == old(x) - 1
    {
      x := x - 1;
    }

    method MoveRight()
      modifies this`x
      ensures x == old(x) + 1
    {
      x := x + 1;
    }

    method Rotate()
      requires IsMatrix(shape)
      modifies this`shape
      ensures shape == Shapes.Rotate(old(shape))
    {
      shape := Shapes.Rotate(shape);
    }
  }
}
