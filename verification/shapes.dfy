// The shape catalog of the game and the pure geometry of a piece: the seven
// tetromino matrices, their colours, the colour lookup by shape, and the
// quarter turn that `Tetromino.rotate` computes.
module Shapes {

  datatype Option<T> = None | Some(value: T)

  /** The keys of the shape catalog, I O T L J S Z, in declaration order. */
  datatype Kind = I | O | T | L | J | S | Z

  /** The catalog colours: cyan, yellow, purple, orange, blue, green, red. */
  datatype Color = Cyan | Yellow | Purple | Orange | Blue | Green | Red

  /** A shape matrix: `true` stands for a 1 (occupied cell), `false` for a 0. */
  type Matrix = seq<seq<bool>>

  /** A non-empty rectangular matrix; every shape the game handles is one. */
  predicate IsMatrix(m: Matrix) {
    |m| > 0 && |m[0]| > 0 && forall r :: 0 <= r < |m| ==> |m[r]| == |m[0]|
  }

  function Width(m: Matrix): nat
    requires |m| > 0
  {
    |m[0]|
  }

  /** The order in which the catalog's keys are enumerated. */
  function Keys(): seq<Kind> {
    [I, O, T, L, J, S, Z]
  }

  function ShapeOf(k: Kind): (m: Matrix)
    ensures IsMatrix(m)
  {
    match k
    case I => [[true], [true], [true], [true]]
    case O => [[true, true], [true, true]]
    case T => [[false, true, false], [true, true, true]]
    case L => [[true, false], [true, false], [true, true]]
    case J => [[false, true], [false, true], [true, true]]
    case S => [[false, true, true], [true, true, false]]
    case Z => [[true, true, false], [false, true, true]]
  }

  function ColorOf(k: Kind): Color {
    match k
    case I => Cyan
    case O => Yellow
    case T => Purple
    case L => Orange
    case J => Blue
    case S => Green
    case Z => Red
  }

  lemma KeysComplete(k: Kind)
    ensures k in Keys()
  {
  }

  /** No two catalog entries have the same matrix. */
  lemma ShapesDistinct(k1: Kind, k2: Kind)
    ensures ShapeOf(k1) == ShapeOf(k2) ==> k1 == k2
  {
  }

  /** The first key of `keys` whose catalog matrix equals `m` (the `find`
      over `Object.keys(shapes)`, comparing matrices by value). */
  function FindKind(m: Matrix, keys: seq<Kind>): (r: Option<Kind>)
    ensures r.Some? ==> r.value in keys && ShapeOf(r.value) == m
    ensures r.None? ==> forall k :: k in keys ==> ShapeOf(k) != m
  {
    if keys == [] then None
    else if ShapeOf(keys[0]) == m then Some(keys[0])
    else FindKind(m, keys[1..])
  }

  /** `getTetrominoColor`: the colour of the catalog entry equal to `m`, or
      nothing (JavaScript's `undefined`) when `m` is not a catalog matrix. */
  function GetTetrominoColor(m: Matrix): (c: Option<Color>)
    ensures c.Some? <==> exists k :: ShapeOf(k) == m
    ensures forall k :: ShapeOf(k) == m ==> c == Some(ColorOf(k))
  {
    match FindKind(m, Keys())
    case Some(k) =>
      (assert forall k' :: ShapeOf(k') == m ==> k' == k by {
         forall k' | ShapeOf(k') == m ensures k' == k { ShapesDistinct(k', k); }
       }
       Some(ColorOf(k)))
    case None =>
      (assert forall k :: ShapeOf(k) != m by {
         forall k ensures ShapeOf(k) != m { KeysComplete(k); }
       }
       None)
  }

  /** A piece built from catalog entry `k` gets the colour of `k`. */
  lemma CatalogColor(k: Kind)
    ensures GetTetrominoColor(ShapeOf(k)) == Some(ColorOf(k))
  {
  }

  // ---------------------------------------------------------------- rotation

  function Reverse<A>(s: seq<A>): (r: seq<A>)
    ensures |r| == |s|
    ensures forall i :: 0 <= i < |s| ==> r[i] == s[|s| - 1 - i]
  {
    if s == [] then [] else Reverse(s[1..]) + [s[0]]
  }

  /** Column `c` of `m`, read from the top row down (`shape.map(row => row[c])`). */
  function Column(m: Matrix, c: nat): (col: seq<bool>)
    requires IsMatrix(m) && c < Width(m)
    ensures |col| == |m|
  {
    seq(|m|, r requires 0 <= r < |m| => m[r][c])
  }

  /** `rotate`: column `c` of the old matrix, reversed, becomes row `c` of the
      new one; an h-by-w matrix becomes a w-by-h matrix turned a quarter
      clockwise. */
  function Rotate(m: Matrix): (r: Matrix)
    requires IsMatrix(m)
    ensures IsMatrix(r) && |r| == Width(m) && Width(r) == |m|
    ensures forall i, j :: 0 <= i < |r| && 0 <= j < |m| ==> r[i][j] == m[|m| - 1 - j][i]
  {
    seq(Width(m), c requires 0 <= c < Width(m) => Reverse(Column(m, c)))
  }

  /** Two quarter turns give the matrix upside down and mirrored. */
  lemma HalfTurn(m: Matrix)
    requires IsMatrix(m)
    ensures IsMatrix(Rotate(Rotate(m)))
    ensures |Rotate(Rotate(m))| == |m| && Width(Rotate(Rotate(m))) == Width(m)
    ensures forall i, j :: 0 <= i < |m| && 0 <= j < Width(m) ==>
              Rotate(Rotate(m))[i][j] == m[|m| - 1 - i][Width(m) - 1 - j]
  {
    var h, w, r1 := |m|, Width(m), Rotate(m);
    forall i, j | 0 <= i < h && 0 <= j < w
      ensures Rotate(r1)[i][j] == m[h - 1 - i][w - 1 - j]
    {
      assert Rotate(r1)[i][j] == r1[w - 1 - j][i];
    }
  }

  /** Two matrices of the same size that agree cell by cell are equal. */
  lemma SameMatrix(a: Matrix, b: Matrix)
    requires IsMatrix(a) && IsMatrix(b) && |a| == |b| && Width(a) == Width(b)
    requires forall i, j :: 0 <= i < |a| && 0 <= j < Width(a) ==> a[i][j] == b[i][j]
    ensures a == b
  {
    forall i | 0 <= i < |a|
      ensures a[i] == b[i]
    {
      assert |a[i]| == |b[i]|;
    }
  }

  /** Four quarter turns give back exactly the matrix one started from; the
      key handler undoes a rejected turn with three more. */
  lemma {:induction false} FourRotations(m: Matrix)
    requires IsMatrix(m)
    ensures Rotate(Rotate(Rotate(Rotate(m)))) == m
  {
    var r2 := Rotate(Rotate(m));
    HalfTurn(m);
    HalfTurn(r2);
    SameMatrix(Rotate(Rotate(r2)), m);
  }

  /** The set of occupied cells of `m`, as (row, column) pairs. */
  ghost function Occupied(m: Matrix): set<(int, int)> {
    set r, c | 0 <= r < |m| && 0 <= c < |m[r]| && m[r][c] :: (r, c)
  }

  /** Where a quarter turn of a matrix with `h` rows sends cell `p`. */
  function Turned(p: (int, int), h: int): (int, int) {
    (p.1, h - 1 - p.0)
  }

  lemma {:induction false} TurnedCard(s: set<(int, int)>, h: int)
    ensures |set p | p in s :: Turned(p, h)| == |s|
    decreases |s|
  {
    if s != {} {
      var p :| p in s;
      var rest := s - {p};
      TurnedCard(rest, h);
      assert (set q | q in s :: Turned(q, h)) == (set q | q in rest :: Turned(q, h)) + {Turned(p, h)};
      assert Turned(p, h) !in (set q | q in rest :: Turned(q, h));
    }
  }

  /** A quarter turn keeps the number of occupied cells. */
  lemma {:induction false} RotateKeepsCells(m: Matrix)
    requires IsMatrix(m)
    ensures |Occupied(Rotate(m))| == |Occupied(m)|
  {
    var h, r := |m|, Rotate(m);
    var image := set p | p in Occupied(m) :: Turned(p, h);
    forall q | q in Occupied(r)
      ensures q in image
    {
      var p := (h - 1 - q.1, q.0);
      assert r[q.0][q.1] == m[p.0][p.1];
      assert p in Occupied(m) && Turned(p, h) == q;
    }
    forall p | p in Occupied(m)
      ensures Turned(p, h) in Occupied(r)
    {
      assert r[p.1][h - 1 - p.0] == m[p.0][p.1];
    }
    assert Occupied(r) == image;
    TurnedCard(Occupied(m), h);
  }
}
