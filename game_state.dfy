/**
 * The game's data model: directions, board cells and the mutable game state
 * that the engine owns (models/game_state.py).
 */
module GameModels {
  import opened Wrappers

  /** The four headings of the snake. */
  datatype Direction = Up | Down | Left | Right

  /** The unit step of a heading as (dx, dy); y grows downwards. */
  function Delta(d: Direction): (r: (int, int))
    ensures (r.0 == 0) != (r.1 == 0)
    ensures -1 <= r.0 <= 1 && -1 <= r.1 <= 1
  {
    match d
    case Up => (0, -1)
    case Down => (0, 1)
    case Left => (-1, 0)
    case Right => (1, 0)
  }

  /** The heading that reverses `d`: UP and DOWN, LEFT and RIGHT. */
  function Opposite(d: Direction): (r: Direction)
    ensures r != d
    ensures Delta(r).0 == -Delta(d).0 && Delta(r).1 == -Delta(d).1
  {
    match d
    case Up => Down
    case Down => Up
    case Left => Right
    case Right => Left
  }

  /** Reversing twice gives back the original heading, and only the
      opposite heading has the negated step. */
  lemma OppositeCharacterized(d: Direction, e: Direction)
    ensures Opposite(Opposite(d)) == d
    ensures e == Opposite(d) <==> Delta(e).0 == -Delta(d).0 && Delta(e).1 == -Delta(d).1
  {
    match d
    case Up =>
    case Down =>
    case Left =>
    case Right =>
  }

  /**
   * A board cell. The model keeps plain integers so that the engine's
   * bounds check can be stated as written; the source's `ge=0` constraint
   * is `ValidPosition`, and constructing a cell as the source does is
   * `MakePosition`. Equality of this datatype is equality of (x, y).
   */
  datatype Position = Position(x: int, y: int)

  /** The source's coordinate constraint: both coordinates at least zero. */
  predicate ValidPosition(p: Position) {
    p.x >= 0 && p.y >= 0
  }

  /** Raised when a cell is built with a negative coordinate. */
  datatype ValidationError = NegativeCoordinate(x: int, y: int)

  /** Building a `Position` as the source does: a negative coordinate raises. */
  function MakePosition(x: int, y: int): (r: Result<Position, ValidationError>)
    ensures r.Ok? <==> x >= 0 && y >= 0
    ensures r.Ok? ==> r.value.x == x && r.value.y == y && ValidPosition(r.value)
    ensures r.Err? ==> r.error == NegativeCoordinate(x, y)
  {
    if x >= 0 && y >= 0 then Ok(Position(x, y)) else Err(NegativeCoordinate(x, y))
  }

  /**
   * The source's `__eq__`: a cell equals another cell with the same
   * coordinates, and equals nothing else (in particular not `None`).
   */
  predicate SameCell(p: Position, other: Option<Position>)
    ensures SameCell(p, other) <==> other.Some? && other.value.x == p.x && other.value.y == p.y
  {
    other == Some(p)
  }

  /** The cell one step from `p` in direction `d`, on unbounded integers. */
  function NextPosition(p: Position, d: Direction): (r: Position)
    ensures (r.x - p.x) * (r.x - p.x) + (r.y - p.y) * (r.y - p.y) == 1
  {
    Position(p.x + Delta(d).0, p.y + Delta(d).1)
  }

  /** Stepping back in the opposite direction returns to the start cell. */
  lemma NextPositionReversible(p: Position, d: Direction)
    ensures NextPosition(NextPosition(p, d), Opposite(d)) == p
    ensures NextPosition(p, d) != p
  {
    match d
    case Up =>
    case Down =>
    case Left =>
    case Right =>
  }

  /** Whether `p` lies on the square board [0, n) x [0, n). */
  predicate InBoard(p: Position, n: int) {
    0 <= p.x < n && 0 <= p.y < n
  }

  /** No cell occurs twice in the snake. */
  predicate NoDuplicates(s: seq<Position>) {
    forall i, j :: 0 <= i < j < |s| ==> s[i] != s[j]
  }

  /** A snake the game can hold: non-empty, no repeated cells, all on the board. */
  predicate WellFormedSnake(s: seq<Position>, n: int) {
    |s| > 0 && NoDuplicates(s) && forall i :: 0 <= i < |s| ==> InBoard(s[i], n)
  }

  /** Some cell of the board is not covered by `s`. */
  ghost predicate HasFreeCell(s: seq<Position>, n: int) {
    exists c :: InBoard(c, n) && c !in s
  }

  /** The centre used by reset: integer division of the board size. */
  function Center(n: int): int
    requires n >= 0
  {
    n / 2
  }

  /** The three-segment snake reset builds, head first, lying horizontally. */
  function InitialSnake(n: int): (r: seq<Position>)
    requires n >= 0
    ensures |r| == 3 && r[0] == Position(n / 2, n / 2)
    ensures forall i :: 0 <= i < 3 ==> r[i].y == n / 2 && r[i].x == n / 2 - i
  {
    var c := Center(n);
    [Position(c, c), Position(c - 1, c), Position(c - 2, c)]
  }

  /** On a board of size at least four the initial snake is a legal snake. */
  lemma InitialSnakeWellFormed(n: int)
    requires n >= 4
    ensures WellFormedSnake(InitialSnake(n), n)
    ensures HasFreeCell(InitialSnake(n), n)
  {
    var s := InitialSnake(n);
    assert InBoard(Position(0, 0), n) && Position(0, 0) !in s;
  }

  /**
   * The source builds each initial cell as a `Position`, so reset only
   * succeeds when every coordinate is non-negative, which is exactly when
   * the board size is at least four.
   */
  lemma InitialSnakeValidIff(n: int)
    requires n >= 0
    ensures (forall i :: 0 <= i < 3 ==> ValidPosition(InitialSnake(n)[i])) <==> n >= 4
  {
    if n < 4 {
      assert !ValidPosition(InitialSnake(n)[2]);
    }
  }

  /** A read-only snapshot of the game state, for contracts and renderers. */
  datatype StateView = StateView(
    snake: seq<Position>,
    food: Option<Position>,
    direction: Direction,
    score: int,
    isGameOver: bool,
    isPaused: bool)

  /** The complete, mutable game state. The board size never changes. */
  class GameState {
    var snake: seq<Position>
    var food: Option<Position>
    var direction: Direction
    var score: int
    var isGameOver: bool
    var isPaused: bool
    const boardSize: int

    /** A fresh state with the source's field defaults. */
    constructor (boardSize: int)
      ensures this.boardSize == boardSize
      ensures View() == StateView([], None, Right, 0, false, false)
    {
      this.boardSize := boardSize;
      snake := [];
      food := None;
      direction := Right;
      score := 0;
      isGameOver := false;
      isPaused := false;
    }

    function View(): StateView
      reads this
    {
      StateView(snake, food, direction, score, isGameOver, isPaused)
    }

    /**
     * Reinitialises the state: the centred three-cell snake heading RIGHT,
     * score zero, both flags cleared and no food.
     */
    method Reset()
      requires boardSize >= 4
      modifies this
      ensures View() == StateView(InitialSnake(boardSize), None, Right, 0, false, false)
      ensures WellFormedSnake(snake, boardSize) && HasFreeCell(snake, boardSize)
    {
      var center := boardSize / 2;
      snake := [Position(center, center), Position(center - 1, center), Position(center - 2, center)];
      direction := Right;
      score := 0;
      isGameOver := false;
      isPaused := false;
      food := None;
      InitialSnakeWellFormed(boardSize);
    }
  }
}
