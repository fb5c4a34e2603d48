/**
 * The move engine: the cells next to the blank, the target of a direction
 * key or swipe, and the exchange of the blank with a target cell.
 */
module Moves {
  import opened Wrappers
  import opened Board

  /** JavaScript's `%` on integers, which truncates toward zero. */
  function JsRem(a: int, b: int): (r: int)
    requires b > 0
    ensures a >= 0 ==> r == a % b
    ensures a < 0 ==> -b < r <= 0
    ensures (a - r) % b == 0
  {
    if a >= 0 then
      DivMod(a - a % b, b, a / b, 0);
      a % b
    else
      DivMod(a + (-a) % b, b, -((-a) / b), 0);
      -((-a) % b)
  }

  /** The row and column steps tried by movableIndices, in its order. */
  const Dirs: seq<(int, int)> := [(1, 0), (-1, 0), (0, 1), (0, -1)]

  /** The cell at row r and column c, when that is on the board. */
  function CellAt(n: nat, r: int, c: int): set<int>
  {
    if 0 <= r < n && 0 <= c < n then {r * n + c} else {}
  }

  /** The cells reached from (er, ec) by the first k steps of Dirs. */
  function Neighbours(n: nat, er: int, ec: int, k: nat): set<int>
    requires k <= |Dirs|
  {
    if k == 0 then {}
    else Neighbours(n, er, ec, k - 1) + CellAt(n, er + Dirs[k - 1].0, ec + Dirs[k - 1].1)
  }

  /** movableIndices: the on-board cells one step from the blank's row and column. */
  function Movable(n: nat, s: seq<int>): (cells: set<int>)
    requires n > 0
    ensures |cells| <= 4
    ensures forall m :: m in cells ==> 0 <= m < n * n
  {
    var e := IndexOf(s, 0);
    NeighboursSize(n, e / n, JsRem(e, n), |Dirs|);
    Neighbours(n, e / n, JsRem(e, n), |Dirs|)
  }

  /** The loop of movableIndices that collects the neighbours of the blank. */
  method MovableIndices(n: nat, s: seq<int>) returns (cells: set<int>)
    requires n > 0
    ensures cells == Movable(n, s)
  {
    var e := IndexOf(s, 0);
    var er, ec := e / n, JsRem(e, n);
    cells := {};
    for i := 0 to |Dirs|
      invariant cells == Neighbours(n, er, ec, i)
    {
      var (dr, dc) := Dirs[i];
      var r, c := er + dr, ec + dc;
      if r >= 0 && r < n && c >= 0 && c < n {
        cells := cells + {r * n + c};
      }
    }
  }

  /**
   * Cell m is next to cell e of an n-by-n board: one row further down or up
   * (index plus or minus n), or one column further right or left (index plus
   * or minus one) without wrapping around a row end.
   */
  predicate IsNeighbour(n: nat, e: int, m: int)
    requires n > 0
  {
    && 0 <= e < n * n
    && ((m == e + n && e / n < n - 1)
        || (m == e - n && e / n > 0)
        || (m == e + 1 && e % n < n - 1)
        || (m == e - 1 && e % n > 0))
  }

  lemma CellIndex(n: nat, r: int, c: int)
    requires n > 0 && 0 <= r < n && 0 <= c < n
    ensures 0 <= r * n + c < n * n
    ensures (r * n + c) / n == r && (r * n + c) % n == c
  {
    DivMod(r * n + c, n, r, c);
    CellBelowEnd(n, r, c);
  }

  lemma CellBelowEnd(n: nat, r: int, c: int)
    requires n > 0 && 0 <= r < n && 0 <= c < n
    ensures r * n + c < n * n
  {
    MulMonotone(r, n - 1, n);
    assert (n - 1) * n == n * n - n;
  }

  lemma MulMonotone(a: int, b: int, n: int)
    requires a <= b && n >= 0
    ensures a * n <= b * n
  {
    assert b * n - a * n == (b - a) * n;
  }

  lemma {:induction false} NeighboursSize(n: nat, er: int, ec: int, k: nat)
    requires k <= |Dirs|
    ensures |Neighbours(n, er, ec, k)| <= k
    ensures forall m :: m in Neighbours(n, er, ec, k) ==> 0 <= m < n * n
  {
    if k > 0 {
      NeighboursSize(n, er, ec, k - 1);
      var r, c := er + Dirs[k - 1].0, ec + Dirs[k - 1].1;
      if 0 <= r < n && 0 <= c < n {
        CellIndex(n, r, c);
      }
    }
  }

  /** Without a blank (on a board wider than one cell) nothing is movable. */
  lemma NoBlankNoMoves(n: nat, s: seq<int>)
    requires n > 1 && 0 !in s
    ensures Movable(n, s) == {}
  {
    DivMod(-1, n, -1, n - 1);
    assert JsRem(-1, n) == -1;
    NeighboursUnfold(n, -1, -1, -1 * n - 1);
  }

  /** The row and column of a cell of an n-by-n board. */
  lemma Coordinates(n: nat, e: int)
    requires n > 0 && 0 <= e < n * n
    ensures 0 <= e / n < n && 0 <= e % n < n && e == (e / n) * n + e % n
  {
    RowBound(n, e);
  }

  /** The four candidate cells around row er and column ec, as offsets of the index e there. */
  lemma NeighboursUnfold(n: nat, er: int, ec: int, e: int)
    requires n > 0 && e == er * n + ec
    ensures Neighbours(n, er, ec, |Dirs|)
         == (if 0 <= er + 1 < n && 0 <= ec < n then {e + n} else {})
          + (if 0 <= er - 1 < n && 0 <= ec < n then {e - n} else {})
          + (if 0 <= er < n && 0 <= ec + 1 < n then {e + 1} else {})
          + (if 0 <= er < n && 0 <= ec - 1 < n then {e - 1} else {})
  {
    assert (er + 1) * n + ec == e + n;
    assert (er - 1) * n + ec == e - n;
    assert Neighbours(n, er, ec, 1) == CellAt(n, er + 1, ec);
    assert Neighbours(n, er, ec, 2) == Neighbours(n, er, ec, 1) + CellAt(n, er - 1, ec);
    assert Neighbours(n, er, ec, 3) == Neighbours(n, er, ec, 2) + CellAt(n, er, ec + 1);
  }

  lemma NeighboursAreNeighbours(n: nat, e: int)
    requires n > 0 && 0 <= e < n * n
    ensures forall m :: m in Neighbours(n, e / n, e % n, |Dirs|) <==> IsNeighbour(n, e, m)
  {
    Coordinates(n, e);
    NeighboursUnfold(n, e / n, e % n, e);
  }

  /**
   * On a board with a blank, the movable cells are exactly the cells next to
   * it along a row or a column; in particular the blank itself is not movable.
   */
  lemma MovableAreNeighbours(n: nat, s: seq<int>)
    requires n > 0 && |s| == n * n && 0 in s
    ensures forall m :: m in Movable(n, s) <==> IsNeighbour(n, IndexOf(s, 0), m)
    ensures IndexOf(s, 0) !in Movable(n, s)
  {
    var e := IndexOf(s, 0);
    assert JsRem(e, n) == e % n;
    NeighboursAreNeighbours(n, e);
  }

  lemma RowStep(n: nat, e: int)
    requires n > 0 && 0 <= e < n * n && e / n < n - 1
    ensures e + n < n * n && (e + n) / n == e / n + 1 && (e + n) % n == e % n
  {
    var r, c := e / n, e % n;
    Coordinates(n, e);
    CellIndex(n, r + 1, c);
    assert (r + 1) * n + c == e + n;
  }

  lemma ColumnStep(n: nat, e: int)
    requires n > 0 && 0 <= e < n * n && e % n < n - 1
    ensures e + 1 < n * n && (e + 1) / n == e / n && (e + 1) % n == e % n + 1
  {
    var r, c := e / n, e % n;
    Coordinates(n, e);
    CellIndex(n, r, c + 1);
  }

  lemma RowStepBack(n: nat, e: int)
    requires n > 0 && 0 <= e < n * n && e / n > 0
    ensures 0 <= e - n && (e - n) / n == e / n - 1 && (e - n) % n == e % n
  {
    var r, c := e / n, e % n;
    Coordinates(n, e);
    CellIndex(n, r - 1, c);
    assert (r - 1) * n + c == e - n;
  }

  lemma ColumnStepBack(n: nat, e: int)
    requires n > 0 && 0 <= e < n * n && e % n > 0
    ensures 0 <= e - 1 && (e - 1) / n == e / n && (e - 1) % n == e % n - 1
  {
    var r, c := e / n, e % n;
    Coordinates(n, e);
    CellIndex(n, r, c - 1);
  }

  /** Next cells differ from the blank by exactly one step in exactly one of row and column. */
  lemma NeighbourRowColumn(n: nat, e: int, m: int)
    requires n > 0 && IsNeighbour(n, e, m)
    ensures 0 <= m < n * n
    ensures || (m / n == e / n && (m % n == e % n + 1 || m % n + 1 == e % n))
            || (m % n == e % n && (m / n == e / n + 1 || m / n + 1 == e / n))
  {
    if m == e + n && e / n < n - 1 {
      RowStep(n, e);
    } else if m == e - n && e / n > 0 {
      RowStepBack(n, e);
    } else if m == e + 1 && e % n < n - 1 {
      ColumnStep(n, e);
    } else {
      ColumnStepBack(n, e);
    }
  }

  /**
   * A direction names the way a tile slides into the blank. The tile comes
   * from the opposite side of the blank: Up takes the tile below it, so the
   * blank itself travels down.
   */
  datatype Direction = Up | Down | Left | Right

  /** The reverse of a direction. */
  function Opposite(d: Direction): (o: Direction)
    ensures o != d
  {
    match d
    case Up => Down
    case Down => Up
    case Left => Right
    case Right => Left
  }

  /** Math.abs on integers. */
  function Abs(x: int): (a: nat)
    ensures a == x || a == -x
  {
    if x < 0 then -x else x
  }

  /** The arrow keys handled by onKey. */
  function KeyDirection(key: string): (d: Option<Direction>)
    ensures d.Some? <==> key in {"ArrowUp", "ArrowDown", "ArrowLeft", "ArrowRight"}
    ensures d == Some(Up) <==> key == "ArrowUp"
    ensures d == Some(Down) <==> key == "ArrowDown"
    ensures d == Some(Left) <==> key == "ArrowLeft"
    ensures d == Some(Right) <==> key == "ArrowRight"
  {
    if key == "ArrowUp" then Some(Up)
    else if key == "ArrowDown" then Some(Down)
    else if key == "ArrowLeft" then Some(Left)
    else if key == "ArrowRight" then Some(Right)
    else None
  }

  /** The direction names handled by moveByDirection. */
  function NamedDirection(name: string): (d: Option<Direction>)
    ensures d.Some? <==> name in {"up", "down", "left", "right"}
    ensures d == Some(Up) <==> name == "up"
    ensures d == Some(Down) <==> name == "down"
    ensures d == Some(Left) <==> name == "left"
    ensures d == Some(Right) <==> name == "right"
  {
    if name == "up" then Some(Up)
    else if name == "down" then Some(Down)
    else if name == "left" then Some(Left)
    else if name == "right" then Some(Right)
    else None
  }

  /**
   * The swipe rule of onTouchEnd: nothing below a 24-unit threshold on both
   * axes; otherwise the axis with the strictly larger displacement decides,
   * a tie going to the vertical axis, and the sign of that displacement
   * decides the way along it.
   */
  function SwipeDirection(dx: int, dy: int): (d: Option<Direction>)
    ensures d.None? <==> (Abs(dx) < 24 && Abs(dy) < 24)
    ensures d.Some? ==> ((d.value == Left || d.value == Right) <==> Abs(dx) > Abs(dy))
    ensures d == Some(Right) ==> dx > 0
    ensures d == Some(Left) ==> dx < 0
    ensures d == Some(Down) ==> dy > 0
    ensures d == Some(Up) ==> dy <= 0
  {
    var absX := Abs(dx);
    var absY := Abs(dy);
    if absX < 24 && absY < 24 then None
    else if absX > absY then (if dx > 0 then Some(Right) else Some(Left))
    else (if dy > 0 then Some(Down) else Some(Up))
  }

  /** A swipe the other way round gives the opposite direction, or none when the original gave none. */
  lemma SwipeReversed(dx: int, dy: int)
    ensures SwipeDirection(-dx, -dy).None? <==> SwipeDirection(dx, dy).None?
    ensures SwipeDirection(dx, dy).Some? ==>
      SwipeDirection(-dx, -dy) == Some(Opposite(SwipeDirection(dx, dy).value))
  {
  }

  /**
   * The target cell of onKey and moveByDirection: the cell on the opposite
   * side of the blank from the direction, or None when it would leave the board.
   */
  function Target(n: nat, s: seq<int>, dir: Direction): (t: Option<int>)
    requires n > 0
    ensures t.Some? ==> t.value >= 0
  {
    var e := IndexOf(s, 0);
    var r, c := e / n, JsRem(e, n);
    match dir
    case Up => if r < n - 1 then Some(e + n) else None
    case Down => if r > 0 then QuotientPositive(e, n); Some(e - n) else None
    case Left => if c < n - 1 then Some(e + 1) else None
    case Right => if c > 0 then Some(e - 1) else None
  }

  /** The if-chain of onKey and moveByDirection, with -1 for "no target". */
  method DirectionTarget(n: nat, s: seq<int>, dir: Direction) returns (target: int)
    requires n > 0
    ensures target == match Target(n, s, dir) case Some(t) => t case None => -1
  {
    var empty := IndexOf(s, 0);
    var r, c := empty / n, JsRem(empty, n);
    target := -1;
    match dir {
      case Up => if r < n - 1 { target := empty + n; }
      case Down => if r > 0 { target := empty - n; }
      case Left => if c < n - 1 { target := empty + 1; }
      case Right => if c > 0 { target := empty - 1; }
    }
  }

  /**
   * A direction yields a target exactly when the neighbour on the opposite
   * side of the blank is on the board (below it for Up, above it for Down,
   * right of it for Left, left of it for Right), and that target is movable.
   */
  lemma TargetIsMovable(n: nat, s: seq<int>, dir: Direction)
    requires n > 0 && |s| == n * n && 0 in s
    ensures var e := IndexOf(s, 0);
      Target(n, s, dir).Some? <==> match dir
        case Up => e / n < n - 1
        case Down => e / n > 0
        case Left => e % n < n - 1
        case Right => e % n > 0
    ensures Target(n, s, dir).Some? ==> var e := IndexOf(s, 0);
      Target(n, s, dir).value == match dir
        case Up => e + n
        case Down => e - n
        case Left => e + 1
        case Right => e - 1
    ensures Target(n, s, dir).Some? ==> Target(n, s, dir).value in Movable(n, s)
  {
    MovableAreNeighbours(n, s);
  }

  /** Every movable cell is the target of some direction, so the keyboard reaches all of them. */
  lemma MovableIsTarget(n: nat, s: seq<int>, m: int)
    requires n > 0 && |s| == n * n && 0 in s && m in Movable(n, s)
    ensures exists dir :: Target(n, s, dir) == Some(m)
  {
    var e := IndexOf(s, 0);
    assert IsNeighbour(n, e, m) by {
      MovableAreNeighbours(n, s);
    }
    if m == e + n && e / n < n - 1 {
      TargetIsMovable(n, s, Up);
      assert Target(n, s, Up) == Some(m);
    } else if m == e - n && e / n > 0 {
      TargetIsMovable(n, s, Down);
      assert Target(n, s, Down) == Some(m);
    } else if m == e + 1 && e % n < n - 1 {
      TargetIsMovable(n, s, Left);
      assert Target(n, s, Left) == Some(m);
    } else {
      TargetIsMovable(n, s, Right);
      assert Target(n, s, Right) == Some(m);
    }
  }

  /** applyMove: exchange the blank with a movable target, or reject the target. */
  function ApplyMove(n: nat, s: seq<int>, index: int): (r: Option<seq<int>>)
    requires n > 0 && |s| == n * n && 0 in s
    ensures r.None? <==> index !in Movable(n, s)
    ensures r.Some? ==> var e := IndexOf(s, 0);
      && |r.value| == |s| && r.value[index] == 0 && r.value[e] == s[index]
      && (forall k :: 0 <= k < |s| && k != e && k != index ==> r.value[k] == s[k])
      && multiset(r.value) == multiset(s)
  {
    if index in Movable(n, s) then
      Some(Swap(s, IndexOf(s, 0), index))
    else None
  }

  /** Being next to each other is symmetric. */
  lemma NeighbourSymmetric(n: nat, e: int, m: int)
    requires n > 0 && IsNeighbour(n, e, m)
    ensures IsNeighbour(n, m, e)
  {
    if m == e + n && e / n < n - 1 {
      RowStep(n, e);
      assert m / n == e / n + 1;
    } else if m == e - n && e / n > 0 {
      RowStepBack(n, e);
      RowBound(n, e);
      assert m / n == e / n - 1;
    } else if m == e + 1 && e % n < n - 1 {
      ColumnStep(n, e);
      assert m % n == e % n + 1;
    } else {
      ColumnStepBack(n, e);
      assert m % n == e % n - 1;
    }
  }

  /** On a board, after a move the blank is at the target. */
  lemma BlankAfterMove(n: nat, s: seq<int>, t: int)
    requires n > 0 && IsBoard(n, s) && 0 in s && t in Movable(n, s)
    ensures IsBoard(n, ApplyMove(n, s, t).value)
    ensures IndexOf(ApplyMove(n, s, t).value, 0) == t
  {
    var s' := ApplyMove(n, s, t).value;
    BoardIsDistinct(n, s');
    var t' := IndexOf(s', 0);
    assert s'[t'] == s'[t];
  }

  /** Moving back into the cell the blank just left restores the board. */
  lemma MoveBack(n: nat, s: seq<int>, t: int)
    requires n > 0 && IsBoard(n, s) && 0 in s && t in Movable(n, s)
    ensures var s' := ApplyMove(n, s, t).value;
      && IsBoard(n, s') && IndexOf(s', 0) == t
      && ApplyMove(n, s', IndexOf(s, 0)) == Some(s)
  {
    var e := IndexOf(s, 0);
    var s' := ApplyMove(n, s, t).value;
    BlankAfterMove(n, s, t);
    MovableAreNeighbours(n, s);
    MovableAreNeighbours(n, s');
    NeighbourSymmetric(n, e, t);
    assert e in Movable(n, s');
    assert Swap(s', t, e) == s;
  }
}
