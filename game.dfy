/**
 * The game as a state machine over the program's module-level variables.
 * Each function is one event handler of the page, minus rendering, sound
 * and storage: a click or key that calls tryMove, one tick of the timer
 * interval, onTimeUp, onWin, onShuffle and onReset.
 */
module Game {
  import opened Wrappers
  import opened Board
  import opened Moves
  import opened Solvability
  import opened Shuffle
  import opened Options
  import opened Records

  /**
   * tiles, size, moves, timer, limitSeconds and isOver; running tells
   * whether a timer interval is registered (intervalId is not null); best
   * is the stored best result.
   */
  datatype State = State(
    tiles: seq<int>, size: nat, moves: nat, timer: nat, limit: int,
    over: bool, running: bool, best: Option<Record>)

  /**
   * What every handler keeps: a size the options allow, a solvable
   * arrangement of that size, and no running interval once the game is over.
   */
  predicate Consistent(g: State)
  {
    && 3 <= g.size <= 5
    && Playable(g)
    && IsBoard(g.size, g.tiles)
    && IsSolvable(g.size, g.tiles)
    && (g.over ==> !g.running)
  }

  /** init: the options loaded from storage (size 4 and 300 s by default) and the solved arrangement. */
  function Initial(raw: Option<Stored>, best: Option<Record>): (g: State)
    ensures Consistent(g) && IsSolved(g.tiles)
    ensures (g.size, g.limit) == Load(raw, 4, 300)
    ensures g.moves == 0 && g.timer == 0 && !g.over && !g.running && g.best == best
  {
    var (size, limit) := Load(raw, 4, 300);
    SolvedIsSolvable(size);
    State(Solved(size), size, 0, 0, limit, false, false, best)
  }

  /** stopTimer: clear the interval. */
  function StopTimer(g: State): (g': State)
    ensures !g'.running && g' == g.(running := false)
  {
    g.(running := false)
  }

  /** Stopping a stopped timer changes nothing. */
  lemma StopTimerIdempotent(g: State)
    ensures StopTimer(StopTimer(g)) == StopTimer(g)
    ensures !g.running ==> StopTimer(g) == g
  {
  }

  /** resetStats: zero moves and timer and clear the game-over flag. */
  function ResetStats(g: State): (g': State)
    ensures g'.moves == 0 && g'.timer == 0 && !g'.over
    ensures g' == g.(moves := 0, timer := 0, over := false)
  {
    g.(moves := 0, timer := 0, over := false)
  }

  /** onWin: stop the timer, end the game and offer the result to the best record; tells whether it set one. */
  function Win(g: State): (r: (State, bool))
    ensures r.0.over && !r.0.running
    ensures r.1 <==> Better(Record(g.timer, g.moves), g.best)
    ensures r.0 == g.(over := true, running := false, best := UpdateBest(g.best, Record(g.timer, g.moves)).0)
  {
    var (best', isRecord) := UpdateBest(g.best, Record(g.timer, g.moves));
    (StopTimer(g).(over := true, best := best'), isRecord)
  }

  /** onTimeUp: end a game that is not over yet; a second call changes nothing. */
  function TimeUp(g: State): (g': State)
    ensures g'.over && (g.over ==> g' == g)
    ensures !g.over ==> g' == g.(over := true, running := false)
  {
    if g.over then g else StopTimer(g).(over := true)
  }

  /**
   * The body of the timer interval: one second more, and the game ends once
   * the limit is reached. A tick neither moves a tile nor sets a record.
   */
  function Tick(g: State): (g': State)
    ensures g'.timer == g.timer + 1
    ensures g'.over <==> g.over || g.timer + 1 >= g.limit
    ensures g'.running <==> g.running && (g.over || g.timer + 1 < g.limit)
    ensures g'.tiles == g.tiles && g'.moves == g.moves && g'.best == g.best
    ensures g'.size == g.size && g'.limit == g.limit
  {
    var g1 := g.(timer := g.timer + 1);
    if g1.timer >= g1.limit then TimeUp(g1) else g1
  }

  /** What tryMove relies on: a square board of the size with a blank on it. */
  predicate Playable(g: State)
  {
    g.size > 0 && |g.tiles| == g.size * g.size && 0 in g.tiles
  }

  /**
   * tryMove: refused (nothing changes) when the game is over or the index is
   * not next to the blank; otherwise the blank and the target are exchanged,
   * moves grows by one, and a solved board wins.
   */
  function TryMove(g: State, index: int): (r: (State, bool))
    requires Playable(g)
    ensures !r.1 <==> g.over || index !in Movable(g.size, g.tiles)
    ensures !r.1 ==> r.0 == g
    ensures r.1 ==> r.0.tiles == ApplyMove(g.size, g.tiles, index).value
    ensures r.1 ==> r.0.moves == g.moves + 1 && r.0.timer == g.timer
    ensures r.1 ==> r.0.size == g.size && r.0.limit == g.limit
    ensures r.1 ==> (r.0.over <==> IsSolved(r.0.tiles))
    ensures r.1 && IsSolved(r.0.tiles) ==> !r.0.running && r.0.best == UpdateBest(g.best, Record(g.timer, g.moves + 1)).0
    ensures r.1 && !IsSolved(r.0.tiles) ==> r.0.running == g.running && r.0.best == g.best
  {
    var (g1, moved) := Slide(g, index);
    if moved && IsSolved(g1.tiles) then (Win(g1).0, true) else (g1, moved)
  }

  /** The first half of tryMove: the exchange and the move count, before the check for a win. */
  function Slide(g: State, index: int): (r: (State, bool))
    requires Playable(g)
    ensures !r.1 <==> g.over || index !in Movable(g.size, g.tiles)
    ensures !r.1 ==> r.0 == g
    ensures r.1 ==> r.0 == g.(tiles := ApplyMove(g.size, g.tiles, index).value, moves := g.moves + 1)
  {
    if g.over then (g, false)
    else
      match ApplyMove(g.size, g.tiles, index)
      case None => (g, false)
      case Some(tiles') => (g.(tiles := tiles', moves := g.moves + 1), true)
  }

  /**
   * onKey and moveByDirection: the direction names the way the tile slides,
   * so the target is the cell on the opposite side of the blank, and tryMove
   * is called only when that cell is on the board.
   */
  function MoveByDirection(g: State, dir: Direction): (r: (State, bool))
    requires Playable(g)
    ensures r.1 <==> !g.over && Target(g.size, g.tiles, dir).Some?
    ensures r.1 ==> r == TryMove(g, Target(g.size, g.tiles, dir).value)
    ensures !r.1 ==> r.0 == g
  {
    TargetIsMovable(g.size, g.tiles, dir);
    match Target(g.size, g.tiles, dir)
    case None => (g, false)
    case Some(t) => TryMove(g, t)
  }

  /** The arrangement after an accepted move is a solvable board again. */
  lemma TryMoveKeepsConsistent(g: State, index: int)
    requires Consistent(g)
    ensures Consistent(TryMove(g, index).0)
  {
    if TryMove(g, index).1 {
      BoardIsDistinct(g.size, g.tiles);
      var tiles' := ApplyMove(g.size, g.tiles, index).value;
      BlankAfterMove(g.size, g.tiles, index);
      MovePreservesSolvable(g.size, g.tiles, index);
      assert IsBoard(g.size, tiles') && IsSolvable(g.size, tiles');
    }
  }

  /**
   * onShuffle: read the menu, build the board of the first accepted shuffle
   * (the draws must allow one), zero the counters and start the timer.
   */
  function Reshuffle(g: State, sizeControl: Control, timeControl: Control, draws: seq<seq<real>>): (g': State)
    requires 3 <= g.size <= 5
    requires AttemptDraws(SizeFromControl(sizeControl, g.size), draws)
    requires FirstAccepted(SizeFromControl(sizeControl, g.size), draws).Some?
    ensures g'.size == SizeFromControl(sizeControl, g.size)
    ensures g'.limit == LimitFromControl(timeControl, g.limit)
    ensures g'.tiles == Attempt(g'.size, draws[FirstAccepted(g'.size, draws).value])
    ensures g'.moves == 0 && g'.timer == 0 && !g'.over && g'.running && g'.best == g.best
  {
    var n := SizeFromControl(sizeControl, g.size);
    var tiles' := Attempt(n, draws[FirstAccepted(n, draws).value]);
    State(tiles', n, 0, 0, LimitFromControl(timeControl, g.limit), false, true, g.best)
  }

  /** onShuffle deals a solvable board that is not already solved. */
  lemma ReshuffleDeals(g: State, sizeControl: Control, timeControl: Control, draws: seq<seq<real>>)
    requires 3 <= g.size <= 5
    requires AttemptDraws(SizeFromControl(sizeControl, g.size), draws)
    requires FirstAccepted(SizeFromControl(sizeControl, g.size), draws).Some?
    ensures var g' := Reshuffle(g, sizeControl, timeControl, draws);
      Consistent(g') && IsSolvable(g'.size, g'.tiles) && !IsSolved(g'.tiles)
  {
    var n := SizeFromControl(sizeControl, g.size);
    FirstAcceptedIsFirst(n, draws);
    var tiles' := Attempt(n, draws[FirstAccepted(n, draws).value]);
    assert Accepted(n, tiles');
    BoardIsDistinct(n, tiles');
  }

  /** onReset: the solved arrangement, the timer stopped and the counters zeroed. */
  function Reset(g: State): (g': State)
    requires 3 <= g.size <= 5
    ensures Consistent(g') && IsSolved(g'.tiles) && g'.tiles == Solved(g.size)
    ensures g'.moves == 0 && g'.timer == 0 && !g'.over && !g'.running
    ensures g'.size == g.size && g'.limit == g.limit && g'.best == g.best
  {
    SolvedIsSolvable(g.size);
    ResetStats(StopTimer(g.(tiles := Solved(g.size))))
  }

  /** The handlers other than tryMove keep the state consistent too. */
  lemma HandlersKeepConsistent(g: State)
    requires Consistent(g)
    ensures Consistent(StopTimer(g)) && Consistent(Win(g).0) && Consistent(TimeUp(g))
    ensures Consistent(Tick(g))
    ensures Consistent(ResetStats(g))
  {
  }

  /** Once the game is over no move is accepted, no tick arrives, and onTimeUp changes nothing. */
  lemma OverIsTerminal(g: State, index: int)
    requires Consistent(g) && g.over
    ensures TryMove(g, index) == (g, false)
    ensures !g.running && TimeUp(g) == g
  {
  }

  /**
   * Moving straight back into the cell the blank came from restores the
   * arrangement, at the cost of two moves.
   */
  lemma MoveThereAndBack(g: State, t: int)
    requires Consistent(g) && !g.over && t in Movable(g.size, g.tiles)
    requires !IsSolved(ApplyMove(g.size, g.tiles, t).value)
    ensures var (g1, ok1) := TryMove(g, t);
      && ok1 && Consistent(g1)
      && var (g2, ok2) := TryMove(g1, IndexOf(g.tiles, 0));
      && ok2 && g2.tiles == g.tiles && g2.moves == g.moves + 2 && g2.timer == g.timer
  {
    BoardIsDistinct(g.size, g.tiles);
    TryMoveKeepsConsistent(g, t);
    MoveBack(g.size, g.tiles, t);
  }

  /**
   * The ticks the interval delivers: none once it has been cleared. At most
   * k seconds pass, one per tick; tiles, moves, options and record stay; a
   * game whose interval is not running is left as it is.
   */
  function Ticks(g: State, k: nat): (g': State)
    ensures g.timer <= g'.timer <= g.timer + k
    ensures g'.tiles == g.tiles && g'.moves == g.moves && g'.best == g.best
    ensures g'.size == g.size && g'.limit == g.limit
    ensures !g.running ==> g' == g
    ensures g.over ==> g'.over
    decreases k
  {
    if k == 0 || !g.running then g else Ticks(Tick(g), k - 1)
  }

  /** Before the limit each tick only advances the timer. */
  lemma {:induction false} TicksBeforeLimit(g: State, k: nat)
    requires g.running && !g.over && g.timer + k < g.limit
    ensures Ticks(g, k) == g.(timer := g.timer + k)
    decreases k
  {
    if k > 0 {
      var g1 := Tick(g);
      assert g1 == g.(timer := g.timer + 1);
      TicksBeforeLimit(g1, k - 1);
    }
  }

  /**
   * From a running game that has not reached its limit, exactly the ticks up
   * to the limit end it, by time-out: tiles, moves and the best record stay.
   */
  lemma TicksReachTimeOut(g: State)
    requires g.running && !g.over && g.timer < g.limit
    ensures var k := g.limit - g.timer;
      && !Ticks(g, k - 1).over
      && Ticks(g, k) == g.(timer := g.limit, over := true, running := false)
  {
    var k: nat := g.limit - g.timer;
    var h: nat := k - 1;
    TicksBeforeLimit(g, h);
    var g1 := Ticks(g, h);
    assert g1 == g.(timer := g.timer + h);
    assert Ticks(g1, 1) == Tick(g1);
    TicksSplit(g, h, 1);
  }

  lemma {:induction false} TicksSplit(g: State, a: nat, b: nat)
    ensures Ticks(g, a + b) == Ticks(Ticks(g, a), b)
    decreases a
  {
    if a > 0 && g.running {
      TicksSplit(Tick(g), a - 1, b);
    }
  }

  /**
   * The arrangement is playable before any shuffle: on the solved board of
   * init or onReset, moving the tile left of the blank and back wins at once,
   * with 0 seconds and 2 moves offered to the best record.
   */
  lemma PlayBeforeShuffle(g: State)
    requires Consistent(g) && g.tiles == Solved(g.size) && !g.over && g.timer == 0 && g.moves == 0
    ensures var (g1, ok1) := TryMove(g, g.size * g.size - 2);
      && ok1 && !g1.over
      && var (g2, ok2) := TryMove(g1, g.size * g.size - 1);
      && ok2 && g2.over && g2.best == UpdateBest(g.best, Record(0, 2)).0
  {
    var n := g.size;
    LeftOfBlankMovable(n);
    BoardIsDistinct(n, g.tiles);
    MoveBack(n, g.tiles, n * n - 2);
    var t1 := ApplyMove(n, g.tiles, n * n - 2).value;
    assert t1[n * n - 1] != 0;
    SolvedIsSolvable(n);
  }
}
