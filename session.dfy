/**
 * The page's running game: the module-level variables of the program as the
 * fields of one object, and each handler as a method that changes them in
 * place (the tiles array included). Every method is proved to do what the
 * matching function of the Game module describes.
 */
module Session {
  import opened Wrappers
  import opened Board
  import opened Moves
  import opened Shuffle
  import opened Options
  import opened Records
  import Game

  class Session {
    var tiles: array<int>
    var size: nat
    var moves: nat
    var timer: nat
    var limit: int
    var over: bool
    var running: bool
    var best: Option<Record>

    /** The variables as a value. */
    ghost function State(): Game.State
      reads this, tiles
    {
      Game.State(tiles[..], size, moves, timer, limit, over, running, best)
    }

    ghost predicate Valid()
      reads this, tiles
    {
      Game.Consistent(State())
    }

    /** init: load the options, then lay out the solved arrangement. */
    constructor (raw: Option<Stored>, best: Option<Record>)
      ensures Valid() && State() == Game.Initial(raw, best)
    {
      var (size', limit') := Load(raw, 4, 300);
      var arr := SolvedArray(size');
      tiles := arr;
      size, moves, timer, limit := size', 0, 0, limit';
      over, running := false, false;
      this.best := best;
      new;
      assert State() == Game.Initial(raw, best);
    }

    /** startTimer: (re)register the interval. */
    method StartTimer()
      modifies this
      ensures tiles == old(tiles)
      ensures old(Valid()) && !old(over) ==> Valid()
      ensures State() == old(State()).(running := true)
    {
      running := true;
    }

    method StopTimer()
      modifies this
      ensures tiles == old(tiles)
      ensures old(Valid()) ==> Valid()
      ensures State() == Game.StopTimer(old(State()))
    {
      if Valid() {
        Game.HandlersKeepConsistent(State());
      }
      running := false;
    }

    method ResetStats()
      modifies this
      ensures tiles == old(tiles)
      ensures old(Valid()) ==> Valid()
      ensures State() == Game.ResetStats(old(State()))
    {
      if Valid() {
        Game.HandlersKeepConsistent(State());
      }
      moves, timer, over := 0, 0, false;
    }

    /** onWin: the result is offered to the best record; tells whether it set one. */
    method Win() returns (isRecord: bool)
      modifies this
      ensures tiles == old(tiles)
      ensures old(Valid()) ==> Valid()
      ensures (State(), isRecord) == Game.Win(old(State()))
    {
      if Valid() {
        Game.HandlersKeepConsistent(State());
      }
      StopTimer();
      over := true;
      var u := UpdateBest(best, Record(timer, moves));
      best, isRecord := u.0, u.1;
    }

    method TimeUp()
      modifies this
      ensures tiles == old(tiles)
      ensures old(Valid()) ==> Valid()
      ensures State() == Game.TimeUp(old(State()))
    {
      if Valid() {
        Game.HandlersKeepConsistent(State());
      }
      if over {
        return;
      }
      StopTimer();
      over := true;
    }

    /** One run of the interval's callback. */
    method Tick()
      modifies this
      ensures tiles == old(tiles)
      ensures old(Valid()) ==> Valid()
      ensures State() == Game.Tick(old(State()))
    {
      ghost var g := State();
      timer := timer + 1;
      if timer >= limit {
        TimeUp();
      }
      assert State() == Game.Tick(g);
      if Game.Consistent(g) {
        Game.HandlersKeepConsistent(g);
      }
    }

    /** The destructuring swap of two cells of the tiles array. */
    method Exchange(i: int, j: int)
      requires 0 <= i < tiles.Length && 0 <= j < tiles.Length
      modifies tiles
      ensures tiles[..] == Swap(old(tiles[..]), i, j)
    {
      tiles[i], tiles[j] := tiles[j], tiles[i];
    }

    /** The exchange part of tryMove. */
    method Slide(index: int) returns (moved: bool)
      requires Game.Playable(State())
      modifies this, tiles
      ensures tiles == old(tiles)
      ensures (State(), moved) == Game.Slide(old(State()), index)
    {
      ghost var g := State();
      if over {
        return false;
      }
      var empty := IndexOf(tiles[..], 0);
      var mov := MovableIndices(size, tiles[..]);
      if index !in mov {
        return false;
      }
      Exchange(empty, index);
      moves := moves + 1;
      moved := true;
    }

    /** tryMove: exchange the blank with the tile at index when they are neighbours, then check for a win. */
    method TryMove(index: int) returns (moved: bool)
      requires Valid()
      modifies this, tiles
      ensures Valid() && tiles == old(tiles)
      ensures (State(), moved) == Game.TryMove(old(State()), index)
    {
      ghost var g := State();
      Game.TryMoveKeepsConsistent(g, index);
      moved := Slide(index);
      ghost var g1 := State();
      var solved := IsSolvedScan(tiles);
      if moved && solved {
        var _ := Win();
        assert State() == Game.Win(g1).0;
      }
    }

    /**
     * The step onKey and moveByDirection share once the key or name is read
     * as a direction: find the cell on the opposite side of the blank from
     * the direction, then tryMove it.
     */
    method MoveByDirection(dir: Direction) returns (moved: bool)
      requires Valid()
      modifies this, tiles
      ensures Valid() && tiles == old(tiles)
      ensures (State(), moved) == Game.MoveByDirection(old(State()), dir)
    {
      var target := DirectionTarget(size, tiles[..], dir);
      if target != -1 {
        moved := TryMove(target);
      } else {
        moved := false;
      }
    }

    /** onKey: an arrow key moves as its direction does; any other key changes nothing. */
    method OnKey(key: string) returns (moved: bool)
      requires Valid()
      modifies this, tiles
      ensures Valid() && tiles == old(tiles)
      ensures KeyDirection(key).None? ==> State() == old(State()) && !moved
      ensures KeyDirection(key).Some? ==>
        (State(), moved) == Game.MoveByDirection(old(State()), KeyDirection(key).value)
    {
      var dir := KeyDirection(key);
      if dir.Some? {
        moved := MoveByDirection(dir.value);
      } else {
        moved := false;
      }
    }

    /** moveByDirection: a direction name moves as its direction does; any other name changes nothing. */
    method MoveByName(name: string) returns (moved: bool)
      requires Valid()
      modifies this, tiles
      ensures Valid() && tiles == old(tiles)
      ensures NamedDirection(name).None? ==> State() == old(State()) && !moved
      ensures NamedDirection(name).Some? ==>
        (State(), moved) == Game.MoveByDirection(old(State()), NamedDirection(name).value)
    {
      var dir := NamedDirection(name);
      if dir.Some? {
        moved := MoveByDirection(dir.value);
      } else {
        moved := false;
      }
    }

    /**
     * onShuffle: the menu's options, then the first accepted shuffle, the
     * counters zeroed and the timer started.
     */
    method Shuffle(sizeControl: Control, timeControl: Control, draws: seq<seq<real>>)
      requires 3 <= size <= 5
      requires AttemptDraws(SizeFromControl(sizeControl, size), draws)
      requires FirstAccepted(SizeFromControl(sizeControl, size), draws).Some?
      modifies this
      ensures Valid() && fresh(tiles)
      ensures State() == Game.Reshuffle(old(State()), sizeControl, timeControl, draws)
    {
      ghost var g := State();
      ghost var after := Game.Reshuffle(g, sizeControl, timeControl, draws);
      size := SizeFromControl(sizeControl, size);
      limit := LimitFromControl(timeControl, limit);
      var arr, found := RandomSolvable(size, draws);
      assert arr[..] == after.tiles;
      tiles := arr;
      ResetStats();
      StartTimer();
      assert State() == after;
      Game.ReshuffleDeals(g, sizeControl, timeControl, draws);
    }

    /** onReset: the solved arrangement, the timer stopped and the counters zeroed. */
    method Reset()
      requires 3 <= size <= 5
      modifies this
      ensures Valid() && fresh(tiles)
      ensures State() == Game.Reset(old(State()))
    {
      ghost var g := State();
      var arr := SolvedArray(size);
      tiles := arr;
      StopTimer();
      ResetStats();
      assert State() == Game.Reset(g);
    }
  }
}
