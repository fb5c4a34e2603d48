# Tilerush sliding-tile puzzle, modelled in Dafny

This project models the game logic of a single-page sliding-tile puzzle
(the 15-puzzle, with widths 3 to 5) written in JavaScript (`script.js`).
The page keeps module-level variables — `tiles`, `moves`, `timer`,
`limitSeconds`, `isOver`, `size` — and event handlers that update them.
The model keeps the combinatorial core and the state machine of those
handlers, and proves what they promise.

Modules, one per component:

- `Board` (`board.dfy`): the row-major board of `n*n` integers with 0 as the
  blank. It holds `solvedArray`, `isSolved`, `countInversions`,
  `blankRowFromBottom` and `isSolvable`. The width `n`, a global in
  `script.js`, is an explicit parameter. The loops of `isSolved` and
  `countInversions` are methods proved equal to the functions.
- `Moves` (`moves.dfy`): `movableIndices`, the swap of `tryMove`, and the
  direction-to-target mapping of `onKey`, `moveByDirection` and the swipe
  rule of `onTouchEnd`. JavaScript's truncating `%` is modelled as `JsRem`.
  It matters when no blank is found and `indexOf` gives -1.
- `Solvability` (`solvability.dfy`): every accepted move keeps the verdict
  of the parity test. Hence every board reachable from the solved one passes
  `isSolvable`.
- `Shuffle` (`shuffle.dfy`): `randomSolvable`. The downward Fisher–Yates loop
  runs in place on an array. Each `Math.random()` value is a supplied real
  in [0, 1), and each do–while attempt gets its own stream of draws.
- `Clock` (`clock.dfy`): `formatTime` together with a reader of its output.
- `Options` (`options.dfy`): the clamps of `setOptionsFromUI` and the checks of
  `loadOptions`.
- `Records` (`records.dfy`): the "better" rule of `updateBest`.
- `Game` (`game.dfy`): the handlers as functions on a `State` value. They
  specify the class below and carry the lemmas about the state machine.
- `Session` (`session.dfy`): the module-level variables as one object whose
  `tiles` is an `array<int>`. Each handler is a method that changes the object
  in place and is proved equal to the matching `Game` function.

## Model

| member | source | states |
|---|---|---|
| Board.Solved | script.js:70-72 | the solved board has n*n cells, holds i+1 at every cell i before the last, and the blank in the last cell |
| Board.SolvedIsTheOnlySolved | script.js:74-77 | of all boards of width n, `isSolved` holds of exactly the solved arrangement |
| Board.IsSolvedScan | script.js:74-77 | the early-exit loop answers true exactly when every cell but the last holds its index plus one and the last holds 0 |
| Board.IsSolved | script.js:74-77 | an array that passes `isSolved` holds (i+1) mod its length at every cell i, so it is the solved arrangement of its length |
| Board.InversionsArePairs | script.js:79-84 | the recursive inversion count equals the number of position pairs i < j with a larger value first |
| Board.CountInversionsScan | script.js:79-84 | the nested loops over the blank-free tiles return the inversion count of the board with the blank ignored |
| Board.CountInversions | script.js:79-84 | the count is the number of position pairs i < j of the blank-free tiles whose earlier value is larger |
| Board.IndexOf | script.js:87 | `indexOf` gives -1 exactly when the value is absent, and otherwise its first position |
| Board.BlankRowFromBottom | script.js:86-90 | with a blank, the result is the row counted from the bottom that holds the blank's index: that index lies in [(n - row)·n, (n - row)·n + n), and on a board of n*n cells the row is between 1 and n; with no blank, `indexOf` gives -1 and the row is n+1 |
| Board.IsSolvableCheck | script.js:92-97 | the program's evaluation of `isSolvable` on an array gives the parity verdict of the board |
| Board.IsSolvable | script.js:92-97 | for odd n a board passes exactly when its inversion count is even; for even n exactly when the blank's row from the bottom plus the inversion count is odd |
| Board.SolvedNoInversions | script.js:70-84 | the solved arrangement has no inversions |
| Board.SolvedBlankRow | script.js:70-90 | the blank of the solved arrangement is on row 1 counted from the bottom |
| Board.SolvedIsSolvable | script.js:70-97 | the solved arrangement is solved and passes the solvability test, for every width |
| Board.ThreeByThreeExample | script.js:79-97 | the 3x3 board 1,2,3,4,5,6,0,7,8 has 0 inversions and its blank on row 1 from the bottom, so it is solvable |
| Board.Swap | script.js:208 | a destructuring swap exchanges the two cells, keeps every other cell, and keeps the multiset of values |
| Board.BoardIsDistinct | script.js:70-72 | a permutation of the solved arrangement has a blank and no value twice |
| Moves.JsRem | script.js:194 | JavaScript `%` is the truncating remainder: it differs from the dividend by a multiple of the divisor, agrees with the mathematical remainder for a non-negative dividend, and lies in (-n, 0] for a negative one |
| Moves.Movable | script.js:190-201 | the movable set has at most 4 cells, all inside [0, n*n) |
| Moves.MovableIndices | script.js:190-201 | the loop over the four directions collects exactly the movable set |
| Moves.MovableAreNeighbours | script.js:190-201 | on a board with a blank, a cell is movable if and only if it is one row or one column away from the blank without wrapping, and the blank itself is never movable |
| Moves.NeighbourRowColumn | script.js:190-201 | every movable cell is on the board and differs from the blank by exactly one step in exactly one of row and column |
| Moves.NoBlankNoMoves | script.js:190-201 | when there is no blank (`indexOf` gives -1) and n > 1, nothing is movable |
| Moves.NeighbourSymmetric | script.js:190-201 | being next to each other is symmetric, so the blank's old cell is movable after a move |
| Moves.KeyDirection | script.js:231-234 | exactly the four arrow keys give a direction: `ArrowUp` gives Up, `ArrowDown` Down, `ArrowLeft` Left and `ArrowRight` Right, each if and only if |
| Moves.NamedDirection | script.js:247-250 | exactly the four direction names give a direction: 'up' gives Up, 'down' Down, 'left' Left and 'right' Right, each if and only if |
| Moves.SwipeDirection | script.js:262-276 | a swipe gives no direction exactly when both displacements are below 24 in size; otherwise it is horizontal exactly when the horizontal displacement is strictly larger, a tie going vertical; Right needs dx > 0, Left dx < 0, Down dy > 0 and Up dy <= 0 |
| Moves.SwipeReversed | script.js:269-275 | the reverse swipe gives no direction exactly when the original gives none, and otherwise the opposite direction |
| Moves.Target | script.js:226-252 | a produced target is never negative |
| Moves.DirectionTarget | script.js:226-252 | the if-chain with the -1 sentinel gives the target of the direction, or -1 when there is none |
| Moves.TargetIsMovable | script.js:226-252 | a direction names the way the tile slides, so its target is the cell on the opposite side of the blank: Up (`ArrowUp`, 'up') targets the cell below the blank, at index plus n, Down the cell above (minus n), Left the cell to the right (plus 1), Right the cell to the left (minus 1); a target exists exactly when that cell is on the board, and it is movable |
| Moves.MovableIsTarget | script.js:226-252 | every movable cell is the target of some direction |
| Moves.ApplyMove | script.js:203-209 | a move is rejected exactly when the index is not movable; an accepted one puts the blank at the index and the tile in the blank's old cell, leaves every other cell unchanged and keeps the multiset |
| Moves.BlankAfterMove | script.js:208 | after a move the board is still a permutation of the solved arrangement and the blank is at the target |
| Moves.MoveBack | script.js:203-209 | moving straight back into the cell the blank left is accepted and restores the original board |
| Solvability.InversionsSwapNext | script.js:79-84 | exchanging two different neighbouring values changes the inversion count by exactly one |
| Solvability.InversionsAcross | script.js:79-84 | carrying a tile past k other tiles into the blank changes the inversion parity by k |
| Solvability.MovePreservesSolvable | script.js:92-97 | every accepted move keeps the verdict of the solvability test, so the test is invariant under play |
| Shuffle.DrawIndex | script.js:104 | `Math.floor(Math.random() * (i + 1))` is a position between 0 and i |
| Shuffle.ShuffleFrom | script.js:103-106 | the loop from any position down to 1 keeps the length of the board |
| Shuffle.ShuffleFromPermutes | script.js:103-106 | the loop from any position down to 1 keeps the multiset of the board, since each step exchanges two cells |
| Shuffle.ShuffledIsPermutation | script.js:102-106 | a full shuffle pass (`Shuffled`) keeps the length and the multiset of the board |
| Shuffle.ShuffleInPlace | script.js:103-106 | the in-place loop leaves the array holding the shuffle of its old contents |
| Shuffle.EveryArrangementReachable | script.js:103-106 | every rearrangement of the board is the result of some stream of draws |
| Shuffle.Attempt | script.js:102-106 | each attempt yields a permutation of the solved arrangement |
| Shuffle.AcceptedNotSolved | script.js:107 | the do–while exit test `Accepted` lets a board out only when it passes `isSolvable` and differs from the solved arrangement, and never lets the solved arrangement out |
| Shuffle.FirstTrue | script.js:101-107 | the first position holding true, with none before it, or none at all |
| Shuffle.FirstAcceptedIsFirst | script.js:99-109 | the chosen attempt passes the exit test (solvable and not solved) and every earlier attempt fails it |
| Shuffle.SolvedArray | script.js:70-72 | a fresh array holding the solved arrangement |
| Shuffle.TryAttempt | script.js:101-107 | one pass of the do–while builds the shuffled board in a fresh array and judges it by the exit test |
| Shuffle.RandomSolvable | script.js:99-109 | the retry loop finds a board exactly when some attempt is accepted, and then returns the first accepted board |
| Shuffle.SomeAttemptAccepted | script.js:99-109 | for every width of 2 or more some stream of draws is accepted, so the do–while can end |
| Clock.Decimal | script.js:112-113 | `toString` gives at least one digit, one digit exactly below 10 and at most two exactly below 100, and no leading zero: it starts with 0 exactly for 0 |
| Clock.PadStart2 | script.js:112-113 | `padStart(2, '0')` keeps the text as a suffix and fills the front with zeros up to length 2 |
| Clock.DecimalRoundTrip | script.js:112-113 | reading back the decimal digits of v gives v |
| Clock.FormatTime | script.js:111-115 | the display is at least two digits of minutes, a colon, and two digits of seconds below 60; it has 5 characters exactly below 6000 seconds; the minutes start with a 0 exactly below 600 seconds, so from 6000 seconds on they are written without padding (6000 s shows as 100:00) |
| Clock.FormatParseRoundTrip | script.js:111-115 | reading a display back gives the seconds it was made from |
| Clock.FormatTimeInjective | script.js:111-115 | different numbers of seconds are displayed differently |
| Clock.LongDisplay | script.js:111-115 | 6000 seconds are displayed as `100:00`: the minutes field grows past two digits with no leading zero |
| Clock.ZeroDisplay | script.js:161-168 | a reset clock's display is the `00:00` that `resetStats` writes |
| Options.OrElse | script.js:124-125 | `parseInt(...) \|\| fallback` gives the fallback for NaN and 0 and the parsed number otherwise |
| Options.SizeFromControl | script.js:124 | a typed size is clamped to 3..5, 4 when it is unusable; a skipped control keeps the size |
| Options.LimitFromControl | script.js:125 | a typed limit is at least 60, 300 when it is unusable; a skipped control keeps the limit |
| Options.ControlsIdempotent | script.js:121-128 | entering a clamped value again gives the same value |
| Options.Save | script.js:127 | the stored record holds the size and the limit as numbers |
| Options.Load | script.js:130-143 | a stored size is taken only when it is 3, 4 or 5; a stored limit is taken whenever it is an integer; nothing stored changes nothing |
| Options.SaveLoadRoundTrip | script.js:127-136 | loading the record that was saved restores its size and limit |
| Options.LoadDoesNotClampLimit | script.js:125-136 | a stored limit of 5 seconds is loaded as it is, while the menu would raise it to 60 |
| Records.Better | script.js:323 | a result beats the record only with no more seconds, on equal seconds only with strictly fewer moves, and a record never beats itself |
| Records.BetterIrreflexive | script.js:323 | repeating the record is not a new record |
| Records.BetterTotal | script.js:323 | of two different results exactly one beats the other |
| Records.BetterTransitive | script.js:323 | beating is transitive |
| Records.UpdateBest | script.js:318-330 | the result is a new record exactly when there is none, or it has strictly fewer seconds, or equal seconds and fewer moves; then it replaces the record, otherwise the record stays |
| Records.BestOfIsMinimum | script.js:318-330 | after a run of finished games the record is the earlier record or one of the games, and neither the earlier record nor any game beats it |
| Records.RecordExample | script.js:318-330 | 50 s and 30 moves with no record is a new record; 50 s and 35 moves then is not; 49 s and 99 moves then is |
| Game.Initial | script.js:375-377 | `init` starts from the loaded options (4 and 300 by default) and the solved board, with zero counters and no running timer |
| Game.StopTimer | script.js:156-159 | stopping the timer clears the running flag and changes nothing else |
| Game.StopTimerIdempotent | script.js:156-159 | stopping an already stopped timer changes nothing |
| Game.ResetStats | script.js:161-168 | moves and timer become 0 and the game is no longer over |
| Game.Win | script.js:298-308 | a win stops the timer, ends the game, and reports a new record exactly when the result beats the stored one |
| Game.TimeUp | script.js:310-316 | running out of time ends the game and stops the timer; on a game already over it changes nothing |
| Game.Tick | script.js:147-153 | a tick raises the timer by exactly 1, ends the game once the timer reaches the limit, and changes neither tiles, moves nor the record |
| Game.Slide | script.js:203-209 | the exchange of `tryMove` is refused on a finished game or a cell that is not movable; otherwise it applies the move and counts it |
| Game.TryMove | script.js:203-216 | `tryMove` is refused, changing nothing, on a finished game or an unmovable index; an accepted move applies the exchange, adds exactly one move, and wins exactly when the board becomes solved |
| Game.MoveByDirection | script.js:226-252 | a direction move is accepted exactly when the game is not over and the cell on the opposite side of the blank from the direction is on the board, so it is never refused for adjacency; an accepted one is the `tryMove` of that cell, a refused one changes nothing |
| Game.TryMoveKeepsConsistent | script.js:203-216 | after any `tryMove` the tiles are still a permutation of the solved board and still pass the solvability test |
| Game.Reshuffle | script.js:278-287 | `onShuffle` takes the menu options, deals the first accepted shuffle, zeroes the counters and starts the timer |
| Game.ReshuffleDeals | script.js:278-287 | the dealt board is a permutation of the solved board that passes the solvability test and is not already solved |
| Game.Reset | script.js:289-296 | from any state of width 3 to 5, `onReset` lays out the solved board, stops the timer and zeroes the counters; size, limit and record stay |
| Game.HandlersKeepConsistent | script.js:145-316 | stopping the timer, resetting the counters, winning, timing out and ticking keep the board a solvable permutation and keep a finished game's timer stopped |
| Game.OverIsTerminal | script.js:203-216 | once the game is over every `tryMove` is refused without change and `onTimeUp` changes nothing |
| Game.MoveThereAndBack | script.js:203-216 | moving a tile and straight back restores the tiles, costs two moves and leaves the timer alone |
| Game.Ticks | script.js:145-153 | k deliveries of the interval advance the timer by at most k seconds, change neither tiles, moves, options nor record, do nothing when no interval is registered, and never revive a finished game |
| Game.TicksBeforeLimit | script.js:147-153 | before the limit the ticks only advance the timer, one second each |
| Game.TicksReachTimeOut | script.js:147-153 | from a running game, exactly limit minus timer ticks end it by time-out, with tiles, moves and record unchanged |
| Game.PlayBeforeShuffle | script.js:289-296 | on the solved board of `init` or `onReset`, moving a tile out and back is accepted and wins with 0 seconds and 2 moves |
| Session.Session.constructor | script.js:375-377 | the new session is the state `init` builds |
| Session.Session.StartTimer | script.js:145-154 | only the running flag changes; a valid session that is not over stays valid |
| Session.Session.StopTimer | script.js:156-159 | the fields change as `stopTimer` specifies; a valid session stays valid |
| Session.Session.ResetStats | script.js:161-168 | the fields change as `resetStats` specifies; a valid session stays valid |
| Session.Session.Win | script.js:298-308 | the fields change as `onWin` specifies, and the record flag is returned; a valid session stays valid |
| Session.Session.TimeUp | script.js:310-316 | the fields change as `onTimeUp` specifies; a valid session stays valid |
| Session.Session.Tick | script.js:147-153 | the fields change as the interval callback specifies; a valid session stays valid |
| Session.Session.Exchange | script.js:208 | the tiles array afterwards is the old one with the two cells exchanged |
| Session.Session.Slide | script.js:203-209 | the array swap in place and the move count follow the exchange step of `tryMove` |
| Session.Session.TryMove | script.js:203-216 | the in-place `tryMove` keeps the session consistent and follows the state machine's move exactly |
| Session.Session.MoveByDirection | script.js:226-252 | the step `onKey` and `moveByDirection` share once the key or name is read as a direction keeps the session consistent and follows the direction move exactly |
| Session.Session.OnKey | script.js:226-240 | an arrow key moves exactly as `Game.MoveByDirection` does for its direction; any other key changes nothing; the session stays valid |
| Session.Session.MoveByName | script.js:242-252 | a direction name moves exactly as `Game.MoveByDirection` does for its direction; any other name changes nothing; the session stays valid |
| Session.Session.Shuffle | script.js:278-287 | `onShuffle` leaves a consistent session in a fresh array, as the state machine's reshuffle specifies |
| Session.Session.Reset | script.js:289-296 | from any session of width 3 to 5, `onReset` leaves a consistent session in a fresh array, as the state machine's reset specifies |

## Behaviour of script.js worth knowing

Each item is a fact about `script.js` that the model reproduces.

- `loadOptions` (script.js:136) takes a stored `limitSeconds` as it is, whenever it is a number. Only `setOptionsFromUI` (script.js:125) raises a limit to at least 60, so a stored limit of 5 stays 5 (`Options.LoadDoesNotClampLimit`).
- For the 3x3 board 1,2,3,4,5,6,0,7,8, `countInversions` (script.js:79-84) gives 0 and `blankRowFromBottom` (script.js:86-90) gives 1. For odd widths only the inversions count (script.js:94), so `isSolvable` accepts the board (`Board.ThreeByThreeExample`).
- There is no "not started" state that refuses moves. `init` (script.js:375-377) and `onReset` (script.js:289-296) lay out the solved board with `isOver` false and `timer` 0, and `onReset` stops the timer. So `tryMove` (script.js:203-216) accepts moving the tile left of the blank into it. Moving that tile straight back solves the board again. `tryMove` then calls `onWin` (script.js:298-308) with `timer` still 0 and `moves` 2. `onWin` passes `{ seconds: 0, moves: 2 }` to `updateBest` (script.js:301). Under the rule of script.js:323 that beats every stored record with more than 0 seconds, so it is stored as the best result (`Game.PlayBeforeShuffle`).
- `loadGame` checks only that the stored tiles are an array (script.js:351). Their length and whether they are a permutation are not checked.

## Left out

- Web Audio (`initAudio`, `playTone`, `playClickSound`, `playWinJingle`, the volume and mute handlers): foreign calls on floating-point gains.
- DOM rendering (`render`, `updateBoardCSS`, every `textContent` write, the `disabled` toggles, the menu overlay): presentation only.
- localStorage and JSON: `saveGame`, `hasSaved`, `clearSaved`, the storage half of `updateBest` and the sound preferences. The stored options record is a datatype (`Options.Stored`), and the best record is a field of the state.
- `loadGame` (script.js:346-366): it reads storage and accepts any array as the tiles. A loaded game may break the board invariant that `Game.Consistent` states, so the model has no load.
- `setInterval`/`clearInterval`: a registered interval is the `running` flag, and each tick is an explicit call of `Tick`. `Game.Ticks` delivers ticks only while the flag is set.
- `Math.random`: the draws are parameters, as reals in [0, 1).
- The timestamps `Date.now()` in the saved records: a clock reading.
- The pixel coordinates of the touch handlers. Only the direction rule on the two displacements is modelled (`Moves.SwipeDirection`).
- `init`'s event wiring.
- Shuffle.RandomSolvable: it tries at most the supplied number of attempts, not unboundedly many. The do–while ends only with probability 1. `Shuffle.SomeAttemptAccepted` shows that an accepted stream of draws exists.
- Game.Reshuffle: requires that one of the supplied attempts is accepted, for the same reason.
- Session.Session.Shuffle: requires that one of the supplied attempts is accepted, for the same reason.
- Session.Session.TryMove: requires the session invariant. Without `loadGame` every handler keeps that invariant, so a page would always meet it.
- Session.Session.MoveByDirection: requires the session invariant, for the same reason.
- Session.Session.OnKey: requires the session invariant, for the same reason.
- Session.Session.MoveByName: requires the session invariant, for the same reason.
- Options.Load: a stored limit is an integer (`Options.Field` holds an `int`), so a fractional stored limit such as 90.5, which `loadOptions` would also take as it is (script.js:136), is not modelled.
