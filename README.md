# Hide & seek on an 8×8 board — a verified model of the game core

The game (`HideSeekGame`) hides Jerry on one of 8–12 randomly drawn hiding
spots of an 8×8 board. Tom (player 1, arrow keys) and Spike (player 2:
a second human on W/A/S/D, or the computer) take turns moving one cell at a
time from opposite corners. After every human move that does not find
Jerry, and after every relocation, the seeker who just acted gets proximity
feedback derived from an A* search distance (FOUND, BURNING, HOT, WARM,
COOL, COLD); the computer's step and a winning move leave the feedback as
it was. Each player may once per round click "Move Target" to move
Jerry to another hiding spot; the computer does so by a reflex when it is
far away and Tom is close. Whoever steps onto Jerry wins the round.

The project is organised as the program is:

- `options.dfy` — `Option`, for the fields the game leaves unset (`None`).
- `grid.dfy` — cells, the board bounds, the four moves in the order the
  game scans them, Manhattan distance and walks on the empty board.
- `path_oracle.dfy` — `a_star_distance` as an imperative search over an
  open list and a g-score map, proved to return the Manhattan distance for
  cells on the board and to terminate.
- `proximity.dfy` — `get_feedback` and its monotonicity.
- `rules.dfy` — the round as a value (`Round`) and every event of the game
  as a function on it (start a round, human move, move the target, the
  computer's move, next round), with the invariant `RoundOk` and the lemmas
  stating what the game promises.
- `game.dfy` — the class `HideSeekGame`, whose methods update the fields in
  place as the original does. Every public event method (start, key press,
  clicks, the computer's move) is proved to agree with its function of
  `rules.dfy` and to keep `RoundOk`; the helpers that draw the spots, move
  the target and scan the computer's neighbours are proved equal to their
  `rules.dfy` functions.

Randomness is passed in: `generate_hiding_spots` consumes a stream of drawn
cells, `random.choice` a stream of drawn indices, and the spot count and
the choice of Jerry's first spot are parameters (`Deal`). Each stream is
required to hold the draws the original's rejection loops need to stop.
The game mode chosen on the title screen is a constructor parameter.

## Model

| member | source | states |
|---|---|---|
| Grid.Step | hide_seek_game.py:171-172 | each of the four moves changes the position by exactly one cell (Manhattan distance 1) |
| Grid.CanStep | hide_seek_game.py:368-383 | the keyboard guards (`x > 0`, `x < GRID_SIZE - 1`, `y > 0`, `y < GRID_SIZE - 1`) allow a move from a board cell exactly when its destination is on the board |
| Grid.TowardDir | hide_seek_game.py:171-174 | from any cell other than the goal some move brings it one closer to the goal, and stays on the board when both ends are on it |
| Grid.WalkAtLeastManhattan | hide_seek_game.py:171-174 | no walk of unit moves reaches a cell in fewer steps than the Manhattan distance |
| Grid.StraightWalk | hide_seek_game.py:171-174 | between two board cells there is an on-board walk of exactly Manhattan-distance steps |
| Grid.ManhattanIsShortestWalk | hide_seek_game.py:163-180 | on the board without obstacles the shortest walk between two cells has Manhattan length, so that is what an exact search must return |
| PathOracle.MinIndex | hide_seek_game.py:169 | `heappop` takes an entry least in the (f, row, col) order among all open entries |
| PathOracle.PopKeepsInvariant | hide_seek_game.py:169-172 | removing a non-goal entry leaves the search invariant intact except for the cell being expanded |
| PathOracle.RelaxUpdateKeepsInvariant | hide_seek_game.py:174-179 | recording a better g-score and pushing the neighbour with f = g + h keeps the invariant and marks that neighbour relaxed |
| PathOracle.ExpansionRestoresInvariant | hide_seek_game.py:171-179 | once all four neighbours are relaxed, the expanded cell is closed and the full invariant holds again |
| PathOracle.PromisingEntry | hide_seek_game.py:167-179 | while the goal is not reached, the open list holds an entry with f at most the true distance |
| PathOracle.GoalPoppedIsExact | hide_seek_game.py:169-171 | when the goal is popped as least entry its g-score is the Manhattan distance from the start |
| PathOracle.RelaxNeighbours | hide_seek_game.py:171-179 | the neighbour loop restores the search invariant and never makes the termination measure worse |
| PathOracle.AStarDistance | hide_seek_game.py:163-180 | 0 when start equals goal; the Manhattan distance (never infinite) for two board cells; infinite for an off-board goal; never less than the Manhattan distance; always terminates |
| Proximity.GetFeedback | hide_seek_game.py:182-193 | each feedback word holds exactly on its distance band: 0 FOUND, 1–2 BURNING, 3–4 HOT, 5–6 WARM, 7–10 COOL, above 10 or infinite COLD |
| Proximity.FartherIsNeverHotter | hide_seek_game.py:182-193 | feedback never gets hotter as the distance grows |
| Rules.DrawnSpots | hide_seek_game.py:154-161 | the kept spots are `count` distinct cells, each of them drawn |
| Rules.DedupCount | hide_seek_game.py:158-161 | appending only cells not yet kept keeps one copy of each distinct drawn cell |
| Rules.InitialRoundOk | hide_seek_game.py:91-101 | the constructed game satisfies the round invariant |
| Rules.FreshRoundOk | hide_seek_game.py:336-351 | a new round has 8–12 distinct drawn board cells as spots, Jerry on one of them, seekers on (0,0) and (7,7), 15 steps, no winner, empty feedback, both relocations unused, Tom to move |
| Rules.HumanMoveFacts | hide_seek_game.py:365-430 | a human move happens exactly when the destination is on the board; it costs one step (no lower bound), wins the round for the mover exactly on Jerry's cell, otherwise shows the mover's feedback and passes the turn (Tom always to Spike); the other seeker, Jerry and the flags stay |
| Rules.RelocationFacts | hide_seek_game.py:319-334 | Jerry moves to a different hiding spot, the seeker whose turn it is gets feedback for the new spot, and nothing else changes |
| Rules.Relocated | hide_seek_game.py:321-324 | the rejection loop settles on a hiding spot, different from Jerry's current one whenever there are at least two spots |
| Rules.RelocationUsesAllowance | hide_seek_game.py:436-448 | a first "Move Target" click by the player to move relocates Jerry to a different spot, gives that player feedback for the new spot, sets that player's flag and passes the turn; every other field (seekers, steps, spots, the other player's flag, winner) stays |
| Rules.SecondRelocationIgnored | hide_seek_game.py:437-448 | once a player's flag is set, their "Move Target" click changes nothing |
| Rules.FlagsOnlyResetByNewRound | hide_seek_game.py:361-456 | within a round no key press, "Move Target" or "Next Round" click, or computer move clears a relocation flag |
| Rules.ScanStep | hide_seek_game.py:213-230 | replacing the best move only on a strictly lower score keeps the first closest neighbour seen so far |
| Rules.GreedyScan | hide_seek_game.py:213-230 | the neighbour scan ends with the first in-bounds neighbour, in the order right, down, left, up, closest to Jerry |
| Rules.GreedyStepIsClosest | hide_seek_game.py:210-230 | from a board cell the computer always has a move, one cell long, as close to Jerry as any neighbour, and one closer to Jerry than before (one away if it stood on Jerry) |
| Rules.ComputerMoveFacts | hide_seek_game.py:195-255 | the reflex (unused, Spike farther than 6, Tom within 4) relocates Jerry, sets Spike's flag, keeps Spike in place, gives Spike's feedback and hands the turn to Tom, with every other field (seekers, steps, spots, Tom's flag) unchanged; otherwise Spike takes the greedy step, one closer to Jerry, and the computer wins exactly when it lands on Jerry |
| Rules.KeyPressedKeepsRoundOk | hide_seek_game.py:361-430 | a key press keeps the round invariant (spots, board bounds, winner exactly at game over, winner on Jerry's cell) |
| Rules.MoveTargetClickedKeepsRoundOk | hide_seek_game.py:436-448 | a "Move Target" click keeps the round invariant |
| Rules.NextRoundClickedKeepsRoundOk | hide_seek_game.py:432-434 | a "Next Round" click keeps the round invariant |
| Rules.ComputerTurnKeepsRoundOk | hide_seek_game.py:450-456 | the computer's turn keeps the round invariant |
| Rules.InitialRound | hide_seek_game.py:91-101 | defined by its body (the fields `__init__` sets); InitialRoundOk states its invariant |
| Rules.FreshRound | hide_seek_game.py:336-351 | defined by its body (the fields `start_game` sets); FreshRoundOk states its properties |
| Rules.FeedbackAt | hide_seek_game.py:182-193 | defined by its body (feedback for the Manhattan distance); MoveSeeker and MoveTargetToNewLocation prove it equal to feedback for the A* distance |
| Rules.SeekerMoved | hide_seek_game.py:365-430 | defined by its body; HumanMoveFacts states its properties |
| Rules.KeyPressed | hide_seek_game.py:361-430 | defined by its body (the key dispatch of `run`); KeyPressedKeepsRoundOk and FlagsOnlyResetByNewRound state its properties |
| Rules.TargetRelocated | hide_seek_game.py:319-334 | defined by its body; RelocationFacts states its properties |
| Rules.MoveTargetClicked | hide_seek_game.py:436-448 | defined by its body; RelocationUsesAllowance, SecondRelocationIgnored and MoveTargetClickedKeepsRoundOk state its properties |
| Rules.NextRoundClicked | hide_seek_game.py:432-434 | defined by its body; NextRoundClickedKeepsRoundOk and FlagsOnlyResetByNewRound state its properties |
| Rules.GreedyStep | hide_seek_game.py:210-230 | defined by GreedyScan from the first direction; GreedyScan and GreedyStepIsClosest state its properties |
| Rules.ReflexFires | hide_seek_game.py:197-203 | defined by its body (the reflex condition); ComputerMoveFacts states what follows from it |
| Rules.ComputerMoved | hide_seek_game.py:195-255 | defined by its body; ComputerMoveFacts states its properties |
| Rules.ComputerTurn | hide_seek_game.py:450-456 | defined by its body; ComputerTurnKeepsRoundOk and FlagsOnlyResetByNewRound state its properties |
| Game.Score | hide_seek_game.py:221-227 | defined by its body (the weight of a neighbour); ScoreOrder states its property |
| Game.ScoreOrder | hide_seek_game.py:220-228 | the common 0.8 factor never changes which of two distances scores lower |
| Game.HideSeekGame.constructor | hide_seek_game.py:40-101 | the game starts in the menu with seekers home, 15 steps, no Jerry, no winner, empty feedback, unused relocations and freshly drawn spots |
| Game.HideSeekGame.GenerateHidingSpots | hide_seek_game.py:154-161 | the loop leaves exactly the first `count` distinct drawn cells as the hiding spots |
| Game.HideSeekGame.StartGame | hide_seek_game.py:336-351 | the fields become the fresh round of the draws, and the invariant holds |
| Game.HideSeekGame.MoveTargetToNewLocation | hide_seek_game.py:319-334 | Jerry and the feedback become those of the relocation function (feedback by A* distance), nothing else changes |
| Game.HideSeekGame.MoveSeeker | hide_seek_game.py:365-430 | a seeker's key move leaves the fields equal to the human-move function and keeps the invariant |
| Game.HideSeekGame.ChooseStep | hide_seek_game.py:210-230 | the scored neighbour loop, with A* distances and the 0.8 factor, picks exactly the greedy step |
| Game.HideSeekGame.ComputerMove | hide_seek_game.py:195-255 | the fields become those of the computer-move function and the invariant holds |
| Game.HideSeekGame.KeyDown | hide_seek_game.py:361-430 | a key press starts a round from the menu or end screen, moves Tom on arrows in his turn and Spike on W/A/S/D only in player-vs-player mode |
| Game.HideSeekGame.ClickNextRound | hide_seek_game.py:432-434 | a "Next Round" click at game over starts a fresh round; otherwise nothing changes |
| Game.HideSeekGame.ClickMoveTarget | hide_seek_game.py:436-448 | a "Move Target" click relocates Jerry once per player per round, for Spike only in player-vs-player mode |
| Game.HideSeekGame.ComputerTick | hide_seek_game.py:450-456 | in player-vs-computer mode the computer plays Spike's turn; otherwise nothing changes |

## Left out

- Rendering (`draw_grid`, `draw_ui`), sprites and their direction names, Jerry's picture, and all audio: apart from the two button rectangles `draw_ui` assigns, which decide whether a click acts (see the two lines on the buttons below), they do not affect the game state.
- The title screen: its mode click sets the mode (here a constructor parameter) and calls `start_game` (hide_seek_game.py:144-152), so in the original the first round starts there and `run` never sees the menu state. The model instead starts the first round with a key press in `Menu`, the branch at hide_seek_game.py:362-364, which yields the same fresh round.
- The 800 ms "computer is thinking" delay and the clock: `ComputerTick` is the frame in which the delay has elapsed.
- The random number generator: its draws are parameters. A stream without enough distinct cells, or of `random.choice` draws that never leave Jerry's spot, would make the original loop forever; the model requires streams long enough for the loops to stop.
- `float('inf')` is the `Infinite` distance, and the 0.8 factor is computed on exact reals; floating-point rounding is not modelled (it cannot reorder the small distances of an 8×8 board).
- The binary-heap layout of `heapq`: the open list is a sequence from which the least (f, row, col) entry is taken, which is the entry `heappop` returns.
- Feedback texts and winner texts are datatypes; the empty feedback text is `None`.
- The unused local `player_turn` of `run`, and the QUIT event.
- Game.HideSeekGame.ClickMoveTarget: the button is taken to be the one `draw_ui` draws for the current state (for Spike only in player-vs-player mode); a click handled in the same frame after an event that changed the state (a move, or another click) is not modelled: the original still tests it against the button of the previous frame, so in player-vs-computer mode a click on Tom's old button right after Tom's move takes Spike's branch (hide_seek_game.py:444-448) and uses up Spike's relocation.
- Rules.NextRoundClicked: treats the "Next Round" button as present on every end screen; `draw_ui` (hide_seek_game.py:305-317) draws it only when the feedback text is not one of the six feedback words, so after most wins the original offers only a key press to restart.
- `steps_remaining` is decremented without a lower bound and reaching zero does not end the round, as in the original; no step limit is modelled because the original has none.
