# Snake: the per-frame rule engine, modelled in Dafny

The game is a single-player snake on a 30 x 20 board. Each frame the game loop
reads the pressed keys, turns the snake when a key asks for a heading that is
not the exact reverse of the current one, and then advances the snake one cell.
The head wraps round the board under the "wrap" difficulty. Under "wall",
stepping off the board kills the snake. Running into its own body kills it.
Landing on the food grows it by one segment, adds one to the score and
re-places the food on a random free cell. The settings screen cycles the
colour, speed and difficulty indices and toggles the language, in place. The
frame rate is `min(60, base_speed + score // 3)`.

The project has three modules:

- `Grid` (`grid.dfy`): the board size, cells, headings, and the wrap/wall
  boundary arithmetic, as pure functions.
- `Snake` (`snake.dfy`): the play state as a value (`State`), the move step as
  a pure specification function (`Step`), the direction-key guard (`Steer`,
  `SteerAll`), the lemmas about them, and the class `Game`. Like the game loop's
  locals, `Game` holds the body, heading, food, score and alive flag and updates
  them in place. Its `KeyPress`, `Tick` and `Frame` methods are proved against
  `Steer` and `Step`. `RandomFood` picks a free board cell.
- `Settings` (`settings.dfy`): index cycling and the language toggles as
  functions, the tick-rate rule, and the class `Settings` for the module-level
  settings dictionary, whose `Adjust` method changes one option in place.

The random choice of the food cell is a parameter of `Step` (`placed`). In the
`Game` class it is a nondeterministic choice (`:|`) of a free board cell.
Python's `%` with a positive divisor gives the same result as Dafny's `%`, and
the score is never negative, so `//` on it is Dafny's `/`.

Two behaviours of the code are modelled as written:

- Under "wall", leaving the board clears `alive`, but the collision-and-move
  code still runs afterwards. The off-board head cannot be on the body or on
  the food, so the snake moves onto the off-board cell and loses its tail
  (`Snake.WallDeath`). It is not left unchanged.
- The direction guard runs once per key, not once per tick. It compares each
  key with the heading the earlier keys of the same frame left. So Left then
  Down within one frame turns an upward snake straight round
  (`Snake.SteerAllCanReverse`). The last request does not simply replace an
  earlier pending one.

## Model

| member | source | states |
|---|---|---|
| `Grid.WrapCell` | snake.py:279-280 | the wrapped cell is on the board, congruent to the raw cell modulo width and height, and equal to it when the raw cell is already on the board |
| `Grid.NextHead` | snake.py:276-287 | under wrap the new head is on the board; when the raw neighbour is on the board it is the new head under either policy |
| `Grid.HitsWall` | snake.py:281-284 | under either policy the boundary kills exactly when the head the snake moves to is off the board; under wrap that head is always on the board, so the boundary never kills there |
| `Grid.WrapEdges` | snake.py:279-280 | leaving through any edge under wrap re-enters at the opposite edge on the same row or column, e.g. right from (GRID_W-1, y) gives (0, y) |
| `Snake.InitialWellFormed` | snake.py:238-242 | the start state (three distinct cells downward from the centre, heading up, score 0, alive) is well formed once food is on a free board cell |
| `Snake.InitialSnake` | snake.py:238 | the start body is three cells, head at (GRID_W // 2, GRID_H // 2), each later cell directly below the one before, distinct and on the board |
| `Snake.Initial` | snake.py:238-242 | the start state is alive, heading up, with score 0, the given food, and a distinct on-board body of length three plus the score |
| `Snake.SteerAcceptsUnlessReverse` | snake.py:261-269 | a direction key sets the heading to the requested one exactly when that is not the negation of the current heading; a reversing key leaves the heading unchanged |
| `Snake.Steer` | snake.py:262-269 | a non-direction key leaves the heading; a direction key sets the requested heading unless that is the reverse of the current one, in which case the heading is unchanged |
| `Snake.SteerNeverReverses` | snake.py:261-269 | from one of the four headings, a single key yields one of the four headings and never the reverse of the current one |
| `Snake.SteerAll` | snake.py:245-269 | the keys of one frame, applied in order, keep the snake on one of the four headings, and keys that are not direction keys leave the heading unchanged |
| `Snake.Steered` | snake.py:258-270 | a frame's keys change only the heading; a dead game ignores them |
| `Snake.SteerAllCanReverse` | snake.py:245-269 | because each key is checked against the heading the earlier keys set, Left then Down in one frame turns an upward snake downward |
| `Snake.SingleReverseIgnored` | snake.py:262-265 | a lone Down key while heading up leaves the heading up |
| `Snake.Step` | snake.py:274-298 | the body stays non-empty, a dead snake never comes back to life, the heading is kept, the score rises by at most one, and the body grows by exactly as much as the score |
| `Snake.DeadIsFrozen` | snake.py:274 | once dead, the move step changes nothing |
| `Snake.WrapMove` | snake.py:276-298 | under wrap a non-colliding move keeps the snake alive and its new head is the wrapped neighbour, on the board |
| `Snake.WallDeath` | snake.py:281-298 | under wall, leaving the board kills the snake, keeps score and food, and makes the body the off-board head followed by the old body minus its last cell, same length |
| `Snake.SelfCollision` | snake.py:289-291 | a new head on any current segment, the tail included, kills the snake and leaves body, food and score unchanged |
| `Snake.PlainMove` | snake.py:292-298 | a move that neither collides nor eats prepends the head and drops the tail; length, score and food are kept |
| `Snake.Growth` | snake.py:293-296 | an eating move prepends the food cell without dropping the tail, the length and the score rise by one, the food moves to the newly placed cell, and alive is as the wall test left it (true under wrap or on the board) |
| `Snake.FirstMoveUp` | snake.py:238-298 | from the start state, one tick with food not at (15, 9) gives the body [(15, 9), (15, 10), (15, 11)] with score, food and alive unchanged |
| `Snake.StepPreservesWellFormed` | snake.py:274-298 | a step that leaves the snake alive keeps the body distinct and on the board and the food on the board and off the body, given that re-placed food is on a free board cell |
| `Snake.Play` | snake.py:244-298 | over any run of frames the body stays non-empty, a snake alive at the end was alive at the start, the score never falls and the body grows by exactly the points scored |
| `Snake.FrameStep` | snake.py:244-298 | one loop iteration leaves a dead game unchanged, a snake alive afterwards heads as the frame's keys steered it, and the body grows by exactly the points scored |
| `Snake.DeadStaysDead` | snake.py:261-274 | once dead, no run of frames changes body, heading, food, score or alive |
| `Snake.PlayKeepsWellFormed` | snake.py:244-298 | a run from a well-formed state that ends alive, with every eaten food re-placed on a free board cell, ends well formed |
| `Snake.ReachableWellFormed` | snake.py:238-298 | every state a live snake reaches from the start of a session has distinct on-board cells, food on the board and off the body, and length three plus the score |
| `Snake.AllCellsEnumerate` | snake.py:70-74 | the list of all cells holds a cell exactly when it is on the board, and holds each cell once: it is the range `random_food` draws from |
| `Snake.CoverNeedsLength` | snake.py:70-74 | pigeonhole: a sequence that holds every element of a sequence of distinct cells is at least as long |
| `Snake.FreeCellWhenShort` | snake.py:70-74 | a body shorter than GRID_W * GRID_H cells leaves a board cell free, so the rejection loop has a cell to find |
| `Snake.SnakeShorterThanBoard` | snake.py:238-298 | in a well-formed game the snake is shorter than the board, since it and the food take distinct board cells |
| `Snake.ShortSnakeCanBeFed` | snake.py:294-296 | food can be re-placed after any step of a snake at least two cells short of filling the board |
| `Snake.RandomFood` | snake.py:70-74 | the food cell returned is on the board and not on the snake |
| `Snake.Game.constructor` | snake.py:237-242 | a new session starts with the initial column heading up, score 0, alive, food on a free board cell, well formed |
| `Snake.Game.KeyPress` | snake.py:258-269 | while alive, the heading becomes the guarded heading for the key; once dead it is unchanged |
| `Snake.Game.Tick` | snake.py:274-298 | the in-place update of body, food, score and alive equals `Step` with the food that `random_food` placed; placed food is free and on the board; a well-formed game that stays alive stays well formed |
| `Snake.Game.Frame` | snake.py:244-298 | one loop iteration, the frame's keys in order and then the move step, equals `FrameStep` with the food that `random_food` placed, and keeps a live game well formed |
| `Settings.Cycle` | snake.py:399-413 | an option index stepped through n choices always lands in [0, n): an in-range step is taken as is, one below 0 wraps to n - 1, one at n wraps to 0 |
| `Settings.CycleUndo` | snake.py:394-448 | for an index in range, a step forward undoes a step back and a step back undoes a step forward |
| `Settings.ToggleLang` | snake.py:397 | the arrow-key and left-click toggle always yields "zh" or "en", and a different code from a "zh" or "en" it was given ("en" after "zh", "zh" after anything else) |
| `Settings.ToggleLangBack` | snake.py:442 | the right-click toggle always yields "zh" or "en", and a different code from a "zh" or "en" it was given ("zh" after "en", "en" after anything else) |
| `Settings.TogglesAgree` | snake.py:432-448 | on "zh" and "en" both toggles agree, swap the code, and two toggles of either kind restore it |
| `Settings.TickRate` | snake.py:324 | the frame rate is the minimum of 60 and base speed plus score // 3: at most both, and equal to one of them |
| `Settings.TickRateMonotone` | snake.py:322-325 | for every speed option the rate never falls as the score rises and stays between the base speed and 60 |
| `Settings.Settings.BaseSpeed` | snake.py:234 | the base speed the game starts with is the selected speed option: exactly the options before the selected index are slower, so the options run slow to fast; it lies between 6 and 16 and is the frame rate at score 0 |
| `Settings.Settings.Difficulty` | snake.py:235 | the boundary policy the game starts with is wrap exactly when the difficulty index is 0 |
| `Settings.Settings.constructor` | snake.py:26-31 | the defaults are Chinese, the first colour, medium speed (10) and wrap |
| `Settings.Settings.Adjust` | snake.py:394-448 | Right arrow and left click step the selected index forward, Left arrow and right click step it back, the language row toggles, nothing else changes and every option stays in range |

## Left out

- Rendering, the display, event polling, the main menu and its hover/click hit-testing, the settings screen's drawing and row selection (snake.py:76-90, 154-229, 300-321, 378-393, 416-424, 450-475) are presentation. The keys a frame delivers are the parameter of `Snake.Game.Frame`.
- Font discovery (`find_chinese_font`) is filesystem access and a library call; the text table `render_text` holds no behaviour.
- Window-resize layout (`update_dimensions_from_cell`, `update_offsets`, the `CELL_SIZE` recomputation) acts only on drawing through module globals.
- Frame timing, `clock.tick`, Esc/quit and the restart on R (`return` from `game_loop`, which `main` calls again) are host-loop control. A restart is a new `Snake.Game` object.
- The uniform distribution of `random.randrange` is not modelled. `Snake.RandomFood` may return any free board cell.
- `Snake.Game.Tick` and `Snake.Game.Frame` require a free cell to exist whenever the step eats. On a full board `random_food` would loop forever, and the model does not describe a hang. `Snake.ShortSnakeCanBeFed` shows the requirement holds while the snake is at least two cells short of the board.
- The snake's colour index picks a drawing colour only. It is cycled like the other indices but has no further behaviour here.
