# Terminal snake game: a Dafny model of its game state

This project models the state logic of a single-player terminal snake game
written in C++ over ncurses, with the drawing removed. The game has three
objects:

- **Snake.** A head position `(x, y)` and a heading. It also has a tail
  buffer of 1000 cells whose first `tail_size` entries form the live body.
- **Food table.** Twenty food slots. Each has a position, the time it was
  put down and an active flag.
- **Game.** Owns one snake and the food table. Its main loop runs once per
  key read.

The model follows the C++ classes:

- `Common` (common.dfy): the headings, the cell type `Tail`, the constants
  (`MAX_TAIL_SIZE` = 1000, `START_TAIL_SIZE` = 3, `MAX_FOOD_SIZE` = 20,
  `FOOD_EXPIRE_SECONDS` = 10, exit key `'q'`) and the ncurses arrow-key
  codes (`KEY_DOWN` .. `KEY_RIGHT` = 258 .. 261).
- `Snakes` (snake.dfy): `class Snake`, whose fields change in place.
  - `Move` updates `x`/`y`.
  - `UpdateTail` shifts the `tail` array with a descending loop.
  - `Grow` updates `tailSize`.
  - `HasCollided` is a scanning loop.
  - Each method is tied to a pure function (`Step`, `ShiftIn`, `Grown`,
    `Collides`), and lemmas about those functions state what the game
    relies on.
- `Foods` (food.dfy): `class Food` with `Spawn` and `CheckExpiration`. Its
  value is the datatype `FoodState`, and its operations are specified by
  `SpawnPosition`, `Spawned` and `CheckedExpiry`.
- `Games` (game.dfy): `class Game`, which holds the snake and an array of 20
  distinct `Food` objects, plus the pure specifications of its loops:
  - `DirectionForKey` for `handleInput`;
  - `FirstEdible`, `Eats` and `Consumed` for `checkFoodCollision`;
  - `Refreshed` for `refreshFood`.

  `Tick` is one iteration of the main loop.

Outside inputs become parameters:

- the terminal size `max_x`, `max_y`;
- the key returned by `getch`;
- the clock value `now`;
- the outputs of `rand()`: two non-negative draws `rx[i]`, `ry[i]` for each
  food slot `i`.

Behaviour of the code a reader might not expect:

- **Reversing the heading.** The code accepts the exact reverse of the
  current heading (`KeyForRoundTrip`).
- **When the collision check runs.** It runs at the top of each loop
  iteration, before the move, against slots 1 .. `tail_size`-1 (`Tick`).
- **Expired food.** `refreshFood` respawns inactive slots first and runs the
  expiry check after, so a slot whose food expires stays empty until the
  next iteration (`RefreshedActivity`).
- **Where food spawns.** A spawn does not avoid cells the snake occupies.
- **Walls.** There is no wall mode and no second player.

Other details of the code that the model keeps as written:

- The head wraps within the inclusive range `[0, max_x] x [0, max_y]`. Since
  `getmaxyx` reports the terminal's size, column `max_x` and row `max_y` lie
  just off the visible screen.
- Tail slots the snake has not yet grown into keep their initial value
  `(0, 0)`, and `Snake.Valid` records this. After a growth, the next
  collision check also looks at that slot (`ShiftInCollision`, second
  clause).
- A new snake's live slots 1 and 2 also start at `(0, 0)` and count as body
  cells until the first shifts overwrite them. Pressing UP at the start
  takes the head from (0, 2) through (0, 1) to (0, 0), and the third
  iteration's collision check then ends the game, whether or not the snake
  ate on its first step (`StartingUpCollides`). `Game`'s constructor
  guarantees this start state.

## Model

| member | source | states |
|---|---|---|
| `Snakes.Step` | assignments/snake/rudchenko/main.cpp:57-62 | a step changes only the coordinate on the heading's axis; a head inside `[0,maxX] x [0,maxY]` stays inside |
| `Snakes.StepIsTorusMove` | assignments/snake/rudchenko/main.cpp:57-62 | inside the arena a step moves exactly one cell along the heading, modulo the arena's width or height (the wrap-around) |
| `Snakes.StepBack` | assignments/snake/rudchenko/main.cpp:57-62 | inside the arena a step followed by a step in the opposite heading returns to the start cell, wrap included |
| `Snakes.Snake.Move` | assignments/snake/rudchenko/main.cpp:55-64 | the new head is `Step` of the old head in the current heading; nothing but `x`, `y` changes |
| `Snakes.ShiftIn` | assignments/snake/rudchenko/main.cpp:66-75 | after the shift, slot 0 holds the head, slot i holds the old slot i-1 for `1 <= i < tail_size`, and slots from `tail_size` on are unchanged |
| `Snakes.ShiftInBody` | assignments/snake/rudchenko/main.cpp:66-75 | the live body after a shift is the new head followed by the old body without its last cell |
| `Snakes.ShiftInCollision` | assignments/snake/rudchenko/main.cpp:66-88 | after a shift the head collides iff it lies on one of the old live cells 0 .. n-2; after a growth the check also sees the unwritten slot n |
| `Snakes.Snake.UpdateTail` | assignments/snake/rudchenko/main.cpp:66-75 | the tail array becomes `ShiftIn(old tail, tail_size, head)`; the head and `tail_size` are untouched; the snake's invariant is kept |
| `Snakes.Grown` | assignments/snake/rudchenko/main.cpp:77-81 | growth adds exactly one when below `MAX_TAIL_SIZE` and nothing at the cap; it never decreases and never passes 1000 |
| `Snakes.GrownTimesSaturates` | assignments/snake/rudchenko/main.cpp:77-81 | k growths from a length n within the cap give `min(n + k, 1000)` |
| `Snakes.Snake.Grow` | assignments/snake/rudchenko/main.cpp:77-81 | `tail_size` becomes `Grown(old tail_size)`; only `tail_size` changes |
| `Snakes.Collides` | assignments/snake/rudchenko/main.cpp:83-88 | on a live body of n cells, the head collides iff it lies in slots 1 .. n-1; slot 0 is not compared |
| `Snakes.Snake.HasCollided` | assignments/snake/rudchenko/main.cpp:83-88 | returns true iff some `1 <= i < tail_size` has `tail[i] == (x, y)`; slot 0 is never compared; no state changes |
| `Snakes.StartingUpCollides` | assignments/snake/rudchenko/main.cpp:51-53 | from the start state, two steps UP bring the head onto the initial `(0, 0)` body cell in slot 2, so the check before the third move reports a collision, while the two checks before it do not; this holds with or without a growth after the first move |
| `Snakes.Snake.constructor` | assignments/snake/rudchenko/main.cpp:51-53 | a new snake is at (0, 2) heading right with length 3 and a 1000-slot tail of `(0, 0)` cells |
| `Foods.SpawnPosition` | assignments/snake/rudchenko/main.cpp:29-30 | a spawned food lies in `[0, maxX-2] x [1, maxY-2]` on a screen of at least 2 x 3, and within the divisors' ranges otherwise |
| `Foods.SpawnCoversRange` | assignments/snake/rudchenko/main.cpp:29-30 | every cell of `[0, maxX-2] x [1, maxY-2]` is reached by some pair of draws |
| `Foods.Spawned` | assignments/snake/rudchenko/main.cpp:28-32 | a spawned food is active, put at `now`, at `SpawnPosition` of its draws |
| `Foods.Food.Spawn` | assignments/snake/rudchenko/main.cpp:28-34 | the food's value becomes `Spawned(maxX, maxY, rx, ry, now)` |
| `Foods.CheckedExpiry` | assignments/snake/rudchenko/main.cpp:36-41 | after the check a food is active iff it was active and at most 10 s old; position and put time never change |
| `Foods.ExpiryBoundary` | assignments/snake/rudchenko/main.cpp:37 | a food aged exactly 10 s stays active; at 11 s it is deactivated |
| `Foods.StaleStaysStale` | assignments/snake/rudchenko/main.cpp:37 | a food that is stale (active and more than 10 s old) at one time is stale at every later time |
| `Foods.ExpiryChecksCompose` | assignments/snake/rudchenko/main.cpp:36-41 | a check at one time followed by a check at a later time equals the later check alone (an expired food stays expired) |
| `Foods.SpawnedIsFresh` | assignments/snake/rudchenko/main.cpp:28-41 | the expiry check leaves a food spawned at the same time unchanged |
| `Foods.Food.CheckExpiration` | assignments/snake/rudchenko/main.cpp:36-41 | the food's value becomes `CheckedExpiry(old value, now)` |
| `Foods.Food.constructor` | assignments/snake/rudchenko/main.cpp:26 | a new food is at (0, 0), put at time 0, inactive |
| `Games.DirectionForKey` | assignments/snake/rudchenko/main.cpp:133-140 | each arrow key gives its heading; any other key keeps the current heading |
| `Games.KeyForRoundTrip` | assignments/snake/rudchenko/main.cpp:133-140 | every heading's arrow key yields that heading whatever the current one, so the reverse heading is accepted |
| `Games.Game.HandleInput` | assignments/snake/rudchenko/main.cpp:133-140 | the snake's heading becomes `DirectionForKey(key, old heading)`; nothing else changes |
| `Games.FirstEdible` | assignments/snake/rudchenko/main.cpp:150-158 | the result is the lowest index from `from` on whose food is active at the head, or the table's length if there is none |
| `Games.Eats` | assignments/snake/rudchenko/main.cpp:150-158 | the head eats iff some slot holds an active food at the head's cell |
| `Games.Consumed` | assignments/snake/rudchenko/main.cpp:150-158 | exactly the lowest-index edible slot is deactivated and every other slot is untouched; with nothing edible the table is unchanged |
| `Games.ConsumedEatsAgain` | assignments/snake/rudchenko/main.cpp:150-158 | one food per tick: after eating, something is still edible at the head iff two edible foods stood on that cell |
| `Games.Game.CheckFoodCollision` | assignments/snake/rudchenko/main.cpp:150-158 | returns `Eats(old table, head)` and leaves the table `Consumed(old table, head)`; the snake is untouched |
| `Games.Refreshed` | assignments/snake/rudchenko/main.cpp:160-165 | each slot inactive on entry is respawned at `now` from its draws and active; each active slot goes through the expiry check |
| `Games.RefreshedActivity` | assignments/snake/rudchenko/main.cpp:160-165 | after a refresh a slot is active iff its food was not stale on entry; respawned foods have `put_time == now` and lie in `[0, maxX-2] x [1, maxY-2]` |
| `Games.Game.RefreshFood` | assignments/snake/rudchenko/main.cpp:160-165 | the table becomes `Refreshed(old table, ...)`; the snake is untouched |
| `Games.Game.PutFood` | assignments/snake/rudchenko/main.cpp:142-148 | every slot is spawned from its draws at `now` |
| `Games.Game.constructor` | assignments/snake/rudchenko/main.cpp:93-96 | a new game has a new snake at (0, 2) heading right with length 3, all 1000 tail slots `(0, 0)`, and 20 distinct default foods |
| `Games.Game.Tick` | assignments/snake/rudchenko/main.cpp:112-126 | on the exit key nothing changes and the loop stops. Otherwise the heading follows the key. A self-collision stops the loop before the move. If not, the head steps, the tail shifts, the snake grows by `Grown` iff it ate, and the table becomes `Refreshed(Consumed(old table, head))` |

## Left out

- All ncurses calls are left out: screen setup, drawing, `getmaxyx`, `getch`, `timeout(100)` and `endwin`. The terminal size, the key and the clock are parameters. The `if (tail[i].y || tail[i].x)` test in `updateTail` only decides what is drawn, so it is left out too.
- `displayLevel`, `endScreen` and `main` only draw or wait for a key, so none of them is modelled.
- The unbounded loop of `Game::run` is not modelled as a whole. `Tick` models one iteration of it.
- `rand()`/`srand()` are left out. Each food slot gets its pair of draws as a parameter. The model does not capture that only respawned slots consume draws, or in which order they do.
- `time(nullptr)` is left out. One `now` serves a whole refresh. The source reads the clock afresh for every spawn and every expiry check, so a second boundary between two reads is not modelled.
- The `point` field of `Food` (`'$'`) is only drawn, so it is not modelled.
- `int` and `time_t` overflow is not modelled: coordinates and times are unbounded integers. The head only moves by one cell and wraps at the edges, so its coordinates stay small.
- A spawn on a 1-column or 2-row screen is left out. The source divides by zero at those sizes, so `Food.Spawn` and its callers require `max_x != 1` and `max_y != 2`. All other sizes are modelled.
