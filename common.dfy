/**
 * Values shared by the snake, the food table and the game loop of the
 * terminal snake game: the four headings, a grid cell, the fixed capacities
 * and the key codes the loop reacts to.
 */
module Common {

  /** The snake's four headings. */
  datatype Direction = Left | Up | Right | Down

  /** A grid cell, the element type of the snake's tail buffer (`struct Tail`). */
  datatype Tail = Tail(x: int, y: int)

  /** Capacity of the tail buffer and the cap on the snake's length. */
  const MaxTailSize: nat := 1000
  /** Length of a freshly created snake. */
  const StartTailSize: nat := 3
  /** Number of slots in the food table. */
  const MaxFoodSize: nat := 20
  /** A food older than this many seconds expires. */
  const FoodExpireSeconds: int := 10

  /** The key that ends the game loop: the character 'q'. */
  const ExitKey: int := 113
  /** ncurses key codes of the four arrow keys (octal 0402 to 0405). */
  const KeyDown: int := 258
  const KeyUp: int := 259
  const KeyLeft: int := 260
  const KeyRight: int := 261

  /** True iff the cell lies in the inclusive rectangle [0, maxX] x [0, maxY]. */
  predicate InArena(c: Tail, maxX: int, maxY: int)
  {
    0 <= c.x <= maxX && 0 <= c.y <= maxY
  }
}
