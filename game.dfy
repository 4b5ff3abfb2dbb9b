/**
 * The game: one snake and a table of `MaxFoodSize` food slots, advanced one
 * iteration of the main loop at a time. The terminal is not modelled: its
 * size (maxX, maxY), the key read and the clock come in as parameters, and
 * so do the draws of the random generator, one pair per food slot.
 */
module Games {
  import opened Common
  import opened Foods
  import opened Snakes

  predicate IsArrowKey(key: int)
  {
    key == KeyDown || key == KeyUp || key == KeyLeft || key == KeyRight
  }

  /** The heading after a key press: the arrow's direction, or the old heading for any other key. */
  function DirectionForKey(key: int, d: Direction): (r: Direction)
    ensures key == KeyDown ==> r == Down
    ensures key == KeyUp ==> r == Up
    ensures key == KeyLeft ==> r == Left
    ensures key == KeyRight ==> r == Right
    ensures !IsArrowKey(key) ==> r == d
  {
    if key == KeyDown then Down
    else if key == KeyUp then Up
    else if key == KeyLeft then Left
    else if key == KeyRight then Right
    else d
  }

  /** The arrow key for a heading. */
  function KeyFor(d: Direction): (key: int)
  {
    match d
    case Left => KeyLeft
    case Up => KeyUp
    case Right => KeyRight
    case Down => KeyDown
  }

  /**
   * Pressing the arrow of a heading yields that heading whatever the current
   * one is; in particular the reverse of the current heading is accepted.
   */
  lemma KeyForRoundTrip(d: Direction, current: Direction)
    ensures IsArrowKey(KeyFor(d))
    ensures DirectionForKey(KeyFor(d), current) == d
    ensures DirectionForKey(KeyFor(Opposite(current)), current) == Opposite(current)
  {
  }

  /** A food the head can eat: active and on the head's cell. */
  predicate Edible(f: FoodState, head: Tail)
  {
    f.isActive && f.x == head.x && f.y == head.y
  }

  /** The lowest index from `from` on whose slot is edible, or |slots| if there is none. */
  function FirstEdible(slots: seq<FoodState>, head: Tail, from: nat): (k: nat)
    requires from <= |slots|
    ensures from <= k <= |slots|
    ensures k < |slots| ==> Edible(slots[k], head)
    ensures forall j :: from <= j < k ==> !Edible(slots[j], head)
    decreases |slots| - from
  {
    if from == |slots| then |slots|
    else if Edible(slots[from], head) then from
    else FirstEdible(slots, head, from + 1)
  }

  /** Whether the head eats: some slot holds an active food on its cell. */
  function Eats(slots: seq<FoodState>, head: Tail): (r: bool)
    ensures r <==> exists i :: 0 <= i < |slots| && Edible(slots[i], head)
  {
    FirstEdible(slots, head, 0) < |slots|
  }

  ghost predicate IsFirstEdible(slots: seq<FoodState>, head: Tail, k: int)
  {
    && 0 <= k < |slots|
    && Edible(slots[k], head)
    && forall j :: 0 <= j < k ==> !Edible(slots[j], head)
  }

  /**
   * The table after the head eats: exactly the lowest-index edible slot is
   * deactivated and nothing else changes; with nothing edible, nothing changes.
   */
  function Consumed(slots: seq<FoodState>, head: Tail): (r: seq<FoodState>)
    ensures forall k :: IsFirstEdible(slots, head, k) ==> r == slots[k := slots[k].(isActive := false)]
    ensures !Eats(slots, head) ==> r == slots
  {
    var k := FirstEdible(slots, head, 0);
    if k < |slots| then slots[k := slots[k].(isActive := false)] else slots
  }

  /**
   * One food is eaten per tick: after eating, the head still finds something
   * to eat iff the table held two edible foods on its cell.
   */
  lemma {:induction false} ConsumedEatsAgain(slots: seq<FoodState>, head: Tail)
    ensures Eats(Consumed(slots, head), head) <==>
      exists i, j :: 0 <= i < j < |slots| && Edible(slots[i], head) && Edible(slots[j], head)
  {
    var r := Consumed(slots, head);
    var k := FirstEdible(slots, head, 0);
    if k < |slots| {
      assert IsFirstEdible(slots, head, k);
      assert r == slots[k := slots[k].(isActive := false)];
      if Eats(r, head) {
        var j :| 0 <= j < |r| && Edible(r[j], head);
        assert j != k && Edible(slots[j], head);
        assert 0 <= k < j < |slots|;
      }
      if exists i, j :: 0 <= i < j < |slots| && Edible(slots[i], head) && Edible(slots[j], head) {
        var i, j :| 0 <= i < j < |slots| && Edible(slots[i], head) && Edible(slots[j], head);
        assert k <= i;
        assert Edible(r[j], head);
      }
    }
  }

  /**
   * The table after a refresh: every inactive slot is respawned from its pair
   * of draws at `now`, and every active slot goes through the expiry check.
   */
  function Refreshed(slots: seq<FoodState>, maxX: int, maxY: int, rx: seq<nat>, ry: seq<nat>, now: int): (r: seq<FoodState>)
    requires CanSpawn(maxX, maxY)
    requires |rx| == |slots| && |ry| == |slots|
    ensures |r| == |slots|
    ensures forall i :: 0 <= i < |slots| && !slots[i].isActive ==> r[i] == Spawned(maxX, maxY, rx[i], ry[i], now)
    ensures forall i :: 0 <= i < |slots| && slots[i].isActive ==> r[i] == CheckedExpiry(slots[i], now)
  {
    seq(|slots|, i requires 0 <= i < |slots| =>
      CheckedExpiry(if slots[i].isActive then slots[i] else Spawned(maxX, maxY, rx[i], ry[i], now), now))
  }

  /**
   * After a refresh a slot is empty iff its food was stale on entry: the
   * expiry check runs after the respawn, so an expired slot waits until the
   * next tick. Every respawned food lies in [0, maxX - 2] x [1, maxY - 2].
   */
  lemma RefreshedActivity(slots: seq<FoodState>, maxX: int, maxY: int, rx: seq<nat>, ry: seq<nat>, now: int, i: int)
    requires maxX >= 2 && maxY >= 3
    requires |rx| == |slots| && |ry| == |slots|
    requires 0 <= i < |slots|
    ensures Refreshed(slots, maxX, maxY, rx, ry, now)[i].isActive <==> !IsStale(slots[i], now)
    ensures !slots[i].isActive ==>
      var f := Refreshed(slots, maxX, maxY, rx, ry, now)[i];
      f.putTime == now && 0 <= f.x <= maxX - 2 && 1 <= f.y <= maxY - 2
  {
  }

  class Game {
    const snake: Snake
    const food: array<Food>

    /** The snake is valid and the food table has `MaxFoodSize` distinct slots. */
    ghost predicate Valid()
      reads this, snake, snake.tail, food
    {
      && snake.Valid()
      && food.Length == MaxFoodSize
      && forall i, j :: 0 <= i < j < food.Length ==> food[i] != food[j]
    }

    /** The values held by the food table, slot by slot. */
    ghost function Table(): (t: seq<FoodState>)
      reads this, food, food[..]
      ensures |t| == food.Length
      ensures forall i :: 0 <= i < food.Length ==> t[i] == food[i].State()
    {
      seq(food.Length, i requires 0 <= i < food.Length reads food, food[..] => food[i].State())
    }

    /** A new snake and `MaxFoodSize` default foods. */
    constructor ()
      ensures Valid() && fresh(snake) && fresh(snake.tail) && fresh(food)
      ensures snake.x == 0 && snake.y == 2 && snake.direction == Right && snake.tailSize == StartTailSize
      ensures forall i :: 0 <= i < snake.tail.Length ==> snake.tail[i] == Tail(0, 0)
      ensures forall i :: 0 <= i < food.Length ==> fresh(food[i])
      ensures forall i :: 0 <= i < food.Length ==> food[i].State() == FoodState(0, 0, 0, false)
    {
      var first := new Food();
      var slots := new Food[MaxFoodSize](_ => first);
      var n := 1;
      while n < slots.Length
        invariant 1 <= n <= slots.Length
        invariant forall i :: 0 <= i < slots.Length ==> fresh(slots[i])
        invariant forall i :: 0 <= i < slots.Length ==> slots[i].State() == FoodState(0, 0, 0, false)
        invariant forall i :: n <= i < slots.Length ==> slots[i] == first
        invariant forall i, j :: 0 <= i < j < n ==> slots[i] != slots[j]
      {
        slots[n] := new Food();
        n := n + 1;
      }
      snake := new Snake();
      food := slots;
    }

    /** Sets the heading from an arrow key; any other key leaves it alone. */
    method HandleInput(key: int)
      modifies snake`direction
      ensures snake.direction == DirectionForKey(key, old(snake.direction))
    {
      if key == KeyDown {
        snake.direction := Down;
      } else if key == KeyUp {
        snake.direction := Up;
      } else if key == KeyLeft {
        snake.direction := Left;
      } else if key == KeyRight {
        snake.direction := Right;
      }
    }

    /** Spawns every slot of the table (done once at setup). */
    method PutFood(maxX: int, maxY: int, rx: seq<nat>, ry: seq<nat>, now: int)
      requires Valid()
      requires CanSpawn(maxX, maxY)
      requires |rx| == food.Length && |ry| == food.Length
      modifies food[..]
      ensures forall i :: 0 <= i < food.Length ==> food[i].State() == Spawned(maxX, maxY, rx[i], ry[i], now)
    {
      var i := 0;
      while i < food.Length
        invariant 0 <= i <= food.Length
        invariant forall j :: 0 <= j < i ==> food[j].State() == Spawned(maxX, maxY, rx[j], ry[j], now)
      {
        food[i].Spawn(maxX, maxY, rx[i], ry[i], now);
        i := i + 1;
      }
    }

    /** Eats the first active food on the head's cell, if there is one. */
    method CheckFoodCollision() returns (eaten: bool)
      requires Valid()
      modifies food[..]
      ensures unchanged(snake) && unchanged(snake.tail) && unchanged(food)
      ensures eaten == Eats(old(Table()), Tail(snake.x, snake.y))
      ensures Table() == Consumed(old(Table()), Tail(snake.x, snake.y))
    {
      ghost var head := Tail(snake.x, snake.y);
      ghost var before := Table();
      var i := 0;
      while i < food.Length
        invariant 0 <= i <= food.Length
        invariant forall j :: 0 <= j < i ==> !Edible(before[j], head)
        invariant Table() == before
      {
        var f := food[i];
        if f.isActive && snake.x == f.x && snake.y == f.y {
          f.isActive := false;
          assert IsFirstEdible(before, head, i);
          assert Table() == before[i := before[i].(isActive := false)];
          return true;
        }
        i := i + 1;
      }
      return false;
    }

    /** Respawns every inactive slot, then runs the expiry check on it. */
    method RefreshFood(maxX: int, maxY: int, rx: seq<nat>, ry: seq<nat>, now: int)
      requires Valid()
      requires CanSpawn(maxX, maxY)
      requires |rx| == food.Length && |ry| == food.Length
      modifies food[..]
      ensures unchanged(snake) && unchanged(snake.tail) && unchanged(food)
      ensures Table() == Refreshed(old(Table()), maxX, maxY, rx, ry, now)
    {
      ghost var before := Table();
      ghost var after := Refreshed(before, maxX, maxY, rx, ry, now);
      var i := 0;
      while i < food.Length
        invariant 0 <= i <= food.Length
        invariant forall j :: 0 <= j < i ==> food[j].State() == after[j]
        invariant forall j :: i <= j < food.Length ==> food[j].State() == before[j]
      {
        var f := food[i];
        if !f.isActive {
          f.Spawn(maxX, maxY, rx[i], ry[i], now);
        }
        f.CheckExpiration(now);
        i := i + 1;
      }
    }

    /**
     * One iteration of the main loop with key `key`: the exit key stops the
     * loop; otherwise the key sets the heading, a self-collision stops the
     * loop before the move, and else the snake moves, shifts its tail, grows
     * if it ate, and the food table is refreshed.
     */
    method Tick(key: int, maxX: int, maxY: int, rx: seq<nat>, ry: seq<nat>, now: int) returns (running: bool)
      requires Valid()
      requires CanSpawn(maxX, maxY)
      requires |rx| == food.Length && |ry| == food.Length
      modifies snake, snake.tail, food[..]
      ensures Valid()
      ensures running <==>
        key != ExitKey && !Collides(old(snake.tail[..]), old(snake.tailSize), old(Tail(snake.x, snake.y)))
      ensures snake.direction == DirectionForKey(key, old(snake.direction))
      ensures !running ==>
        && Tail(snake.x, snake.y) == old(Tail(snake.x, snake.y))
        && snake.tailSize == old(snake.tailSize)
        && snake.tail[..] == old(snake.tail[..])
        && Table() == old(Table())
      ensures running ==>
        var head := Step(snake.direction, old(Tail(snake.x, snake.y)), maxX, maxY);
        && Tail(snake.x, snake.y) == head
        && snake.tail[..] == ShiftIn(old(snake.tail[..]), old(snake.tailSize), head)
        && snake.tailSize == (if Eats(old(Table()), head) then Grown(old(snake.tailSize)) else old(snake.tailSize))
        && Table() == Refreshed(Consumed(old(Table()), head), maxX, maxY, rx, ry, now)
    {
      if key == ExitKey {
        return false;
      }
      ghost var body0, size0, table0 := snake.tail[..], snake.tailSize, Table();
      HandleInput(key);
      var collided := snake.HasCollided();
      if collided {
        return false;
      }
      snake.Move(maxX, maxY);
      ghost var head := Tail(snake.x, snake.y);
      assert Table() == table0;
      snake.UpdateTail();
      assert Table() == table0;
      var eaten := CheckFoodCollision();
      assert eaten == Eats(table0, head);
      ghost var table1 := Table();
      if eaten {
        snake.Grow();
      }
      assert Table() == table1;
      RefreshFood(maxX, maxY, rx, ry, now);
      assert snake.Valid();
      running := true;
    }
  }
}
