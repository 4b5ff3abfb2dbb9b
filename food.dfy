/**
 * One food item: a position, the time it was put down and whether it can
 * still be eaten. `FoodState` is the value of a `Food` object; the pure
 * functions here say what spawning and the expiry check do to it.
 */
module Foods {
  import opened Common

  datatype FoodState = FoodState(x: int, y: int, putTime: int, isActive: bool)

  /** The sizes for which a spawn is defined: both divisors of the spawn are non-zero. */
  predicate CanSpawn(maxX: int, maxY: int)
  {
    maxX != 1 && maxY != 2
  }

  /**
   * The cell a spawn picks from two draws of the random generator:
   * x = rx mod (maxX - 1) and y = ry mod (maxY - 2) + 1, so on a screen of at
   * least 2 x 3 the food lands in [0, maxX - 2] x [1, maxY - 2]. Draws of
   * `rand()` are never negative, and for a non-negative dividend C++'s
   * truncating `%` and Dafny's Euclidean `%` agree, whatever the divisor's sign.
   */
  function SpawnPosition(maxX: int, maxY: int, rx: nat, ry: nat): (r: Tail)
    requires CanSpawn(maxX, maxY)
    ensures maxX >= 2 ==> 0 <= r.x <= maxX - 2
    ensures maxY >= 3 ==> 1 <= r.y <= maxY - 2
    ensures 0 <= r.x < if maxX > 1 then maxX - 1 else 1 - maxX
    ensures 1 <= r.y <= if maxY > 2 then maxY - 2 else 2 - maxY
  {
    Tail(rx % (maxX - 1), ry % (maxY - 2) + 1)
  }

  /** Every cell of [0, maxX - 2] x [1, maxY - 2] is the outcome of some pair of draws. */
  lemma SpawnCoversRange(maxX: int, maxY: int, c: Tail)
    requires maxX >= 2 && maxY >= 3
    requires 0 <= c.x <= maxX - 2 && 1 <= c.y <= maxY - 2
    ensures SpawnPosition(maxX, maxY, c.x, c.y - 1) == c
  {
  }

  /** A freshly spawned food: active, put down at `now`. */
  function Spawned(maxX: int, maxY: int, rx: nat, ry: nat, now: int): (f: FoodState)
    requires CanSpawn(maxX, maxY)
    ensures f.isActive && f.putTime == now
    ensures Tail(f.x, f.y) == SpawnPosition(maxX, maxY, rx, ry)
  {
    var p := SpawnPosition(maxX, maxY, rx, ry);
    FoodState(p.x, p.y, now, true)
  }

  /** An active food is stale once it is strictly older than `FoodExpireSeconds`. */
  predicate IsStale(f: FoodState, now: int)
  {
    f.isActive && now - f.putTime > FoodExpireSeconds
  }

  /** A food that is stale at one time is stale at every later time. */
  lemma StaleStaysStale(f: FoodState, now: int, later: int)
    requires now <= later
    ensures IsStale(f, now) ==> IsStale(f, later)
  {
  }

  /**
   * The expiry check: a stale food becomes inactive, anything else is left
   * as it is; position and put time never change.
   */
  function CheckedExpiry(f: FoodState, now: int): (r: FoodState)
    ensures r.x == f.x && r.y == f.y && r.putTime == f.putTime
    ensures r.isActive <==> f.isActive && now - f.putTime <= FoodExpireSeconds
  {
    if IsStale(f, now) then f.(isActive := false) else f
  }

  /** A food aged exactly `FoodExpireSeconds` survives the check, one second later it does not. */
  lemma ExpiryBoundary(f: FoodState)
    requires f.isActive
    ensures CheckedExpiry(f, f.putTime + FoodExpireSeconds) == f
    ensures !CheckedExpiry(f, f.putTime + FoodExpireSeconds + 1).isActive
  {
  }

  /** A check at an earlier time followed by one at a later time equals the later check alone. */
  lemma ExpiryChecksCompose(f: FoodState, now: int, later: int)
    requires now <= later
    ensures CheckedExpiry(CheckedExpiry(f, now), later) == CheckedExpiry(f, later)
  {
  }

  /** A food that was just spawned is not stale. */
  lemma SpawnedIsFresh(maxX: int, maxY: int, rx: nat, ry: nat, now: int)
    requires CanSpawn(maxX, maxY)
    ensures CheckedExpiry(Spawned(maxX, maxY, rx, ry, now), now) == Spawned(maxX, maxY, rx, ry, now)
  {
  }

  class Food {
    var x: int
    var y: int
    var putTime: int
    var isActive: bool

    function State(): FoodState
      reads this
    {
      FoodState(x, y, putTime, isActive)
    }

    /** A default food: at (0, 0), put at time 0, inactive. */
    constructor ()
      ensures State() == FoodState(0, 0, 0, false)
    {
      x, y, putTime, isActive := 0, 0, 0, false;
    }

    /** Puts the food at the cell chosen by the draws `rx`, `ry`, at time `now`, active. */
    method Spawn(maxX: int, maxY: int, rx: nat, ry: nat, now: int)
      requires CanSpawn(maxX, maxY)
      modifies this
      ensures State() == Spawned(maxX, maxY, rx, ry, now)
    {
      x := rx % (maxX - 1);
      y := ry % (maxY - 2) + 1;
      putTime := now;
      isActive := true;
    }

    /** Deactivates the food when it is active and older than `FoodExpireSeconds` at `now`. */
    method CheckExpiration(now: int)
      modifies this
      ensures State() == CheckedExpiry(old(State()), now)
    {
      if isActive && now - putTime > FoodExpireSeconds {
        isActive := false;
      }
    }
  }
}
