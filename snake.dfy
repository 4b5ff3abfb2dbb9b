/**
 * The snake: a head position, a heading, and a fixed buffer of
 * `MaxTailSize` cells of which the first `tailSize` are the live body.
 * Each operation of the class is specified by a pure function below it.
 */
module Snakes {
  import opened Common

  /** The heading that points the other way. */
  function Opposite(d: Direction): Direction
  {
    match d
    case Left => Right
    case Right => Left
    case Up => Down
    case Down => Up
  }

  /** Unit displacement of a heading; y grows downwards, as on the screen. */
  function DeltaX(d: Direction): int
  {
    match d
    case Left => -1
    case Right => 1
    case _ => 0
  }

  function DeltaY(d: Direction): int
  {
    match d
    case Up => -1
    case Down => 1
    case _ => 0
  }

  /**
   * Where the head goes in one step: one cell along the heading, and from
   * an edge of [0, maxX] x [0, maxY] (or beyond it) to the opposite edge.
   */
  function Step(d: Direction, c: Tail, maxX: int, maxY: int): (r: Tail)
    ensures d == Left || d == Right ==> r.y == c.y
    ensures d == Up || d == Down ==> r.x == c.x
    ensures InArena(c, maxX, maxY) ==> InArena(r, maxX, maxY)
  {
    match d
    case Left => Tail(if c.x <= 0 then maxX else c.x - 1, c.y)
    case Right => Tail(if c.x >= maxX then 0 else c.x + 1, c.y)
    case Up => Tail(c.x, if c.y <= 0 then maxY else c.y - 1)
    case Down => Tail(c.x, if c.y >= maxY then 0 else c.y + 1)
  }

  /** Inside the arena a step is a unit move on the torus of (maxX + 1) x (maxY + 1) cells. */
  lemma StepIsTorusMove(d: Direction, c: Tail, maxX: int, maxY: int)
    requires InArena(c, maxX, maxY)
    ensures Step(d, c, maxX, maxY).x == (c.x + DeltaX(d)) % (maxX + 1)
    ensures Step(d, c, maxX, maxY).y == (c.y + DeltaY(d)) % (maxY + 1)
  {
  }

  /** Inside the arena a step is undone by a step the other way, wrap included. */
  lemma StepBack(d: Direction, c: Tail, maxX: int, maxY: int)
    requires InArena(c, maxX, maxY)
    ensures Step(Opposite(d), Step(d, c, maxX, maxY), maxX, maxY) == c
  {
  }

  /**
   * The tail buffer after one shift: `head` in slot 0, the live cells
   * 0 .. n-2 moved up by one slot, slots from n on untouched.
   */
  function ShiftIn(s: seq<Tail>, n: nat, head: Tail): (r: seq<Tail>)
    requires 1 <= n <= |s|
    ensures |r| == |s|
    ensures r[0] == head
    ensures forall i :: 1 <= i < n ==> r[i] == s[i - 1]
    ensures forall i :: n <= i < |s| ==> r[i] == s[i]
  {
    [head] + s[..n - 1] + s[n..]
  }

  /** The live body after a shift is the new head followed by the old body minus its last cell. */
  lemma ShiftInBody(s: seq<Tail>, n: nat, head: Tail)
    requires 1 <= n <= |s|
    ensures ShiftIn(s, n, head)[..n] == [head] + s[..n - 1]
  {
  }

  /** The head hits the body: it equals one of the live cells 1 .. n-1. Slot 0 is not looked at. */
  predicate Collides(s: seq<Tail>, n: nat, head: Tail)
    ensures 1 <= n <= |s| ==> (Collides(s, n, head) <==> head in s[1..n])
  {
    exists i :: 1 <= i < n && i < |s| && s[i] == head
  }

  /**
   * The collision check after a shift: the head collides with its body iff
   * it moved onto one of the old live cells 0 .. n-2 (the old last cell has
   * moved away). After a growth the check also sees slot n, which the shift
   * did not write.
   */
  lemma {:induction false} ShiftInCollision(s: seq<Tail>, n: nat, head: Tail)
    requires 1 <= n <= |s|
    ensures Collides(ShiftIn(s, n, head), n, head) <==> head in s[..n - 1]
    ensures n < |s| ==>
      (Collides(ShiftIn(s, n, head), n + 1, head) <==> head in s[..n - 1] || s[n] == head)
  {
    var r := ShiftIn(s, n, head);
    if Collides(r, n, head) {
      var i :| 1 <= i < n && i < |r| && r[i] == head;
      assert s[..n - 1][i - 1] == head;
    }
    if head in s[..n - 1] {
      var j :| 0 <= j < n - 1 && s[..n - 1][j] == head;
      assert r[j + 1] == head;
    }
    if n < |s| {
      if Collides(r, n + 1, head) {
        var i :| 1 <= i < n + 1 && i < |r| && r[i] == head;
        if i < n {
          assert s[..n - 1][i - 1] == head;
        }
      }
      if s[n] == head {
        assert r[n] == head;
      }
    }
  }

  /**
   * The initial body (slots 1 and 2 hold (0, 0)) is real to the collision
   * check: heading up from (0, 2), the head reaches (0, 0) after two steps
   * and the check before the third step reports a collision. This holds
   * whether or not the snake ate after its first step (`grew`); it cannot
   * eat at (0, 0), since food never spawns in row 0.
   */
  lemma StartingUpCollides(maxX: int, maxY: int, grew: bool)
    requires maxX >= 0 && maxY >= 2
    ensures
      var n0 := StartTailSize;
      var n1 := if grew then Grown(n0) else n0;
      var t0 := seq(MaxTailSize, _ => Tail(0, 0));
      var h0 := Tail(0, 2);
      var h1 := Step(Up, h0, maxX, maxY);
      var t1 := ShiftIn(t0, n0, h1);
      var h2 := Step(Up, h1, maxX, maxY);
      var t2 := ShiftIn(t1, n1, h2);
      && !Collides(t0, n0, h0)
      && !Collides(t1, n1, h1)
      && h2 == Tail(0, 0)
      && Collides(t2, n1, h2)
  {
    var n1 := if grew then Grown(StartTailSize) else StartTailSize;
    var t0 := seq(MaxTailSize, _ => Tail(0, 0));
    var h1 := Step(Up, Tail(0, 2), maxX, maxY);
    var t1 := ShiftIn(t0, StartTailSize, h1);
    var h2 := Step(Up, h1, maxX, maxY);
    var t2 := ShiftIn(t1, n1, h2);
    assert t1[1] == Tail(0, 0) && t1[2] == Tail(0, 0) && t1[3] == Tail(0, 0);
    assert t2[2] == Tail(0, 0);
  }

  /** The length after one growth: one more, capped at `MaxTailSize`. */
  function Grown(n: nat): (r: nat)
    ensures n <= r <= n + 1
    ensures r == n + 1 <==> n < MaxTailSize
    ensures n <= MaxTailSize ==> r <= MaxTailSize
  {
    if n < MaxTailSize then n + 1 else n
  }

  /** The length after k growths. */
  function GrownTimes(n: nat, k: nat): nat
  {
    if k == 0 then n else Grown(GrownTimes(n, k - 1))
  }

  /** Growing k times from a length within the cap gives min(n + k, MaxTailSize). */
  lemma {:induction false} GrownTimesSaturates(n: nat, k: nat)
    requires n <= MaxTailSize
    ensures GrownTimes(n, k) == if n + k < MaxTailSize then n + k else MaxTailSize
  {
    if k > 0 {
      GrownTimesSaturates(n, k - 1);
    }
  }

  class Snake {
    var x: int
    var y: int
    var direction: Direction
    var tailSize: nat
    const tail: array<Tail>

    /**
     * The buffer has `MaxTailSize` slots, the length stays between the
     * start length and the cap, and the slots past the live body still
     * hold the value-initialised cell (0, 0).
     */
    ghost predicate Valid()
      reads this, tail
    {
      && tail.Length == MaxTailSize
      && StartTailSize <= tailSize <= MaxTailSize
      && forall i :: tailSize <= i < tail.Length ==> tail[i] == Tail(0, 0)
    }

    constructor ()
      ensures Valid() && fresh(tail)
      ensures x == 0 && y == 2 && direction == Right && tailSize == StartTailSize
      ensures forall i :: 0 <= i < tail.Length ==> tail[i] == Tail(0, 0)
    {
      x, y := 0, 2;
      direction := Right;
      tailSize := StartTailSize;
      tail := new Tail[MaxTailSize](_ => Tail(0, 0));
    }

    /** Moves the head one step along the heading, wrapping at the edges. */
    method Move(maxX: int, maxY: int)
      modifies this`x, this`y
      ensures Tail(x, y) == Step(direction, old(Tail(x, y)), maxX, maxY)
    {
      match direction
      case Left => x := if x <= 0 then maxX else x - 1;
      case Right => x := if x >= maxX then 0 else x + 1;
      case Up => y := if y <= 0 then maxY else y - 1;
      case Down => y := if y >= maxY then 0 else y + 1;
    }

    /** Shifts the live body one slot towards the end and writes the head into slot 0. */
    method UpdateTail()
      requires 1 <= tailSize <= tail.Length
      modifies tail
      ensures tail[..] == ShiftIn(old(tail[..]), tailSize, Tail(x, y))
      ensures old(Valid()) ==> Valid()
    {
      var i := tailSize - 1;
      while i > 0
        invariant 0 <= i <= tailSize - 1
        invariant forall k :: 0 <= k <= i ==> tail[k] == old(tail[k])
        invariant forall k :: i < k < tailSize ==> tail[k] == old(tail[k - 1])
        invariant forall k :: tailSize <= k < tail.Length ==> tail[k] == old(tail[k])
      {
        tail[i] := tail[i - 1];
        i := i - 1;
      }
      tail[0] := Tail(x, y);
      ghost var r := ShiftIn(old(tail[..]), tailSize, Tail(x, y));
      assert forall k :: 0 <= k < tail.Length ==> tail[..][k] == r[k];
    }

    /** Lengthens the snake by one cell unless it is at the cap. */
    method Grow()
      modifies this`tailSize
      ensures tailSize == Grown(old(tailSize))
      ensures old(Valid()) ==> Valid()
    {
      if tailSize < MaxTailSize {
        tailSize := tailSize + 1;
      }
    }

    /** Scans live slots 1 .. tailSize-1 for the head's cell. */
    method HasCollided() returns (r: bool)
      requires tailSize <= tail.Length
      ensures r <==> Collides(tail[..], tailSize, Tail(x, y))
    {
      var i := 1;
      while i < tailSize
        invariant 1 <= i
        invariant forall k :: 1 <= k < i && k < tailSize ==> tail[k] != Tail(x, y)
      {
        if x == tail[i].x && y == tail[i].y {
          assert tail[..][i] == Tail(x, y);
          return true;
        }
        i := i + 1;
      }
      return false;
    }
  }
}
