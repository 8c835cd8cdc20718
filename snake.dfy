/**
 The snake of the_snake.py: its body as a list of positions, head first,
 the target `length`, the committed `direction`, the pending
 `next_direction` and the cell `last` that the latest move vacated.
 */
module SnakeModel {
  import opened Wrappers
  import opened Grid

  /** The body and the vacated cell after one `move`. */
  datatype Moved = Moved(positions: seq<Pos>, last: Option<Pos>)

  /**
   What `move` does to the body: the stepped head is inserted in front, and
   the tail is popped exactly when the list then exceeds `length`.
   */
  function Advance(body: seq<Pos>, d: Direction, length: int): (r: Moved)
    requires |body| >= 1
    ensures |r.positions| >= 1 && r.positions[0] == Step(body[0], d)
    ensures r.last.Some? <==> |body| >= length
    ensures r.positions[1..] + (if r.last.Some? then [r.last.value] else []) == body
  {
    var grown := [Step(body[0], d)] + body;
    if |grown| > length then
      Moved(grown[..|grown| - 1], Some(grown[|grown| - 1]))
    else
      Moved(grown, None)
  }

  /** A move that does not trim adds one cell; a move that trims keeps the count. */
  lemma AdvanceCount(body: seq<Pos>, d: Direction, length: int)
    requires |body| >= 1
    ensures |Advance(body, d, length).positions| == if |body| >= length then |body| else |body| + 1
  {
  }

  /** A body no longer than `length` stays no longer than `length`; one of exactly `length` cells keeps that size. */
  lemma AdvanceKeepsLength(body: seq<Pos>, d: Direction, length: int)
    requires |body| >= 1
    requires |body| <= length
    ensures |Advance(body, d, length).positions| <= length
    ensures |body| == length ==> |Advance(body, d, length).positions| == length
  {
  }

  /** A body on cell corners inside the screen stays so after a move, and so does the vacated cell. */
  lemma AdvanceOnGrid(body: seq<Pos>, d: Direction, length: int)
    requires |body| >= 1 && AllOnGrid(body)
    ensures AllOnGrid(Advance(body, d, length).positions)
    ensures Advance(body, d, length).last.Some? ==> OnGrid(Advance(body, d, length).last.value)
  {
  }

  /** The test `head in positions[1:]` of the main loop: the head occupies another body cell. */
  function SelfCollision(ps: seq<Pos>): (r: bool)
    requires |ps| >= 1
    ensures r <==> exists i :: 1 <= i < |ps| && ps[i] == ps[0]
  {
    if ps[0] in ps[1..] then
      var k :| 0 <= k < |ps[1..]| && ps[1..][k] == ps[0];
      assert ps[k + 1] == ps[0];
      true
    else
      false
  }

  /** A one-cell body, as right after `reset`, never collides with itself. */
  lemma NoCollisionAlone(p: Pos)
    ensures !SelfCollision([p])
  {
  }

  /** The direction `update_direction` commits: the pending one if set, else the current one. */
  function Commit(direction: Direction, next: Option<Direction>): (r: Direction)
    ensures r == direction || next == Some(r)
    ensures next.Some? ==> r == next.value
    ensures (next.None? || next.value != Opposite(direction)) ==> r != Opposite(direction)
  {
    if next.Some? then next.value else direction
  }

  /** Committing again with nothing pending keeps the direction: a second `update_direction` is a no-op. */
  lemma CommitTwice(direction: Direction, next: Option<Direction>)
    ensures Commit(Commit(direction, next), None) == Commit(direction, next)
  {
  }

  class Snake {
    /** The spawn position, `GameObject.position`; `reset` returns the body to it. */
    var position: Pos
    var positions: seq<Pos>
    var length: int
    var direction: Direction
    var nextDirection: Option<Direction>
    var last: Option<Pos>

    /** The state `reset` establishes and every method keeps: a non-empty body and a positive length. */
    ghost predicate Valid()
      reads this
    {
      |positions| >= 1 && length >= 1
    }

    /** A pending turn, if any, is not the reverse of the committed direction. */
    ghost predicate PendingOk()
      reads this
    {
      nextDirection.None? || nextDirection.value != Opposite(direction)
    }

    /** The body after this tick's `update_direction` and `move`. */
    ghost function NextBody(): Moved
      reads this
      requires Valid()
    {
      Advance(positions, Commit(direction, nextDirection), length)
    }

    /** `Snake(position)`: remembers the spawn position and resets. */
    constructor (position: Pos)
      ensures Valid() && PendingOk()
      ensures this.position == position && positions == [position] && length == 1
      ensures direction == Right && nextDirection == None && last == None
    {
      this.position := position;
      new;
      Reset();
    }

    /** `update_direction`: a pending direction becomes the committed one and is cleared. */
    method UpdateDirection()
      modifies this`direction, this`nextDirection
      ensures direction == Commit(old(direction), old(nextDirection))
      ensures nextDirection == None
      ensures old(PendingOk()) ==> direction != Opposite(old(direction))
    {
      if nextDirection.Some? {
        direction := nextDirection.value;
        nextDirection := None;
      }
    }

    /** `move`: the new body and vacated cell are those of `Advance`; nothing else changes. */
    method Move()
      requires Valid()
      modifies this`positions, this`last
      ensures Valid()
      ensures var m := Advance(old(positions), direction, length);
              positions == m.positions && last == m.last
    {
      var head := positions[0];
      var newHead := Step(head, direction);
      positions := [newHead] + positions;
      if |positions| > length {
        last := Some(positions[|positions| - 1]);
        positions := positions[..|positions| - 1];
      } else {
        last := None;
      }
    }

    /** `get_head_position`: the first cell of the body. */
    function HeadPosition(): (h: Pos)
      reads this
      requires Valid()
      ensures h in positions
      ensures AllOnGrid(positions) ==> OnGrid(h)
    {
      positions[0]
    }

    /** `reset`: back to one cell at the spawn position, heading right, nothing pending. */
    method Reset()
      modifies this`positions, this`length, this`direction, this`nextDirection, this`last
      ensures Valid() && PendingOk()
      ensures positions == [position] && length == 1
      ensures direction == Right && nextDirection == None && last == None
      ensures !SelfCollision(positions)
    {
      length := 1;
      positions := [position];
      direction := Right;
      nextDirection := None;
      last := None;
    }
  }
}
