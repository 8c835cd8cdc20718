/**
 The game loop of the_snake.py (`main`): one tick commits the pending
 direction, moves the snake, and then either feeds it or, failing that,
 resets it on self-collision. `Play` runs the loop over a finite run of
 frames, each with the events polled in it and the random cell that an
 apple placement would draw.
 */
module Game {
  import opened Wrappers
  import opened Grid
  import opened Food
  import opened SnakeModel
  import opened Input

  /** What one tick did; `FoodUnplaceable` is the `ValueError` escaping `main`. */
  datatype TickOutcome = Advanced | Ate | Collided | FoodUnplaceable

  /** The snake when it stops: the player quit, placement raised, or the frames ran out. `ticks` counts the frames fully played. */
  datatype GameOutcome = Quit(ticks: nat) | Crashed(ticks: nat) | Running(ticks: nat)

  /** One frame of the loop: the events `handle_keys` reads and the apple cell `random.randint` would pick. */
  datatype Frame = Frame(events: seq<Event>, choice: Cell)

  /** The spawn position `(SCREEN_WIDTH // 2, SCREEN_HEIGHT // 2)` used by `main`. */
  const Spawn: Pos := Pos(ScreenWidth / 2, ScreenHeight / 2)

  /** The fields of the snake and the apple as one value: what a tick reads and writes. */
  datatype State = State(spawn: Pos, positions: seq<Pos>, length: int, direction: Direction,
                         nextDirection: Option<Direction>, last: Option<Pos>, food: Pos)

  /** The state `main` starts from: one cell at the centre heading right, the apple on `second`. */
  function StartState(second: Cell): State {
    State(Spawn, [Spawn], 1, Right, None, None, CellAt(second))
  }

  ghost function StateOf(snake: Snake, apple: Apple): State
    reads snake, apple
  {
    State(snake.position, snake.positions, snake.length, snake.direction, snake.nextDirection, snake.last, apple.position)
  }

  /** The loop invariant of `main`: a non-empty body of `length - 1` to `length` cells, everything on the grid, no reversing turn pending. */
  predicate PlayingState(s: State) {
    && |s.positions| >= 1 && s.length >= 1 && s.spawn == Spawn
    && (s.nextDirection.None? || s.nextDirection.value != Opposite(s.direction))
    && s.length - 1 <= |s.positions| <= s.length
    && AllOnGrid(s.positions) && OnGrid(s.food)
  }

  ghost predicate Playing(snake: Snake, apple: Apple)
    reads snake, apple
  {
    PlayingState(StateOf(snake, apple))
  }

  /**
   The body of the `while running` loop after `handle_keys` and the clock,
   lines 178-185, on values: commit the pending direction and move, then
   eat (grow by one and re-place the food) or, failing that, reset on
   self-collision.
   */
  function TickStep(s: State, choice: Cell): (r: (TickOutcome, State))
    requires |s.positions| >= 1 && choice.InGrid()
    ensures r.1.spawn == s.spawn && r.1.nextDirection == None && |r.1.positions| >= 1
    ensures s.length >= 1 ==> r.1.length >= 1
  {
    var d := Commit(s.direction, s.nextDirection);
    var m := Advance(s.positions, d, s.length);
    if m.positions[0] == s.food then
      var p := Placement(m.positions, choice);
      (if p.Ok? then Ate else FoodUnplaceable,
       State(s.spawn, m.positions, s.length + 1, d, None, m.last, if p.Ok? then p.value else s.food))
    else if SelfCollision(m.positions) then
      (Collided, State(s.spawn, [s.spawn], 1, Right, None, None, s.food))
    else
      (Advanced, State(s.spawn, m.positions, s.length, d, None, m.last, s.food))
  }

  /** What a tick does, case by case. */
  lemma TickStepCases(s: State, choice: Cell)
    requires |s.positions| >= 1 && choice.InGrid()
    // the head reaches the food: grow by one and re-place the food, without a collision test
    ensures var r, m := TickStep(s, choice), Advance(s.positions, Commit(s.direction, s.nextDirection), s.length);
            (r.0.Ate? || r.0.FoodUnplaceable?) == (m.positions[0] == s.food)
    ensures var r, m := TickStep(s, choice), Advance(s.positions, Commit(s.direction, s.nextDirection), s.length);
            (r.0.Ate? || r.0.FoodUnplaceable?) ==>
              && r.1.length == s.length + 1
              && Placement(m.positions, choice) == (if r.0.Ate? then Ok(r.1.food) else Err(NoFreePositions))
              && (r.0.FoodUnplaceable? ==> r.1.food == s.food)
    // otherwise the head in the rest of the body resets the snake
    ensures var r, m := TickStep(s, choice), Advance(s.positions, Commit(s.direction, s.nextDirection), s.length);
            r.0.Collided? == (m.positions[0] != s.food && SelfCollision(m.positions))
    ensures var r := TickStep(s, choice);
            r.0.Collided? ==> r.1 == State(s.spawn, [s.spawn], 1, Right, None, None, s.food)
    // every other tick only moves the snake
    ensures var r, m := TickStep(s, choice), Advance(s.positions, Commit(s.direction, s.nextDirection), s.length);
            !r.0.Collided? ==>
              && r.1.positions == m.positions && r.1.last == m.last
              && r.1.direction == Commit(s.direction, s.nextDirection)
    ensures var r := TickStep(s, choice);
            r.0.Advanced? ==> r.1.length == s.length && r.1.food == s.food
    ensures var r := TickStep(s, choice);
            (s.nextDirection.None? || s.nextDirection.value != Opposite(s.direction)) && !r.0.Collided? ==>
              r.1.direction != Opposite(s.direction)
  {
  }

  /** Placement raises only when the grown body covers every cell. */
  lemma TickStepFull(s: State, choice: Cell)
    requires |s.positions| >= 1 && choice.InGrid()
    ensures var r := TickStep(s, choice);
            r.0.FoodUnplaceable? ==> forall p :: OnGrid(p) ==> p in r.1.positions
  {
  }

  /** A tick keeps the loop invariant of `main`. */
  lemma TickStepPlaying(s: State, choice: Cell)
    requires PlayingState(s) && choice.InGrid()
    ensures PlayingState(TickStep(s, choice).1)
  {
    var d := Commit(s.direction, s.nextDirection);
    AdvanceKeepsLength(s.positions, d, s.length);
    AdvanceCount(s.positions, d, s.length);
    AdvanceOnGrid(s.positions, d, s.length);
  }

  /**
   One iteration of `while running` on values: the keys update the pending
   direction, and unless a quit event came, one tick is played. On quit the
   outcome component is `Advanced` and means nothing.
   */
  function FrameStep(s: State, f: Frame): (r: (bool, TickOutcome, State))
    requires |s.positions| >= 1 && f.choice.InGrid()
    ensures r.0 == (QuitEvent in f.events)
    ensures |r.2.positions| >= 1 && r.2.spawn == s.spawn
    // a quit plays no tick: only the pending direction changes
    ensures r.0 ==> r.2 == s.(nextDirection := Pending(s.nextDirection, s.direction, f.events))
  {
    var keyed := s.(nextDirection := Pending(s.nextDirection, s.direction, f.events));
    if QuitEvent in f.events then (true, Advanced, keyed)
    else
      var t := TickStep(keyed, f.choice);
      (false, t.0, t.1)
  }

  /** Handling the keys and playing the tick keeps the loop invariant of `main`. */
  lemma FrameStepPlaying(s: State, f: Frame)
    requires PlayingState(s) && f.choice.InGrid()
    ensures PlayingState(FrameStep(s, f).2)
  {
    PendingNeverReverse(s.nextDirection, s.direction, f.events);
    if QuitEvent !in f.events {
      TickStepPlaying(s.(nextDirection := Pending(s.nextDirection, s.direction, f.events)), f.choice);
    }
  }

  /**
   `main`'s loop over the frames from tick number `k`: it stops at the first
   frame with a quit event or at a placement that raises, and otherwise
   plays every frame.
   */
  function Run(s: State, frames: seq<Frame>, k: nat): (r: (GameOutcome, State))
    requires |s.positions| >= 1
    requires forall i :: 0 <= i < |frames| ==> frames[i].choice.InGrid()
    ensures k <= r.0.ticks <= k + |frames|
    ensures r.0.Running? <==> r.0.ticks == k + |frames|
    decreases |frames|
  {
    if frames == [] then (Running(k), s)
    else
      var st := FrameStep(s, frames[0]);
      if st.0 then (Quit(k), st.2)
      else if st.1.FoodUnplaceable? then (Crashed(k), st.2)
      else Run(st.2, frames[1..], k + 1)
  }

  /** The loop from frame `k` on plays frame `k` and then, unless it stopped, the frames after it. */
  lemma RunFrame(s: State, frames: seq<Frame>, k: nat)
    requires |s.positions| >= 1 && k < |frames|
    requires forall i :: 0 <= i < |frames| ==> frames[i].choice.InGrid()
    ensures var st := FrameStep(s, frames[k]);
            Run(s, frames[k..], k) == if st.0 then (Quit(k), st.2)
                                      else if st.1.FoodUnplaceable? then (Crashed(k), st.2)
                                      else Run(st.2, frames[k + 1..], k + 1)
  {
    assert frames[k..][0] == frames[k] && frames[k..][1..] == frames[k + 1..];
  }

  /** The loop plays every frame before the one it stops at without a quit event. */
  lemma {:induction false} RunStopsAt(s: State, frames: seq<Frame>, k: nat)
    requires |s.positions| >= 1
    requires forall i :: 0 <= i < |frames| ==> frames[i].choice.InGrid()
    ensures var r := Run(s, frames, k);
            forall j :: 0 <= j < r.0.ticks - k ==> QuitEvent !in frames[j].events
    decreases |frames|
  {
    if frames != [] {
      var st := FrameStep(s, frames[0]);
      if st.0 || st.1.FoodUnplaceable? {
        assert Run(s, frames, k).0.ticks == k;
      } else {
        var r := Run(st.2, frames[1..], k + 1);
        assert Run(s, frames, k) == r;
        assert QuitEvent !in frames[0].events;
        RunStopsAt(st.2, frames[1..], k + 1);
        forall j | 1 <= j < r.0.ticks - k
          ensures QuitEvent !in frames[j].events
        {
          assert frames[j] == frames[1..][j - 1];
        }
      }
    }
  }

  /** The loop crashes only when a tick fed the snake while its body covered every cell, so that no apple could be placed. */
  lemma {:induction false} RunCrashFull(s: State, frames: seq<Frame>, k: nat)
    requires |s.positions| >= 1
    requires forall i :: 0 <= i < |frames| ==> frames[i].choice.InGrid()
    ensures var r := Run(s, frames, k);
            r.0.Crashed? ==> forall p :: OnGrid(p) ==> p in r.1.positions
    decreases |frames|
  {
    if frames != [] {
      var keyed := s.(nextDirection := Pending(s.nextDirection, s.direction, frames[0].events));
      var st := FrameStep(s, frames[0]);
      if !st.0 {
        assert (st.1, st.2) == TickStep(keyed, frames[0].choice);
        if st.1.FoodUnplaceable? {
          TickStepFull(keyed, frames[0].choice);
        } else {
          assert Run(s, frames, k) == Run(st.2, frames[1..], k + 1);
          RunCrashFull(st.2, frames[1..], k + 1);
        }
      }
    }
  }

  /** Every state the loop stops in satisfies the loop invariant of `main`. */
  lemma {:induction false} RunPlaying(s: State, frames: seq<Frame>, k: nat)
    requires PlayingState(s)
    requires forall i :: 0 <= i < |frames| ==> frames[i].choice.InGrid()
    ensures PlayingState(Run(s, frames, k).1)
    decreases |frames|
  {
    if frames != [] {
      FrameStepPlaying(s, frames[0]);
      var st := FrameStep(s, frames[0]);
      if !st.0 && !st.1.FoodUnplaceable? {
        RunPlaying(st.2, frames[1..], k + 1);
      }
    }
  }

  /** The body of the `while running` loop after `handle_keys` and the clock: `TickStep` on the objects. */
  method Tick(snake: Snake, apple: Apple, choice: Cell) returns (outcome: TickOutcome)
    requires snake.Valid() && choice.InGrid()
    modifies snake, apple
    ensures (outcome, StateOf(snake, apple)) == TickStep(old(StateOf(snake, apple)), choice)
  {
    ghost var s0 := StateOf(snake, apple);
    ghost var d := Commit(s0.direction, s0.nextDirection);
    ghost var m := Advance(s0.positions, d, s0.length);
    snake.UpdateDirection();
    snake.Move();
    assert snake.positions == m.positions && snake.last == m.last && snake.direction == d;
    if snake.HeadPosition() == apple.position {
      snake.length := snake.length + 1;
      var placed := apple.RandomizePosition(snake.positions, choice);
      outcome := if placed.Ok? then Ate else FoodUnplaceable;
      assert TickStep(s0, choice) == (outcome, State(s0.spawn, m.positions, s0.length + 1, d, None, m.last, apple.position));
    } else if SelfCollision(snake.positions) {
      snake.Reset();
      outcome := Collided;
      assert TickStep(s0, choice) == (outcome, State(s0.spawn, [s0.spawn], 1, Right, None, None, s0.food));
    } else {
      outcome := Advanced;
      assert TickStep(s0, choice) == (outcome, State(s0.spawn, m.positions, s0.length, d, None, m.last, s0.food));
    }
  }

  /**
   One iteration of `while running`: `handle_keys`, then, unless the player
   quit, one tick. On quit no tick is played and `outcome` is `Advanced`,
   which then means nothing.
   */
  method Iteration(snake: Snake, apple: Apple, frame: Frame) returns (quit: bool, outcome: TickOutcome)
    requires Playing(snake, apple) && frame.choice.InGrid()
    modifies snake, apple
    ensures Playing(snake, apple)
    ensures quit == (QuitEvent in frame.events)
    ensures outcome.FoodUnplaceable? ==> !quit && forall p :: OnGrid(p) ==> p in snake.positions
    // a quit plays no tick: only the pending direction may have changed
    ensures quit ==> (outcome.Advanced? && snake.positions == old(snake.positions) && snake.length == old(snake.length)
                      && snake.direction == old(snake.direction) && snake.last == old(snake.last)
                      && apple.position == old(apple.position))
    // otherwise the tick runs with the pending direction the events left
    ensures var m := Advance(old(snake.positions),
                             Commit(old(snake.direction), Pending(old(snake.nextDirection), old(snake.direction), frame.events)),
                             old(snake.length));
            !quit ==> ((outcome.Ate? || outcome.FoodUnplaceable?) == (m.positions[0] == old(apple.position))
                       && outcome.Collided? == (m.positions[0] != old(apple.position) && SelfCollision(m.positions))
                       && (!outcome.Collided? ==> snake.positions == m.positions && snake.last == m.last))
    ensures !quit && (outcome.Ate? || outcome.FoodUnplaceable?) ==> snake.length == old(snake.length) + 1
    ensures !quit && outcome.Ate? ==> apple.position == CellAt(frame.choice)
    ensures !quit && outcome.FoodUnplaceable? ==> apple.position == old(apple.position)
    ensures !quit && outcome.Collided? ==>
              && snake.positions == [Spawn] && snake.length == 1 && snake.direction == Right
              && snake.nextDirection == None && snake.last == None && apple.position == old(apple.position)
    ensures !quit && outcome.Advanced? ==> snake.length == old(snake.length) && apple.position == old(apple.position)
    ensures !quit && !outcome.Collided? ==>
              && snake.direction == Commit(old(snake.direction), Pending(old(snake.nextDirection), old(snake.direction), frame.events))
              && snake.direction != Opposite(old(snake.direction))
    ensures !quit && !outcome.Collided? ==> snake.nextDirection == None
    ensures quit ==> snake.nextDirection == Pending(old(snake.nextDirection), old(snake.direction), frame.events)
    // the same step on values
    ensures (quit, outcome, StateOf(snake, apple)) == FrameStep(old(StateOf(snake, apple)), frame)
  {
    FrameStepPlaying(StateOf(snake, apple), frame);
    quit := HandleKeys(snake, frame.events);
    outcome := Advanced;
    if !quit {
      assert snake.nextDirection == Pending(old(snake.nextDirection), old(snake.direction), frame.events);
      assert snake.positions == old(snake.positions) && snake.length == old(snake.length);
      assert snake.direction == old(snake.direction) && apple.position == old(apple.position);
      TickStepCases(StateOf(snake, apple), frame.choice);
      TickStepFull(StateOf(snake, apple), frame.choice);
      outcome := Tick(snake, apple, frame.choice);
    }
  }

  /** The set-up of `main`: the snake spawns at the centre, `Apple()` places the apple with `first`, and it is placed again against the snake with `second`. */
  method Start(first: Cell, second: Cell) returns (snake: Snake, apple: Apple)
    requires first.InGrid() && second.InGrid()
    ensures fresh(snake) && fresh(apple)
    ensures Playing(snake, apple)
    ensures snake.positions == [Spawn] && snake.length == 1 && snake.direction == Right
    ensures snake.nextDirection == None && snake.last == None
    ensures apple.position == CellAt(second)
    ensures StateOf(snake, apple) == StartState(second)
  {
    snake := new Snake(Spawn);
    apple := new Apple(first);
    PlacementSucceedsWhenShort(snake.positions, second);
    var placed := apple.RandomizePosition(snake.positions, second);
  }

  /**
   `main` over a finite run of frames: the snake spawns at the centre, the
   apple is placed by `Apple()` with `first` and again against the snake
   with `second`, and then each frame handles its keys and plays one tick.
   */
  method Play(first: Cell, second: Cell, frames: seq<Frame>) returns (outcome: GameOutcome, snake: Snake, apple: Apple)
    requires first.InGrid() && second.InGrid()
    requires forall i :: 0 <= i < |frames| ==> frames[i].choice.InGrid()
    ensures fresh(snake) && fresh(apple)
    ensures Playing(snake, apple)
    ensures outcome.Running? ==> outcome.ticks == |frames|
    ensures !outcome.Running? ==> outcome.ticks < |frames|
    ensures forall j :: 0 <= j < outcome.ticks ==> QuitEvent !in frames[j].events
    ensures outcome.Quit? ==> QuitEvent in frames[outcome.ticks].events
    ensures outcome.Crashed? ==> QuitEvent !in frames[outcome.ticks].events
    ensures outcome.Crashed? ==> forall p :: OnGrid(p) ==> p in snake.positions
    // the frames are played as `Run` plays them
    ensures (outcome, StateOf(snake, apple)) == Run(StartState(second), frames, 0)
  {
    snake, apple := Start(first, second);
    ghost var run := Run(StartState(second), frames, 0);
    RunStopsAt(StartState(second), frames, 0);
    var k := 0;
    while k < |frames|
      invariant 0 <= k <= |frames|
      invariant Playing(snake, apple)
      invariant Run(StateOf(snake, apple), frames[k..], k) == run
    {
      RunFrame(StateOf(snake, apple), frames, k);
      var quit, t := Iteration(snake, apple, frames[k]);
      if quit {
        outcome := Quit(k);
        assert (outcome, StateOf(snake, apple)) == run;
        return;
      }
      if t.FoodUnplaceable? {
        outcome := Crashed(k);
        assert (outcome, StateOf(snake, apple)) == run;
        return;
      }
      k := k + 1;
    }
    outcome := Running(k);
    assert (outcome, StateOf(snake, apple)) == run;
  }
}
