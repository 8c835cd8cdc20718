/**
 Keyboard handling of the_snake.py (`handle_keys`). The events polled from
 the window are an input sequence; a quit event stops the game, arrow keys
 may set the snake's pending direction, everything else is ignored.
 */
module Input {
  import opened Wrappers
  import opened Grid
  import opened SnakeModel

  /** The key of a key-down event: the four arrows, or any other key code. */
  datatype Key = UpKey | DownKey | LeftKey | RightKey | OtherKey(code: int)

  /** A polled window event: quit, a key press, or anything else. */
  datatype Event = QuitEvent | KeyDown(key: Key) | OtherEvent

  /** The direction an arrow key asks for. */
  function KeyDirection(k: Key): (r: Option<Direction>) {
    match k
    case UpKey => Some(Up)
    case DownKey => Some(Down)
    case LeftKey => Some(Left)
    case RightKey => Some(Right)
    case OtherKey(_) => None
  }

  /**
   The `if`/`elif` chain of `handle_keys` for one key press, against the
   committed direction: the direction it sets as pending, or `None`.
   */
  function Accept(current: Direction, k: Key): (r: Option<Direction>)
    ensures r.Some? <==> KeyDirection(k).Some? && KeyDirection(k).value != Opposite(current)
    ensures r.Some? ==> r == KeyDirection(k)
  {
    if k == UpKey && current != Down then Some(Up)
    else if k == DownKey && current != Up then Some(Down)
    else if k == LeftKey && current != Right then Some(Left)
    else if k == RightKey && current != Left then Some(Right)
    else None
  }

  /** The pending direction after one event (a quit event is handled by the caller). */
  function AfterEvent(pending: Option<Direction>, current: Direction, e: Event): (r: Option<Direction>) {
    match e
    case KeyDown(k) => if Accept(current, k).Some? then Accept(current, k) else pending
    case _ => pending
  }

  /** The pending direction after a batch of events, read front to back up to the first quit event. */
  function Pending(pending: Option<Direction>, current: Direction, events: seq<Event>): (r: Option<Direction>)
    ensures r == pending || exists i :: 0 <= i < |events| && events[i].KeyDown? && r.Some? && Accept(current, events[i].key) == r
    decreases |events|
  {
    if events == [] || events[0] == QuitEvent then pending
    else
      var r := Pending(AfterEvent(pending, current, events[0]), current, events[1..]);
      if r != pending && r != AfterEvent(pending, current, events[0]) then
        var i :| 0 <= i < |events[1..]| && events[1..][i].KeyDown? && r.Some? && Accept(current, events[1..][i].key) == r;
        assert events[i + 1] == events[1..][i];
        r
      else
        r
  }

  /** The events before the first quit event. */
  function UntilQuit(events: seq<Event>): (r: seq<Event>)
    ensures QuitEvent !in r
    ensures r <= events
    ensures QuitEvent !in events ==> r == events
    ensures |r| < |events| ==> events[|r|] == QuitEvent
  {
    if events == [] || events[0] == QuitEvent then []
    else [events[0]] + UntilQuit(events[1..])
  }

  /** Reference definition read from the back: the direction of the last accepted key press. */
  function LastAccepted(current: Direction, events: seq<Event>): (r: Option<Direction>) {
    if events == [] then None
    else
      var e := events[|events| - 1];
      if e.KeyDown? && Accept(current, e.key).Some? then Accept(current, e.key)
      else LastAccepted(current, events[..|events| - 1])
  }

  lemma {:induction false} PendingSnoc(pending: Option<Direction>, current: Direction, events: seq<Event>, e: Event)
    requires QuitEvent !in events && e != QuitEvent
    ensures Pending(pending, current, events + [e]) == AfterEvent(Pending(pending, current, events), current, e)
    decreases |events|
  {
    if events == [] {
      assert events + [e] == [e];
    } else {
      assert (events + [e])[1..] == events[1..] + [e];
      PendingSnoc(AfterEvent(pending, current, events[0]), current, events[1..], e);
    }
  }

  lemma {:induction false} PendingUntilQuit(pending: Option<Direction>, current: Direction, events: seq<Event>)
    ensures Pending(pending, current, events) == Pending(pending, current, UntilQuit(events))
    decreases |events|
  {
    if events != [] && events[0] != QuitEvent {
      assert UntilQuit(events)[1..] == UntilQuit(events[1..]);
      PendingUntilQuit(AfterEvent(pending, current, events[0]), current, events[1..]);
    }
  }

  lemma {:induction false} PendingNoQuit(pending: Option<Direction>, current: Direction, events: seq<Event>)
    requires QuitEvent !in events
    ensures Pending(pending, current, events) == (if LastAccepted(current, events).Some? then LastAccepted(current, events) else pending)
    decreases |events|
  {
    if events != [] {
      var init, e := events[..|events| - 1], events[|events| - 1];
      assert events == init + [e];
      PendingSnoc(pending, current, init, e);
      PendingNoQuit(pending, current, init);
    }
  }

  /**
   Over a batch, the last accepted arrow key before the first quit event
   decides the pending direction; without one the pending direction is kept.
   */
  lemma {:induction false} LastAcceptedWins(pending: Option<Direction>, current: Direction, events: seq<Event>)
    ensures var l := LastAccepted(current, UntilQuit(events));
            Pending(pending, current, events) == if l.Some? then l else pending
  {
    PendingUntilQuit(pending, current, events);
    PendingNoQuit(pending, current, UntilQuit(events));
  }

  /** A batch never makes the reverse of the committed direction pending. */
  lemma {:induction false} PendingNeverReverse(pending: Option<Direction>, current: Direction, events: seq<Event>)
    requires pending.None? || pending.value != Opposite(current)
    ensures var r := Pending(pending, current, events);
            r.None? || r.value != Opposite(current)
    decreases |events|
  {
    if events != [] && events[0] != QuitEvent {
      PendingNeverReverse(AfterEvent(pending, current, events[0]), current, events[1..]);
    }
  }

  /** A batch without arrow keys leaves the pending direction alone. */
  lemma {:induction false} NoArrowNoChange(pending: Option<Direction>, current: Direction, events: seq<Event>)
    requires forall i :: 0 <= i < |events| ==> !(events[i].KeyDown? && KeyDirection(events[i].key).Some?)
    ensures Pending(pending, current, events) == pending
    decreases |events|
  {
    if events != [] && events[0] != QuitEvent {
      NoArrowNoChange(pending, current, events[1..]);
    }
  }

  /**
   `handle_keys(snake)`: processes the events in order; a quit event ends
   the game (`quit` is true) and the events after it are not read.
   */
  method HandleKeys(snake: Snake, events: seq<Event>) returns (quit: bool)
    modifies snake`nextDirection
    ensures quit == (QuitEvent in events)
    ensures snake.nextDirection == Pending(old(snake.nextDirection), snake.direction, events)
    ensures old(snake.PendingOk()) ==> snake.PendingOk()
  {
    var i := 0;
    while i < |events|
      invariant 0 <= i <= |events|
      invariant QuitEvent !in events[..i]
      invariant Pending(snake.nextDirection, snake.direction, events[i..])
                == Pending(old(snake.nextDirection), snake.direction, events)
    {
      match events[i] {
        case QuitEvent =>
          assert QuitEvent in events;
          quit := true;
          if old(snake.PendingOk()) {
            PendingNeverReverse(old(snake.nextDirection), snake.direction, events);
          }
          return;
        case KeyDown(k) =>
          var accepted := Accept(snake.direction, k);
          if accepted.Some? {
            snake.nextDirection := accepted;
          }
        case OtherEvent =>
      }
      assert events[i..][1..] == events[i + 1..];
      assert events[..i + 1] == events[..i] + [events[i]];
      i := i + 1;
    }
    assert events[..i] == events;
    quit := false;
    if old(snake.PendingOk()) {
      PendingNeverReverse(old(snake.nextDirection), snake.direction, events);
    }
  }
}
