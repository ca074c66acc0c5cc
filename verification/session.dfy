/**
 A whole game as a sequence of host events, applied one at a time: a timer
 tick, a direction button press, or the restart button. The host never runs
 two of them at once, so a session is a left fold of the transitions over the
 event sequence. Each event that needs a fresh food cell carries it.
 */
module Session {
  import opened Grid
  import Game

  datatype Event =
    | Elapsed(nextFood: Cell)
    | Press(requested: Dir)
    | RestartPressed(food: Cell)

  function Apply(s: Game.State, e: Event): (r: Game.State)
    requires Game.Valid(s)
    ensures Game.Valid(r)
  {
    match e
    case Elapsed(f) => Game.Tick(s, f)
    case Press(d) => Game.ChangeDir(s, d)
    case RestartPressed(f) => Game.Restart(s, f)
  }

  /** The state after the events, in order, starting from s. */
  function Run(s: Game.State, events: seq<Event>): (r: Game.State)
    requires Game.Valid(s)
    ensures Game.Valid(r)
    decreases |events|
  {
    if |events| == 0 then s else Run(Apply(s, events[0]), events[1..])
  }

  predicate NoRestart(events: seq<Event>) {
    forall i :: 0 <= i < |events| ==> !events[i].RestartPressed?
  }

  /** Number of timer ticks among the events. */
  function Ticks(events: seq<Event>): nat {
    if |events| == 0 then 0
    else (if events[0].Elapsed? then 1 else 0) + Ticks(events[1..])
  }

  /** Every state reachable from the initial state keeps the snake non-empty,
      on the grid and free of repeated cells. */
  lemma ReachableValid(events: seq<Event>)
    ensures var r := Run(Game.Init(), events);
      |r.snake| > 0 && Game.NoDuplicates(r.snake) && Game.AllInBounds(r.snake)
  {
  }

  /** A finished game stays finished until the restart button: ticks leave
      it alone and direction presses change nothing but the direction. */
  lemma {:induction false} OverUntilRestart(s: Game.State, events: seq<Event>)
    requires Game.Valid(s) && s.over && NoRestart(events)
    ensures var r := Run(s, events);
      r.over && r.snake == s.snake && r.food == s.food
    decreases |events|
  {
    if |events| > 0 {
      assert !events[0].RestartPressed?;
      var s' := Apply(s, events[0]);
      assert s'.over && s'.snake == s.snake && s'.food == s.food;
      assert NoRestart(events[1..]) by {
        forall i | 0 <= i < |events| - 1
          ensures !events[1..][i].RestartPressed?
        {
          assert events[1..][i] == events[i + 1];
        }
      }
      OverUntilRestart(s', events[1..]);
    }
  }

  /** Without a restart the final snake is no shorter than the initial one,
      and at most one segment longer per tick. */
  lemma {:induction false} LengthBounds(s: Game.State, events: seq<Event>)
    requires Game.Valid(s) && NoRestart(events)
    ensures |s.snake| <= |Run(s, events).snake| <= |s.snake| + Ticks(events)
    decreases |events|
  {
    if |events| > 0 {
      assert !events[0].RestartPressed?;
      assert NoRestart(events[1..]) by {
        forall i | 0 <= i < |events| - 1
          ensures !events[1..][i].RestartPressed?
        {
          assert events[1..][i] == events[i + 1];
        }
      }
      LengthBounds(Apply(s, events[0]), events[1..]);
    }
  }

  /** Running two event sequences one after the other is running their
      concatenation. */
  lemma {:induction false} RunConcat(s: Game.State, a: seq<Event>, b: seq<Event>)
    requires Game.Valid(s)
    ensures Run(s, a + b) == Run(Run(s, a), b)
    decreases |a|
  {
    if |a| == 0 {
      assert a + b == b;
    } else {
      assert (a + b)[0] == a[0];
      assert (a + b)[1..] == a[1..] + b;
      RunConcat(Apply(s, a[0]), a[1..], b);
    }
  }

  /** Without a restart the length never drops at any point of the run: a
      later state is never shorter than an earlier one. */
  lemma NeverShrinks(s: Game.State, events: seq<Event>, i: nat, j: nat)
    requires Game.Valid(s) && NoRestart(events)
    requires i <= j <= |events|
    ensures |Run(s, events[..i]).snake| <= |Run(s, events[..j]).snake|
  {
    assert events[..j] == events[..i] + events[i..j];
    RunConcat(s, events[..i], events[i..j]);
    assert NoRestart(events[i..j]) by {
      forall k | 0 <= k < j - i
        ensures !events[i..j][k].RestartPressed?
      {
        assert events[i..j][k] == events[i + k];
      }
    }
    LengthBounds(Run(s, events[..i]), events[i..j]);
  }

  /** The first food of a fresh game sits right of the head: one tick eats
      it and the snake becomes two segments long. */
  lemma FirstTickEats(f: Cell)
    ensures var start := Game.Init().(food := Pos(11, 10));
      var r := Run(start, [Elapsed(f)]);
      && r.snake == [Pos(11, 10), Pos(10, 10)]
      && r.food == f
      && !r.over
  {
  }

  /** The direction rule compares a request with the current direction only,
      not with the direction of the last move. Two presses between ticks
      (up, then left, while moving right) therefore turn a two-segment snake
      back onto its own neck, and the next tick ends the game. */
  lemma TwoPressesReverse(f: Cell)
    ensures var start := Game.State([Pos(10, 10), Pos(9, 10)], Pos(5, 5), Right, false);
      var r := Run(start, [Press(Up), Press(Left), Elapsed(f)]);
      r.over && r.dir == Left
  {
    var start := Game.State([Pos(10, 10), Pos(9, 10)], Pos(5, 5), Right, false);
    var events := [Press(Up), Press(Left), Elapsed(f)];
    var turned := Game.ChangeDir(Game.ChangeDir(start, Up), Left);
    assert turned.dir == Left;
    assert Run(start, events) == Run(turned, events[2..]);
    assert Game.NextHead(turned) == turned.snake[1];
    assert Run(turned, events[2..]) == Game.Tick(turned, f);
  }
}
