/**
 The game state and its transitions: the timer tick that moves the snake,
 the direction request from the player, the restart action and the initial
 state. Every transition is a pure function from one state to the next; the
 random food source is a parameter.
 */
module Game {
  import opened Grid

  /** The snake is head first: snake[0] is the head, the last element the tail. */
  datatype State = State(snake: seq<Pos>, food: Pos, dir: Dir, over: bool)

  /** The cells the snake occupies. */
  function Cells(snake: seq<Pos>): set<Pos> {
    set p | p in snake
  }

  predicate NoDuplicates(snake: seq<Pos>) {
    forall i, j :: 0 <= i < j < |snake| ==> snake[i] != snake[j]
  }

  predicate AllInBounds(snake: seq<Pos>) {
    forall i :: 0 <= i < |snake| ==> InBounds(snake[i])
  }

  /** What every state the game can reach satisfies: a non-empty snake of
      distinct on-grid cells, and food on the grid (possibly under the snake). */
  predicate Valid(s: State) {
    && |s.snake| > 0
    && AllInBounds(s.snake)
    && NoDuplicates(s.snake)
    && InBounds(s.food)
  }

  /** The cell the head moves to on the next tick. */
  function NextHead(s: State): Pos
    requires |s.snake| > 0
  {
    Step(s.snake[0], s.dir)
  }

  /** The state the game starts in: one segment in the middle of the grid,
      food at (5, 5), moving right, running. */
  function Init(): (r: State)
    ensures Valid(r) && !r.over
    ensures r.snake == [Pos(10, 10)] && r.food == Pos(5, 5) && r.dir == Right
  {
    State([Pos(10, 10)], Pos(5, 5), Right, false)
  }

  /** The restart action: every part of the old state is discarded; only the
      food comes fresh from the food source. */
  function Restart(s: State, food: Cell): (r: State)
    ensures Valid(r) && !r.over
    ensures r.snake == [Pos(10, 10)] && r.dir == Right && r.food == food
    ensures r == Init().(food := food)
  {
    State([Pos(10, 10)], food, Right, false)
  }

  /** The player's direction test, one disjunct per requested direction. */
  predicate Accepts(current: Dir, requested: Dir) {
    || (requested == Up && current != Down)
    || (requested == Down && current != Up)
    || (requested == Left && current != Right)
    || (requested == Right && current != Left)
  }

  /** A direction request. It is honoured unless it would reverse the snake;
      it does not look at whether the game is over, and changes nothing but
      the direction. */
  function ChangeDir(s: State, requested: Dir): (r: State)
    ensures r.snake == s.snake && r.food == s.food && r.over == s.over
    ensures requested != Opposite(s.dir) ==> r.dir == requested
    ensures requested == Opposite(s.dir) ==> r == s
  {
    if Accepts(s.dir, requested) then s.(dir := requested) else s
  }

  /** One timer tick. A finished game does not move. Otherwise the head
      advances one cell; running into any current segment, the tail
      included, ends the game and leaves snake and food as they were; landing
      on the food grows the snake by one and takes the next food from the
      food source; any other move drops the tail. */
  function Tick(s: State, nextFood: Cell): (r: State)
    requires |s.snake| > 0
    ensures r.dir == s.dir
    ensures s.over ==> r == s
    ensures r.over ==> r.snake == s.snake && r.food == s.food
    ensures !r.over ==> |r.snake| == |s.snake| || |r.snake| == |s.snake| + 1
    ensures Valid(s) ==> Valid(r)
  {
    if s.over then s
    else
      var head := NextHead(s);
      if head in s.snake then s.(over := true)
      else if head == s.food then s.(snake := [head] + s.snake, food := nextFood)
      else s.(snake := [head] + s.snake[..|s.snake| - 1])
  }

  /** The game ends on a tick exactly when the next head cell is occupied. */
  lemma TickEndsIffCollision(s: State, nextFood: Cell)
    requires |s.snake| > 0 && !s.over
    ensures Tick(s, nextFood).over <==> NextHead(s) in s.snake
    ensures Tick(s, nextFood).over ==> Tick(s, nextFood) == s.(over := true)
  {
  }

  /** Eating: the new head is prepended and the whole old body, tail
      included, is kept; the food is replaced. */
  lemma TickEats(s: State, nextFood: Cell)
    requires |s.snake| > 0 && !s.over
    requires NextHead(s) !in s.snake && NextHead(s) == s.food
    ensures var r := Tick(s, nextFood);
      && !r.over
      && |r.snake| == |s.snake| + 1
      && r.snake[0] == NextHead(s)
      && r.snake[1..] == s.snake
      && r.food == nextFood
  {
  }

  /** A plain move: the new head is prepended and the old tail dropped, so
      every other segment shifts back by one place; the food stays. */
  lemma TickMoves(s: State, nextFood: Cell)
    requires |s.snake| > 0 && !s.over
    requires NextHead(s) !in s.snake && NextHead(s) != s.food
    ensures var r := Tick(s, nextFood);
      && !r.over
      && |r.snake| == |s.snake|
      && r.snake[0] == NextHead(s)
      && (forall i :: 0 <= i < |s.snake| - 1 ==> r.snake[i + 1] == s.snake[i])
      && r.food == s.food
  {
  }

  /** On a surviving tick the snake grows exactly when the head reaches the food. */
  lemma TickGrowsIffFood(s: State, nextFood: Cell)
    requires |s.snake| > 0 && !s.over && !Tick(s, nextFood).over
    ensures |Tick(s, nextFood).snake| == |s.snake| + 1 <==> NextHead(s) == s.food
    ensures |Tick(s, nextFood).snake| == |s.snake| <==> NextHead(s) != s.food
  {
  }

  /** On a plain move of a valid snake the occupied cells are the old ones,
      less the tail cell, plus the new head cell. */
  lemma TickMoveCells(s: State, nextFood: Cell)
    requires Valid(s) && !s.over
    requires NextHead(s) !in s.snake && NextHead(s) != s.food
    ensures var tail := s.snake[|s.snake| - 1];
      Cells(Tick(s, nextFood).snake) == Cells(s.snake) - {tail} + {NextHead(s)}
  {
  }

  /** A one-segment snake can never run into itself. */
  lemma SingleSegmentSurvives(s: State, nextFood: Cell)
    requires Valid(s) && !s.over && |s.snake| == 1
    ensures !Tick(s, nextFood).over
  {
    StepLeaves(s.snake[0], s.dir);
  }
}
