/** A model of the snake game component: a 20 x 20 grid, a snake that moves
    one cell per tick, keyboard and swipe input that turns it, food that makes
    it grow, and a reset. Positions and directions are integer pairs. */
module Snake {

  /** Side length of the square grid. */
  const GridSize: int := 20
  /** Points awarded for each food eaten. */
  const Reward: int := 10

  datatype Option<T> = None | Some(value: T)

  /** A grid cell, a direction vector or a touch point. */
  datatype Pos = Pos(x: int, y: int)

  const InitialSnake: seq<Pos> := [Pos(10, 10)]
  const InitialDirection: Pos := Pos(1, 0)
  const InitialFood: Pos := Pos(15, 15)

  predicate InGrid(p: Pos) {
    0 <= p.x < GridSize && 0 <= p.y < GridSize
  }

  /** One of the four unit vectors (1,0), (-1,0), (0,1), (0,-1). */
  predicate IsCardinal(d: Pos) {
    d == Pos(1, 0) || d == Pos(-1, 0) || d == Pos(0, 1) || d == Pos(0, -1)
  }

  function Plus(p: Pos, d: Pos): Pos {
    Pos(p.x + d.x, p.y + d.y)
  }

  function Neg(d: Pos): Pos {
    Pos(-d.x, -d.y)
  }

  /** Two cells one unit step apart. */
  predicate Adjacent(a: Pos, b: Pos) {
    IsCardinal(Pos(a.x - b.x, a.y - b.y))
  }

  /** The invariants of a snake body, head first: non-empty, every cell in
      the grid, no cell twice, and each segment one step from the next. */
  predicate ValidSnake(s: seq<Pos>) {
    && |s| > 0
    && (forall i :: 0 <= i < |s| ==> InGrid(s[i]))
    && (forall i, j :: 0 <= i < j < |s| ==> s[i] != s[j])
    && (forall i :: 0 < i < |s| ==> Adjacent(s[i - 1], s[i]))
  }

  // ---------------------------------------------------------------------------
  // Collision

  /** Reference meaning of a collision: the new head leaves the grid, or lands
      on any cell of the body it is checked against. */
  predicate Collides(head: Pos, body: seq<Pos>) {
    !InGrid(head) || head in body
  }

  /** The collision check: the bounds first, then a scan of the segments that
      stops at the first one equal to the head. */
  method CheckCollision(head: Pos, body: seq<Pos>) returns (hit: bool)
    ensures hit <==> Collides(head, body)
  {
    if head.x < 0 || head.x >= GridSize || head.y < 0 || head.y >= GridSize {
      return true;
    }
    var i := 0;
    while i < |body|
      invariant 0 <= i <= |body|
      invariant forall k :: 0 <= k < i ==> body[k] != head
    {
      if head.x == body[i].x && head.y == body[i].y {
        return true;
      }
      i := i + 1;
    }
    return false;
  }

  /** A cell outside the grid is a collision whatever the body. */
  lemma WallCollides(head: Pos, body: seq<Pos>)
    requires head.x < 0 || head.x >= GridSize || head.y < 0 || head.y >= GridSize
    ensures Collides(head, body)
  {
  }

  /** The check runs against the body before the tail moves: stepping into the
      cell the tail is about to leave is still a collision. */
  lemma TailCellCollides()
    ensures ValidSnake([Pos(5, 5), Pos(6, 5), Pos(6, 6), Pos(5, 6)])
    ensures Plus(Pos(5, 5), Pos(0, 1)) == Pos(5, 6)
    ensures Collides(Pos(5, 6), [Pos(5, 5), Pos(6, 5), Pos(6, 6), Pos(5, 6)])
  {
  }

  // ---------------------------------------------------------------------------
  // Moving the snake

  /** Prepending a head that does not collide, one step from the old head,
      keeps the snake invariants: this is the growing move. */
  lemma GrowKeepsValid(body: seq<Pos>, d: Pos)
    requires ValidSnake(body) && IsCardinal(d)
    requires !Collides(Plus(body[0], d), body)
    ensures ValidSnake([Plus(body[0], d)] + body)
  {
  }

  /** Dropping the last cell of a snake of two or more keeps the invariants. */
  lemma DropTailKeepsValid(s: seq<Pos>)
    requires ValidSnake(s) && |s| >= 2
    ensures ValidSnake(s[..|s| - 1])
  {
  }

  /** The ordinary move, head in and tail out, keeps the invariants and the
      length. */
  lemma StepKeepsValid(body: seq<Pos>, d: Pos)
    requires ValidSnake(body) && IsCardinal(d)
    requires !Collides(Plus(body[0], d), body)
    ensures |([Plus(body[0], d)] + body)[..|body|]| == |body|
    ensures ValidSnake(([Plus(body[0], d)] + body)[..|body|])
  {
    GrowKeepsValid(body, d);
    DropTailKeepsValid([Plus(body[0], d)] + body);
  }

  // ---------------------------------------------------------------------------
  // Direction changes

  /** The four directions a key or a swipe can ask for. */
  datatype Heading = Up | Down | Left | Right

  /** Screen coordinates: y grows downwards, so Up is (0,-1). */
  function Vector(h: Heading): (d: Pos)
    ensures IsCardinal(d)
  {
    match h
    case Up => Pos(0, -1)
    case Down => Pos(0, 1)
    case Left => Pos(-1, 0)
    case Right => Pos(1, 0)
  }

  /** The acceptance rule shared by both input sources: a vertical request is
      taken only while the previous direction has no vertical part, a
      horizontal one only while it has no horizontal part. */
  predicate Accepts(prev: Pos, h: Heading) {
    if h == Up || h == Down then prev.y == 0 else prev.x == 0
  }

  /** Reference definition of one direction update: the requested heading if
      there is one and it is accepted, and otherwise the previous direction. */
  function TurnTo(request: Option<Heading>, prev: Pos): Pos {
    if request.Some? && Accepts(prev, request.value) then Vector(request.value) else prev
  }

  /** The arrow key, if any, that a key name stands for. */
  function KeyHeading(key: string): Option<Heading> {
    if key == "ArrowUp" then Some(Up)
    else if key == "ArrowDown" then Some(Down)
    else if key == "ArrowLeft" then Some(Left)
    else if key == "ArrowRight" then Some(Right)
    else None
  }

  /** The direction updater run on a key press, applied to the most recently
      accepted direction. */
  function KeyTurn(key: string, prevDir: Pos): (r: Pos)
    ensures r == TurnTo(KeyHeading(key), prevDir)
    ensures IsCardinal(prevDir) ==> IsCardinal(r)
  {
    if key == "ArrowUp" && prevDir.y == 0 then Pos(0, -1)
    else if key == "ArrowDown" && prevDir.y == 0 then Pos(0, 1)
    else if key == "ArrowLeft" && prevDir.x == 0 then Pos(-1, 0)
    else if key == "ArrowRight" && prevDir.x == 0 then Pos(1, 0)
    else prevDir
  }

  function Abs(n: int): nat {
    if n < 0 then -n else n
  }

  /** The heading a swipe asks for: the axis with the strictly larger movement
      wins, a tie goes to the vertical axis, and the sign on that axis picks
      the way. No movement at all asks for nothing. */
  function SwipeHeading(dx: int, dy: int): (h: Option<Heading>)
    ensures h.None? <==> dx == 0 && dy == 0
    ensures h.Some? ==> (Vector(h.value).y == 0 <==> Abs(dx) > Abs(dy))
    ensures h.Some? ==> Vector(h.value).x * dx > 0 || Vector(h.value).y * dy > 0
  {
    if Abs(dx) > Abs(dy) then
      if dx > 0 then Some(Right) else if dx < 0 then Some(Left) else None
    else
      if dy > 0 then Some(Down) else if dy < 0 then Some(Up) else None
  }

  /** The direction updater run when a swipe ends, with the swipe's movement
      dx, dy; it agrees with the key updater for the heading the swipe asks
      for. */
  function SwipeTurn(dx: int, dy: int, prevDir: Pos): (r: Pos)
    ensures r == TurnTo(SwipeHeading(dx, dy), prevDir)
    ensures IsCardinal(prevDir) ==> IsCardinal(r)
  {
    if Abs(dx) > Abs(dy) then
      if dx > 0 && prevDir.x == 0 then Pos(1, 0)
      else if dx < 0 && prevDir.x == 0 then Pos(-1, 0)
      else prevDir
    else
      if dy > 0 && prevDir.y == 0 then Pos(0, 1)
      else if dy < 0 && prevDir.y == 0 then Pos(0, -1)
      else prevDir
  }

  /** From a cardinal direction, an update changes the direction exactly when
      a heading is requested and it is perpendicular to the previous one. */
  lemma TurnChangesIffPerpendicular(request: Option<Heading>, prev: Pos)
    requires IsCardinal(prev)
    ensures TurnTo(request, prev) != prev <==>
              request.Some? &&
              Vector(request.value).x * prev.x + Vector(request.value).y * prev.y == 0
  {
  }

  /** A single update never turns a cardinal direction into its reverse. */
  lemma TurnNeverReverses(request: Option<Heading>, prev: Pos)
    requires IsCardinal(prev)
    ensures TurnTo(request, prev) != Neg(prev)
  {
  }

  /** Acceptance is judged against the last accepted direction, not the one
      the last tick moved in: two key presses between ticks reverse it. */
  lemma TwoKeysCanReverse()
    ensures KeyTurn("ArrowLeft", KeyTurn("ArrowDown", Pos(1, 0))) == Neg(Pos(1, 0))
  {
  }

  // ---------------------------------------------------------------------------
  // The game state

  class SnakeGame {
    /** Head first. */
    var snake: seq<Pos>
    var food: Pos
    var direction: Pos
    var gameOver: bool
    var score: int
    var touchStart: Option<Pos>

    /** The state invariant: a valid snake, food and direction of the right
        kind, and a score that is the reward times the snake's growth. */
    ghost predicate Valid()
      reads this
    {
      && ValidSnake(snake)
      && InGrid(food)
      && IsCardinal(direction)
      && score == Reward * (|snake| - 1)
    }

    /** The state the component starts in. */
    constructor ()
      ensures Valid()
      ensures snake == InitialSnake && food == InitialFood && direction == InitialDirection
      ensures !gameOver && score == 0 && touchStart == None
    {
      snake := InitialSnake;
      food := InitialFood;
      direction := InitialDirection;
      gameOver := false;
      score := 0;
      touchStart := None;
    }

    /** One timer tick. `newFood` is the cell the random food generator would
        produce; it is used only when the snake eats. The direction is read
        from the current state. */
    method Tick(newFood: Pos)
      requires Valid() && InGrid(newFood)
      modifies this`snake, this`food, this`gameOver, this`score
      ensures Valid()
      ensures direction == old(direction) && touchStart == old(touchStart)
      // a finished game does not move
      ensures old(gameOver) ==>
                gameOver && snake == old(snake) && food == old(food) && score == old(score)
      // a collision ends the game and moves nothing
      ensures !old(gameOver) && Collides(Plus(old(snake)[0], direction), old(snake)) ==>
                gameOver && snake == old(snake) && food == old(food) && score == old(score)
      // eating: grow by the new head, score the reward, place new food
      ensures !old(gameOver) && !Collides(Plus(old(snake)[0], direction), old(snake))
              && Plus(old(snake)[0], direction) == old(food) ==>
                && !gameOver
                && snake == [Plus(old(snake)[0], direction)] + old(snake)
                && score == old(score) + Reward
                && food == newFood
      // any other move: new head in, tail out
      ensures !old(gameOver) && !Collides(Plus(old(snake)[0], direction), old(snake))
              && Plus(old(snake)[0], direction) != old(food) ==>
                && !gameOver
                && snake == ([Plus(old(snake)[0], direction)] + old(snake))[..|old(snake)|]
                && |snake| == |old(snake)|
                && score == old(score) && food == old(food)
    {
      if gameOver {
        return;
      }
      var head := snake[0];
      var newHead := Pos(head.x + direction.x, head.y + direction.y);
      var hit := CheckCollision(newHead, snake);
      if hit {
        gameOver := true;
        return;
      }
      GrowKeepsValid(snake, direction);
      var newSnake := [newHead] + snake;
      if newHead.x == food.x && newHead.y == food.y {
        score := score + Reward;
        food := newFood;
      } else {
        StepKeepsValid(snake, direction);
        newSnake := newSnake[..|newSnake| - 1];
      }
      snake := newSnake;
    }

    /** A key press: the direction updater applied to the current direction. */
    method KeyDown(key: string)
      requires Valid()
      modifies this`direction
      ensures Valid()
      ensures direction == KeyTurn(key, old(direction))
    {
      direction := KeyTurn(key, direction);
    }

    /** The first finger of a touch is recorded as the swipe's start. */
    method TouchStart(p: Pos)
      requires Valid()
      modifies this`touchStart
      ensures Valid()
      ensures touchStart == Some(p)
    {
      touchStart := Some(p);
    }

    /** The end of a swipe: without a recorded start nothing happens;
        otherwise the swipe turns the snake and the start is cleared. */
    method TouchEnd(p: Pos)
      requires Valid()
      modifies this`direction, this`touchStart
      ensures Valid()
      ensures old(touchStart).None? ==> direction == old(direction) && touchStart == None
      ensures old(touchStart).Some? ==>
                && direction == SwipeTurn(p.x - old(touchStart).value.x,
                                          p.y - old(touchStart).value.y, old(direction))
                && touchStart == None
    {
      if touchStart.None? {
        return;
      }
      var deltaX := p.x - touchStart.value.x;
      var deltaY := p.y - touchStart.value.y;
      direction := SwipeTurn(deltaX, deltaY, direction);
      touchStart := None;
    }

    /** Back to the initial snake and direction with a fresh food cell,
        whatever the state was; a recorded touch start is kept. */
    method Reset(newFood: Pos)
      requires Valid() && InGrid(newFood)
      modifies this`snake, this`direction, this`gameOver, this`score, this`food
      ensures Valid()
      ensures snake == InitialSnake && direction == InitialDirection
      ensures !gameOver && score == 0 && food == newFood
      ensures touchStart == old(touchStart)
    {
      snake := InitialSnake;
      direction := InitialDirection;
      gameOver := false;
      score := 0;
      food := newFood;
    }
  }

  /** A client of the class: two key presses before the first tick turn the
      initial rightward heading into its reverse, and the tick then moves the
      one-cell snake left. */
  method ReverseBeforeFirstTick() {
    var g := new SnakeGame();
    g.KeyDown("ArrowDown");
    g.KeyDown("ArrowLeft");
    assert g.direction == Pos(-1, 0);
    assert !Collides(Pos(9, 10), [Pos(10, 10)]);
    g.Tick(Pos(0, 0));
    assert g.snake == [Pos(9, 10)] && g.score == 0 && !g.gameOver;
  }

  /** The score is always a non-negative multiple of the reward. */
  lemma ScoreIsMultipleOfReward(g: SnakeGame)
    requires g.Valid()
    ensures g.score >= 0 && g.score % Reward == 0
  {
  }
}
