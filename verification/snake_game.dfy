/**
 * The imperative part of the snake engine: the in-place shift of the body,
 * the nested loops that rebuild the grid and collect the empty cells, and
 * the game object whose step moves the snake, tests for a collision, grows
 * it and places new food. Random draws are parameters in [0, 1).
 */
module SnakeGame {
  import opened Wrappers
  import opened Playground
  import opened GameTimer

  /** `getUpdatedSnakePositionInTheGround`: every segment takes its predecessor's place, the head goes first. */
  method ShiftBody(positions: seq<Pos>, headX: int, headY: int) returns (r: seq<Pos>)
    ensures |r| == if |positions| == 0 then 1 else |positions|
    ensures r[0] == Pos(headX, headY)
    ensures forall k :: 1 <= k < |r| ==> r[k] == positions[k - 1]
    ensures r == Shifted(positions, Pos(headX, headY))
  {
    r := positions;
    if |r| == 0 {
      // assigning index 0 of an empty array gives a one-element array
      r := [Pos(headX, headY)];
      return;
    }
    var previous := r[0];
    var i := 1;
    while i < |r|
      invariant 1 <= i <= |r| == |positions|
      invariant previous == positions[i - 1]
      invariant r[0] == positions[0]
      invariant forall k :: 1 <= k < i ==> r[k] == positions[k - 1]
      invariant forall k :: i <= k < |r| ==> r[k] == positions[k]
    {
      var temp := r[i];
      r := r[i := previous];
      previous := temp;
      i := i + 1;
    }
    r := r[0 := Pos(headX, headY)];
  }

  function SetCell(g: Grid, i: nat, j: nat, v: Cell): (h: Grid)
    requires IsBoard(g) && i < Width && j < Height
    ensures IsBoard(h)
    ensures forall a, b :: 0 <= a < Width && 0 <= b < Height ==>
      h[a][b] == if a == i && b == j then v else g[a][b]
  {
    g[i := g[i][j := v]]
  }

  /** `updateGround`: nothing on a self-collision, otherwise a fresh grid drawn from the body and the food. */
  method UpdateGround(positions: seq<Pos>, fruit: Pos) returns (r: Option<Grid>)
    requires |positions| >= 1
    ensures r == Ground(positions, fruit)
    ensures r.None? <==> IsGameOver(positions)
  {
    if IsGameOver(positions) {
      return None;
    }
    var ground := GeneratePlayground();
    var stringified := StringifyPositions(positions);
    var foodKey := Key(fruit);
    var i := 0;
    while i < |ground|
      invariant 0 <= i <= Width && IsBoard(ground)
      invariant forall a, b :: 0 <= a < Width && 0 <= b < Height ==>
        ground[a][b] == if a < i then CellAt(positions, fruit, Pos(a, b)) else Empty
    {
      var j := 0;
      while j < |ground|
        invariant 0 <= j <= Height && IsBoard(ground)
        invariant forall a, b :: 0 <= a < Width && 0 <= b < Height ==>
          ground[a][b] == if a < i || (a == i && b < j) then CellAt(positions, fruit, Pos(a, b)) else Empty
      {
        var here := Key(Pos(i, j));
        KeyInjective(positions[0], Pos(i, j));
        KeyInjective(fruit, Pos(i, j));
        // the successive writes to `newGround[i][j]`; the last one stays
        var cell := ground[i][j];
        if here in stringified {
          // `indexOf(here) === 0` is the head's key being `here`
          if stringified[0] == here {
            cell := SnakeHead;
          } else {
            cell := SnakeBody;
          }
        }
        if here == foodKey {
          cell := Food;
        }
        assert cell == CellAt(positions, fruit, Pos(i, j));
        ground := SetCell(ground, i, j, cell);
        j := j + 1;
      }
      i := i + 1;
    }
    GroundShape(positions, fruit);
    BoardExtensionality(ground, Ground(positions, fruit).value);
    r := Some(ground);
  }

  /** The inner loop of `generateFood`: the EMPTY cells of row `i`, appended as keys. */
  method CollectRow(ground: Grid, i: nat, areas: seq<string>, ghost cells: seq<Pos>)
    returns (rowAreas: seq<string>, ghost rowCells: seq<Pos>)
    requires IsBoard(ground) && i < Width && areas == StringifyPositions(cells)
    ensures rowCells == cells + RowEmpties(ground, i, Height)
    ensures rowAreas == StringifyPositions(rowCells)
  {
    rowAreas, rowCells := areas, cells;
    var j := 0;
    while j < |ground|
      invariant 0 <= j <= Height
      invariant rowCells == cells + RowEmpties(ground, i, j)
      invariant rowAreas == StringifyPositions(rowCells)
    {
      if ground[i][j] == Empty {
        StringifyAppend(rowCells, Pos(i, j));
        rowCells := rowCells + [Pos(i, j)];
        rowAreas := rowAreas + [Key(Pos(i, j))];
      }
      j := j + 1;
    }
  }

  /** `generateFood`: collect the EMPTY cells as keys in row-major order, pick one, parse it back. */
  method GenerateFood(ground: Grid, rand: real) returns (r: Option<Pos>)
    requires IsBoard(ground) && 0.0 <= rand < 1.0
    ensures r == FoodChoice(ground, rand)
    ensures r.Some? ==> OnBoard(r.value) && ground[r.value.x][r.value.y] == Empty
  {
    var areas: seq<string> := [];
    ghost var cells: seq<Pos> := [];
    var i := 0;
    while i < |ground|
      invariant 0 <= i <= Width
      invariant cells == EmptiesBefore(ground, i)
      invariant areas == StringifyPositions(cells)
    {
      areas, cells := CollectRow(ground, i, areas, cells);
      i := i + 1;
    }
    FoodChoiceIsEmptyCell(ground, rand);
    if |areas| == 0 {
      // the source reads index 0 of an empty list and throws
      return None;
    }
    var picked := areas[Pick(rand, |areas|)];
    KeyRoundTrip(cells[Pick(rand, |areas|)]);
    var parts := ParseKey(picked);
    r := Some(Pos(parts[0].value, parts[1].value));
  }

  /** What one step of the game did. */
  datatype StepOutcome =
    | NotStarted   // no grid yet: nothing happens
    | BoardFull    // no EMPTY cell for the food: the source throws at this point
    | Collided     // the head ran into the body: the clock is stopped and the end is signalled
    | Moved        // an ordinary move
    | Ate          // the head reached the food: the snake grew and new food was placed

  /** The body the game starts with sits at (15, 15), one cell off the drawn head. */
  const StartPosition := Pos(Width / 2, Height / 2)

  /**
   * On the start grid the cell the snake really occupies is EMPTY while the
   * drawn head is not, so the first food can land on the snake.
   */
  lemma StartGroundMisplacesHead(g: Grid)
    requires IsBoard(g)
    requires forall i, j :: 0 <= i < Width && 0 <= j < Height ==>
      g[i][j] == if i == Width / 2 - 1 && j == Height / 2 - 1 then SnakeHead else Empty
    ensures StartPosition in EmptyCells(g)
    ensures Pos(Width / 2 - 1, Height / 2 - 1) !in EmptyCells(g)
    ensures exists rand :: 0.0 <= rand < 1.0 && FoodChoice(g, rand) == Some(StartPosition)
  {
    EmptyCellsMembership(g, StartPosition);
    EmptyCellsMembership(g, Pos(Width / 2 - 1, Height / 2 - 1));
    FoodChoiceReachesEveryEmptyCell(g, StartPosition);
  }

  class Game {
    /** The published grid; empty until the game is started. */
    var playground: Grid
    /** `snakePositionRef`: the segments, head first. */
    var body: seq<Pos>
    /** `foodRef`: unset until the first step places food. */
    var food: Option<Pos>
    /** `snakeHeadDirectionRef`: the latched direction. */
    var direction: Direction
    /** Whether the delayed end-of-game callback has been scheduled. */
    var endScheduled: bool
    const timer: Timer

    ghost predicate Valid()
      reads this`playground, this`body, this`food
    {
      && (playground != [] ==> IsBoard(playground) && |body| >= 1 && OnBoard(body[0]))
      && (food.Some? ==> OnBoard(food.value))
    }

    constructor ()
      ensures Valid()
      ensures playground == [] && body == [] && food == None && direction == Straight && !endScheduled
      ensures WellFormed(body, food)
      ensures fresh(timer) && timer.mode == DefaultMode && !timer.active && timer.pending == 0
      ensures timer.startTime == ResetValue && timer.time == ResetValue
    {
      playground := [];
      body := [];
      food := None;
      direction := Straight;
      endScheduled := false;
      timer := new Timer(DefaultMode);
    }

    /**
     * `placeSnake`: draws the head at (14, 14) on `ground` and sets the body to
     * the single segment (15, 15). An internal step of `StartGame`, which
     * re-establishes `Valid()` once the grid is published.
     */
    method PlaceSnake(ground: Grid) returns (tmp: Grid)
      requires IsBoard(ground)
      modifies this`body
      ensures body == [StartPosition]
      ensures IsBoard(tmp)
      ensures forall i, j :: 0 <= i < Width && 0 <= j < Height ==>
        tmp[i][j] == if i == Width / 2 - 1 && j == Height / 2 - 1 then SnakeHead else ground[i][j]
    {
      tmp := SetCell(ground, Width / 2 - 1, Height / 2 - 1, SnakeHead);
      body := [StartPosition];
    }

    /** `startGame`: publish the start grid and start the clock; food and direction are kept. */
    method StartGame(now: int)
      requires Valid()
      modifies this, timer
      ensures Valid()
      ensures IsBoard(playground) && body == [StartPosition]
      ensures forall i, j :: 0 <= i < Width && 0 <= j < Height ==>
        playground[i][j] == if i == Width / 2 - 1 && j == Height / 2 - 1 then SnakeHead else Empty
      ensures food == old(food) && direction == old(direction) && endScheduled == old(endScheduled)
      ensures WellFormed(body, food)
      ensures timer.active && timer.startTime == now && timer.time == 0
      ensures timer.pending == old(timer.pending) + 1
    {
      var ground := GeneratePlayground();
      playground := PlaceSnake(ground);
      timer.Start(now);
    }

    /** `onKeyPress`: four key codes set the direction, reversal included; other keys change nothing. */
    method OnKeyPress(key: string)
      modifies this`direction
      ensures key == "Numpad8" ==> direction == Upward
      ensures key == "Numpad5" ==> direction == Downward
      ensures key == "Numpad6" ==> direction == Straight
      ensures key == "Numpad4" ==> direction == Backward
      ensures key != "Numpad8" && key != "Numpad5" && key != "Numpad6" && key != "Numpad4" ==>
        direction == old(direction)
    {
      if key == "Numpad8" {
        direction := Upward;
      } else if key == "Numpad5" {
        direction := Downward;
      } else if key == "Numpad6" {
        direction := Straight;
      } else if key == "Numpad4" {
        direction := Backward;
      }
    }

    /**
     * `increaseSnakeBody`: append one segment past the last, placed by the
     * current direction. An internal step of `MoveSnake`; the head, and so
     * `Valid()`, is untouched.
     */
    method IncreaseSnakeBody()
      requires |body| >= 1
      modifies this`body
      ensures body == old(body) + [TailExtension(old(body)[|old(body)| - 1], direction)]
    {
      var last := body[|body| - 1];
      body := body + [TailExtension(last, direction)];
    }

    /** The food the step works with: the current one, or the one drawn on the published grid. */
    ghost function StepFood(rand: real): Option<Pos>
      reads this`playground, this`body, this`food
      requires Valid() && playground != [] && 0.0 <= rand < 1.0
    {
      if food.Some? then food else FoodChoice(playground, rand)
    }

    /** The body after the head moves one cell in the latched direction. */
    ghost function MovedBody(): seq<Pos>
      reads this`body, this`direction
      requires |body| >= 1
    {
      Shifted(body, MoveHead(body[0], direction))
    }

    /**
     * The eating branch of `moveSnake`: grow the snake, then draw new food on
     * `grid`, the grid rebuilt before the growth. An internal step of
     * `MoveSnake`, which states `Valid()` for the whole step.
     */
    method EatFood(grid: Grid, eatRand: real) returns (placed: bool)
      requires |body| >= 1 && IsBoard(grid) && 0.0 <= eatRand < 1.0
      modifies this`body, this`food
      ensures body == old(body) + [TailExtension(old(body)[|old(body)| - 1], direction)]
      ensures placed <==> FoodChoice(grid, eatRand).Some?
      ensures food == if placed then FoodChoice(grid, eatRand) else old(food)
      ensures placed ==> OnBoard(food.value) && grid[food.value.x][food.value.y] == Empty
    {
      IncreaseSnakeBody();
      var next := GenerateFood(grid, eatRand);
      if next.None? {
        // the source throws here, with the body already grown
        return false;
      }
      // the grid drawn for the new food is never used
      var discarded := UpdateGround(body, next.value);
      food := next;
      placed := true;
    }

    /**
     * The game-over branch of `moveSnake`: stop the clock and schedule the end
     * callback. An internal step of `MoveSnake`; no field `Valid()` reads changes.
     */
    method EndGame()
      modifies this`endScheduled, timer
      ensures endScheduled
      ensures timer.startTime == ResetValue && timer.time == ResetValue
      ensures timer.active == old(timer.active) && timer.pending == old(timer.pending)
    {
      timer.Stop();
      endScheduled := true;
    }

    /**
     * The branch of `moveSnake` taken when the shifted body does not collide:
     * rebuild the grid, and on eating grow and draw new food on that grid. An
     * internal step of `MoveSnake`, which states `Valid()` for the whole step.
     */
    method Redraw(eatRand: real) returns (outcome: StepOutcome)
      requires |body| >= 1 && !IsGameOver(body) && food.Some? && 0.0 <= eatRand < 1.0
      modifies this`body, this`food, this`playground
      ensures food.Some?
      ensures var grid := Ground(old(body), old(food).value).value;
        && (old(body)[0] != old(food).value ==>
              outcome == Moved && body == old(body) && food == old(food) && playground == grid)
        && (old(body)[0] == old(food).value ==>
              var next := FoodChoice(grid, eatRand);
              && body == old(body) + [TailExtension(old(body)[|old(body)| - 1], direction)]
              && (next.None? ==> outcome == BoardFull && food == old(food) && playground == old(playground))
              && (next.Some? ==> outcome == Ate && food == next && playground == grid))
      ensures outcome == Ate ==> OnBoard(food.value) && food.value !in body[..|body| - 1]
      ensures outcome != Ate ==> food == old(food)
      ensures playground == old(playground) || IsBoard(playground)
      ensures |body| >= 1 && body[0] == old(body)[0]
    {
      var updated := UpdateGround(body, food.value);
      // never null here: the shifted body does not collide
      var grid := updated.value;
      GroundShape(body, food.value);
      if IsSnakeAteFood(body, food.value) {
        ghost var fruit := food.value;
        ghost var moved := body;
        var placed := EatFood(grid, eatRand);
        if !placed {
          return BoardFull;
        }
        GroundCellMeaning(moved, fruit, food.value);
        assert body[..|body| - 1] == moved;
        outcome := Ate;
      } else {
        outcome := Moved;
      }
      playground := grid;
    }

    /** The first food of a game is drawn on the first step, when there is none yet. */
    method PlaceFirstFood(rand: real) returns (placed: bool)
      requires Valid() && playground != [] && 0.0 <= rand < 1.0
      modifies this`food
      ensures Valid()
      ensures food == old(StepFood(rand))
      ensures placed <==> food.Some?
    {
      if food.None? {
        food := GenerateFood(playground, rand);
      }
      placed := food.Some?;
    }

    /** The head moves one cell in the latched direction and the body follows it. */
    method ShiftSnake()
      requires Valid() && playground != []
      modifies this`body
      ensures Valid()
      ensures body == old(MovedBody())
      ensures |body| == |old(body)| && OnBoard(body[0])
    {
      var head := MoveHead(body[0], direction);
      body := ShiftBody(body, head.x, head.y);
    }

    /**
     * The part of `moveSnake` after the food is known: shift the body, then
     * end the game on a collision or redraw the board.
     */
    method Advance(eatRand: real) returns (outcome: StepOutcome)
      requires Valid() && playground != [] && food.Some? && 0.0 <= eatRand < 1.0
      modifies this`body, this`food, this`playground, this`endScheduled, timer
      ensures Valid()
      ensures var fruit := old(food).value;
        var moved := old(MovedBody());
        && (IsGameOver(moved) ==>
              && outcome == Collided && body == moved && food == old(food) && playground == old(playground)
              && endScheduled && timer.startTime == ResetValue && timer.time == ResetValue
              && timer.active == old(timer.active) && timer.pending == old(timer.pending))
        && (!IsGameOver(moved) ==> endScheduled == old(endScheduled) && unchanged(timer))
        && (!IsGameOver(moved) && moved[0] != fruit ==>
              && outcome == Moved && body == moved && food == old(food)
              && playground == Ground(moved, fruit).value
              && (old(WellFormed(body, food)) ==>
                    WellFormed(moved, Some(fruit))
                    && CountCells(Ground(moved, fruit).value, SnakeBody) == |moved| - 1))
        && (!IsGameOver(moved) && moved[0] == fruit ==>
              var grid := Ground(moved, fruit).value;
              var next := FoodChoice(grid, eatRand);
              var grown := moved + [TailExtension(moved[|moved| - 1], direction)];
              && body == grown
              && (next.None? ==> outcome == BoardFull && food == old(food) && playground == old(playground))
              && (next.Some? ==> outcome == Ate && food == next && playground == grid)
              && (old(WellFormed(body, food)) && next.Some? ==>
                    WellFormed(grown, next) && CountCells(grid, SnakeBody) == |grown| - 2))
      ensures outcome == Moved ==> |body| == |old(body)|
      ensures outcome == Ate ==> |body| == |old(body)| + 1 && food.value !in body[..|body| - 1]
    {
      ghost var wellFormed := WellFormed(body, food);
      ghost var before := body;
      ghost var head := MoveHead(body[0], direction);
      ghost var moved := MovedBody();
      // the shift updates the body in place, so it also stands when the game is over
      ShiftSnake();
      if IsGameOver(body) {
        EndGame();
        return Collided;
      }
      if wellFormed {
        StepPreservesWellFormed(before, food.value, head, TailExtension(moved[|moved| - 1], direction), eatRand);
      }
      outcome := Redraw(eatRand);
    }

    /**
     * `moveSnake`, one step of the game. `firstRand` is the draw for the first
     * food, `eatRand` the draw for the food that replaces an eaten one.
     */
    method MoveSnake(firstRand: real, eatRand: real) returns (outcome: StepOutcome)
      requires Valid()
      requires 0.0 <= firstRand < 1.0 && 0.0 <= eatRand < 1.0
      modifies this`body, this`food, this`playground, this`endScheduled, timer
      ensures Valid()
      ensures outcome == NotStarted <==> old(playground) == []
      ensures outcome == NotStarted ==>
        && body == old(body) && food == old(food) && playground == old(playground)
        && endScheduled == old(endScheduled) && unchanged(timer)
      ensures old(playground) != [] ==>
        var fruit := old(StepFood(firstRand));
        var moved := old(MovedBody());
        && (fruit.None? ==>
              && outcome == BoardFull && body == old(body) && food == None && playground == old(playground)
              && endScheduled == old(endScheduled) && unchanged(timer))
        && (fruit.Some? && IsGameOver(moved) ==>
              && outcome == Collided && body == moved && food == fruit && playground == old(playground)
              && endScheduled && timer.startTime == ResetValue && timer.time == ResetValue
              && timer.active == old(timer.active) && timer.pending == old(timer.pending))
        && (fruit.Some? && !IsGameOver(moved) ==> endScheduled == old(endScheduled) && unchanged(timer))
        && (fruit.Some? && !IsGameOver(moved) && moved[0] != fruit.value ==>
              && outcome == Moved && body == moved && food == fruit
              && playground == Ground(moved, fruit.value).value
              && (old(WellFormed(body, food)) ==>
                    WellFormed(moved, fruit)
                    && CountCells(Ground(moved, fruit.value).value, SnakeBody) == |moved| - 1))
        && (fruit.Some? && !IsGameOver(moved) && moved[0] == fruit.value ==>
              var grid := Ground(moved, fruit.value).value;
              var next := FoodChoice(grid, eatRand);
              var grown := moved + [TailExtension(moved[|moved| - 1], direction)];
              && body == grown
              && (next.None? ==> outcome == BoardFull && food == fruit && playground == old(playground))
              && (next.Some? ==> outcome == Ate && food == next && playground == grid)
              && (old(WellFormed(body, food)) && next.Some? ==>
                    WellFormed(grown, next) && CountCells(grid, SnakeBody) == |grown| - 2))
      ensures outcome == Moved ==> |body| == |old(body)|
      ensures outcome == Ate ==> |body| == |old(body)| + 1 && food.value !in body[..|body| - 1]
    {
      if playground == [] {
        return NotStarted;
      }
      ghost var fruit := StepFood(firstRand);
      ghost var moved := MovedBody();
      ghost var wellFormed := WellFormed(body, food);
      var placed := PlaceFirstFood(firstRand);
      if !placed {
        return BoardFull;
      }
      assert food == fruit && MovedBody() == moved;
      assert wellFormed ==> WellFormed(body, food);
      outcome := Advance(eatRand);
    }
  }
}
