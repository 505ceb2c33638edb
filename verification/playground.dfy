/**
 * The pure part of the snake engine: board geometry, the "x_y" position keys,
 * head movement, tail growth, the collision and eating tests, and the
 * specifications of the grid rebuild and of food placement.
 */
module Playground {
  import opened Wrappers
  import opened NumberText

  const Width := 30
  const Height := 30

  /** Cell values, in the order of their numeric codes 0..3. */
  datatype Cell = Empty | SnakeBody | SnakeHead | Food

  datatype Direction = Upward | Downward | Straight | Backward

  /** A position `[x, y]`; `x` indexes the outer array of the grid, `y` the inner one. */
  datatype Pos = Pos(x: int, y: int)

  type Grid = seq<seq<Cell>>

  predicate OnBoard(p: Pos) {
    0 <= p.x < Width && 0 <= p.y < Height
  }

  predicate IsBoard(g: Grid) {
    |g| == Width && forall i :: 0 <= i < |g| ==> |g[i]| == Height
  }

  /** A fresh Width x Height grid of empty cells. */
  function GeneratePlayground(): (g: Grid)
    ensures IsBoard(g)
    ensures forall i, j :: 0 <= i < Width && 0 <= j < Height ==> g[i][j] == Empty
  {
    seq(Width, _ => seq(Height, _ => Empty))
  }

  /** Two boards with the same cells are the same board. */
  lemma BoardExtensionality(g: Grid, h: Grid)
    requires IsBoard(g) && IsBoard(h)
    requires forall i, j :: 0 <= i < Width && 0 <= j < Height ==> g[i][j] == h[i][j]
    ensures g == h
  {
    forall i | 0 <= i < Width
      ensures g[i] == h[i]
    {
      assert forall j :: 0 <= j < Height ==> g[i][j] == h[i][j];
    }
  }

  // ---------------------------------------------------------------- position keys

  lemma NoUnderscoreInDecimal(i: int)
    ensures '_' !in IntToDecimal(i)
  {
  }

  /** `position.join("_")`, equally `${x}_${y}`. */
  function Key(p: Pos): string
  {
    IntToDecimal(p.x) + "_" + IntToDecimal(p.y)
  }

  /** A key splits on `_` into exactly the two coordinates' texts. */
  lemma KeySplits(p: Pos)
    ensures Split(Key(p), '_') == [IntToDecimal(p.x), IntToDecimal(p.y)]
  {
    var a, b := IntToDecimal(p.x), IntToDecimal(p.y);
    NoUnderscoreInDecimal(p.x);
    SplitAtFirstSeparator(a, '_', b);
    NoUnderscoreInDecimal(p.y);
    SplitWithoutSeparator(b, '_');
  }

  /** `key.split("_").map(parseInt)`: one number per piece, and a text without `_` is one piece. */
  function ParseKey(s: string): (r: seq<Option<int>>)
    ensures |r| == |Split(s, '_')| >= 1
    ensures '_' !in s ==> r == [ParseInt(s)]
  {
    var parts := Split(s, '_');
    SplitWithoutSeparator(s, '_');
    seq(|parts|, k requires 0 <= k < |parts| => ParseInt(parts[k]))
  }

  /** Comparing keys is comparing positions. */
  lemma KeyInjective(p: Pos, q: Pos)
    ensures Key(p) == Key(q) <==> p == q
  {
    if Key(p) == Key(q) {
      KeyRoundTrip(p);
      KeyRoundTrip(q);
    }
  }

  /**
   * `stringifyPositions`: one key per segment, and the key of a position is
   * among them exactly when the position is a segment.
   */
  function StringifyPositions(ps: seq<Pos>): (keys: seq<string>)
    ensures |keys| == |ps|
    ensures forall p {:trigger Key(p) in keys} :: Key(p) in keys <==> p in ps
  {
    var keys := seq(|ps|, k requires 0 <= k < |ps| => Key(ps[k]));
    assert forall p :: Key(p) in keys <==> p in ps by {
      forall p
        ensures Key(p) in keys <==> p in ps
      {
        if Key(p) in keys {
          var k :| 0 <= k < |keys| && keys[k] == Key(p);
          KeyInjective(ps[k], p);
        }
        if p in ps {
          var k :| 0 <= k < |ps| && ps[k] == p;
          assert keys[k] == Key(p);
        }
      }
    }
    keys
  }

  lemma StringifyAppend(ps: seq<Pos>, p: Pos)
    ensures StringifyPositions(ps + [p]) == StringifyPositions(ps) + [Key(p)]
  {
  }

  /** Splitting a key on `_` and parsing both halves gives back the position. */
  lemma KeyRoundTrip(p: Pos)
    ensures ParseKey(Key(p)) == [Some(p.x), Some(p.y)]
  {
    KeySplits(p);
    ParseIntOfDecimal(p.x);
    ParseIntOfDecimal(p.y);
  }

  // ---------------------------------------------------------------- tests on the body

  /** `isGameOver`: the head's key occurs among the keys of the segments after it. */
  function IsGameOver(ps: seq<Pos>): (over: bool)
    requires |ps| >= 1
    ensures over <==> exists k :: 1 <= k < |ps| && ps[k] == ps[0]
  {
    Key(ps[0]) in StringifyPositions(ps[1..])
  }

  /** `isSnakeAteFood`: the head's key equals the food's key. */
  function IsSnakeAteFood(ps: seq<Pos>, fruit: Pos): (ate: bool)
    requires |ps| >= 1
    ensures ate <==> ps[0] == fruit
  {
    KeyInjective(ps[0], fruit);
    Key(ps[0]) == Key(fruit)
  }

  // ---------------------------------------------------------------- movement

  /** JavaScript's `%`, whose remainder takes the sign of the dividend. */
  function JsRem(a: int, n: int): int
    requires n > 0
  {
    if a >= 0 then a % n else -((-a) % n)
  }

  /** The head's next position, as the step computes it for each direction. */
  function MoveHead(head: Pos, d: Direction): (h: Pos)
    ensures d == Straight || d == Backward ==> h.y == head.y
    ensures d == Upward || d == Downward ==> h.x == head.x
    ensures OnBoard(head) ==> OnBoard(h) && h != head
  {
    match d
    case Upward => Pos(head.x, if head.y - 1 < 0 then Height - 1 else JsRem(head.y - 1, Height))
    case Downward => Pos(head.x, JsRem(head.y + 1, Height))
    case Straight => Pos(JsRem(head.x + 1, Width), head.y)
    case Backward => Pos(if head.x - 1 < 0 then Width - 1 else JsRem(head.x - 1, Width), head.y)
  }

  function DeltaX(d: Direction): int {
    match d
    case Straight => 1
    case Backward => -1
    case _ => 0
  }

  function DeltaY(d: Direction): int {
    match d
    case Downward => 1
    case Upward => -1
    case _ => 0
  }

  /** On the board, a move is one step along one axis, wrapping toroidally. */
  lemma MoveHeadWraps(head: Pos, d: Direction)
    requires OnBoard(head)
    ensures OnBoard(MoveHead(head, d))
    ensures MoveHead(head, d) ==
      Pos((head.x + DeltaX(d) + Width) % Width, (head.y + DeltaY(d) + Height) % Height)
  {
  }

  lemma MoveHeadAtEdges(x: int, y: int)
    ensures MoveHead(Pos(Width - 1, y), Straight) == Pos(0, y)
    ensures MoveHead(Pos(0, y), Backward) == Pos(Width - 1, y)
    ensures MoveHead(Pos(x, Height - 1), Downward) == Pos(x, 0)
    ensures MoveHead(Pos(x, 0), Upward) == Pos(x, Height - 1)
  {
  }

  /** The segment `increaseSnakeBody` appends after the last one `tail`. */
  function TailExtension(tail: Pos, d: Direction): (t: Pos)
    ensures d == Straight || d == Backward ==> t.y == tail.y
    ensures d == Upward || d == Downward ==> t.x == tail.x
    ensures OnBoard(tail) ==> t != tail
  {
    match d
    case Straight => Pos(if tail.x - 1 < 0 then Width - 1 else JsRem(tail.x - 1, Width), tail.y)
    case Backward => Pos(tail.x + 1 % Width, tail.y)
    case Downward => Pos(tail.x, tail.y + 1 % Height)
    case Upward => Pos(tail.x, if tail.y - 1 < 0 then Height - 1 else JsRem(tail.y - 1, Height))
  }

  /**
   * Growth goes against the movement horizontally and along it vertically; the
   * Backward and Downward cases do not wrap, so from the last row or column
   * the new segment lies off the board.
   */
  lemma TailExtensionVersusMove(tail: Pos)
    requires OnBoard(tail)
    ensures TailExtension(tail, Straight) == MoveHead(tail, Backward)
    ensures TailExtension(tail, Upward) == MoveHead(tail, Upward)
    ensures tail.x < Width - 1 ==> TailExtension(tail, Backward) == MoveHead(tail, Straight)
    ensures tail.y < Height - 1 ==> TailExtension(tail, Downward) == MoveHead(tail, Downward)
    ensures tail.x == Width - 1 ==> !OnBoard(TailExtension(tail, Backward))
    ensures tail.y == Height - 1 ==> !OnBoard(TailExtension(tail, Downward))
  {
  }

  /** The body after the shift: the new head, then every old segment but the last. */
  function Shifted(body: seq<Pos>, head: Pos): seq<Pos> {
    [head] + (if |body| == 0 then [] else body[..|body| - 1])
  }

  /**
   * Testing the shifted body compares the new head with the old body minus its
   * old tail, old head included.
   */
  lemma CollisionAfterShift(body: seq<Pos>, head: Pos)
    requires |body| >= 1
    ensures IsGameOver(Shifted(body, head)) <==> head in body[..|body| - 1]
  {
    var s := Shifted(body, head);
    if head in body[..|body| - 1] {
      var k :| 0 <= k < |body| - 1 && body[k] == head;
      assert s[k + 1] == head;
    }
    if IsGameOver(s) {
      var k :| 1 <= k < |s| && s[k] == s[0];
      assert body[..|body| - 1][k - 1] == head;
    }
  }

  /** Turning back onto the neck is accepted and ends the game once the body has three segments. */
  lemma ReversalCollides(body: seq<Pos>, d: Direction)
    requires |body| >= 3 && MoveHead(body[0], d) == body[1]
    ensures IsGameOver(Shifted(body, MoveHead(body[0], d)))
  {
    CollisionAfterShift(body, body[1]);
    assert body[..|body| - 1][1] == body[1];
  }

  /** With two segments the neck is the tail, which moves away in the same step: head and tail swap. */
  lemma ReversalOfTwoSegments(body: seq<Pos>, d: Direction)
    requires |body| == 2 && body[0] != body[1] && MoveHead(body[0], d) == body[1]
    ensures Shifted(body, MoveHead(body[0], d)) == [body[1], body[0]]
    ensures !IsGameOver(Shifted(body, MoveHead(body[0], d)))
  {
    CollisionAfterShift(body, body[1]);
  }

  // ---------------------------------------------------------------- grid rebuild

  /** What `updateGround` writes at `p`: food over head over body over empty. */
  function CellAt(body: seq<Pos>, fruit: Pos, p: Pos): Cell
    requires |body| >= 1
  {
    if p == fruit then Food
    else if p == body[0] then SnakeHead
    else if p in body then SnakeBody
    else Empty
  }

  /** The specification of `updateGround`: nothing on a self-collision, else the full grid. */
  function Ground(body: seq<Pos>, fruit: Pos): Option<Grid>
    requires |body| >= 1
  {
    if IsGameOver(body) then None
    else Some(seq(Width, i => seq(Height, j => CellAt(body, fruit, Pos(i, j)))))
  }

  lemma GroundShape(body: seq<Pos>, fruit: Pos)
    requires |body| >= 1 && !IsGameOver(body)
    ensures IsBoard(Ground(body, fruit).value)
    ensures forall i, j :: 0 <= i < Width && 0 <= j < Height ==>
      Ground(body, fruit).value[i][j] == CellAt(body, fruit, Pos(i, j))
  {
  }

  /** What each cell value of a rebuilt grid says about the snake and the food. */
  lemma GroundCellMeaning(body: seq<Pos>, fruit: Pos, p: Pos)
    requires |body| >= 1 && !IsGameOver(body) && OnBoard(p)
    ensures var c := Ground(body, fruit).value[p.x][p.y];
      && (c == Food <==> p == fruit)
      && (c == SnakeHead <==> p == body[0] && p != fruit)
      && (c == SnakeBody <==> p in body[1..] && p != fruit)
      && (c == Empty <==> p !in body && p != fruit)
  {
    GroundShape(body, fruit);
    if p in body[1..] {
      var k :| 0 <= k < |body[1..]| && body[1..][k] == p;
      assert body[k + 1] == p;
    }
    if p in body && p != body[0] {
      var k :| 0 <= k < |body| && body[k] == p;
      assert body[1..][k - 1] == p;
    }
  }

  function CountInRow(row: seq<Cell>, v: Cell): nat {
    if |row| == 0 then 0 else CountInRow(row[..|row| - 1], v) + (if row[|row| - 1] == v then 1 else 0)
  }

  function CountCells(g: Grid, v: Cell): nat {
    if |g| == 0 then 0 else CountCells(g[..|g| - 1], v) + CountInRow(g[|g| - 1], v)
  }

  lemma {:induction false} CountInRowSingle(row: seq<Cell>, v: Cell, j: int)
    requires forall k :: 0 <= k < |row| ==> (row[k] == v <==> k == j)
    ensures CountInRow(row, v) == if 0 <= j < |row| then 1 else 0
  {
    if |row| > 0 {
      var front := row[..|row| - 1];
      assert forall k :: 0 <= k < |front| ==> front[k] == row[k];
      CountInRowSingle(front, v, j);
    }
  }

  lemma {:induction false} CountCellsSingle(g: Grid, v: Cell, p: Pos)
    requires forall i, j :: 0 <= i < |g| && 0 <= j < |g[i]| ==> (g[i][j] == v <==> Pos(i, j) == p)
    ensures CountCells(g, v) == if 0 <= p.x < |g| && 0 <= p.y < |g[p.x]| then 1 else 0
  {
    if |g| > 0 {
      var last := |g| - 1;
      var front := g[..last];
      assert forall i :: 0 <= i < |front| ==> front[i] == g[i];
      CountCellsSingle(front, v, p);
      CountInRowSingle(g[last], v, if p.x == last then p.y else -1);
    }
  }

  /** A rebuilt grid has one FOOD cell when the food is on the board, and one HEAD cell unless the food covers it. */
  lemma GroundCounts(body: seq<Pos>, fruit: Pos)
    requires |body| >= 1 && !IsGameOver(body)
    ensures CountCells(Ground(body, fruit).value, Food) == if OnBoard(fruit) then 1 else 0
    ensures CountCells(Ground(body, fruit).value, SnakeHead) ==
      if OnBoard(body[0]) && body[0] != fruit then 1 else 0
  {
    var g := Ground(body, fruit).value;
    GroundShape(body, fruit);
    var head := if body[0] != fruit then body[0] else Pos(-1, -1);
    forall i, j | 0 <= i < |g| && 0 <= j < |g[i]|
      ensures g[i][j] == Food <==> Pos(i, j) == fruit
      ensures g[i][j] == SnakeHead <==> Pos(i, j) == head
    {
      GroundCellMeaning(body, fruit, Pos(i, j));
    }
    CountCellsSingle(g, Food, fruit);
    CountCellsSingle(g, SnakeHead, head);
  }

  /** Overwriting one `v` cell of a row with another value lowers its count by one. */
  lemma {:induction false} CountInRowUpdate(row: seq<Cell>, j: int, w: Cell, v: Cell)
    requires 0 <= j < |row| && row[j] == v && w != v
    ensures CountInRow(row, v) == CountInRow(row[j := w], v) + 1
  {
    var last := |row| - 1;
    if j == last {
      assert row[j := w][..last] == row[..last];
    } else {
      assert row[j := w][..last] == row[..last][j := w];
      CountInRowUpdate(row[..last], j, w, v);
    }
  }

  /** Overwriting one `v` cell of a grid with another value lowers its count by one. */
  lemma {:induction false} CountCellsUpdate(g: Grid, p: Pos, w: Cell, v: Cell)
    requires 0 <= p.x < |g| && 0 <= p.y < |g[p.x]| && g[p.x][p.y] == v && w != v
    ensures CountCells(g, v) == CountCells(g[p.x := g[p.x][p.y := w]], v) + 1
  {
    var last := |g| - 1;
    var h := g[p.x := g[p.x][p.y := w]];
    if p.x == last {
      assert h[..last] == g[..last];
      CountInRowUpdate(g[last], p.y, w, v);
    } else {
      assert h[..last] == g[..last][p.x := g[..last][p.x][p.y := w]];
      CountCellsUpdate(g[..last], p, w, v);
    }
  }

  /** No position occurs twice. */
  predicate Distinct(ps: seq<Pos>) {
    forall a, b :: 0 <= a < b < |ps| ==> ps[a] != ps[b]
  }

  predicate AllOnBoard(ps: seq<Pos>) {
    forall k :: 0 <= k < |ps| ==> OnBoard(ps[k])
  }

  /** When the `v` cells of a board are exactly the distinct on-board positions `ps`, there are `|ps|` of them. */
  lemma {:induction false} CountCellsOfDistinct(g: Grid, v: Cell, ps: seq<Pos>)
    requires IsBoard(g) && Distinct(ps) && AllOnBoard(ps)
    requires forall i, j :: 0 <= i < Width && 0 <= j < Height ==> (g[i][j] == v <==> Pos(i, j) in ps)
    ensures CountCells(g, v) == |ps|
    decreases |ps|
  {
    if |ps| == 0 {
      CountCellsSingle(g, v, Pos(-1, -1));
    } else {
      var p := ps[|ps| - 1];
      var rest := ps[..|ps| - 1];
      var w := if v == Empty then SnakeBody else Empty;
      var h := g[p.x := g[p.x][p.y := w]];
      assert ps == rest + [p];
      assert p !in rest;
      forall i, j | 0 <= i < Width && 0 <= j < Height
        ensures h[i][j] == v <==> Pos(i, j) in rest
      {
      }
      CountCellsOfDistinct(h, v, rest);
      CountCellsUpdate(g, p, w, v);
    }
  }

  /**
   * A rebuilt grid shows every segment after the head as BODY when those
   * segments are distinct, on the board and clear of the food.
   */
  lemma GroundBodyCount(body: seq<Pos>, fruit: Pos)
    requires |body| >= 1 && !IsGameOver(body)
    requires Distinct(body[1..]) && AllOnBoard(body[1..]) && fruit !in body[1..]
    ensures CountCells(Ground(body, fruit).value, SnakeBody) == |body| - 1
  {
    var g := Ground(body, fruit).value;
    GroundShape(body, fruit);
    forall i, j | 0 <= i < Width && 0 <= j < Height
      ensures g[i][j] == SnakeBody <==> Pos(i, j) in body[1..]
    {
      GroundCellMeaning(body, fruit, Pos(i, j));
    }
    CountCellsOfDistinct(g, SnakeBody, body[1..]);
  }

  // ---------------------------------------------------------------- the body a game keeps

  /**
   * What a running game keeps true of its body until a collision: the
   * segments before the last are distinct, on the board and clear of the
   * food, and there is no food only while the snake has at most one segment.
   * The last segment is left free: a grown one may lie off the board or under
   * the food, and the next shift drops it before any grid shows it.
   */
  predicate WellFormed(body: seq<Pos>, food: Option<Pos>) {
    && (food.None? ==> |body| <= 1)
    && (|body| >= 1 ==>
          var settled := body[..|body| - 1];
          Distinct(settled) && AllOnBoard(settled) && (food.Some? ==> food.value !in settled))
  }

  /**
   * A step without collision from a well-formed body gives a shifted body
   * that is distinct, on the board, and clear of the food behind its head.
   */
  lemma StepKeepsWellFormed(body: seq<Pos>, fruit: Pos, head: Pos)
    requires |body| >= 1 && WellFormed(body, Some(fruit)) && OnBoard(head)
    requires !IsGameOver(Shifted(body, head))
    ensures var moved := Shifted(body, head);
      Distinct(moved) && AllOnBoard(moved) && fruit !in moved[1..]
  {
    var settled := body[..|body| - 1];
    var moved := Shifted(body, head);
    assert moved == [head] + settled;
    CollisionAfterShift(body, head);
    assert moved[1..] == settled;
    forall a, b | 0 <= a < b < |moved|
      ensures moved[a] != moved[b]
    {
      if a == 0 {
        assert moved[b] == settled[b - 1];
      } else {
        assert moved[a] == settled[a - 1] && moved[b] == settled[b - 1];
      }
    }
  }

  /**
   * The grid of a distinct on-board body with the food off its segments after
   * the head has one BODY cell per segment but the head; when the head also
   * misses the food, the body is well-formed.
   */
  lemma ClearBodyCount(body: seq<Pos>, fruit: Pos)
    requires |body| >= 1 && Distinct(body) && AllOnBoard(body) && fruit !in body[1..]
    ensures !IsGameOver(body)
    ensures CountCells(Ground(body, fruit).value, SnakeBody) == |body| - 1
    ensures body[0] != fruit ==> WellFormed(body, Some(fruit))
  {
    var rest := body[1..];
    assert forall k :: 0 <= k < |rest| ==> rest[k] == body[k + 1];
    GroundBodyCount(body, fruit);
    var kept := body[..|body| - 1];
    assert forall k :: 0 <= k < |kept| ==> kept[k] == body[k];
  }

  /** Growing a distinct on-board body whose new food lies off it gives a well-formed body. */
  lemma GrownBodyWellFormed(body: seq<Pos>, tail: Pos, next: Pos)
    requires Distinct(body) && AllOnBoard(body) && next !in body
    ensures WellFormed(body + [tail], Some(next))
  {
    assert (body + [tail])[..|body|] == body;
  }

  /**
   * One step without collision from a well-formed body, with `tail` the
   * segment a growth appends: the grid drawn has one BODY cell per segment
   * but one, and the new body is well-formed whether the head missed the
   * food or ate it and new food was placed.
   */
  lemma StepPreservesWellFormed(body: seq<Pos>, fruit: Pos, head: Pos, tail: Pos, rand: real)
    requires |body| >= 1 && WellFormed(body, Some(fruit)) && OnBoard(head) && 0.0 <= rand < 1.0
    requires !IsGameOver(Shifted(body, head))
    ensures var moved := Shifted(body, head);
      var grid := Ground(moved, fruit).value;
      && CountCells(grid, SnakeBody) == |body| - 1
      && (head != fruit ==> WellFormed(moved, Some(fruit)))
      && (head == fruit && FoodChoice(grid, rand).Some? ==> WellFormed(moved + [tail], FoodChoice(grid, rand)))
  {
    var moved := Shifted(body, head);
    StepKeepsWellFormed(body, fruit, head);
    ClearBodyCount(moved, fruit);
    var grid := Ground(moved, fruit).value;
    GroundShape(moved, fruit);
    FoodChoiceIsEmptyCell(grid, rand);
    var next := FoodChoice(grid, rand);
    if head == fruit && next.Some? {
      GroundCellMeaning(moved, fruit, next.value);
      GrownBodyWellFormed(moved, tail, next.value);
    }
  }

  // ---------------------------------------------------------------- food placement

  /** Empty cells of row `i` with column below `j`, left to right. */
  function RowEmpties(g: Grid, i: nat, j: nat): seq<Pos>
    requires IsBoard(g) && i < Width && j <= Height
  {
    if j == 0 then []
    else RowEmpties(g, i, j - 1) + (if g[i][j - 1] == Empty then [Pos(i, j - 1)] else [])
  }

  /** Empty cells of the rows below `i`, in row-major order. */
  function EmptiesBefore(g: Grid, i: nat): seq<Pos>
    requires IsBoard(g) && i <= Width
  {
    if i == 0 then [] else EmptiesBefore(g, i - 1) + RowEmpties(g, i - 1, |g[i - 1]|)
  }

  /** The row-major list of EMPTY cells that `generateFood` collects. */
  function EmptyCells(g: Grid): seq<Pos>
    requires IsBoard(g)
  {
    EmptiesBefore(g, |g|)
  }

  lemma {:induction false} RowEmptiesMembership(g: Grid, i: nat, j: nat, p: Pos)
    requires IsBoard(g) && i < Width && j <= Height
    ensures p in RowEmpties(g, i, j) <==> p.x == i && 0 <= p.y < j && g[i][p.y] == Empty
  {
    if j > 0 {
      RowEmptiesMembership(g, i, j - 1, p);
    }
  }

  lemma {:induction false} EmptiesBeforeMembership(g: Grid, i: nat, p: Pos)
    requires IsBoard(g) && i <= Width
    ensures p in EmptiesBefore(g, i) <==> 0 <= p.x < i && 0 <= p.y < Height && g[p.x][p.y] == Empty
  {
    if i > 0 {
      EmptiesBeforeMembership(g, i - 1, p);
      RowEmptiesMembership(g, i - 1, |g[i - 1]|, p);
    }
  }

  lemma {:induction false} RowEmptiesDistinct(g: Grid, i: nat, j: nat)
    requires IsBoard(g) && i < Width && j <= Height
    ensures Distinct(RowEmpties(g, i, j))
    ensures forall k :: 0 <= k < |RowEmpties(g, i, j)| ==>
      RowEmpties(g, i, j)[k].x == i && RowEmpties(g, i, j)[k].y < j
  {
    if j > 0 {
      RowEmptiesDistinct(g, i, j - 1);
    }
  }

  lemma {:induction false} EmptiesBeforeDistinct(g: Grid, i: nat)
    requires IsBoard(g) && i <= Width
    ensures Distinct(EmptiesBefore(g, i))
    ensures forall k :: 0 <= k < |EmptiesBefore(g, i)| ==> EmptiesBefore(g, i)[k].x < i
  {
    if i > 0 {
      EmptiesBeforeDistinct(g, i - 1);
      RowEmptiesDistinct(g, i - 1, |g[i - 1]|);
      var before, row := EmptiesBefore(g, i - 1), RowEmpties(g, i - 1, |g[i - 1]|);
      assert EmptiesBefore(g, i) == before + row;
      forall a, b | 0 <= a < b < |before + row|
        ensures (before + row)[a] != (before + row)[b]
      {
        if a < |before| && b >= |before| {
          assert before[a].x < i - 1 && row[b - |before|].x == i - 1;
        }
      }
    }
  }

  /** Each EMPTY cell is listed once, so each is one equal share of the draws. */
  lemma EmptyCellsDistinct(g: Grid)
    requires IsBoard(g)
    ensures Distinct(EmptyCells(g))
  {
    EmptiesBeforeDistinct(g, |g|);
  }

  /** A position is listed exactly when it is an EMPTY cell of the board. */
  lemma EmptyCellsMembership(g: Grid, p: Pos)
    requires IsBoard(g)
    ensures p in EmptyCells(g) <==> OnBoard(p) && g[p.x][p.y] == Empty
  {
    EmptiesBeforeMembership(g, |g|, p);
  }

  /** `Math.floor(rand * n)` for a `rand` in [0, 1): an index into a list of length `n`. */
  function Pick(rand: real, n: nat): (k: nat)
    requires 0.0 <= rand < 1.0 && n > 0
    ensures k < n
    ensures k as real <= rand * n as real < (k + 1) as real
  {
    assert rand * n as real < n as real;
    (rand * n as real).Floor
  }

  /** The specification of `generateFood`: the picked entry of the EMPTY cells, or nothing on a full board. */
  function FoodChoice(g: Grid, rand: real): Option<Pos>
    requires IsBoard(g) && 0.0 <= rand < 1.0
  {
    var cells := EmptyCells(g);
    if |cells| == 0 then None else Some(cells[Pick(rand, |cells|)])
  }

  /** Food lands on an EMPTY cell of the board, and fails only when the board has no EMPTY cell. */
  lemma FoodChoiceIsEmptyCell(g: Grid, rand: real)
    requires IsBoard(g) && 0.0 <= rand < 1.0
    ensures FoodChoice(g, rand).Some? ==>
      OnBoard(FoodChoice(g, rand).value) && g[FoodChoice(g, rand).value.x][FoodChoice(g, rand).value.y] == Empty
    ensures FoodChoice(g, rand).None? <==>
      forall i, j :: 0 <= i < Width && 0 <= j < Height ==> g[i][j] != Empty
  {
    var cells := EmptyCells(g);
    if |cells| > 0 {
      EmptyCellsMembership(g, cells[Pick(rand, |cells|)]);
    }
    if exists i, j :: 0 <= i < Width && 0 <= j < Height && g[i][j] == Empty {
      var i, j :| 0 <= i < Width && 0 <= j < Height && g[i][j] == Empty;
      EmptyCellsMembership(g, Pos(i, j));
    }
  }

  lemma FractionBelowOne(k: nat, n: nat)
    requires k < n
    ensures 0.0 <= k as real / n as real < 1.0
    ensures (k as real / n as real) * n as real == k as real
  {
    var r := k as real / n as real;
    assert r * n as real == k as real;
  }

  /** Every EMPTY cell is the choice for some random draw. */
  lemma FoodChoiceReachesEveryEmptyCell(g: Grid, p: Pos)
    requires IsBoard(g) && OnBoard(p) && g[p.x][p.y] == Empty
    ensures exists rand :: 0.0 <= rand < 1.0 && FoodChoice(g, rand) == Some(p)
  {
    var cells := EmptyCells(g);
    EmptyCellsMembership(g, p);
    var k :| 0 <= k < |cells| && cells[k] == p;
    var n := |cells|;
    var rand := k as real / n as real;
    FractionBelowOne(k, n);
    assert Pick(rand, n) == k;
    assert FoodChoice(g, rand) == Some(p);
  }

  /**
   * The food is uniform over the EMPTY cells: with `n` of them, the `k`-th is
   * chosen exactly for the draws in `[k / n, (k + 1) / n)`, a share of `1 / n`.
   */
  lemma FoodChoiceUniform(g: Grid, rand: real, k: nat)
    requires IsBoard(g) && 0.0 <= rand < 1.0 && k < |EmptyCells(g)|
    ensures FoodChoice(g, rand) == Some(EmptyCells(g)[k]) <==>
      k as real <= rand * |EmptyCells(g)| as real < (k + 1) as real
  {
    var cells := EmptyCells(g);
    var n := |cells|;
    var p := Pick(rand, n);
    EmptyCellsDistinct(g);
    if FoodChoice(g, rand) == Some(cells[k]) {
      assert cells[p] == cells[k];
      assert p == k;
    }
    if k as real <= rand * n as real < (k + 1) as real {
      assert p == k;
    }
  }
}
