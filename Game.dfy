/**
 * The game state held in the module-level variables of the program, as one
 * object: the snake, the mushroom, the tick interval, the score, the crash
 * and running flags and the heading. The methods are the state updates of
 * the functions and button handlers that change those variables.
 */
module Game {

  import opened Wrappers
  import opened Heading
  import opened Grid
  import opened Snake
  import opened Placement
  import opened Speed

  /** Where every session puts the head. */
  const START_CELL: Cell := Cell(2, 2)

  class Game {
    var head: Option<Cell>
    var tail: seq<Cell>
    var mushroom: Option<Cell>
    var speed: int
    var score: int
    var crash: bool
    var running: bool
    var dir: int

    /**
     * What holds between any two operations: every sprite is on the grid,
     * there is no tail without a head, the mushroom is off the snake, the
     * interval is the closed form of the score, the heading is canonical, and
     * a crashed game is not running.
     */
    ghost predicate Valid()
      reads this
    {
      && (head.Some? ==> InGrid(head.value))
      && (head.None? ==> tail == [])
      && (forall k :: 0 <= k < |tail| ==> InGrid(tail[k]))
      && (mushroom.Some? ==> InGrid(mushroom.value) && Free(mushroom.value, head, tail))
      && score >= 0
      && speed == SpeedAfter(score)
      && IsHeading(dir)
      && (crash ==> !running)
      && (running ==> head.Some?)
    }

    /** The module-level declarations, before the first `startGame`. */
    constructor ()
      ensures Valid()
      ensures head == None && tail == [] && mushroom == None
      ensures speed == INITIAL_SPEED && score == 0
      ensures !crash && !running && dir == RIGHT
    {
      head, tail, mushroom := None, [], None;
      speed, score := INITIAL_SPEED, 0;
      crash, running := false, false;
      dir := RIGHT;
    }

    /** `clearAllSprites`: forget the head, the tail and the mushroom. */
    method ClearAllSprites()
      modifies this`head, this`tail, this`mushroom
      ensures head == None && tail == [] && mushroom == None
    {
      head := None;
      tail := [];
      mushroom := None;
    }

    /** `setMushroom`: put the mushroom on the first candidate off the snake. */
    method SetMushroom(draws: seq<Cell>)
      requires DrawsInGrid(draws)
      requires HasFreeDraw(draws, head, tail)
      modifies this`mushroom
      ensures mushroom == Some(FirstFreeDraw(draws, head, tail))
      ensures InGrid(mushroom.value) && Free(mushroom.value, head, tail)
    {
      var c, _ := PickFreeCell(head, tail, draws);
      FirstFreeDrawInGrid(draws, head, tail);
      mushroom := Some(c);
    }

    /** `growTailByOne`: push a segment stacked on the last one, or on the head. */
    method GrowTailByOne()
      requires head.Some? || tail != []
      modifies this`tail
      ensures tail == Grown(head, old(tail))
    {
      var cell;
      if |tail| == 0 {
        cell := head.value;
      } else {
        cell := tail[|tail| - 1];
      }
      tail := tail + [cell];
    }

    /** `eatMushroomAndGrowSnake`: grow, score one, shorten the interval, place a new mushroom. */
    method EatMushroomAndGrowSnake(draws: seq<Cell>)
      requires head.Some? || tail != []
      requires DrawsInGrid(draws)
      requires HasFreeDraw(draws, head, Grown(head, tail))
      modifies this`tail, this`score, this`speed, this`mushroom
      ensures tail == Grown(head, old(tail))
      ensures score == old(score) + 1
      ensures speed == Ramped(old(speed))
      ensures mushroom == Some(FirstFreeDraw(draws, head, tail))
      ensures InGrid(mushroom.value) && Free(mushroom.value, head, tail)
    {
      GrowTailByOne();
      score := score + 1;
      speed := Ramped(speed);
      SetMushroom(draws);
    }

    /**
     * The candidates suffice for a mushroom eaten by the next move: if the
     * head is about to land on it, some candidate is off the grown snake.
     */
    ghost predicate CanRespawnAfterMove(draws: seq<Cell>)
      reads this
    {
      head.Some? ==>
        var next := NextPosition(head.value, dir);
        mushroom == Some(next) ==>
          HasFreeDraw(draws, Some(next), Grown(Some(next), Shifted(tail, head.value)))
    }

    /**
     * The new state after one move of the head that was there before: the
     * head steps, the tail shifts, a collision sets the crash flag (which is
     * never cleared here), the mushroom is eaten exactly when it is the new
     * head, and the game stops once crashed. A move that eats never crashes.
     */
    twostate predicate Moved(draws: seq<Cell>)
      reads this
    {
      old(head).Some? &&
      var next := NextPosition(old(head).value, old(dir));
      var moved := Shifted(old(tail), old(head).value);
      var ate := old(mushroom) == Some(next);
      && head == Some(next)
      && crash == (old(crash) || Collides(next, moved))
      && (ate ==> crash == old(crash))
      && running == (old(running) && !crash)
      && tail == (if ate then Grown(head, moved) else moved)
      && score == (if ate then old(score) + 1 else old(score))
      && speed == (if ate then Ramped(old(speed)) else old(speed))
      && (if ate then HasFreeDraw(draws, head, tail) && mushroom == Some(FirstFreeDraw(draws, head, tail))
          else mushroom == old(mushroom))
      && dir == old(dir)
    }

    /**
     * `moveSnake`: shift the tail toward the head, move the head one step,
     * flag a crash if it lands on the tail, eat the mushroom if it lands on
     * it, and stop the game after a crash. Without a head nothing happens.
     */
    method MoveSnake(draws: seq<Cell>)
      requires Valid()
      requires DrawsInGrid(draws)
      requires CanRespawnAfterMove(draws)
      modifies this
      ensures Valid()
      ensures old(head).None? ==> unchanged(this)
      ensures old(head).Some? ==> Moved(draws)
    {
      if head.None? {
        return;
      }
      var p := head.value;
      var next := NextPosition(p, dir);
      ShiftedWithinBody(p, tail);
      if mushroom == Some(next) {
        NoCrashIntoOpenCell(p, tail, next);
      }
      ShiftTail(p);
      head := Some(next);
      var hit := HitsTail(next);
      if hit {
        crash := true;
      }
      if mushroom == Some(next) {
        mushroom := None;
        EatMushroomAndGrowSnake(draws);
      }
      if crash {
        running := false;
      }
      RampStep(old(score));
    }

    /** The tail part of `moveSnake`: from the end toward the neck, then the neck takes the old head. */
    method ShiftTail(oldHead: Cell)
      modifies this`tail
      ensures tail == Shifted(old(tail), oldHead)
    {
      if |tail| > 0 {
        var t := tail;
        var i := |t| - 1;
        while i > 0
          invariant 0 <= i < |t| == |old(tail)|
          invariant forall k :: 0 <= k <= i ==> t[k] == old(tail)[k]
          invariant forall k :: i < k < |t| ==> t[k] == old(tail)[k - 1]
        {
          t := t[i := t[i - 1]];
          i := i - 1;
        }
        t := t[0 := oldHead];
        tail := t;
      }
    }

    /** The collision scan of `moveSnake`: does `at` coincide with some tail cell? */
    method HitsTail(at: Cell) returns (hit: bool)
      ensures hit <==> Collides(at, tail)
    {
      hit := false;
      for k := 0 to |tail|
        invariant hit <==> exists j :: 0 <= j < k && tail[j] == at
      {
        if tail[k] == at {
          hit := true;
        }
      }
    }

    /** Button A: turn left while the game runs. */
    method PressA()
      requires Valid()
      modifies this`dir
      ensures Valid()
      ensures dir == if running then TurnLeft(old(dir)) else old(dir)
    {
      if running {
        dir := TurnLeft(dir);
      }
    }

    /** Button B: turn right while the game runs. */
    method PressB()
      requires Valid()
      modifies this`dir
      ensures Valid()
      ensures dir == if running then TurnRight(old(dir)) else old(dir)
    {
      if running {
        dir := TurnRight(dir);
      }
    }

    /**
     * `startGame`: a fresh session from any state at all: clear the sprites,
     * reset interval, score, flags and heading, a head at the start cell, an
     * empty tail, and a mushroom off the head.
     */
    method StartGame(draws: seq<Cell>)
      requires DrawsInGrid(draws)
      requires HasFreeDraw(draws, Some(START_CELL), [])
      modifies this
      ensures Valid()
      ensures speed == INITIAL_SPEED && score == 0
      ensures !crash && running && dir == RIGHT
      ensures head == Some(START_CELL) && tail == []
      ensures mushroom == Some(FirstFreeDraw(draws, Some(START_CELL), []))
    {
      ClearAllSprites();
      speed := INITIAL_SPEED;
      score := 0;
      crash := false;
      running := true;
      dir := RIGHT;
      head := Some(START_CELL);
      SetMushroom(draws);
    }

    /** Buttons A and B together: restart once the game is over. */
    method PressAB(draws: seq<Cell>)
      requires Valid()
      requires DrawsInGrid(draws)
      requires !running ==> HasFreeDraw(draws, Some(START_CELL), [])
      modifies this
      ensures Valid()
      ensures old(running) ==> unchanged(this)
      ensures !old(running) ==>
        && speed == INITIAL_SPEED && score == 0
        && !crash && running && dir == RIGHT
        && head == Some(START_CELL) && tail == []
        && mushroom == Some(FirstFreeDraw(draws, Some(START_CELL), []))
    {
      if !running {
        StartGame(draws);
      }
    }

    /** One pass of the main loop: move the snake while the game runs. */
    method Tick(draws: seq<Cell>)
      requires Valid()
      requires DrawsInGrid(draws)
      requires running ==> CanRespawnAfterMove(draws)
      modifies this
      ensures Valid()
      ensures !old(running) || old(head).None? ==> unchanged(this)
      ensures old(running) && old(head).Some? ==> Moved(draws)
    {
      if running {
        MoveSnake(draws);
      }
    }
  }

  /**
   * A session as a caller sees it through the contracts alone: start heading
   * right from (2, 2), step to (3, 2), eat the mushroom at (4, 2), then wrap
   * around the right edge to (0, 2) with the new segment following.
   */
  method EatAndWrapScenario() {
    var g := new Game();
    var first := [Cell(4, 2)];
    FirstFreeDrawAt(first, Some(START_CELL), [], 0);
    g.StartGame(first);
    assert g.mushroom == Some(Cell(4, 2));
    g.Tick([]);
    assert g.head == Some(Cell(3, 2)) && g.tail == [] && g.running;
    var draws := [Cell(4, 2), Cell(0, 0)];
    FirstFreeDrawAt(draws, Some(Cell(4, 2)), [Cell(4, 2)], 1);
    g.MoveSnake(draws);
    assert g.head == Some(Cell(4, 2)) && g.tail == [Cell(4, 2)];
    assert g.score == 1 && g.speed == 825 && !g.crash;
    assert g.mushroom == Some(Cell(0, 0));
    g.MoveSnake([]);
    assert g.head == Some(Cell(0, 2)) && g.tail == [Cell(4, 2)] && !g.crash;
  }
}
