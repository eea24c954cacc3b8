/**
 * The gameplay state of one game: the snake body stored as links inside the
 * play area, the pending growth, the turn latch, the fruit and the step speed,
 * and the per-frame transition that moves, grows, collides and eats.
 */
module Snek {
  import opened Options
  import opened Vectors
  import opened PlayArea

  /** Where the one-cell snake starts. */
  const START := Vector(10, 4)
  /** Segments still to grow when the game starts. */
  const INITIAL_GROWTH: nat := 3
  /** Pending growth after eating a fruit; it replaces, not adds to, what is pending. */
  const FRUIT_GROWTH: nat := 5
  /** Milliseconds between two grid steps at the start. */
  const INITIAL_SPEED: real := 150.0

  ghost predicate Distinct(s: seq<Vector>) {
    forall i, j :: 0 <= i < j < |s| ==> s[i] != s[j]
  }

  /** A sequence without repetitions has as many distinct elements as it is long. */
  lemma {:induction false} DistinctCardinality(s: seq<Vector>)
    requires Distinct(s)
    ensures |set v | v in s| == |s|
  {
    if |s| > 0 {
      var t := s[..|s| - 1];
      DistinctCardinality(t);
      assert (set v | v in s) == (set v | v in t) + {s[|s| - 1]};
      assert s[|s| - 1] !in (set v | v in t);
    }
  }

  /**
   * Each body cell but the last holds the offset to the next one, and that
   * offset is one of the four directions: consecutive cells are neighbours.
   */
  ghost predicate Linked(g: array2<Cell>, body: seq<Vector>)
    reads g
  {
    forall i, j {:trigger body[i], body[j]} :: 0 <= i < j < |body| && j == i + 1 ==>
      && InGrid(g, body[i])
      && g[body[i].x, body[i].y] == Filled(body[j].Subtract(body[i]))
      && IsDirection(body[j].Subtract(body[i]))
  }

  /** The cells that are not 0 are exactly the body cells. */
  ghost predicate Covers(g: array2<Cell>, body: seq<Vector>)
    reads g
  {
    forall x, y {:trigger g[x, y]} ::
      0 <= x < g.Length0 && 0 <= y < g.Length1 ==> (g[x, y] != Empty <==> Vector(x, y) in body)
  }

  class Game {
    var playing: bool
    var growBy: nat
    var turning: bool
    var direction: Vector
    var gridSpeed: real
    var fruitLoc: Option<Vector>
    var head: Vector
    var tail: Vector
    const playArea: array2<Cell>

    /** The body cells from tail to head, as the links in the play area describe them. */
    ghost var Body: seq<Vector>

    /**
     * The link chain: following the links from `tail` visits `Body` in order and
     * ends at `head`, which holds its own position; no cell repeats, and the
     * body cells are exactly the cells that are not 0.
     */
    ghost predicate ValidBody()
      reads this, playArea
    {
      && |Body| > 0
      && Body[0] == tail
      && Body[|Body| - 1] == head
      && Distinct(Body)
      && (forall i :: 0 <= i < |Body| ==> InGrid(playArea, Body[i]))
      && Linked(playArea, Body)
      && playArea[head.x, head.y] == Filled(head)
      && Covers(playArea, Body)
      && IsDirection(direction)
      && gridSpeed > 0.0
    }

    /** Besides the body, a fruit lies on an empty cell of the play area. */
    ghost predicate Valid()
      reads this, playArea
    {
      && ValidBody()
      && (fruitLoc.Some? ==>
            InGrid(playArea, fruitLoc.value) && playArea[fruitLoc.value.x, fruitLoc.value.y] == Empty)
    }

    /** The cells that are not 0. */
    ghost function Occupied(): set<Vector>
      reads this, playArea
    {
      set x, y {:trigger playArea[x, y]}
        | 0 <= x < playArea.Length0 && 0 <= y < playArea.Length1 && playArea[x, y] != Empty
        :: Vector(x, y)
    }

    /** A new game on a `w` by `h` play area with a one-cell snake heading down. */
    constructor (w: nat, h: nat)
      requires START.x < w && START.y < h
      ensures Valid() && fresh(playArea)
      ensures playArea.Length0 == w && playArea.Length1 == h
      ensures playing && !turning && growBy == INITIAL_GROWTH && gridSpeed == INITIAL_SPEED
      ensures direction == DOWN && fruitLoc == None
      ensures head == START && tail == START && Body == [START]
    {
      var g := MakePlayArea(w, h);
      playArea := g;
      playing := true;
      growBy := INITIAL_GROWTH;
      turning := false;
      direction := Vector(0, 1);
      gridSpeed := INITIAL_SPEED;
      fruitLoc := None;
      head := START;
      tail := START;
      Body := [START];
      new;
      playArea[head.x, head.y] := Filled(head);
    }

    /**
     * The head moves onto the empty cell `nextPos`: the old head cell now links
     * to it and the body gains it as its last cell.
     */
    method ExtendBody(nextPos: Vector)
      requires ValidBody()
      requires InGrid(playArea, nextPos) && playArea[nextPos.x, nextPos.y] == Empty
      requires IsDirection(nextPos.Subtract(head))
      modifies this`head, this`Body, playArea
      ensures ValidBody()
      ensures head == nextPos && Body == old(Body) + [nextPos]
      ensures forall x, y {:trigger playArea[x, y]} ::
                0 <= x < playArea.Length0 && 0 <= y < playArea.Length1 && Vector(x, y) != nextPos
                ==> (playArea[x, y] == Empty <==> old(playArea[x, y]) == Empty)
    {
      ghost var b := Body;
      assert nextPos !in b;
      ExtendHead(playArea, head, nextPos);
      head := nextPos;
      Body := Body + [nextPos];
      assert Linked(playArea, Body) by {
        forall i, j {:trigger Body[i], Body[j]} | 0 <= i < j < |Body| && j == i + 1
          ensures InGrid(playArea, Body[i])
          ensures playArea[Body[i].x, Body[i].y] == Filled(Body[j].Subtract(Body[i]))
          ensures IsDirection(Body[j].Subtract(Body[i]))
        {
          if i < |b| - 1 {
            assert Body[i] == b[i] && Body[j] == b[j];
            assert old(playArea[b[i].x, b[i].y]) == Filled(b[j].Subtract(b[i]));
            assert b[i] != b[|b| - 1] && b[i] != nextPos;
          } else {
            assert Body[i] == b[|b| - 1] && Body[j] == nextPos;
          }
        }
      }
      assert Covers(playArea, Body) by {
        forall x, y {:trigger playArea[x, y]} | 0 <= x < playArea.Length0 && 0 <= y < playArea.Length1
          ensures playArea[x, y] != Empty <==> Vector(x, y) in Body
        {
          var p := Vector(x, y);
          if p != nextPos && p != b[|b| - 1] {
            assert playArea[x, y] == old(playArea[x, y]);
            assert old(playArea[x, y]) != Empty <==> p in b;
          }
        }
      }
    }

    /**
     * The tail follows its link to the next body cell and its old cell is
     * cleared. The body has at least two cells, so the cell read is a link and
     * never the head marker.
     */
    method ShrinkBody()
      requires ValidBody() && |Body| >= 2
      modifies this`tail, this`Body, playArea
      ensures ValidBody()
      ensures tail == old(Body)[1] && Body == old(Body)[1..]
      ensures forall x, y {:trigger playArea[x, y]} ::
                0 <= x < playArea.Length0 && 0 <= y < playArea.Length1 && old(playArea[x, y]) == Empty
                ==> playArea[x, y] == Empty
    {
      ghost var b := Body;
      assert tail != head;
      tail := ShrinkTail(playArea, tail);
      Body := Body[1..];
      assert tail == b[1];
      assert Linked(playArea, Body) by {
        forall i, j {:trigger Body[i], Body[j]} | 0 <= i < j < |Body| && j == i + 1
          ensures InGrid(playArea, Body[i])
          ensures playArea[Body[i].x, Body[i].y] == Filled(Body[j].Subtract(Body[i]))
          ensures IsDirection(Body[j].Subtract(Body[i]))
        {
          assert Body[i] == b[i + 1] && Body[j] == b[j + 1];
          assert b[i + 1] != b[0];
          assert old(playArea[b[i + 1].x, b[i + 1].y]) == Filled(b[j + 1].Subtract(b[i + 1]));
        }
      }
      assert Covers(playArea, Body) by {
        forall x, y {:trigger playArea[x, y]} | 0 <= x < playArea.Length0 && 0 <= y < playArea.Length1
          ensures playArea[x, y] != Empty <==> Vector(x, y) in Body
        {
          var p := Vector(x, y);
          if p != b[0] {
            assert playArea[x, y] == old(playArea[x, y]);
            assert old(playArea[x, y]) != Empty <==> p in b;
            assert p in Body <==> p in b;
          } else {
            assert b[0] !in Body;
          }
        }
      }
    }

    /**
     * One successful grid step: the head moves onto the empty cell `nextPos`,
     * the turn latch opens, and either the tail follows or one pending segment
     * is grown.
     */
    method Advance(nextPos: Vector)
      requires ValidBody()
      requires InGrid(playArea, nextPos) && playArea[nextPos.x, nextPos.y] == Empty
      requires IsDirection(nextPos.Subtract(head))
      modifies this, playArea
      ensures ValidBody()
      ensures head == nextPos && !turning
      ensures Body == (if old(growBy) == 0 then old(Body)[1..] else old(Body)) + [nextPos]
      ensures growBy == if old(growBy) == 0 then 0 else old(growBy) - 1
      ensures playing == old(playing) && direction == old(direction)
      ensures gridSpeed == old(gridSpeed) && fruitLoc == old(fruitLoc)
      ensures forall x, y {:trigger playArea[x, y]} ::
                0 <= x < playArea.Length0 && 0 <= y < playArea.Length1 && Vector(x, y) != nextPos &&
                old(playArea[x, y]) == Empty
                ==> playArea[x, y] == Empty
    {
      ExtendBody(nextPos);
      turning := false;
      if growBy == 0 {
        ShrinkBody();
      } else {
        growBy := growBy - 1;
      }
    }

    /** The fruit, if any and unless the head is on it, lies on an empty cell. */
    ghost predicate FruitClear()
      reads this, playArea
    {
      fruitLoc.Some? && fruitLoc.value != head ==>
        InGrid(playArea, fruitLoc.value) && playArea[fruitLoc.value.x, fruitLoc.value.y] == Empty
    }

    /**
     * Adopts the requested direction when no turn is pending, a key is held
     * and the change is valid; an adopted turn closes the latch until the head
     * has moved.
     */
    method LatchTurn(keyPressed: bool, requested: Vector)
      requires IsDirection(direction)
      requires keyPressed ==> IsDirection(requested)
      modifies this`direction, this`turning
      ensures IsDirection(direction)
      ensures var accept := !old(turning) && keyPressed && ValidDirectionChange(old(direction), requested);
              && direction == (if accept then requested else old(direction))
              && turning == (old(turning) || accept)
    {
      if !turning && keyPressed {
        if ValidDirectionChange(direction, requested) {
          direction := requested;
          turning := true;
        }
      }
    }

    /**
     * When a step is due, the head either collides (out of bounds or onto a
     * body cell, the tail included) and the game ends with the body untouched,
     * or it advances one cell in the current direction.
     */
    method Step(stepDue: bool)
      requires Valid() && playing
      modifies this, playArea
      ensures ValidBody() && FruitClear()
      ensures fruitLoc == old(fruitLoc) && gridSpeed == old(gridSpeed) && direction == old(direction)
      ensures var next := old(head).Add(direction);
              var collides := !InGrid(playArea, next) || next in old(Body);
              var moved := stepDue && !collides;
              && playing == !(stepDue && collides)
              && turning == (if moved then false else old(turning))
              && (moved ==> head == next && head != old(head) &&
                            Body == (if old(growBy) == 0 then old(Body)[1..] else old(Body)) + [next] &&
                            growBy == (if old(growBy) == 0 then 0 else old(growBy) - 1))
              && (!moved ==> head == old(head) && tail == old(tail) && Body == old(Body) &&
                             growBy == old(growBy) && unchanged(playArea))
    {
      var nextPos := head.Add(direction);
      assert nextPos.Subtract(head) == direction;
      if stepDue {
        if OutOfBounds(playArea, nextPos) || playArea[nextPos.x, nextPos.y] != Empty {
          playing := false;
        } else {
          Advance(nextPos);
        }
      }
    }

    /**
     * The second half of a frame: place a fruit if there is none (the draw
     * `pick` chooses among the empty cells; with none left the frame stops and
     * `crashed` is true), then eat it if the head is on it.
     */
    method Feed(pick: nat) returns (crashed: bool)
      requires ValidBody() && FruitClear()
      modifies this
      ensures Valid()
      ensures head == old(head) && tail == old(tail) && Body == old(Body)
      ensures playing == old(playing) && direction == old(direction) && turning == old(turning)
      ensures var placed := if old(fruitLoc).Some? then old(fruitLoc) else PickFrom(EmptyCells(playArea), pick);
              var eats := placed.Some? && head == placed.value;
              && crashed == placed.None?
              && fruitLoc == (if eats then None else placed)
              && growBy == (if eats then FRUIT_GROWTH else old(growBy))
              && gridSpeed == (if eats then old(gridSpeed) * 0.99 else old(gridSpeed))
    {
      crashed := false;
      if fruitLoc == None {
        var fruit := GenerateFruit(playArea, pick);
        if fruit == None {
          crashed := true;
          return;
        }
        fruitLoc := fruit;
      }
      if fruitLoc != None && head.Eq(fruitLoc.value) {
        growBy := FRUIT_GROWTH;
        fruitLoc := None;
        gridSpeed := gridSpeed - gridSpeed * 0.01;
      }
    }

    /**
     * One animation frame. `keyPressed` and `requested` are the key state,
     * `stepDue` says that more than `gridSpeed` milliseconds have passed since
     * the last step, and `pick` is the random draw for a new fruit. `crashed`
     * reports a frame that stopped because no empty cell was left for a fruit.
     * A finished game ignores every frame.
     */
    method Tick(keyPressed: bool, requested: Vector, stepDue: bool, pick: nat) returns (crashed: bool)
      requires Valid()
      requires keyPressed ==> IsDirection(requested)
      modifies this, playArea
      ensures Valid()
      ensures !old(playing) ==> !crashed && unchanged(this) && unchanged(playArea)
      ensures old(playing) ==>
                var accept := !old(turning) && keyPressed && ValidDirectionChange(old(direction), requested);
                var dir := if accept then requested else old(direction);
                var next := old(head).Add(dir);
                var collides := !InGrid(playArea, next) || next in old(Body);
                var moved := stepDue && !collides;
                && direction == dir
                && playing == !(stepDue && collides)
                && turning == (if moved then false else old(turning) || accept)
                && (moved ==>
                      head == next && Body == (if old(growBy) == 0 then old(Body)[1..] else old(Body)) + [next] &&
                      |Body| == |old(Body)| + (if old(growBy) == 0 then 0 else 1))
                && (!moved ==> head == old(head) && tail == old(tail) && Body == old(Body) && unchanged(playArea))
      ensures old(playing) ==>
                var moved := head != old(head);
                var stepGrowth := if moved && old(growBy) > 0 then old(growBy) - 1 else old(growBy);
                var placed := if old(fruitLoc).Some? then old(fruitLoc) else PickFrom(EmptyCells(playArea), pick);
                var eats := placed.Some? && head == placed.value;
                && crashed == placed.None?
                && fruitLoc == (if eats then None else placed)
                && growBy == (if eats then FRUIT_GROWTH else stepGrowth)
                && gridSpeed == (if eats then old(gridSpeed) * 0.99 else old(gridSpeed))
    {
      if !playing {
        return false;
      }
      LatchTurn(keyPressed, requested);
      Step(stepDue);
      crashed := Feed(pick);
    }

    /**
     * The walk that draws the snake: from the tail, follow each cell's link until
     * the head is reached, then add the head.
     */
    method Snapshot() returns (cells: seq<Vector>)
      requires Valid()
      ensures cells == Body
      ensures |cells| > 0 && cells[0] == tail && cells[|cells| - 1] == head
      ensures Distinct(cells) && |cells| == |Occupied()|
      ensures forall i :: 0 <= i < |cells| ==>
                InGrid(playArea, cells[i]) && playArea[cells[i].x, cells[i].y] != Empty
      ensures forall x, y {:trigger playArea[x, y]} ::
                0 <= x < playArea.Length0 && 0 <= y < playArea.Length1 && playArea[x, y] != Empty
                ==> Vector(x, y) in cells
    {
      var current := tail;
      cells := [];
      ghost var i := 0;
      while !current.Eq(head)
        invariant 0 <= i < |Body| && current == Body[i]
        invariant cells == Body[..i]
        decreases |Body| - i
      {
        cells := cells + [current];
        current := current.Add(playArea[current.x, current.y].v);
        i := i + 1;
      }
      assert i == |Body| - 1;
      cells := cells + [head];
      OccupiedCountIsLength();
    }

    /** The number of cells that are not 0 is the length of the snake. */
    lemma OccupiedCountIsLength()
      requires Valid()
      ensures |Occupied()| == |Body|
    {
      forall v | v in Body
        ensures v in Occupied()
      {
        assert InGrid(playArea, v) && (playArea[v.x, v.y] != Empty <==> Vector(v.x, v.y) in Body);
      }
      assert Occupied() == set v | v in Body;
      DistinctCardinality(Body);
    }
  }

  /**
   * The opening of a game on the 24 by 15 play area of a 480 by 300 canvas:
   * the first frame only places a fruit; the first due step moves the head
   * down while the tail stays, because growth is still pending.
   */
  method OpeningFrames(firstPick: nat, secondPick: nat)
  {
    var game := new Game(24, 15);
    EmptyCellsExact(game.playArea, Vector(0, 0));
    var crashed := game.Tick(false, DOWN, false, firstPick);
    EmptyCellsExact(game.playArea, game.head);
    assert !crashed && game.playing && game.fruitLoc.Some?;
    assert game.head == START && game.growBy == INITIAL_GROWTH;

    crashed := game.Tick(false, DOWN, true, secondPick);
    assert !crashed && game.playing;
    assert game.head == Vector(10, 5) && game.tail == START;
    assert game.growBy == INITIAL_GROWTH - 1 || game.growBy == FRUIT_GROWTH;
    var cells := game.Snapshot();
    assert cells == [START, Vector(10, 5)];
  }
}
