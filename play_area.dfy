/**
 * The play area: a width-by-height grid indexed as `g[x, y]` whose cells are
 * either empty (the number 0 in the game) or hold a vector. A body cell holds
 * the offset to the next segment toward the head; the head cell holds the head's
 * own position, which serves only as an "occupied" marker.
 */
module PlayArea {
  import opened Options
  import opened Vectors

  datatype Cell = Empty | Filled(v: Vector)

  predicate InGrid(g: array2<Cell>, p: Vector) {
    0 <= p.x < g.Length0 && 0 <= p.y < g.Length1
  }

  /**
   * Indexing the nested row arrays: a row or a column outside the grid reads
   * as `undefined`, which is `None` here.
   */
  function Lookup(g: array2<Cell>, p: Vector): Option<Cell>
    reads g
  {
    if 0 <= p.x < g.Length0 && 0 <= p.y < g.Length1 then Some(g[p.x, p.y]) else None
  }

  /** A position is out of bounds when one of its two lookups is undefined. */
  predicate OutOfBounds(g: array2<Cell>, p: Vector)
    reads g
    ensures OutOfBounds(g, p) <==> !(0 <= p.x < g.Length0 && 0 <= p.y < g.Length1)
  {
    Lookup(g, p).None?
  }

  /** Builds a fresh grid of `w` rows of `h` empty cells, row by row. */
  method MakePlayArea(w: nat, h: nat) returns (g: array2<Cell>)
    ensures fresh(g) && g.Length0 == w && g.Length1 == h
    ensures forall x, y :: 0 <= x < w && 0 <= y < h ==> g[x, y] == Empty
  {
    g := new Cell[w, h];
    var j := 0;
    while j < w
      invariant 0 <= j <= w
      invariant forall x, y :: 0 <= x < j && 0 <= y < h ==> g[x, y] == Empty
    {
      var i := 0;
      while i < h
        invariant 0 <= i <= h
        invariant forall x, y :: 0 <= x < j && 0 <= y < h ==> g[x, y] == Empty
        invariant forall y :: 0 <= y < i ==> g[j, y] == Empty
      {
        g[j, i] := Empty;
        i := i + 1;
      }
      j := j + 1;
    }
  }

  /**
   * Moves the head marker from `head` to `newPos`: the old head cell becomes a
   * link that leads to `newPos`, the new head cell is marked, nothing else changes.
   */
  method ExtendHead(g: array2<Cell>, head: Vector, newPos: Vector)
    requires InGrid(g, head) && InGrid(g, newPos)
    modifies g
    ensures g[newPos.x, newPos.y] == Filled(newPos)
    ensures head != newPos ==> g[head.x, head.y] == Filled(newPos.Subtract(head))
    ensures head != newPos ==> head.Add(g[head.x, head.y].v) == newPos
    ensures forall x, y {:trigger g[x, y]} ::
              0 <= x < g.Length0 && 0 <= y < g.Length1 && Vector(x, y) != head && Vector(x, y) != newPos
              ==> g[x, y] == old(g[x, y])
  {
    g[head.x, head.y] := Filled(newPos.Subtract(head));
    g[newPos.x, newPos.y] := Filled(newPos);
  }

  /**
   * Follows the tail's link to the next segment and clears the old tail cell;
   * nothing else changes.
   */
  method ShrinkTail(g: array2<Cell>, tail: Vector) returns (newTail: Vector)
    requires InGrid(g, tail) && g[tail.x, tail.y].Filled?
    modifies g
    ensures newTail == tail.Add(old(g[tail.x, tail.y]).v)
    ensures g[tail.x, tail.y] == Empty
    ensures forall x, y {:trigger g[x, y]} ::
              0 <= x < g.Length0 && 0 <= y < g.Length1 && Vector(x, y) != tail
              ==> g[x, y] == old(g[x, y])
  {
    newTail := tail.Add(g[tail.x, tail.y].v);
    g[tail.x, tail.y] := Empty;
  }

  /** The empty cells `(x, 0) .. (x, n - 1)` of row `x`, in increasing `y`. */
  ghost function EmptyInRow(g: array2<Cell>, x: nat, n: nat): seq<Vector>
    requires x < g.Length0 && n <= g.Length1
    reads g
  {
    if n == 0 then []
    else EmptyInRow(g, x, n - 1) + (if g[x, n - 1] == Empty then [Vector(x, n - 1)] else [])
  }

  /** The empty cells of rows `0 .. m - 1`, row after row. */
  ghost function EmptyInRows(g: array2<Cell>, m: nat): seq<Vector>
    requires m <= g.Length0
    reads g
  {
    if m == 0 then [] else EmptyInRows(g, m - 1) + EmptyInRow(g, m - 1, g.Length1)
  }

  /** Every empty cell of the grid, in the order the fruit placement scans them. */
  ghost function EmptyCells(g: array2<Cell>): seq<Vector>
    reads g
  {
    EmptyInRows(g, g.Length0)
  }

  /** The cell a draw of `pick` selects: none when there is nothing to choose from. */
  function PickFrom(available: seq<Vector>, pick: nat): (r: Option<Vector>)
    ensures r.None? <==> available == []
    ensures r.Some? ==> r.value in available
  {
    if |available| == 0 then None else Some(available[pick % |available|])
  }

  lemma {:induction false} EmptyInRowExact(g: array2<Cell>, x: nat, n: nat, p: Vector)
    requires x < g.Length0 && n <= g.Length1
    ensures p in EmptyInRow(g, x, n) <==> p.x == x && 0 <= p.y < n && g[x, p.y] == Empty
  {
    if n > 0 {
      EmptyInRowExact(g, x, n - 1, p);
    }
  }

  lemma {:induction false} EmptyInRowsExact(g: array2<Cell>, m: nat, p: Vector)
    requires m <= g.Length0
    ensures p in EmptyInRows(g, m) <==> 0 <= p.x < m && InGrid(g, p) && g[p.x, p.y] == Empty
  {
    if m > 0 {
      EmptyInRowsExact(g, m - 1, p);
      EmptyInRowExact(g, m - 1, g.Length1, p);
    }
  }

  /** The scan lists exactly the in-bounds cells that hold 0. */
  lemma EmptyCellsExact(g: array2<Cell>, p: Vector)
    ensures p in EmptyCells(g) <==> InGrid(g, p) && g[p.x, p.y] == Empty
  {
    EmptyInRowsExact(g, g.Length0, p);
  }

  /**
   * Scans the grid row by row for cells holding 0 and returns the one the
   * draw `pick` selects; `None` stands for the crash on a full grid.
   */
  method GenerateFruit(g: array2<Cell>, pick: nat) returns (fruit: Option<Vector>)
    ensures fruit == PickFrom(EmptyCells(g), pick)
    ensures fruit.Some? ==> InGrid(g, fruit.value) && g[fruit.value.x, fruit.value.y] == Empty
    ensures fruit.None? <==> forall x, y :: 0 <= x < g.Length0 && 0 <= y < g.Length1 ==> g[x, y] != Empty
  {
    var available: seq<Vector> := [];
    var i := 0;
    while i < g.Length0
      invariant 0 <= i <= g.Length0
      invariant available == EmptyInRows(g, i)
    {
      var j := 0;
      while j < g.Length1
        invariant 0 <= j <= g.Length1
        invariant available == EmptyInRows(g, i) + EmptyInRow(g, i, j)
      {
        if g[i, j] == Empty {
          available := available + [Vector(i, j)];
        }
        j := j + 1;
      }
      i := i + 1;
    }
    fruit := PickFrom(available, pick);
    if fruit.Some? {
      EmptyCellsExact(g, fruit.value);
    } else {
      forall x, y | 0 <= x < g.Length0 && 0 <= y < g.Length1
        ensures g[x, y] != Empty
      {
        EmptyCellsExact(g, Vector(x, y));
      }
    }
  }

  /** `a` is visited before `b` by the row-by-row scan. */
  predicate ScanBefore(a: Vector, b: Vector) {
    a.x < b.x || (a.x == b.x && a.y < b.y)
  }

  /** The cells of `s` appear in strict scan order, so none repeats. */
  ghost predicate InScanOrder(s: seq<Vector>) {
    forall i, j :: 0 <= i < j < |s| ==> ScanBefore(s[i], s[j])
  }

  lemma ConcatInScanOrder(a: seq<Vector>, b: seq<Vector>)
    requires InScanOrder(a) && InScanOrder(b)
    requires forall i, j :: 0 <= i < |a| && 0 <= j < |b| ==> ScanBefore(a[i], b[j])
    ensures InScanOrder(a + b)
  {
  }

  lemma {:induction false} EmptyInRowInScanOrder(g: array2<Cell>, x: nat, n: nat)
    requires x < g.Length0 && n <= g.Length1
    ensures InScanOrder(EmptyInRow(g, x, n))
  {
    if n > 0 {
      var prefix := EmptyInRow(g, x, n - 1);
      EmptyInRowInScanOrder(g, x, n - 1);
      forall i | 0 <= i < |prefix|
        ensures prefix[i].x == x && prefix[i].y < n - 1
      {
        EmptyInRowExact(g, x, n - 1, prefix[i]);
      }
      ConcatInScanOrder(prefix, if g[x, n - 1] == Empty then [Vector(x, n - 1)] else []);
    }
  }

  lemma {:induction false} EmptyInRowsInScanOrder(g: array2<Cell>, m: nat)
    requires m <= g.Length0
    ensures InScanOrder(EmptyInRows(g, m))
  {
    if m > 0 {
      var prefix := EmptyInRows(g, m - 1);
      var row := EmptyInRow(g, m - 1, g.Length1);
      EmptyInRowsInScanOrder(g, m - 1);
      EmptyInRowInScanOrder(g, m - 1, g.Length1);
      forall i | 0 <= i < |prefix|
        ensures prefix[i].x < m - 1
      {
        EmptyInRowsExact(g, m - 1, prefix[i]);
      }
      forall j | 0 <= j < |row|
        ensures row[j].x == m - 1
      {
        EmptyInRowExact(g, m - 1, g.Length1, row[j]);
      }
      ConcatInScanOrder(prefix, row);
    }
  }

  /**
   * Different draws below the number of empty cells place the fruit on
   * different cells: the scan lists every empty cell once, in scan order.
   */
  lemma DrawsBelowCountDiffer(g: array2<Cell>, pick1: nat, pick2: nat)
    requires pick1 < pick2 < |EmptyCells(g)|
    ensures PickFrom(EmptyCells(g), pick1) != PickFrom(EmptyCells(g), pick2)
  {
    var cells := EmptyCells(g);
    EmptyInRowsInScanOrder(g, g.Length0);
    assert pick1 % |cells| == pick1 && pick2 % |cells| == pick2;
    assert ScanBefore(cells[pick1], cells[pick2]);
  }

  /** Every empty cell is a possible outcome of the draw. */
  lemma EveryEmptyCellCanBePicked(g: array2<Cell>, p: Vector)
    requires InGrid(g, p) && g[p.x, p.y] == Empty
    ensures exists pick: nat :: PickFrom(EmptyCells(g), pick) == Some(p)
  {
    EmptyCellsExact(g, p);
    EveryElementCanBePicked(EmptyCells(g), p);
  }

  /** Every element of a non-empty candidate list is selected by its own index. */
  lemma EveryElementCanBePicked(available: seq<Vector>, p: Vector)
    requires p in available
    ensures exists pick: nat :: PickFrom(available, pick) == Some(p)
  {
    var k :| 0 <= k < |available| && available[k] == p;
    assert k % |available| == k;
    assert PickFrom(available, k) == Some(p);
  }

  /** With exactly one empty cell left, the placement is that cell, whatever the draw. */
  lemma SingleEmptyCellIsPicked(g: array2<Cell>, p: Vector, pick: nat)
    requires InGrid(g, p) && g[p.x, p.y] == Empty
    requires forall x, y {:trigger g[x, y]} ::
               0 <= x < g.Length0 && 0 <= y < g.Length1 && g[x, y] == Empty ==> Vector(x, y) == p
    ensures PickFrom(EmptyCells(g), pick) == Some(p)
  {
    EmptyCellsExact(g, p);
    var r := PickFrom(EmptyCells(g), pick);
    EmptyCellsExact(g, r.value);
  }
}
