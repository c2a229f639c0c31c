/**
 * The solution shipped with the application: the same row-major board as
 * the conway crate's solution, but with signed coordinates, so that a
 * query checks for negative positions itself and the neighbour loop can
 * run over the offsets -1 .. 1 directly.
 */
module AppSolution {
  import opened Wrappers
  import Life
  import ConwaySolution

  class GameOfLifeSolution {
    var width: int
    var playground: seq<bool>

    /** Every row of the playground is complete and the width is positive. */
    ghost predicate Valid()
      reads this
    {
      Life.Shaped(playground, width)
    }

    /** A board of width * height dead cells. */
    constructor (width: int, height: int)
      requires width > 0 && height >= 0
      ensures Valid()
      ensures Width() == width && Height() == height
      ensures |playground| == width * height && Life.AllDead(playground)
    {
      this.width := width;
      playground := seq(width * height, _ => false);
      new;
      Life.IndexOfCoords(width, width * height, 0, height);
    }

    /** The position of cell (x, y) in the playground, or None when x or y
        is negative or past the board (the mutable reference of the source). */
    function GetCellMut(x: int, y: int): (r: Option<nat>)
      reads this
      requires Valid()
      ensures r.Some? <==> 0 <= x < Width() && 0 <= y < Height()
      ensures r.Some? ==> r.value == x + y * width && r.value < |playground|
    {
      if x >= 0 && y >= 0 && x < Width() && y < Height() then
        Life.IndexInRange(|playground|, width, x, y);
        Some(x + y * width)
      else
        None
    }

    /** Some(alive) for a cell on the board, None for a negative position or
        one past the last column or row. */
    function IsCellAlive(x: int, y: int): (r: Option<bool>)
      reads this
      requires Valid()
      ensures r.None? <==> (x < 0 || y < 0 || x >= Width() || y >= Height())
      ensures r.Some? ==> 0 <= x + y * width < |playground| && r.value == playground[x + y * width]
      ensures r == Life.Cell(playground, width, x, y)
    {
      if x >= 0 && y >= 0 && x < Width() && y < Height() then
        Life.IndexInRange(|playground|, width, x, y);
        Some(playground[x + y * width])
      else
        None
    }

    /** Swaps cell (x, y) between alive and dead; does nothing off the board. */
    method ToggleCell(x: int, y: int)
      requires Valid()
      modifies this
      ensures Valid() && Width() == old(Width()) && Height() == old(Height())
      ensures playground == Life.Toggle(old(playground), width, x, y)
    {
      var square := GetCellMut(x, y);
      if square.Some? {
        playground := playground[square.value := !playground[square.value]];
      }
    }

    /** One generation, computed into a copy of the playground that replaces
        it at the end; every count reads the old playground. */
    method Tick()
      requires Valid()
      modifies this
      ensures Valid() && Width() == old(Width()) && Height() == old(Height())
      ensures playground == Life.Next(old(playground), width)
    {
      var newPlayground := playground;
      var u := 0;
      while u < |newPlayground|
        invariant unchanged(this)
        invariant |newPlayground| == |playground|
        invariant 0 <= u <= |newPlayground|
        invariant forall k :: 0 <= k < u ==> newPlayground[k] == Life.Next(playground, width)[k]
        invariant forall k :: u <= k < |newPlayground| ==> newPlayground[k] == playground[k]
      {
        var x, y := u % Width(), u / Width();
        var count := CountLiveNeighbours(x, y);
        var square := ApplyRule(newPlayground[u], count);
        Life.NextAt(playground, width, u, x, y);
        newPlayground := newPlayground[u := square];
        u := u + 1;
      }
      playground := newPlayground;
    }

    /** The neighbour count of one pass of `tick`, over the column offsets
        -1 .. 1; positions off the board answer None and do not count. */
    method CountLiveNeighbours(x: int, y: int) returns (count: nat)
      requires Valid()
      ensures count == Life.LiveNeighbours(playground, width, x, y)
    {
      ghost var cells, w := playground, width;
      count := 0;
      var i := -1;
      while i < 2
        invariant -1 <= i <= 2
        invariant count == Life.BoxSum(cells, w, x, y, -1, i, -1, 2)
      {
        var column := CountColumn(x, y, i);
        Life.BoxSumStep(cells, w, x, y, -1, i, -1, 2);
        count := count + column;
        i := i + 1;
      }
    }

    /** The inner loop of the neighbour count: the live cells at row offsets
        -1 .. 1 of column offset i, leaving out the cell itself. */
    method CountColumn(x: int, y: int, i: int) returns (count: nat)
      requires Valid()
      ensures count == Life.RowSum(playground, width, x, y, i, -1, 2)
    {
      ghost var cells, w := playground, width;
      count := 0;
      var j := -1;
      while j < 2
        invariant -1 <= j <= 2
        invariant count == Life.RowSum(cells, w, x, y, i, -1, j)
      {
        if !(i == 0 && j == 0) {
          var peekX := x + i;
          var peekY := y + j;
          if IsCellAlive(peekX, peekY) == Some(true) {
            count := count + 1;
          }
        }
        Life.RowSumStep(cells, w, x, y, i, -1, j);
        j := j + 1;
      }
    }

    /** The rule as this `tick` writes it: fewer than two or more than three
        neighbours kill, exactly three give life, and exactly two keep the
        cell as it was. */
    method ApplyRule(square: bool, count: nat) returns (next: bool)
      ensures next == Life.Rule(square, count)
    {
      next := square;
      if count > 3 || count < 2 {
        next := false;
      } else if count == 3 {
        next := true;
      } else if count == 2 {
        next := next;
      }
    }

    /** The number of columns: on a well-formed board it is positive and
        the playground holds Height() whole rows of it. */
    function Width(): (w: int)
      reads this
      ensures Valid() ==> w > 0 && w * Height() == |playground|
    {
      width
    }

    /** The number of rows: width * height cells make up the playground. */
    function Height(): (h: int)
      reads this
      requires Valid()
      ensures h >= 0 && h * width == |playground|
    {
      |playground| / width
    }
  }

  /** The two solutions write the rule differently but agree on every grid:
      from the same playground and width, a tick of each reaches the same
      playground. */
  method TicksAgree(app: GameOfLifeSolution, crate: ConwaySolution.GameOfLifeSolution)
    requires app.Valid() && crate.Valid()
    requires app.playground == crate.playground && app.width == crate.width
    modifies app, crate
    ensures app.playground == crate.playground
  {
    app.Tick();
    crate.Tick();
  }
}
