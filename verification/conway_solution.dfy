/**
 * The reference solution of the conway crate: the board is a row-major
 * vector of cells together with its width; the height is recovered as the
 * vector's length divided by the width. Coordinates are unsigned.
 */
module ConwaySolution {
  import opened Wrappers
  import Life

  /** The board `new` allocates: width * height dead cells. */
  function DeadBoard(width: nat, height: nat): (p: seq<bool>)
    ensures |p| == width * height
    ensures Life.AllDead(p)
  {
    seq(width * height, _ => false)
  }

  /** A zero width makes every requested height give the same empty
      playground, so no `height()` can return the height that was asked
      for. */
  lemma ZeroWidthLosesHeight(height: nat)
    requires height > 0
    ensures DeadBoard(0, height) == DeadBoard(0, height + 1) == []
    ensures forall other: nat :: DeadBoard(0, other) == DeadBoard(0, height)
  {
  }

  class GameOfLifeSolution {
    var width: nat
    var playground: seq<bool>

    /** Every row of the playground is complete and the width is positive,
        so that `height` never divides by zero. */
    ghost predicate Valid()
      reads this
    {
      Life.Shaped(playground, width)
    }

    /** A board of width * height dead cells. A zero width is rejected here:
        it would leave `height` dividing by zero (see ZeroWidthLosesHeight). */
    constructor (width: nat, height: nat)
      requires width > 0
      ensures Valid()
      ensures Width() == width && Height() == height
      ensures playground == DeadBoard(width, height)
    {
      this.width := width;
      playground := DeadBoard(width, height);
      new;
      Life.IndexOfCoords(width, width * height, 0, height);
    }

    /** The position of cell (x, y) in the playground, or None when it is
        off the board (the mutable reference of the source). */
    function GetCellMut(x: nat, y: nat): (r: Option<nat>)
      reads this
      requires Valid()
      ensures r.Some? <==> x < Width() && y < Height()
      ensures r.Some? ==> r.value == x + y * width && r.value < |playground|
    {
      if x < Width() && y < Height() then
        Life.IndexInRange(|playground|, width, x, y);
        Some(x + y * width)
      else
        None
    }

    /** Some(alive) for a cell on the board, None when x and/or y is out
        of bounds. */
    function IsCellAlive(x: nat, y: nat): (r: Option<bool>)
      reads this
      requires Valid()
      ensures r.None? <==> !(x < Width() && y < Height())
      ensures r.Some? ==> x + y * width < |playground| && r.value == playground[x + y * width]
      ensures r == Life.Cell(playground, width, x, y)
    {
      if x < Width() && y < Height() then
        Life.IndexInRange(|playground|, width, x, y);
        Some(playground[x + y * width])
      else
        None
    }

    /** Swaps cell (x, y) between alive and dead; does nothing out of bounds. */
    method ToggleCell(x: nat, y: nat)
      requires Valid()
      modifies this
      ensures Valid() && Width() == old(Width()) && Height() == old(Height())
      ensures playground == Life.Toggle(old(playground), width, x, y)
    {
      var square := GetCellMut(x, y);
      if square.Some? {
        playground := playground[square.value := !playground[square.value]];
      }
    }

    /** One generation: every cell is ruled on its live neighbours in the
        old playground, written into a copy, and the copy replaces the
        playground at the end, so no cell sees another cell's new value. */
    method Tick()
      requires Valid()
      modifies this
      ensures Valid() && Width() == old(Width()) && Height() == old(Height())
      ensures playground == Life.Next(old(playground), width)
    {
      var newPlayground := playground;
      var u := 0;
      while u < |newPlayground|
        invariant unchanged(this)
        invariant |newPlayground| == |playground|
        invariant 0 <= u <= |newPlayground|
        invariant forall k :: 0 <= k < u ==> newPlayground[k] == Life.Next(playground, width)[k]
        invariant forall k :: u <= k < |newPlayground| ==> newPlayground[k] == playground[k]
      {
        var x, y := u % Width(), u / Width();
        var count := CountLiveNeighbours(x, y);
        var square := ApplyRule(newPlayground[u], count);
        Life.NextAt(playground, width, u, x, y);
        newPlayground := newPlayground[u := square];
        u := u + 1;
      }
      playground := newPlayground;
    }

    /** The neighbour count of one pass of `tick`: offsets 0 .. 2 stand for
        -1 .. 1, and start at 1 instead of 0 on the left column and the top
        row, so that no peeked coordinate is negative. */
    method CountLiveNeighbours(x: nat, y: nat) returns (count: nat)
      requires Valid()
      ensures count == Life.LiveNeighbours(playground, width, x, y)
    {
      ghost var cells, w := playground, width;
      count := 0;
      var minXOffset := if x > 0 then 0 else 1;
      var minYOffset := if y > 0 then 0 else 1;
      var i := minXOffset;
      while i <= 2
        invariant minXOffset <= i <= 3
        invariant count == Life.BoxSum(cells, w, x, y, minXOffset - 1, i - 1, minYOffset - 1, 2)
      {
        var column := CountColumn(x, y, i, minYOffset);
        Life.BoxSumStep(cells, w, x, y, minXOffset - 1, i - 1, minYOffset - 1, 2);
        count := count + column;
        i := i + 1;
      }
      Life.ClippedBoxSum(cells, w, x, y, minXOffset - 1, minYOffset - 1);
    }

    /** The inner loop of the neighbour count: the live cells among the
        peeked rows of column offset i, leaving out the cell itself. */
    method CountColumn(x: nat, y: nat, i: int, minYOffset: int) returns (count: nat)
      requires Valid()
      requires 0 <= x + i - 1 && i <= 2
      requires 0 <= minYOffset <= 1 && 0 <= y + minYOffset - 1
      ensures count == Life.RowSum(playground, width, x, y, i - 1, minYOffset - 1, 2)
    {
      ghost var cells, w := playground, width;
      count := 0;
      var j := minYOffset;
      while j <= 2
        invariant minYOffset <= j <= 3
        invariant count == Life.RowSum(cells, w, x, y, i - 1, minYOffset - 1, j - 1)
      {
        if !(i == 1 && j == 1) {
          var peekX: nat := x + i - 1;
          var peekY: nat := y + j - 1;
          if IsCellAlive(peekX, peekY) == Some(true) {
            count := count + 1;
          }
        }
        Life.RowSumStep(cells, w, x, y, i - 1, minYOffset - 1, j - 1);
        j := j + 1;
      }
    }

    /** The rule as `tick` writes it, over the cell's old value: fewer than
        two or more than three neighbours kill, a live cell with two or three
        stays, a dead cell with three is born, and a dead cell with two
        falls through every branch and stays dead. */
    method ApplyRule(square: bool, count: nat) returns (next: bool)
      ensures next == Life.Rule(square, count)
    {
      next := square;
      if count < 2 || count > 3 {
        next := false;
      } else if next && (count == 2 || count == 3) {
        // a live cell with two or three live neighbours stays alive
      } else if !next && count == 3 {
        next := true;
      }
    }

    /** The number of columns: on a well-formed board it is positive and
        the playground holds Height() whole rows of it. */
    function Width(): (w: nat)
      reads this
      ensures Valid() ==> w > 0 && w * Height() == |playground|
    {
      width
    }

    /** The number of rows: width * height cells make up the playground. */
    function Height(): (h: nat)
      reads this
      requires Valid()
      ensures h * width == |playground|
    {
      |playground| / width
    }
  }
}
