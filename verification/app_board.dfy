/**
 * The application's own board: a fixed array of 49 * 40 cells, row-major,
 * that starts out seeded with a rectangular ring one cell in from the
 * edges.
 */
module AppBoard {
  import opened Wrappers
  import Life

  const PlaygroundWidth: int := 49
  const PlaygroundHeight: int := 40

  /** (x, y) lies on the ring one cell in from the edges of the board,
      corners included. */
  predicate OnRing(x: int, y: int) {
    1 <= x <= PlaygroundWidth - 2 && 1 <= y <= PlaygroundHeight - 2 &&
    (x == 1 || x == PlaygroundWidth - 2 || y == 1 || y == PlaygroundHeight - 2)
  }

  /** The part of the ring the first seeding loop has laid down once its
      rows 1 .. i - 1 are done: the left and right sides. */
  predicate SidesUpTo(x: int, y: int, i: int) {
    (x == 1 || x == PlaygroundWidth - 2) && 1 <= y < i
  }

  /** The part of the ring the second seeding loop has laid down once its
      columns 2 .. j - 1 are done: the top and bottom sides. */
  predicate TopAndBottomUpTo(x: int, y: int, j: int) {
    2 <= x < j && (y == 1 || y == PlaygroundHeight - 2)
  }

  /** Position u of a playground lists cell (u % width, u / width), for
      the renderer that walks the cells in order. */
  lemma IndexOrder(cells: seq<bool>)
    requires |cells| == PlaygroundWidth * PlaygroundHeight
    ensures forall u :: 0 <= u < |cells| ==>
      Life.Cell(cells, PlaygroundWidth, u % PlaygroundWidth, u / PlaygroundWidth) == Some(cells[u])
  {
    forall u | 0 <= u < |cells|
      ensures Life.Cell(cells, PlaygroundWidth, u % PlaygroundWidth, u / PlaygroundWidth) == Some(cells[u])
    {
      Life.CellAtIndex(cells, PlaygroundWidth, u);
    }
  }

  /** After seeding, cell (x, y) of the board is alive exactly on the ring. */
  lemma SeededCell(cells: seq<bool>, x: int, y: int)
    requires |cells| == PlaygroundWidth * PlaygroundHeight
    requires forall u :: 0 <= u < |cells| ==> cells[u] == OnRing(u % PlaygroundWidth, u / PlaygroundWidth)
    requires 0 <= x < PlaygroundWidth && 0 <= y < PlaygroundHeight
    ensures Life.Cell(cells, PlaygroundWidth, x, y) == Some(OnRing(x, y))
  {
    var u := x + y * PlaygroundWidth;
    Life.IndexOfCoords(PlaygroundWidth, u, x, y);
    Life.CellAtIndex(cells, PlaygroundWidth, u);
  }

  /** Writing the cell at index x + y * width changes what index u of the
      board lists only when u is that index. */
  lemma SameCell(u: int, x: int, y: int)
    requires 0 <= x < PlaygroundWidth
    ensures u == x + y * PlaygroundWidth <==>
            (u % PlaygroundWidth == x && u / PlaygroundWidth == y)
  {
    Life.IndexOfCoords(PlaygroundWidth, u, x, y);
  }

  class GameOfLife {
    var playground: array<bool>

    ghost predicate Valid()
      reads this
    {
      playground.Length == PlaygroundWidth * PlaygroundHeight
    }

    /** A board seeded with the ring: the first loop lays down the left and
        right sides, the second the top and bottom sides between them. */
    constructor ()
      ensures Valid() && fresh(playground)
      ensures forall u :: 0 <= u < playground.Length ==>
        playground[u] == OnRing(u % PlaygroundWidth, u / PlaygroundWidth)
    {
      var cells := new bool[PlaygroundWidth * PlaygroundHeight](_ => false);
      var i := 1;
      while i < PlaygroundHeight - 1
        invariant 1 <= i <= PlaygroundHeight - 1
        invariant forall u :: 0 <= u < cells.Length ==>
          cells[u] == SidesUpTo(u % PlaygroundWidth, u / PlaygroundWidth, i)
      {
        cells[1 + i * PlaygroundWidth] := true;
        cells[(PlaygroundWidth - 2) + i * PlaygroundWidth] := true;
        forall u | 0 <= u < cells.Length
          ensures cells[u] == SidesUpTo(u % PlaygroundWidth, u / PlaygroundWidth, i + 1)
        {
          SameCell(u, 1, i);
          SameCell(u, PlaygroundWidth - 2, i);
        }
        i := i + 1;
      }
      var j := 2;
      while j < PlaygroundWidth - 2
        invariant 2 <= j <= PlaygroundWidth - 2
        invariant forall u :: 0 <= u < cells.Length ==>
          cells[u] == (SidesUpTo(u % PlaygroundWidth, u / PlaygroundWidth, PlaygroundHeight - 1) ||
                       TopAndBottomUpTo(u % PlaygroundWidth, u / PlaygroundWidth, j))
      {
        cells[PlaygroundWidth + j] := true;
        cells[(PlaygroundHeight - 2) * PlaygroundWidth + j] := true;
        forall u | 0 <= u < cells.Length
          ensures cells[u] == (SidesUpTo(u % PlaygroundWidth, u / PlaygroundWidth, PlaygroundHeight - 1) ||
                               TopAndBottomUpTo(u % PlaygroundWidth, u / PlaygroundWidth, j + 1))
        {
          SameCell(u, j, 1);
          SameCell(u, j, PlaygroundHeight - 2);
        }
        j := j + 1;
      }
      playground := cells;
    }

    /** Some(alive) for a cell on the board, None for a negative position or
        one past the last column or row. */
    function Get(x: int, y: int): (r: Option<bool>)
      reads this, playground
      requires Valid()
      ensures r.None? <==> (x < 0 || y < 0 || x >= PlaygroundWidth || y >= PlaygroundHeight)
      ensures r == Life.Cell(playground[..], PlaygroundWidth, x, y)
    {
      if x >= 0 && y >= 0 && x < PlaygroundWidth && y < PlaygroundHeight then
        Life.IndexInRange(playground.Length, PlaygroundWidth, x, y);
        Some(playground[x + y * PlaygroundWidth])
      else
        None
    }

    /** The index of cell (x, y) in the array, or None off the board (the
        mutable reference of the source). */
    function GetMut(x: int, y: int): (r: Option<nat>)
      reads this
      requires Valid()
      ensures r.Some? <==> 0 <= x < PlaygroundWidth && 0 <= y < PlaygroundHeight
      ensures r.Some? ==> r.value == x + y * PlaygroundWidth && r.value < playground.Length
    {
      if x >= 0 && y >= 0 && x < PlaygroundWidth && y < PlaygroundHeight then
        Life.IndexInRange(playground.Length, PlaygroundWidth, x, y);
        Some(x + y * PlaygroundWidth)
      else
        None
    }

    /** Swaps cell (x, y) between alive and dead, in place; does nothing off
        the board. */
    method ToggleCell(x: int, y: int)
      requires Valid()
      modifies playground
      ensures playground[..] == Life.Toggle(old(playground[..]), PlaygroundWidth, x, y)
    {
      var square := GetMut(x, y);
      if square.Some? {
        playground[square.value] := !playground[square.value];
      }
    }

    /** One generation: the rule is applied to a copy of the array, reading
        only the old array, and the copy is then written back over it. */
    method Update()
      requires Valid()
      modifies playground
      ensures playground[..] == Life.Next(old(playground[..]), PlaygroundWidth)
    {
      ghost var cells := playground[..];
      var newPlayground := playground[..];
      var u := 0;
      while u < |newPlayground|
        invariant unchanged(playground) && playground[..] == cells
        invariant |newPlayground| == |cells| && 0 <= u <= |cells|
        invariant forall k :: 0 <= k < u ==> newPlayground[k] == Life.Next(cells, PlaygroundWidth)[k]
        invariant forall k :: u <= k < |cells| ==> newPlayground[k] == cells[k]
      {
        var x, y := u % PlaygroundWidth, u / PlaygroundWidth;
        var count := CountLiveNeighbours(x, y);
        var square := newPlayground[u];
        if count > 3 || count < 2 {
          square := false;
        } else if count == 3 {
          square := true;
        } else if count == 2 {
          square := square;
        }
        Life.NextAt(cells, PlaygroundWidth, u, x, y);
        newPlayground := newPlayground[u := square];
        u := u + 1;
      }
      forall k | 0 <= k < playground.Length {
        playground[k] := newPlayground[k];
      }
    }

    /** The neighbour count of one pass of `update`, over the column offsets
        -1 .. 1; positions off the board answer None and do not count. */
    method CountLiveNeighbours(x: int, y: int) returns (count: nat)
      requires Valid()
      ensures count == Life.LiveNeighbours(playground[..], PlaygroundWidth, x, y)
    {
      ghost var cells := playground[..];
      count := 0;
      var i := -1;
      while i < 2
        invariant -1 <= i <= 2
        invariant count == Life.BoxSum(cells, PlaygroundWidth, x, y, -1, i, -1, 2)
      {
        var column := CountColumn(x, y, i);
        Life.BoxSumStep(cells, PlaygroundWidth, x, y, -1, i, -1, 2);
        count := count + column;
        i := i + 1;
      }
    }

    /** The inner loop of the neighbour count: the live cells at row offsets
        -1 .. 1 of column offset i, leaving out the cell itself. */
    method CountColumn(x: int, y: int, i: int) returns (count: nat)
      requires Valid()
      ensures count == Life.RowSum(playground[..], PlaygroundWidth, x, y, i, -1, 2)
    {
      ghost var cells := playground[..];
      count := 0;
      var j := -1;
      while j < 2
        invariant -1 <= j <= 2
        invariant count == Life.RowSum(cells, PlaygroundWidth, x, y, i, -1, j)
      {
        if !(i == 0 && j == 0) {
          var peekX := x + i;
          var peekY := y + j;
          if Get(peekX, peekY) == Some(true) {
            count := count + 1;
          }
        }
        Life.RowSumStep(cells, PlaygroundWidth, x, y, i, -1, j);
        j := j + 1;
      }
    }

    /** The cells in array order, as the renderer walks them: element u is
        cell (u % width, u / width). */
    function Cells(): (s: seq<bool>)
      reads this, playground
      requires Valid()
      ensures |s| == PlaygroundWidth * PlaygroundHeight
      ensures forall u :: 0 <= u < |s| ==> Get(u % PlaygroundWidth, u / PlaygroundWidth) == Some(s[u])
    {
      IndexOrder(playground[..]);
      playground[..]
    }
  }
}
