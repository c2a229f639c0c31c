/**
 * The Game of Life engine as values: a board is a row-major sequence of
 * cells, `w` cells to a row, so that cell (x, y) is stored at index
 * x + y * w and the board has |cells| / w rows. The board is bounded: there
 * is no wraparound, and a neighbour position off the board counts as dead.
 *
 * Every grid implementation in this project (all but the deliberately
 * broken `BrokenGame`) is proved equal to these definitions.
 */
module Life {
  import opened Wrappers

  /** A board whose rows are all complete, as every constructor makes one. */
  predicate Shaped(cells: seq<bool>, w: int) {
    w > 0 && |cells| % w == 0
  }

  /** (x, y) names a cell of the board. The `&&` short-circuits, so a board
      of width 0 has no cell and nothing is divided by 0. */
  predicate InBounds(cells: seq<bool>, w: int, x: int, y: int) {
    0 <= x < w && 0 <= y < |cells| / w
  }

  /** The liveness of cell (x, y), or None when (x, y) is off the board. */
  function Cell(cells: seq<bool>, w: int, x: int, y: int): Option<bool> {
    if InBounds(cells, w, x, y) then
      IndexInRange(|cells|, w, x, y);
      Some(cells[x + y * w])
    else
      None
  }

  /** 1 for a live cell, 0 for a dead cell or a position off the board. */
  function Alive(cells: seq<bool>, w: int, x: int, y: int): nat {
    if Cell(cells, w, x, y) == Some(true) then 1 else 0
  }

  /** The number of live cells among the (up to) eight Moore neighbours of
      (x, y), the positions at column and row offsets -1 .. 1 other than
      (0, 0); see NeighbourTerms for the eight terms written out. */
  function LiveNeighbours(cells: seq<bool>, w: int, x: int, y: int): nat {
    BoxSum(cells, w, x, y, -1, 2, -1, 2)
  }

  /** The B3/S23 rule: a cell with exactly three live neighbours is alive in
      the next generation, and a live cell with exactly two stays alive. */
  predicate Rule(alive: bool, count: nat) {
    count == 3 || (alive && count == 2)
  }

  /** The next generation: every cell of `cells` ruled on its neighbours in
      `cells`, so that no cell sees another cell's new value. */
  function Next(cells: seq<bool>, w: int): seq<bool>
    requires w > 0
  {
    seq(|cells|, u requires 0 <= u < |cells| => Rule(cells[u], LiveNeighbours(cells, w, u % w, u / w)))
  }

  /** The board with cell (x, y) swapped between alive and dead; the board
      itself when (x, y) is off it. */
  function Toggle(cells: seq<bool>, w: int, x: int, y: int): (r: seq<bool>)
    ensures |r| == |cells|
  {
    if InBounds(cells, w, x, y) then
      IndexInRange(|cells|, w, x, y);
      cells[x + y * w := !cells[x + y * w]]
    else
      cells
  }

  predicate AllDead(cells: seq<bool>) {
    forall u :: 0 <= u < |cells| ==> !cells[u]
  }

  // ---------------------------------------------------------------------
  // Row-major addressing

  lemma MulMonotone(a: int, b: int, c: int)
    requires a <= b && 0 <= c
    ensures a * c <= b * c
  {
    assert b * c - a * c == (b - a) * c;
  }

  /** An in-bounds position addresses a stored cell. */
  lemma IndexInRange(n: int, w: int, x: int, y: int)
    requires 0 <= x < w && 0 <= y < n / w
    ensures 0 <= x + y * w < n
  {
    MulMonotone(0, y, w);
    MulMonotone(y + 1, n / w, w);
  }

  /** The mapping (x, y) |-> x + y * w is inverted by (u % w, u / w). */
  lemma IndexOfCoords(w: int, u: int, x: int, y: int)
    requires w > 0 && 0 <= x < w
    ensures u == x + y * w <==> (u % w == x && u / w == y)
  {
    if u == x + y * w {
      var q, r := u / w, u % w;
      assert q * w + r == y * w + x;
      if q > y {
        MulMonotone(y + 1, q, w);
      } else if q < y {
        MulMonotone(q + 1, y, w);
      }
    }
  }

  /** Element u of a shaped board is cell (u % w, u / w). */
  lemma CellAtIndex(cells: seq<bool>, w: int, u: int)
    requires Shaped(cells, w) && 0 <= u < |cells|
    ensures InBounds(cells, w, u % w, u / w)
    ensures Cell(cells, w, u % w, u / w) == Some(cells[u])
  {
    var n := |cells|;
    if u / w >= n / w {
      MulMonotone(n / w, u / w, w);
    }
  }

  /** Cell (0, 0), the top-left cell, is element 0. */
  lemma OriginIsFirstCell(cells: seq<bool>, w: int)
    requires Shaped(cells, w) && |cells| > 0
    ensures Cell(cells, w, 0, 0) == Some(cells[0])
  {
    CellAtIndex(cells, w, 0);
  }

  /** Toggling (x, y) swaps the answer at (x, y), when that is a cell, and at
      no other position. */
  lemma CellOfToggle(cells: seq<bool>, w: int, x: int, y: int, i: int, j: int)
    ensures Cell(Toggle(cells, w, x, y), w, i, j) ==
            if InBounds(cells, w, x, y) && i == x && j == y then Some(!Cell(cells, w, i, j).value)
            else Cell(cells, w, i, j)
  {
    var toggled := Toggle(cells, w, x, y);
    assert |toggled| == |cells|;
    if !InBounds(cells, w, x, y) {
      assert toggled == cells;
    } else if !InBounds(cells, w, i, j) {
      assert !InBounds(toggled, w, i, j);
    } else {
      IndexInRange(|cells|, w, i, j);
      IndexInRange(|cells|, w, x, y);
      var k, m := x + y * w, i + j * w;
      assert toggled == cells[k := !cells[k]];
      assert Cell(toggled, w, i, j) == Some(toggled[m]);
      assert Cell(cells, w, i, j) == Some(cells[m]);
      if i == x && j == y {
        assert m == k;
      } else {
        IndexOfCoords(w, k, x, y);
        IndexOfCoords(w, k, i, j);
        assert m != k;
      }
    }
  }

  /** Element k of the next generation is the rule applied to element k
      and the live neighbours of the cell it stores. */
  lemma NextAt(cells: seq<bool>, w: int, k: int, x: int, y: int)
    requires w > 0 && 0 <= k < |cells| && k % w == x && k / w == y
    ensures |Next(cells, w)| == |cells|
    ensures Next(cells, w)[k] == Rule(cells[k], LiveNeighbours(cells, w, x, y))
  {
  }

  /** On the board, the next generation holds the rule applied to the cell
      and its live neighbours in the current one. */
  lemma CellOfNext(cells: seq<bool>, w: int, x: int, y: int)
    requires w > 0 && InBounds(cells, w, x, y)
    ensures Cell(Next(cells, w), w, x, y) ==
            Some(Rule(Cell(cells, w, x, y) == Some(true), LiveNeighbours(cells, w, x, y)))
  {
    var k := StoredAt(cells, w, x, y);
    NextAt(cells, w, k, x, y);
    var _ := StoredAt(Next(cells, w), w, x, y);
  }

  /** Where an in-bounds cell is stored, and that storing it there is
      undone by (k % w, k / w). */
  lemma StoredAt(cells: seq<bool>, w: int, x: int, y: int) returns (k: int)
    requires InBounds(cells, w, x, y)
    ensures k == x + y * w && 0 <= k < |cells|
    ensures k % w == x && k / w == y
    ensures Cell(cells, w, x, y) == Some(cells[k])
  {
    IndexInRange(|cells|, w, x, y);
    k := x + y * w;
    IndexOfCoords(w, k, x, y);
  }

  // ---------------------------------------------------------------------
  // Partial neighbour counts, as the implementations' offset loops build them

  /** Live neighbours at column offset `di` and row offsets lo .. hi-1,
      leaving out offset (0, 0), the cell itself. */
  function RowSum(cells: seq<bool>, w: int, x: int, y: int, di: int, lo: int, hi: int): nat
    decreases hi - lo
  {
    if hi <= lo then 0
    else
      RowSum(cells, w, x, y, di, lo, hi - 1) +
      (if di == 0 && hi - 1 == 0 then 0 else Alive(cells, w, x + di, y + hi - 1))
  }

  /** Live neighbours at column offsets ilo .. ihi-1 and row offsets
      jlo .. jhi-1, leaving out the cell itself. */
  function BoxSum(cells: seq<bool>, w: int, x: int, y: int, ilo: int, ihi: int, jlo: int, jhi: int): nat
    decreases ihi - ilo
  {
    if ihi <= ilo then 0
    else BoxSum(cells, w, x, y, ilo, ihi - 1, jlo, jhi) + RowSum(cells, w, x, y, ihi - 1, jlo, jhi)
  }

  /** One more row offset. */
  lemma RowSumStep(cells: seq<bool>, w: int, x: int, y: int, di: int, lo: int, hi: int)
    requires lo <= hi
    ensures RowSum(cells, w, x, y, di, lo, hi + 1) ==
            RowSum(cells, w, x, y, di, lo, hi) + (if di == 0 && hi == 0 then 0 else Alive(cells, w, x + di, y + hi))
  {
  }

  /** One more column offset. */
  lemma BoxSumStep(cells: seq<bool>, w: int, x: int, y: int, ilo: int, ihi: int, jlo: int, jhi: int)
    requires ilo <= ihi
    ensures BoxSum(cells, w, x, y, ilo, ihi + 1, jlo, jhi) ==
            BoxSum(cells, w, x, y, ilo, ihi, jlo, jhi) + RowSum(cells, w, x, y, ihi, jlo, jhi)
  {
  }

  /** The terms of one column of offsets -1 .. 1. */
  lemma ColumnTerms(cells: seq<bool>, w: int, x: int, y: int, di: int)
    ensures RowSum(cells, w, x, y, di, -1, 2) ==
            Alive(cells, w, x + di, y - 1) +
            (if di == 0 then 0 else Alive(cells, w, x + di, y)) +
            Alive(cells, w, x + di, y + 1)
  {
    assert RowSum(cells, w, x, y, di, -1, -1) == 0;
    assert RowSum(cells, w, x, y, di, -1, 0) == Alive(cells, w, x + di, y - 1);
  }

  /** A column of offsets 0 .. 1 on the top row counts what -1 .. 1 counts:
      row y - 1 is off the board. */
  lemma ClippedColumn(cells: seq<bool>, w: int, x: int, y: int, di: int)
    requires 0 <= y
    ensures RowSum(cells, w, x, y, di, if y > 0 then -1 else 0, 2) ==
            RowSum(cells, w, x, y, di, -1, 2)
  {
    ColumnTerms(cells, w, x, y, di);
    assert RowSum(cells, w, x, y, di, 0, 0) == 0;
    assert RowSum(cells, w, x, y, di, 0, 1) == if di == 0 then 0 else Alive(cells, w, x + di, y);
    if y == 0 {
      assert Cell(cells, w, x + di, y - 1) == None;
    }
  }

  /** The eight neighbour terms, and their bound. */
  lemma NeighbourTerms(cells: seq<bool>, w: int, x: int, y: int)
    ensures LiveNeighbours(cells, w, x, y) ==
            Alive(cells, w, x - 1, y - 1) + Alive(cells, w, x, y - 1) + Alive(cells, w, x + 1, y - 1) +
            Alive(cells, w, x - 1, y)     +                             Alive(cells, w, x + 1, y) +
            Alive(cells, w, x - 1, y + 1) + Alive(cells, w, x, y + 1) + Alive(cells, w, x + 1, y + 1)
    ensures LiveNeighbours(cells, w, x, y) <= 8
  {
    ColumnTerms(cells, w, x, y, -1);
    ColumnTerms(cells, w, x, y, 0);
    ColumnTerms(cells, w, x, y, 1);
    assert BoxSum(cells, w, x, y, -1, -1, -1, 2) == 0;
    assert BoxSum(cells, w, x, y, -1, 0, -1, 2) == RowSum(cells, w, x, y, -1, -1, 2);
    assert BoxSum(cells, w, x, y, -1, 1, -1, 2) ==
           BoxSum(cells, w, x, y, -1, 0, -1, 2) + RowSum(cells, w, x, y, 0, -1, 2);
  }

  /** The offset loops of a tick count exactly the live Moore neighbours,
      also when they start at offset 0 instead of -1 on the top row or the
      left column: the offsets they leave out name positions off the board. */
  lemma {:induction false} ClippedBoxSum(cells: seq<bool>, w: int, x: int, y: int, ilo: int, jlo: int)
    requires 0 <= x && 0 <= y
    requires ilo == -1 || (ilo == 0 && x == 0)
    requires jlo == -1 || (jlo == 0 && y == 0)
    ensures BoxSum(cells, w, x, y, ilo, 2, jlo, 2) == LiveNeighbours(cells, w, x, y)
  {
    ClippedColumn(cells, w, x, y, -1);
    ClippedColumn(cells, w, x, y, 0);
    ClippedColumn(cells, w, x, y, 1);
    assert BoxSum(cells, w, x, y, -1, -1, -1, 2) == 0;
    assert BoxSum(cells, w, x, y, -1, 0, -1, 2) == RowSum(cells, w, x, y, -1, -1, 2);
    assert BoxSum(cells, w, x, y, ilo, ilo, jlo, 2) == 0;
    if ilo == -1 {
      assert BoxSum(cells, w, x, y, -1, 0, jlo, 2) == RowSum(cells, w, x, y, -1, jlo, 2);
    } else {
      assert Cell(cells, w, x - 1, y - 1) == None;
      assert Cell(cells, w, x - 1, y) == None;
      assert Cell(cells, w, x - 1, y + 1) == None;
    }
    assert BoxSum(cells, w, x, y, ilo, 1, jlo, 2) ==
           BoxSum(cells, w, x, y, ilo, 0, jlo, 2) + RowSum(cells, w, x, y, 0, jlo, 2);
  }

  // ---------------------------------------------------------------------
  // Properties of a generation step

  /** No spontaneous life: an all-dead board stays all dead. */
  lemma NextOfDeadIsDead(cells: seq<bool>, w: int)
    requires w > 0 && AllDead(cells)
    ensures AllDead(Next(cells, w))
  {
    forall u | 0 <= u < |cells|
      ensures !Next(cells, w)[u]
    {
      var x, y := u % w, u / w;
      forall i, j ensures Alive(cells, w, i, j) == 0 {
        if InBounds(cells, w, i, j) {
          IndexInRange(|cells|, w, i, j);
          assert !cells[i + j * w];
        }
      }
      NeighbourTerms(cells, w, x, y);
    }
  }

  /** Toggling the same position twice restores the board. */
  lemma ToggleTwice(cells: seq<bool>, w: int, x: int, y: int)
    ensures Toggle(Toggle(cells, w, x, y), w, x, y) == cells
  {
    var once := Toggle(cells, w, x, y);
    if InBounds(cells, w, x, y) {
      IndexInRange(|cells|, w, x, y);
      var k := x + y * w;
      assert once == cells[k := !cells[k]];
      assert InBounds(once, w, x, y);
      assert Toggle(once, w, x, y) == once[k := !once[k]];
      assert once[k := !once[k]] == cells;
    } else {
      assert once == cells;
    }
  }

  // ---------------------------------------------------------------------
  // Small patterns

  /** `cells` draws `p`: index u is alive exactly when p holds at the cell
      (u % w, u / w) it stores. */
  ghost predicate Draws(cells: seq<bool>, w: int, p: (int, int) -> bool) {
    w > 0 && forall u :: 0 <= u < |cells| ==> cells[u] == p(u % w, u / w)
  }

  /** 1 when (x, y) lies on the w-by-h board and `p` holds there. */
  function PatternAlive(p: (int, int) -> bool, w: int, h: int, x: int, y: int): nat {
    if 0 <= x < w && 0 <= y < h && p(x, y) then 1 else 0
  }

  /** The live Moore neighbours of (x, y) on the w-by-h board drawn by `p`. */
  function PatternNeighbours(p: (int, int) -> bool, w: int, h: int, x: int, y: int): nat {
    PatternAlive(p, w, h, x - 1, y - 1) + PatternAlive(p, w, h, x, y - 1) + PatternAlive(p, w, h, x + 1, y - 1) +
    PatternAlive(p, w, h, x - 1, y)     +                                   PatternAlive(p, w, h, x + 1, y) +
    PatternAlive(p, w, h, x - 1, y + 1) + PatternAlive(p, w, h, x, y + 1) + PatternAlive(p, w, h, x + 1, y + 1)
  }

  /** When `q` is the rule applied to `p` at every cell of the board, the
      next generation of a board drawing `p` draws `q`. */
  lemma NextOfPattern(cells: seq<bool>, w: int, p: (int, int) -> bool, q: (int, int) -> bool)
    requires Shaped(cells, w) && Draws(cells, w, p)
    requires forall x, y :: 0 <= x < w && 0 <= y < |cells| / w ==>
      q(x, y) == Rule(p(x, y), PatternNeighbours(p, w, |cells| / w, x, y))
    ensures |Next(cells, w)| == |cells| && Draws(Next(cells, w), w, q)
  {
    var h := |cells| / w;
    forall u | 0 <= u < |cells|
      ensures Next(cells, w)[u] == q(u % w, u / w)
    {
      var x, y := u % w, u / w;
      CellAtIndex(cells, w, u);
      NeighbourTerms(cells, w, x, y);
      forall i, j ensures Alive(cells, w, i, j) == PatternAlive(p, w, h, i, j) {
        if InBounds(cells, w, i, j) {
          var k := StoredAt(cells, w, i, j);
        }
      }
    }
  }

  /** The one live cell of a 3-by-3 board: its centre. */
  predicate LoneCellAt(x: int, y: int) {
    x == 1 && y == 1
  }

  /** The horizontal phase of the blinker on a 5-by-5 board: three live
      cells in a row through the centre. */
  predicate HorizontalBlinkerAt(x: int, y: int) {
    y == 2 && 1 <= x <= 3
  }

  /** The vertical phase of the blinker: three live cells in a column
      through the centre. */
  predicate VerticalBlinkerAt(x: int, y: int) {
    x == 2 && 1 <= y <= 3
  }

  /** An isolated cell has no live neighbour and dies; nothing is born. */
  lemma LoneCellDies(cells: seq<bool>)
    requires |cells| == 9 && Draws(cells, 3, LoneCellAt)
    ensures |Next(cells, 3)| == 9 && AllDead(Next(cells, 3))
  {
    NextOfPattern(cells, 3, LoneCellAt, (x, y) => false);
  }

  /** Every cell of the 2-by-2 block has three live neighbours, so the block
      is unchanged by a generation, and so by any number of them. */
  lemma BlockIsStill(cells: seq<bool>)
    requires |cells| == 4 && forall u :: 0 <= u < |cells| ==> cells[u]
    ensures Next(cells, 2) == cells
  {
    var all := (x, y) => true;
    NextOfPattern(cells, 2, all, all);
  }

  /** One generation turns the horizontal blinker into the vertical one
      centred on the same middle cell, and a second one turns it back. */
  lemma BlinkerTurns(cells: seq<bool>)
    requires |cells| == 25 && Draws(cells, 5, HorizontalBlinkerAt)
    ensures |Next(cells, 5)| == 25 && Draws(Next(cells, 5), 5, VerticalBlinkerAt)
    ensures Next(Next(cells, 5), 5) == cells
  {
    forall x, y | 0 <= x < 5 && 0 <= y < 5
      ensures VerticalBlinkerAt(x, y) == Rule(HorizontalBlinkerAt(x, y), PatternNeighbours(HorizontalBlinkerAt, 5, 5, x, y))
      ensures HorizontalBlinkerAt(x, y) == Rule(VerticalBlinkerAt(x, y), PatternNeighbours(VerticalBlinkerAt, 5, 5, x, y))
    {
      BlinkerCell(x, y);
    }
    NextOfPattern(cells, 5, HorizontalBlinkerAt, VerticalBlinkerAt);
    var next := Next(cells, 5);
    NextOfPattern(next, 5, VerticalBlinkerAt, HorizontalBlinkerAt);
    assert forall u :: 0 <= u < 25 ==> Next(next, 5)[u] == cells[u];
  }

  /** The rule at one cell of the blinker, in both phases. */
  lemma BlinkerCell(x: int, y: int)
    requires 0 <= x < 5 && 0 <= y < 5
    ensures VerticalBlinkerAt(x, y) == Rule(HorizontalBlinkerAt(x, y), PatternNeighbours(HorizontalBlinkerAt, 5, 5, x, y))
    ensures HorizontalBlinkerAt(x, y) == Rule(VerticalBlinkerAt(x, y), PatternNeighbours(VerticalBlinkerAt, 5, 5, x, y))
  {
  }

  /** The blinker is an oscillator of period 2: one generation changes it
      and two bring it back. */
  lemma BlinkerHasPeriodTwo(cells: seq<bool>)
    requires |cells| == 25 && Draws(cells, 5, HorizontalBlinkerAt)
    ensures Next(cells, 5) != cells
    ensures Next(Next(cells, 5), 5) == cells
  {
    BlinkerTurns(cells);
    assert cells[7] != Next(cells, 5)[7];
  }
}
