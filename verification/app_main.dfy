/**
 * The default pattern the application loads: a first pass toggles the top
 * and bottom sides of the ring one cell in from the edges, a second pass
 * the left and right sides, so the four corners are toggled twice.
 */
module AppMain {
  import opened Wrappers
  import Life
  import AppBoard

  const W: int := AppBoard.PlaygroundWidth
  const H: int := AppBoard.PlaygroundHeight

  /** The number of toggles the first pass, done for columns 1 .. xEnd - 1,
      has made at (i, j). */
  function RowPassToggles(i: int, j: int, xEnd: int): nat {
    if 1 <= i < xEnd then (if j == 1 then 1 else 0) + (if j == H - 2 then 1 else 0) else 0
  }

  /** The number of toggles the second pass, done for rows 1 .. yEnd - 1,
      has made at (i, j). */
  function ColumnPassToggles(i: int, j: int, yEnd: int): nat {
    if 1 <= j < yEnd then (if i == 1 then 1 else 0) + (if i == W - 2 then 1 else 0) else 0
  }

  /** The number of toggles the whole pattern makes at (i, j). */
  function TogglesAt(i: int, j: int): nat {
    RowPassToggles(i, j, W - 1) + ColumnPassToggles(i, j, H - 1)
  }

  /** A cell toggled n times: negated when n is odd. */
  function ToggledTimes(v: Option<bool>, n: nat): Option<bool> {
    if n % 2 == 1 && v.Some? then Some(!v.value) else v
  }

  /** `cells` is `start` after the first pass up to column xEnd and the
      second pass up to row yEnd: each cell is toggled as often as those
      passes reached it. */
  ghost predicate ToggledSoFar(start: seq<bool>, cells: seq<bool>, xEnd: int, yEnd: int) {
    |cells| == |start| &&
    forall i, j :: Life.Cell(cells, W, i, j) ==
      ToggledTimes(Life.Cell(start, W, i, j), RowPassToggles(i, j, xEnd) + ColumnPassToggles(i, j, yEnd))
  }

  predicate IsCorner(i: int, j: int) {
    (i == 1 || i == W - 2) && (j == 1 || j == H - 2)
  }

  /** One step of the first pass: toggling (x, 1) and (x, H - 2). */
  lemma RowPassStep(start: seq<bool>, before: seq<bool>, x: int)
    requires |start| == W * H && 1 <= x <= W - 2
    requires ToggledSoFar(start, before, x, 1)
    ensures ToggledSoFar(start, Life.Toggle(Life.Toggle(before, W, x, 1), W, x, H - 2), x + 1, 1)
  {
    var middle := Life.Toggle(before, W, x, 1);
    var after := Life.Toggle(middle, W, x, H - 2);
    forall i, j
      ensures Life.Cell(after, W, i, j) ==
        ToggledTimes(Life.Cell(start, W, i, j), RowPassToggles(i, j, x + 1) + ColumnPassToggles(i, j, 1))
    {
      Life.CellOfToggle(before, W, x, 1, i, j);
      Life.CellOfToggle(middle, W, x, H - 2, i, j);
    }
  }

  /** One step of the second pass: toggling (1, y) and (W - 2, y). */
  lemma ColumnPassStep(start: seq<bool>, before: seq<bool>, y: int)
    requires |start| == W * H && 1 <= y <= H - 2
    requires ToggledSoFar(start, before, W - 1, y)
    ensures ToggledSoFar(start, Life.Toggle(Life.Toggle(before, W, 1, y), W, W - 2, y), W - 1, y + 1)
  {
    var middle := Life.Toggle(before, W, 1, y);
    var after := Life.Toggle(middle, W, W - 2, y);
    forall i, j
      ensures Life.Cell(after, W, i, j) ==
        ToggledTimes(Life.Cell(start, W, i, j), RowPassToggles(i, j, W - 1) + ColumnPassToggles(i, j, y + 1))
    {
      Life.CellOfToggle(before, W, 1, y, i, j);
      Life.CellOfToggle(middle, W, W - 2, y, i, j);
    }
  }

  /** Toggles the ring one cell in from the edges, top and bottom first,
      then left and right. */
  method ApplyDefaultPattern(game: AppBoard.GameOfLife)
    requires game.Valid()
    modifies game.playground
    ensures ToggledSoFar(old(game.playground[..]), game.playground[..], W - 1, H - 1)
  {
    ghost var start := game.playground[..];
    var x := 1;
    while x < W - 1
      invariant 1 <= x <= W - 1
      invariant ToggledSoFar(start, game.playground[..], x, 1)
    {
      ghost var before := game.playground[..];
      assert AppBoard.OnRing(x, 1) && AppBoard.OnRing(x, H - 2);
      game.ToggleCell(x, 1);
      game.ToggleCell(x, H - 2);
      RowPassStep(start, before, x);
      x := x + 1;
    }
    var y := 1;
    while y < H - 1
      invariant 1 <= y <= H - 1
      invariant ToggledSoFar(start, game.playground[..], W - 1, y)
    {
      ghost var before := game.playground[..];
      assert AppBoard.OnRing(1, y) && AppBoard.OnRing(W - 2, y);
      game.ToggleCell(1, y);
      game.ToggleCell(W - 2, y);
      ColumnPassStep(start, before, y);
      y := y + 1;
    }
  }

  /** Every toggle lands on the ring, and so on the 49-by-40 board. */
  lemma TogglesStayOnRing(i: int, j: int)
    ensures TogglesAt(i, j) > 0 <==> AppBoard.OnRing(i, j)
    ensures TogglesAt(i, j) > 0 ==> 0 <= i < W && 0 <= j < H
  {
  }

  /** The four corners are toggled twice and keep their value; every other
      ring cell is toggled once and ends negated. */
  lemma CornersToggledTwice(i: int, j: int)
    requires AppBoard.OnRing(i, j)
    ensures IsCorner(i, j) ==> TogglesAt(i, j) == 2
    ensures !IsCorner(i, j) ==> TogglesAt(i, j) == 1
  {
  }

  /** From an all-dead board the pattern leaves alive exactly the ring
      without its four corners. */
  lemma PatternOnDeadBoard(start: seq<bool>, cells: seq<bool>, i: int, j: int)
    requires |start| == W * H && Life.AllDead(start)
    requires ToggledSoFar(start, cells, W - 1, H - 1)
    requires 0 <= i < W && 0 <= j < H
    ensures Life.Cell(cells, W, i, j) == Some(AppBoard.OnRing(i, j) && !IsCorner(i, j))
  {
    var k := Life.StoredAt(start, W, i, j);
    assert !start[k];
    TogglesStayOnRing(i, j);
    if AppBoard.OnRing(i, j) {
      CornersToggledTwice(i, j);
    }
  }

  /** On the board as the application seeds it, whose ring includes the
      corners, the pattern leaves alive only the four corners. */
  lemma PatternOnSeededBoard(start: seq<bool>, cells: seq<bool>, i: int, j: int)
    requires |start| == W * H
    requires forall u :: 0 <= u < |start| ==> start[u] == AppBoard.OnRing(u % W, u / W)
    requires ToggledSoFar(start, cells, W - 1, H - 1)
    requires 0 <= i < W && 0 <= j < H
    ensures Life.Cell(cells, W, i, j) == Some(IsCorner(i, j))
  {
    AppBoard.SeededCell(start, i, j);
    TogglesStayOnRing(i, j);
    if AppBoard.OnRing(i, j) {
      CornersToggledTwice(i, j);
    }
  }
}
