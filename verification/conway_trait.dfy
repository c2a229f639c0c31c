/**
 * The `GameOfLife` interface of the conway crate: the contract a game
 * promises to the renderer, the pattern seeder and the driver loop. It is
 * stated over what a caller can observe, the answer of `is_cell_alive` at
 * every position, so that any implementation can be held against it: the
 * row-major grid (which obeys it) and `BrokenGame` (which does not).
 *
 * The crate's coordinates are `usize`, but a `View` answers at every pair
 * of integers, negative ones included. The contracts below therefore also
 * speak of positions no caller of the crate can name. For negative
 * positions, the grid's answer is None, as the contract asks.
 */
module ConwayTrait {
  import opened Wrappers
  import Life

  /** What `is_cell_alive` answers, position by position. */
  type View = (int, int) -> Option<bool>

  /** (x, y) lies on a board `w` cells wide and `h` cells high; (0, 0) is
      the top-left cell. */
  predicate OnBoard(w: int, h: int, x: int, y: int) {
    0 <= x < w && 0 <= y < h
  }

  function Negated(v: Option<bool>): Option<bool> {
    if v.Some? then Some(!v.value) else None
  }

  /** `is_cell_alive` answers Some(alive) on the board and None when x
      and/or y is out of bounds. */
  ghost predicate QueryObeys(w: int, h: int, view: View) {
    forall x, y :: view(x, y).None? <==> !OnBoard(w, h, x, y)
  }

  /** `toggle_cell(x, y)` swaps cell (x, y) between alive and dead and leaves
      every other cell as it was; out of bounds it does nothing. */
  ghost predicate ToggleObeys(w: int, h: int, x: int, y: int, before: View, after: View) {
    forall i, j ::
      after(i, j) == if OnBoard(w, h, x, y) && i == x && j == y then Negated(before(i, j)) else before(i, j)
  }

  /** 1 when the query reports a live cell, 0 otherwise. */
  function Live(v: Option<bool>): nat {
    if v == Some(true) then 1 else 0
  }

  /** The live neighbours of (x, y) as a caller counts them through the
      query: positions the query calls out of bounds do not count. */
  function ObservedNeighbours(view: View, x: int, y: int): nat {
    Live(view(x - 1, y - 1)) + Live(view(x, y - 1)) + Live(view(x + 1, y - 1)) +
    Live(view(x - 1, y))     +                        Live(view(x + 1, y)) +
    Live(view(x - 1, y + 1)) + Live(view(x, y + 1)) + Live(view(x + 1, y + 1))
  }

  /** `tick` executes one timestep: every cell of the board lives, is born or
      dies by its number of live neighbours in the previous generation. */
  ghost predicate TickObeys(w: int, h: int, before: View, after: View) {
    forall x, y :: OnBoard(w, h, x, y) ==>
      after(x, y) == Some(Life.Rule(before(x, y) == Some(true), ObservedNeighbours(before, x, y)))
  }

  /** What a caller observes of a row-major grid. */
  function GridView(cells: seq<bool>, w: int): View {
    (x, y) => Life.Cell(cells, w, x, y)
  }

  /** A grid answers the query as the contract demands: exactly the
      positions of its w-by-(|cells| / w) board are cells. */
  lemma GridObeysQuery(cells: seq<bool>, w: int)
    requires Life.Shaped(cells, w)
    ensures QueryObeys(w, |cells| / w, GridView(cells, w))
  {
  }

  /** Toggling a grid cell obeys the contract: the row-major mapping is
      injective, so no other position sees the change. */
  lemma GridObeysToggle(cells: seq<bool>, w: int, x: int, y: int)
    requires Life.Shaped(cells, w)
    ensures ToggleObeys(w, |cells| / w, x, y, GridView(cells, w), GridView(Life.Toggle(cells, w, x, y), w))
  {
    forall i, j {
      Life.CellOfToggle(cells, w, x, y, i, j);
    }
  }

  /** A caller counts through the query what the grid counts in storage. */
  lemma ObservedGridNeighbours(cells: seq<bool>, w: int, x: int, y: int)
    ensures ObservedNeighbours(GridView(cells, w), x, y) == Life.LiveNeighbours(cells, w, x, y)
  {
    Life.NeighbourTerms(cells, w, x, y);
  }

  /** A grid's next generation obeys the contract of `tick`: the count over
      storage is the count a caller observes. */
  lemma GridObeysTick(cells: seq<bool>, w: int)
    requires Life.Shaped(cells, w)
    ensures QueryObeys(w, |cells| / w, GridView(Life.Next(cells, w), w))
    ensures TickObeys(w, |cells| / w, GridView(cells, w), GridView(Life.Next(cells, w), w))
  {
    var h := |cells| / w;
    var next := Life.Next(cells, w);
    assert |next| == |cells|;
    forall x, y | OnBoard(w, h, x, y)
      ensures GridView(next, w)(x, y) ==
              Some(Life.Rule(GridView(cells, w)(x, y) == Some(true), ObservedNeighbours(GridView(cells, w), x, y)))
    {
      Life.CellOfNext(cells, w, x, y);
      ObservedGridNeighbours(cells, w, x, y);
    }
  }
}
