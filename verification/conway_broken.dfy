/**
 * The deliberately wrong implementation of the conway crate: a single
 * boolean stands for the whole board, every query reads it and every
 * toggle and tick flips it, whatever the coordinates.
 */
module ConwayBroken {
  import opened Wrappers
  import Life
  import ConwayTrait

  /** The size the broken game reports, whatever it was asked for. */
  const ReportedWidth: nat := 49
  const ReportedHeight: nat := 40

  /** What a caller observes of a broken game whose one cell is `state`. */
  function BrokenView(state: bool): ConwayTrait.View {
    (x, y) => Some(state)
  }

  class BrokenGame {
    var cellState: bool

    /** Panics unless both dimensions are positive; the dimensions are then
        dropped and the one cell starts alive. */
    constructor (gameWidth: nat, gameHeight: nat)
      requires gameWidth > 0 && gameHeight > 0
      ensures cellState
      ensures Width() == ReportedWidth && Height() == ReportedHeight
    {
      cellState := true;
    }

    /** The same answer at every position, on the board or off it. */
    function IsCellAlive(x: nat, y: nat): (r: Option<bool>)
      reads this
      ensures r.Some?
      ensures r == BrokenView(cellState)(x, y)
    {
      Some(cellState)
    }

    /** Flips the one cell, whichever cell was named. */
    method ToggleCell(x: nat, y: nat)
      modifies this
      ensures cellState == !old(cellState)
    {
      cellState := !cellState;
    }

    /** Toggles the arbitrary cell (42, 42) instead of applying the rule. */
    method Tick()
      modifies this
      ensures cellState == !old(cellState)
    {
      ToggleCell(42, 42);
    }

    /** Always 49 columns, whatever width was asked for. */
    function Width(): (w: nat)
      ensures w == 49
    {
      ReportedWidth
    }

    /** Always 40 rows, whatever height was asked for. */
    function Height(): (h: nat)
      ensures h == 40
    {
      ReportedHeight
    }
  }

  /** The broken game answers off the board, and a toggle of (1, 1) is seen
      at (0, 0): it breaks both the query and the toggle contract. */
  lemma BrokenGameBreaksContract(state: bool)
    ensures !ConwayTrait.QueryObeys(ReportedWidth, ReportedHeight, BrokenView(state))
    ensures !ConwayTrait.ToggleObeys(ReportedWidth, ReportedHeight, 1, 1, BrokenView(state), BrokenView(!state))
  {
    assert BrokenView(state)(ReportedWidth, 0).Some? && !ConwayTrait.OnBoard(ReportedWidth, ReportedHeight, ReportedWidth, 0);
    assert BrokenView(!state)(0, 0) != BrokenView(state)(0, 0);
  }

  /** From one dead cell, the broken tick gives birth everywhere although no
      cell has a live neighbour: it breaks the tick contract. */
  lemma BrokenTickBreaksContract()
    ensures !ConwayTrait.TickObeys(ReportedWidth, ReportedHeight, BrokenView(false), BrokenView(true))
  {
    assert ConwayTrait.ObservedNeighbours(BrokenView(false), 0, 0) == 0;
    assert !Life.Rule(false, 0);
  }

  /** The crate's own test: toggling (1, 1) changes what (0, 0) reports. */
  method BrokenGameIsDefinitelyBroken() returns (origVal: Option<bool>, newVal: Option<bool>)
    ensures origVal == Some(true) && newVal == Some(false)
    ensures origVal != newVal
  {
    var game := new BrokenGame(10, 10);
    origVal := game.IsCellAlive(0, 0);
    game.ToggleCell(1, 1);
    newVal := game.IsCellAlive(0, 0);
  }
}
