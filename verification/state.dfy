/** The values the grid is made of: a cell, an optional cell, and a whole
    generation (the dimensions together with the flat cell storage). */
module GridState {
  import opened Layout

  /** A cell is either empty or alive; it carries no payload. */
  datatype Cell = Empty | Alive

  /** The absent-value result of an out-of-range read. */
  datatype Option<T> = None | Some(value: T)

  /** One generation of the grid: its fixed dimensions and its cells in
      storage order (see Layout.Index). */
  datatype Generation = Generation(width: nat, height: nat, depth: nat, cells: seq<Cell>)
  {
    /** The storage holds exactly one cell per coordinate. */
    predicate Valid()
    {
      |cells| == width * height * depth
    }

    /** The cell stored for an in-bounds coordinate. */
    function CellAt(x: int, y: int, z: int): Cell
      requires Valid() && InBounds(width, height, depth, x, y, z)
    {
      IndexInRange(width, height, depth, x, y, z);
      cells[Index(width, height, x, y, z)]
    }

    /** The coordinate is inside the grid and its cell is alive; any
        coordinate outside the grid is never alive (no wrap-around). */
    predicate AliveAt(x: int, y: int, z: int)
      requires Valid()
    {
      InBounds(width, height, depth, x, y, z) && CellAt(x, y, z) == Alive
    }
  }

  /** Every cell of the storage is empty. */
  predicate AllEmpty(cells: seq<Cell>)
  {
    forall i :: 0 <= i < |cells| ==> cells[i] == Empty
  }
}
